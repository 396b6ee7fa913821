/**
 * `question_2`: the `mjtheme` column is copied into a list, flattened cell by
 * cell, counted with a Counter, and the ten most common themes are returned
 * as a two-column frame named `theme` and `occurance`.
 *
 * A cell is flattened by walking through it with the loop variable
 * `subitem`. A cell that cannot be walked through raises `TypeError`; the
 * handler appends `subitem`, which still holds the last element of the last
 * non-empty cell walked before, or raises when no cell has bound it yet.
 */
module Themes {
  import opened Wrappers
  import opened Counting

  /** A cell of the `mjtheme` column: a list (or other iterable) of entries, or a value `for` cannot walk through (NaN, a number). */
  datatype Cell<V> = Iterable(items: seq<V>) | NonIterable(value: V)

  /** `UnboundLocalError`: the `except TypeError` branch reads `subitem` before any loop has bound it. */
  datatype ThemeError = UnboundSubitem

  /** The loop state after some cells: `flat_list` and the loop variable `subitem`. */
  datatype Scan<V> = Scan(flat: seq<V>, subitem: Option<V>)

  /** The two-column result of the theme query. */
  datatype Frame<V> = Frame(columns: seq<string>, rows: seq<(V, nat)>)

  const ThemeColumns: seq<string> := ["theme", "occurance"]

  // ---------------------------------------------------------------------
  // The loop as written

  /** One iteration of the outer loop. */
  function StepCell<V>(s: Scan<V>, c: Cell<V>): Result<Scan<V>, ThemeError>
  {
    match c
    case Iterable(items) =>
      Ok(Scan(s.flat + items, if items == [] then s.subitem else Some(items[|items| - 1])))
    case NonIterable(_) =>
      if s.subitem.None? then Err(UnboundSubitem)
      else Ok(Scan(s.flat + [s.subitem.value], s.subitem))
  }

  /** The outer loop over `cells`, starting with an empty list and `subitem` unbound. */
  function ScanCells<V>(cells: seq<Cell<V>>): Result<Scan<V>, ThemeError>
  {
    if cells == [] then Ok(Scan([], None))
    else
      match ScanCells(cells[..|cells| - 1])
      case Err(e) => Err(e)
      case Ok(s) => StepCell(s, cells[|cells| - 1])
  }

  /** `flat_list` at the end of the loop, or the error that ended it. */
  function FlatList<V>(cells: seq<Cell<V>>): Result<seq<V>, ThemeError>
  {
    match ScanCells(cells)
    case Ok(s) => Ok(s.flat)
    case Err(e) => Err(e)
  }

  // ---------------------------------------------------------------------
  // The same loop described without its state

  /** The entries of the iterable cells, in column order. */
  function IterItems<V>(cells: seq<Cell<V>>): seq<V>
  {
    if cells == [] then []
    else IterItems(cells[..|cells| - 1]) + Own(cells[|cells| - 1])
  }

  /** What walking through one cell yields before any error. */
  function Own<V>(c: Cell<V>): seq<V>
  {
    match c
    case Iterable(items) => items
    case NonIterable(_) => []
  }

  function LastOf<V>(xs: seq<V>): Option<V>
  {
    if xs == [] then None else Some(xs[|xs| - 1])
  }

  function NonIterableCount<V>(cells: seq<Cell<V>>): nat
  {
    if cells == [] then 0
    else NonIterableCount(cells[..|cells| - 1]) + (if cells[|cells| - 1].NonIterable? then 1 else 0)
  }

  /** Every non-iterable cell comes after some entry of an iterable cell. */
  predicate SubitemBoundAtEachFallback<V>(cells: seq<Cell<V>>)
  {
    forall i :: 0 <= i < |cells| && cells[i].NonIterable? ==> IterItems(cells[..i]) != []
  }

  /**
   * The flattened list as the column order dictates: an iterable cell
   * contributes its entries, a non-iterable cell the last entry of the
   * iterable cells before it.
   */
  function Expected<V>(cells: seq<Cell<V>>): seq<V>
  {
    if cells == [] then []
    else
      var p := cells[..|cells| - 1];
      Expected(p) + match cells[|cells| - 1]
        case Iterable(items) => items
        case NonIterable(_) => match LastOf(IterItems(p)) case Some(v) => [v] case None => []
  }

  /**
   * The loop fails exactly when a non-iterable cell comes before any entry
   * has been walked; otherwise `flat_list` is `Expected(cells)` and
   * `subitem` is the last entry walked.
   */
  lemma {:induction false} ScanCellsSpec<V>(cells: seq<Cell<V>>)
    ensures ScanCells(cells).Ok? <==> SubitemBoundAtEachFallback(cells)
    ensures ScanCells(cells).Ok? ==>
      ScanCells(cells).value == Scan(Expected(cells), LastOf(IterItems(cells)))
  {
    if cells != [] {
      var p, c := cells[..|cells| - 1], cells[|cells| - 1];
      ScanCellsSpec(p);
      BoundAfterLastCell(cells);
      if ScanCells(p).Ok? {
        StepMatchesExpected(p, c, ScanCells(p).value);
        assert p + [c] == cells;
      }
    }
  }

  /** The fallback condition holds of a column exactly when it holds of all but the last cell and the last cell is served. */
  lemma BoundAfterLastCell<V>(cells: seq<Cell<V>>)
    requires cells != []
    ensures SubitemBoundAtEachFallback(cells) <==>
      SubitemBoundAtEachFallback(cells[..|cells| - 1]) &&
      (cells[|cells| - 1].NonIterable? ==> IterItems(cells[..|cells| - 1]) != [])
  {
    var p := cells[..|cells| - 1];
    assert forall i :: 0 <= i < |p| ==> p[i] == cells[i] && p[..i] == cells[..i];
  }

  /** One step of the loop from the state `Expected` and `LastOf` describe. */
  lemma StepMatchesExpected<V>(p: seq<Cell<V>>, c: Cell<V>, s: Scan<V>)
    requires s == Scan(Expected(p), LastOf(IterItems(p)))
    ensures StepCell(s, c).Ok? <==> (c.NonIterable? ==> IterItems(p) != [])
    ensures StepCell(s, c).Ok? ==>
      StepCell(s, c).value == Scan(Expected(p + [c]), LastOf(IterItems(p + [c])))
  {
    var cells := p + [c];
    assert cells[..|cells| - 1] == p && cells[|cells| - 1] == c;
  }

  /** Once the loop has failed on a prefix, it fails on the whole column. */
  lemma {:induction false} ScanCellsErrSticky<V>(cells: seq<Cell<V>>, k: nat)
    requires k <= |cells| && ScanCells(cells[..k]).Err?
    ensures ScanCells(cells) == ScanCells(cells[..k])
    decreases |cells|
  {
    if k < |cells| {
      var p := cells[..|cells| - 1];
      assert p[..k] == cells[..k];
      ScanCellsErrSticky(p, k);
    } else {
      assert cells[..k] == cells;
    }
  }

  /** The flattened list has one entry per element of an iterable cell and one per non-iterable cell. */
  lemma {:induction false} ExpectedLength<V>(cells: seq<Cell<V>>)
    requires SubitemBoundAtEachFallback(cells)
    ensures |Expected(cells)| == |IterItems(cells)| + NonIterableCount(cells)
  {
    if cells != [] {
      var p := cells[..|cells| - 1];
      assert forall i :: 0 <= i < |p| ==> p[i] == cells[i] && p[..i] == cells[..i];
      assert cells[..|p|] == p;
      ExpectedLength(p);
    }
  }

  /** Without non-iterable cells, the list is the in-order concatenation of the cells. */
  lemma {:induction false} AllIterableConcatenates<V>(cells: seq<Cell<V>>)
    requires forall i :: 0 <= i < |cells| ==> cells[i].Iterable?
    ensures FlatList(cells).Ok? && FlatList(cells).value == IterItems(cells)
  {
    if cells != [] {
      var p := cells[..|cells| - 1];
      AllIterableConcatenates(p);
    }
  }

  /**
   * The fallback appends the stale `subitem`, not the cell's own value: an
   * empty list leaves `subitem` as it was, and a non-iterable cell repeats
   * the entry before it; a non-iterable first cell fails.
   */
  lemma StaleSubitemFallback<V>(a: V, b: V)
    ensures FlatList([Iterable([a]), Iterable([]), NonIterable(b)]).Ok?
    ensures FlatList([Iterable([a]), Iterable([]), NonIterable(b)]).value == [a, a]
    ensures FlatList([NonIterable(b)]).Err?
    ensures FlatList([Iterable([]), NonIterable(b)]).Err?
  {
    var c1: seq<Cell<V>> := [Iterable([a])];
    assert c1[..0] == [] && ScanCells(c1[..0]).value == Scan([], None);
    assert ScanCells(c1) == StepCell(Scan([], None), Iterable([a]));
    assert ScanCells(c1).Ok? && ScanCells(c1).value == Scan([a], Some(a));
    var c2 := c1 + [Iterable([])];
    assert c2[..1] == c1;
    assert ScanCells(c2) == StepCell(Scan([a], Some(a)), Iterable([]));
    assert ScanCells(c2).Ok? && ScanCells(c2).value == Scan([a], Some(a));
    var c3 := c2 + [NonIterable(b)];
    assert c3[..2] == c2;
    assert c3 == [Iterable([a]), Iterable([]), NonIterable(b)];
    assert ScanCells(c3) == StepCell(Scan([a], Some(a)), NonIterable(b));
    var d1: seq<Cell<V>> := [NonIterable(b)];
    assert d1[..0] == [];
    assert ScanCells(d1) == StepCell(Scan([], None), NonIterable(b));
    var e1: seq<Cell<V>> := [Iterable([])];
    assert e1[..0] == [];
    assert ScanCells(e1) == StepCell(Scan([], None), Iterable([]));
    var e2 := e1 + [NonIterable(b)];
    assert e2[..1] == e1;
    assert e2 == [Iterable([]), NonIterable(b)];
    assert ScanCells(e2) == StepCell(Scan([], None), NonIterable(b));
  }

  // ---------------------------------------------------------------------
  // The intended flattening

  /** Flattening as intended: a non-iterable cell contributes its own value. */
  function FlattenIntended<V>(cells: seq<Cell<V>>): seq<V>
  {
    if cells == [] then []
    else
      FlattenIntended(cells[..|cells| - 1]) + match cells[|cells| - 1]
        case Iterable(items) => items
        case NonIterable(v) => [v]
  }

  /** The values of the non-iterable cells, in column order. */
  function NonIterableValues<V>(cells: seq<Cell<V>>): seq<V>
  {
    if cells == [] then []
    else
      NonIterableValues(cells[..|cells| - 1]) + match cells[|cells| - 1]
        case Iterable(_) => []
        case NonIterable(v) => [v]
  }

  /**
   * The intended list holds exactly the entries of the iterable cells and the
   * values of the non-iterable ones.
   */
  lemma {:induction false} FlattenIntendedContents<V>(cells: seq<Cell<V>>)
    ensures multiset(FlattenIntended(cells)) == multiset(IterItems(cells)) + multiset(NonIterableValues(cells))
    ensures |FlattenIntended(cells)| == |IterItems(cells)| + NonIterableCount(cells)
  {
    if cells != [] {
      var p := cells[..|cells| - 1];
      FlattenIntendedContents(p);
    }
  }

  /** On columns without non-iterable cells, the loop as written already flattens as intended. */
  lemma {:induction false} FlattenIntendedAgrees<V>(cells: seq<Cell<V>>)
    requires forall i :: 0 <= i < |cells| ==> cells[i].Iterable?
    ensures FlatList(cells).Ok? && FlatList(cells).value == FlattenIntended(cells)
  {
    if cells != [] {
      var p := cells[..|cells| - 1];
      assert forall i :: 0 <= i < |p| ==> p[i] == cells[i];
      FlattenIntendedAgrees(p);
      AllIterableConcatenates(cells);
      AllIterableConcatenates(p);
    }
  }

  /** On the column that shows the defect, the intended list keeps the cell's own value. */
  lemma IntendedKeepsOwnValue<V>(a: V, b: V)
    ensures FlattenIntended([Iterable([a]), Iterable([]), NonIterable(b)]) == [a, b]
    ensures FlattenIntended([NonIterable(b)]) == [b]
  {
    var c1: seq<Cell<V>> := [Iterable([a])];
    assert c1[..0] == [];
    assert FlattenIntended(c1) == [a];
    var c2 := c1 + [Iterable([])];
    assert c2[..1] == c1;
    assert FlattenIntended(c2) == [a];
    var c3 := c2 + [NonIterable(b)];
    assert c3[..2] == c2;
    assert c3 == [Iterable([a]), Iterable([]), NonIterable(b)];
    var d1: seq<Cell<V>> := [NonIterable(b)];
    assert d1[..0] == [];
  }

  // ---------------------------------------------------------------------
  // question_2

  /**
   * The two loops of `question_2`: copy the column into `new_list`, then
   * walk every cell, appending its entries, or `subitem` when the cell is
   * not iterable.
   */
  method FlattenThemes<V>(mjtheme: seq<Cell<V>>) returns (r: Result<seq<V>, ThemeError>)
    ensures r == FlatList(mjtheme)
    ensures r.Err? <==> exists i :: 0 <= i < |mjtheme| && mjtheme[i].NonIterable? && IterItems(mjtheme[..i]) == []
    ensures r.Ok? ==> r.value == Expected(mjtheme)
  {
    FlatListSpec(mjtheme);
    r := WalkCells(mjtheme);
  }

  /** The loop of `question_2` itself: copy the column, then walk it cell by cell. */
  method WalkCells<V>(mjtheme: seq<Cell<V>>) returns (r: Result<seq<V>, ThemeError>)
    ensures r == FlatList(mjtheme)
  {
    var newList: seq<Cell<V>> := [];
    for i := 0 to |mjtheme|
      invariant newList == mjtheme[..i]
    {
      newList := newList + [mjtheme[i]];
    }
    assert newList == mjtheme;

    var flat: seq<V> := [];
    var subitem: Option<V> := None;
    for i := 0 to |newList|
      invariant ScanCells(newList[..i]) == Ok(Scan(flat, subitem))
    {
      assert newList[..i + 1][..i] == newList[..i];
      assert ScanCells(newList[..i + 1]) == StepCell(Scan(flat, subitem), newList[i]);
      match newList[i]
      case Iterable(items) =>
        flat, subitem := WalkItems(flat, subitem, items);
      case NonIterable(_) =>
        if subitem.None? {
          ScanCellsErrSticky(newList, i + 1);
          return Err(UnboundSubitem);
        }
        flat := flat + [subitem.value];
    }
    assert newList[..|newList|] == newList;
    r := Ok(flat);
  }

  /** The inner loop: each entry of an iterable cell is appended and becomes `subitem`. */
  method WalkItems<V>(flat0: seq<V>, subitem0: Option<V>, items: seq<V>) returns (flat: seq<V>, subitem: Option<V>)
    ensures StepCell(Scan(flat0, subitem0), Iterable(items)) == Ok(Scan(flat, subitem))
  {
    flat, subitem := flat0, subitem0;
    for j := 0 to |items|
      invariant flat == flat0 + items[..j]
      invariant subitem == if j == 0 then subitem0 else Some(items[j - 1])
    {
      subitem := Some(items[j]);
      flat := flat + [items[j]];
    }
    assert items[..|items|] == items;
  }

  /** What the flattened list is: an error exactly when a fallback finds no entry walked, else `Expected`. */
  lemma FlatListSpec<V>(cells: seq<Cell<V>>)
    ensures FlatList(cells).Err? <==> exists i :: 0 <= i < |cells| && cells[i].NonIterable? && IterItems(cells[..i]) == []
    ensures FlatList(cells).Ok? ==> FlatList(cells).value == Expected(cells)
  {
    ScanCellsSpec(cells);
  }

  /**
   * `question_2`: the ten most common entries of the flattened column with
   * their counts, in a frame with columns `theme` and `occurance`; fails
   * when the fallback reads an unbound `subitem`.
   */
  method QuestionTwo<V(==)>(mjtheme: seq<Cell<V>>) returns (r: Result<Frame<V>, ThemeError>)
    ensures r.Err? <==> exists i :: 0 <= i < |mjtheme| && mjtheme[i].NonIterable? && IterItems(mjtheme[..i]) == []
    ensures r.Ok? ==> r.value.columns == ["theme", "occurance"]
    ensures r.Ok? ==> r.value.rows == MostCommon(Expected(mjtheme), 10)
    ensures r.Ok? ==> |r.value.rows| <= 10 && NonIncreasing(r.value.rows) && DistinctKeys(r.value.rows)
    ensures r.Ok? ==> forall i :: 0 <= i < |r.value.rows| ==>
      r.value.rows[i].1 == Count(Expected(mjtheme), r.value.rows[i].0)
  {
    var flat := FlattenThemes(mjtheme);
    if flat.Err? {
      return Err(flat.error);
    }
    var top := MostCommon(flat.value, 10);
    MostCommonCounts(flat.value, 10);
    r := Ok(Frame(ThemeColumns, top));
  }
}
