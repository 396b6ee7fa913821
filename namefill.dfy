/**
 * `new_df`: the `mjtheme_namecode` pairs of all projects, flattened into one
 * table; empty names become missing, and each missing name takes the next
 * present name below it (`fillna(method='bfill')`).
 *
 * The `sort_values` call in `new_df` returns a sorted copy that is never
 * used, so the fill runs over the rows in flattening order. The fill over
 * the rows sorted by (code, name) is modelled beside it.
 */
module NameFill {
  import opened Wrappers
  import opened TextOrder

  /** One `{code, name}` pair of a project's `mjtheme_namecode` list. */
  datatype NameCode = NameCode(code: string, name: string)

  /** `json_normalize(data, record_path='mjtheme_namecode')`: every project's pairs, project by project. */
  function Normalize(projects: seq<seq<NameCode>>): seq<NameCode>
  {
    if projects == [] then []
    else Normalize(projects[..|projects| - 1]) + projects[|projects| - 1]
  }

  /** The `name` column: every name present, empty ones included. */
  function NameCells(rows: seq<NameCode>): (col: seq<Option<string>>)
  {
    seq(|rows|, i requires 0 <= i < |rows| => Some(rows[i].name))
  }

  /** `replace('', NaN)`: exactly the empty names become missing. */
  function MarkMissing(col: seq<Option<string>>): seq<Option<string>>
  {
    seq(|col|, i requires 0 <= i < |col| => if col[i] == Some("") then None else col[i])
  }

  /** `fillna(method='bfill')`: a missing entry takes the entry below it once that one is filled. */
  function BackFill<T>(col: seq<Option<T>>): (r: seq<Option<T>>)
    ensures |r| == |col|
  {
    if col == [] then []
    else
      var rest := BackFill(col[1..]);
      [if col[0].Some? || rest == [] then col[0] else rest[0]] + rest
  }

  /**
   * A back-filled entry is the first present entry at or below it: present
   * entries are kept, a missing entry takes the nearest present one below
   * it, and stays missing exactly when every entry from it down is missing.
   */
  lemma BackFillNearest<T>(col: seq<Option<T>>)
    ensures forall i :: 0 <= i < |col| && col[i].Some? ==> BackFill(col)[i] == col[i]
    ensures forall i, j :: 0 <= i <= j < |col| && col[j].Some? && (forall k :: i <= k < j ==> col[k].None?) ==>
      BackFill(col)[i] == col[j]
    ensures forall i :: 0 <= i < |col| ==>
      (BackFill(col)[i].None? <==> forall j :: i <= j < |col| ==> col[j].None?)
  {
    forall i | 0 <= i < |col| {
      BackFillAt(col, i);
    }
  }

  lemma {:induction false} BackFillAt<T>(col: seq<Option<T>>, i: nat)
    requires i < |col|
    ensures col[i].Some? ==> BackFill(col)[i] == col[i]
    ensures forall j :: i <= j < |col| && col[j].Some? && (forall k :: i <= k < j ==> col[k].None?) ==>
      BackFill(col)[i] == col[j]
    ensures BackFill(col)[i].None? <==> forall j :: i <= j < |col| ==> col[j].None?
  {
    var tail := col[1..];
    var rest := BackFill(tail);
    var r := BackFill(col);
    assert r == [if col[0].Some? || rest == [] then col[0] else rest[0]] + rest;
    assert forall k :: 1 <= k < |col| ==> col[k] == tail[k - 1];
    if i > 0 {
      BackFillAt(tail, i - 1);
      assert r[i] == rest[i - 1];
    } else if col[0].None? && |col| > 1 {
      BackFillAt(tail, 0);
      assert r[0] == rest[0];
    }
  }

  /** The name column `new_df` returns for flattened rows taken in the order given. */
  function FilledNames(rows: seq<NameCode>): seq<Option<string>>
  {
    BackFill(MarkMissing(NameCells(rows)))
  }

  /**
   * Non-empty names are kept; an empty name takes the first non-empty name at
   * or below it, and stays missing exactly when every name from it down is
   * empty.
   */
  lemma FilledNamesSpec(rows: seq<NameCode>)
    ensures |FilledNames(rows)| == |rows|
    ensures forall i :: 0 <= i < |rows| && rows[i].name != "" ==> FilledNames(rows)[i] == Some(rows[i].name)
    ensures forall i, j :: 0 <= i <= j < |rows| && rows[j].name != "" && (forall k :: i <= k < j ==> rows[k].name == "") ==>
      FilledNames(rows)[i] == Some(rows[j].name)
    ensures forall i :: 0 <= i < |rows| ==>
      (FilledNames(rows)[i].None? <==> forall j :: i <= j < |rows| ==> rows[j].name == "")
  {
    forall i | 0 <= i < |rows| {
      FilledNamesAt(rows, i);
    }
  }

  lemma FilledNamesAt(rows: seq<NameCode>, i: nat)
    requires i < |rows|
    ensures |FilledNames(rows)| == |rows|
    ensures rows[i].name != "" ==> FilledNames(rows)[i] == Some(rows[i].name)
    ensures forall j :: i <= j < |rows| && rows[j].name != "" && (forall k :: i <= k < j ==> rows[k].name == "") ==>
      FilledNames(rows)[i] == Some(rows[j].name)
    ensures FilledNames(rows)[i].None? <==> forall j :: i <= j < |rows| ==> rows[j].name == ""
  {
    var col := MarkMissing(NameCells(rows));
    MarkedNames(rows);
    BackFillAt(col, i);
  }

  /** After the replace, an entry is missing exactly when its name was empty, and holds the name otherwise. */
  lemma MarkedNames(rows: seq<NameCode>)
    ensures |MarkMissing(NameCells(rows))| == |rows|
    ensures forall k :: 0 <= k < |rows| ==>
      MarkMissing(NameCells(rows))[k] == if rows[k].name == "" then None else Some(rows[k].name)
  {
  }

  // ---------------------------------------------------------------------
  // new_df

  /** `df['name'].replace('', np.nan, inplace=True)`. */
  method ReplaceEmpty(name: array<Option<string>>)
    modifies name
    ensures name[..] == MarkMissing(old(name[..]))
  {
    for i := 0 to name.Length
      invariant forall k :: 0 <= k < i ==> name[k] == MarkMissing(old(name[..]))[k]
      invariant forall k :: i <= k < name.Length ==> name[k] == old(name[k])
    {
      if name[i] == Some("") {
        name[i] := None;
      }
    }
  }

  /** `fillna(method='bfill')` returns a new column, filled from the bottom up. */
  method BackFillColumn<T>(col: array<Option<T>>) returns (out: array<Option<T>>)
    ensures fresh(out)
    ensures out[..] == BackFill(col[..])
  {
    out := new Option<T>[col.Length](k reads col => if 0 <= k < col.Length then col[k] else None);
    var i := col.Length;
    while i > 0
      invariant 0 <= i <= col.Length == out.Length
      invariant out[..i] == col[..i]
      invariant out[i..] == BackFill(col[i..])
    {
      i := i - 1;
      assert col[i..][1..] == col[i + 1..];
      if out[i].None? && i + 1 < out.Length {
        out[i] := out[i + 1];
      }
      assert out[i..] == [out[i]] + out[i + 1..];
    }
    assert col[0..] == col[..];
  }

  /**
   * `new_df`: flatten the pairs, mark empty names missing, and back-fill.
   * The rows keep their flattening order, because the sorted copy is
   * discarded.
   */
  method NewDf(projects: seq<seq<NameCode>>) returns (filled: seq<Option<string>>)
    ensures filled == FilledNames(Normalize(projects))
    ensures |filled| == |Normalize(projects)|
    ensures forall i :: 0 <= i < |filled| && Normalize(projects)[i].name != "" ==>
      filled[i] == Some(Normalize(projects)[i].name)
    ensures forall i, j ::
      (0 <= i <= j < |filled| && Normalize(projects)[j].name != "" &&
       forall k :: i <= k < j ==> Normalize(projects)[k].name == "")
      ==> filled[i] == Some(Normalize(projects)[j].name)
    ensures forall i :: 0 <= i < |filled| ==>
      (filled[i].None? <==> forall j :: i <= j < |filled| ==> Normalize(projects)[j].name == "")
  {
    var rows := Normalize(projects);
    // df.sort_values(by=['code', 'name']) builds a sorted copy nobody keeps.
    var name := new Option<string>[|rows|](k => if 0 <= k < |rows| then Some(rows[k].name) else None);
    assert name[..] == NameCells(rows);
    ReplaceEmpty(name);
    var out := BackFillColumn(name);
    filled := out[..];
    FilledNamesSpec(rows);
  }

  // ---------------------------------------------------------------------
  // The fill over the sorted table

  /** The order of `sort_values(by=['code', 'name'])`: by code, then by name. */
  predicate RowLe(x: NameCode, y: NameCode)
  {
    if x.code == y.code then LexLe(x.name, y.name) else LexLe(x.code, y.code)
  }

  lemma RowLeTotal(x: NameCode, y: NameCode)
    ensures RowLe(x, y) || RowLe(y, x)
  {
    LexLeTotal(x.code, y.code);
    LexLeTotal(x.name, y.name);
  }

  lemma RowLeCode(x: NameCode, y: NameCode)
    requires RowLe(x, y)
    ensures LexLe(x.code, y.code)
  {
    if x.code == y.code {
      LexLeTotal(x.code, y.code);
    }
  }

  lemma RowLeTransitive(x: NameCode, y: NameCode, z: NameCode)
    requires RowLe(x, y) && RowLe(y, z)
    ensures RowLe(x, z)
  {
    RowLeCode(x, y);
    RowLeCode(y, z);
    LexLeTransitive(x.code, y.code, z.code);
    if x.code == z.code {
      LexLeAntisymmetric(x.code, y.code);
      LexLeTransitive(x.name, y.name, z.name);
    }
  }

  predicate SortedRows(s: seq<NameCode>)
  {
    forall i, j :: 0 <= i < j < |s| ==> RowLe(s[i], s[j])
  }

  function InsertRow(x: NameCode, s: seq<NameCode>): (r: seq<NameCode>)
    ensures |r| == |s| + 1
    ensures multiset(r) == multiset(s) + multiset{x}
    ensures SortedRows(s) ==> SortedRows(r)
  {
    if s == [] || RowLe(x, s[0]) then
      InsertRowFront(x, s);
      [x] + s
    else
      var rest := InsertRow(x, s[1..]);
      InsertRowBehind(x, s, rest);
      [s[0]] + rest
  }

  lemma InsertRowFront(x: NameCode, s: seq<NameCode>)
    requires s == [] || RowLe(x, s[0])
    ensures SortedRows(s) ==> SortedRows([x] + s)
  {
    if SortedRows(s) {
      var r := [x] + s;
      forall i, j | 0 <= i < j < |r|
        ensures RowLe(r[i], r[j])
      {
        assert r[j] == s[j - 1];
        if i > 0 {
          assert r[i] == s[i - 1];
        } else if j > 1 {
          RowLeTransitive(x, s[0], s[j - 1]);
        }
      }
    }
  }

  lemma InsertRowBehind(x: NameCode, s: seq<NameCode>, rest: seq<NameCode>)
    requires s != [] && !RowLe(x, s[0])
    requires multiset(rest) == multiset(s[1..]) + multiset{x}
    requires SortedRows(s[1..]) ==> SortedRows(rest)
    ensures multiset([s[0]] + rest) == multiset(s) + multiset{x}
    ensures SortedRows(s) ==> SortedRows([s[0]] + rest)
  {
    var tail := s[1..];
    assert s == [s[0]] + tail;
    if SortedRows(s) {
      RowLeTotal(x, s[0]);
      assert SortedRows(tail) by {
        forall i, j | 0 <= i < j < |tail|
          ensures RowLe(tail[i], tail[j])
        {
          assert tail[i] == s[i + 1] && tail[j] == s[j + 1];
        }
      }
      var r := [s[0]] + rest;
      forall i, j | 0 <= i < j < |r|
        ensures RowLe(r[i], r[j])
      {
        assert r[j] == rest[j - 1];
        if i > 0 {
          assert r[i] == rest[i - 1];
        } else {
          assert rest[j - 1] in multiset(rest);
          if rest[j - 1] != x {
            var k :| 0 <= k < |tail| && tail[k] == rest[j - 1];
            assert s[k + 1] == rest[j - 1];
          }
        }
      }
    }
  }

  /** The table sorted by (code, name). */
  function SortRows(rows: seq<NameCode>): (r: seq<NameCode>)
    ensures |r| == |rows|
    ensures multiset(r) == multiset(rows)
    ensures SortedRows(r)
  {
    if rows == [] then []
    else
      assert rows == [rows[0]] + rows[1..];
      InsertRow(rows[0], SortRows(rows[1..]))
  }

  /** The name column the fill would give over the sorted table. */
  function SortedFilledNames(rows: seq<NameCode>): seq<Option<string>>
  {
    FilledNames(SortRows(rows))
  }

  /** In a sorted table, rows of one code list their empty names first. */
  lemma EmptyNameFirstInCode(s: seq<NameCode>, i: nat, m: nat)
    requires SortedRows(s) && i < |s| && m < |s|
    requires s[i].name == "" && s[m].code == s[i].code && s[m].name != ""
    ensures i < m
  {
    EmptyFirst(s[m].name);
  }

  /** The first non-empty name at or after `i`, given one at `m`. */
  lemma {:induction false} FirstNamed(s: seq<NameCode>, i: nat, m: nat) returns (j: nat)
    requires i <= m < |s| && s[m].name != ""
    ensures i <= j <= m && s[j].name != ""
    ensures forall k :: i <= k < j ==> s[k].name == ""
    decreases m - i
  {
    if s[i].name != "" {
      j := i;
    } else {
      j := FirstNamed(s, i + 1, m);
    }
  }

  /**
   * Over the sorted table, an empty name whose code has a non-empty name
   * somewhere is filled with a non-empty name of that same code.
   */
  lemma SortedFillSameCode(s: seq<NameCode>, i: nat, m: nat) returns (j: nat)
    requires SortedRows(s) && i < |s| && m < |s|
    requires s[i].name == "" && s[m].code == s[i].code && s[m].name != ""
    ensures j < |s| && s[j].code == s[i].code && s[j].name != ""
    ensures FilledNames(s)[i] == Some(s[j].name)
  {
    EmptyNameFirstInCode(s, i, m);
    j := FirstNamed(s, i, m);
    FilledNamesSpec(s);
    RowLeCode(s[i], s[j]);
    if j < m {
      RowLeCode(s[j], s[m]);
      LexLeAntisymmetric(s[i].code, s[j].code);
    }
  }

  /**
   * Sorting first, the fill keeps every non-empty name and fills each empty
   * name whose code has a non-empty name with a name of the same code.
   */
  lemma SortedFilledNamesSpec(rows: seq<NameCode>, i: nat, m: nat) returns (j: nat)
    requires i < |rows| && m < |rows|
    requires SortRows(rows)[i].name == "" && SortRows(rows)[m].code == SortRows(rows)[i].code
    requires SortRows(rows)[m].name != ""
    ensures j < |rows| && SortRows(rows)[j].code == SortRows(rows)[i].code && SortRows(rows)[j].name != ""
    ensures SortedFilledNames(rows)[i] == Some(SortRows(rows)[j].name)
  {
    j := SortedFillSameCode(SortRows(rows), i, m);
  }

  /**
   * With the sort discarded, an empty name is filled from the row below it
   * whatever that row's code: here code "1" receives the name of code "2"
   * although code "1" has the name "Health".
   */
  lemma DiscardedSortCrossesCodes()
    ensures FilledNames([NameCode("1", ""), NameCode("2", "Education"), NameCode("1", "Health")])
      == [Some("Education"), Some("Education"), Some("Health")]
  {
    var rows := [NameCode("1", ""), NameCode("2", "Education"), NameCode("1", "Health")];
    var col := MarkMissing(NameCells(rows));
    assert col == [None, Some("Education"), Some("Health")];
    assert col[1..][1..] == [Some("Health")];
    assert BackFill(col[1..][1..]) == [Some("Health")];
    assert BackFill(col[1..]) == [Some("Education"), Some("Health")];
  }

  /** Sorted first, the same rows fill code "1" with its own name. */
  lemma SortedFillExample()
    ensures SortRows([NameCode("1", ""), NameCode("2", "Education"), NameCode("1", "Health")])
      == [NameCode("1", ""), NameCode("1", "Health"), NameCode("2", "Education")]
    ensures SortedFilledNames([NameCode("1", ""), NameCode("2", "Education"), NameCode("1", "Health")])
      == [Some("Health"), Some("Health"), Some("Education")]
  {
    ExampleSorts();
    ExampleSortedFill();
  }

  lemma ExampleSortedFill()
    ensures FilledNames([NameCode("1", ""), NameCode("1", "Health"), NameCode("2", "Education")])
      == [Some("Health"), Some("Health"), Some("Education")]
  {
    var sorted := [NameCode("1", ""), NameCode("1", "Health"), NameCode("2", "Education")];
    var col := MarkMissing(NameCells(sorted));
    assert col == [None, Some("Health"), Some("Education")];
    assert col[1..][1..] == [Some("Education")];
    assert BackFill(col[1..][1..]) == [Some("Education")];
    assert BackFill(col[1..]) == [Some("Health"), Some("Education")];
  }

  lemma ExampleSorts()
    ensures SortRows([NameCode("1", ""), NameCode("2", "Education"), NameCode("1", "Health")])
      == [NameCode("1", ""), NameCode("1", "Health"), NameCode("2", "Education")]
  {
    var a, b, c := NameCode("1", ""), NameCode("2", "Education"), NameCode("1", "Health");
    var rows := [a, b, c];
    assert rows[1..] == [b, c] && rows[1..][1..] == [c];
    InsertExample();
    assert [c][1..] == [];
    assert SortRows([c]) == InsertRow(c, []) == [c];
    assert [b, c][1..] == [c];
    assert SortRows([b, c]) == InsertRow(b, [c]) == [c, b];
    assert SortRows(rows) == InsertRow(a, [c, b]);
  }

  lemma ExampleOrder()
    ensures !RowLe(NameCode("2", "Education"), NameCode("1", "Health"))
    ensures RowLe(NameCode("1", ""), NameCode("1", "Health"))
  {
    assert "2" != "1" && "2"[0] == '2' && "1"[0] == '1';
  }

  lemma InsertExample()
    ensures InsertRow(NameCode("2", "Education"), [NameCode("1", "Health")])
      == [NameCode("1", "Health"), NameCode("2", "Education")]
    ensures InsertRow(NameCode("1", ""), [NameCode("1", "Health"), NameCode("2", "Education")])
      == [NameCode("1", ""), NameCode("1", "Health"), NameCode("2", "Education")]
  {
    ExampleOrder();
    var c := NameCode("1", "Health");
    assert [c][1..] == [];
  }
}
