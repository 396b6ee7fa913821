/**
 * `collections.Counter` and its `most_common(n)`, as used by the theme and
 * country queries: a Counter is a sequence of (value, count) entries in the
 * order the values were first met; `most_common(n)` sorts the entries by
 * count, largest first, keeping equal counts in Counter order, and keeps the
 * first `n`.
 */
module Counting {

  /** Number of occurrences of `v` in `xs`. */
  function Count<V(==)>(xs: seq<V>, v: V): nat
  {
    multiset(xs)[v]
  }

  function Min(a: nat, b: nat): nat
  {
    if a < b then a else b
  }

  /** Some entry of `t` has the value `v`. */
  predicate HasKey<V(==)>(t: seq<(V, nat)>, v: V)
  {
    exists i :: 0 <= i < |t| && t[i].0 == v
  }

  /** No value has two entries in `t`. */
  predicate DistinctKeys<V(==)>(t: seq<(V, nat)>)
  {
    forall i, j :: 0 <= i < j < |t| ==> t[i].0 != t[j].0
  }

  /** Every occurrence of `b` in `xs` is preceded by an occurrence of `a`. */
  predicate SeenBefore<V(==)>(xs: seq<V>, a: V, b: V)
  {
    forall k :: 0 <= k < |xs| && xs[k] == b ==> a in xs[..k]
  }

  /** Counts are largest first. */
  predicate NonIncreasing<V>(s: seq<(V, nat)>)
  {
    forall i, j :: 0 <= i < j < |s| ==> s[i].1 >= s[j].1
  }

  /** Sum of the counts of `t`. */
  function SumCounts<V>(t: seq<(V, nat)>): nat
  {
    if t == [] then 0 else t[0].1 + SumCounts(t[1..])
  }

  /** The entries of `s` whose count is `c`, in the order of `s`. */
  function WithCount<V>(s: seq<(V, nat)>, c: nat): seq<(V, nat)>
  {
    if s == [] then [] else (if s[0].1 == c then [s[0]] else []) + WithCount(s[1..], c)
  }

  // ---------------------------------------------------------------------
  // Counter(xs)

  /** Counting one more `x`: its entry goes up by one, or `(x, 1)` is appended when it has none. */
  function Bump<V(==)>(t: seq<(V, nat)>, x: V): seq<(V, nat)>
  {
    if t == [] then [(x, 1)]
    else if t[0].0 == x then [(x, t[0].1 + 1)] + t[1..]
    else [t[0]] + Bump(t[1..], x)
  }

  lemma {:induction false} BumpEntries<V>(t: seq<(V, nat)>, x: V)
    requires DistinctKeys(t)
    ensures |Bump(t, x)| == if HasKey(t, x) then |t| else |t| + 1
    ensures forall i :: 0 <= i < |t| ==>
      Bump(t, x)[i] == (t[i].0, if t[i].0 == x then t[i].1 + 1 else t[i].1)
    ensures !HasKey(t, x) ==> Bump(t, x)[|t|] == (x, 1)
  {
    if t == [] {
    } else if t[0].0 == x {
      assert HasKey(t, x);
      forall i | 1 <= i < |t|
        ensures t[i].0 != x
      {
        assert t[0].0 != t[i].0;
      }
    } else {
      var tail := t[1..];
      assert DistinctKeys(tail) by {
        forall i, j | 0 <= i < j < |tail|
          ensures tail[i].0 != tail[j].0
        {
          assert t[i + 1].0 != t[j + 1].0;
        }
      }
      BumpEntries(tail, x);
      var r := Bump(t, x);
      assert r == [t[0]] + Bump(tail, x);
      assert HasKey(t, x) <==> HasKey(tail, x) by {
        if HasKey(t, x) {
          var i :| 0 <= i < |t| && t[i].0 == x;
          assert tail[i - 1].0 == x;
        }
        if HasKey(tail, x) {
          var i :| 0 <= i < |tail| && tail[i].0 == x;
          assert t[i + 1].0 == x;
        }
      }
      forall i | 1 <= i < |t|
        ensures r[i] == (t[i].0, if t[i].0 == x then t[i].1 + 1 else t[i].1)
      {
        assert r[i] == Bump(tail, x)[i - 1];
        assert tail[i - 1] == t[i];
      }
    }
  }

  lemma {:induction false} BumpAddsOne<V>(t: seq<(V, nat)>, x: V)
    ensures SumCounts(Bump(t, x)) == SumCounts(t) + 1
  {
    if t == [] {
    } else if t[0].0 == x {
      assert ([(x, t[0].1 + 1)] + t[1..])[1..] == t[1..];
    } else {
      BumpAddsOne(t[1..], x);
      assert ([t[0]] + Bump(t[1..], x))[1..] == Bump(t[1..], x);
    }
  }

  /**
   * `Counter(xs)`: one entry per distinct value of `xs`, holding the number of
   * its occurrences, in the order the values are first met.
   */
  function CounterOf<V(==)>(xs: seq<V>): (t: seq<(V, nat)>)
    ensures DistinctKeys(t)
    ensures forall i :: 0 <= i < |t| ==> t[i].1 == Count(xs, t[i].0)
    ensures forall k :: 0 <= k < |xs| ==> HasKey(t, xs[k])
    ensures forall i :: 0 <= i < |t| ==> t[i].0 in xs
  {
    if xs == [] then []
    else
      CounterStep(xs[..|xs| - 1], xs[|xs| - 1], CounterOf(xs[..|xs| - 1]));
      assert xs == xs[..|xs| - 1] + [xs[|xs| - 1]];
      Bump(CounterOf(xs[..|xs| - 1]), xs[|xs| - 1])
  }

  /** Counting one more `x` keeps a correct Counter of `p` correct for `p + [x]`. */
  lemma CounterStep<V>(p: seq<V>, x: V, tp: seq<(V, nat)>)
    requires DistinctKeys(tp)
    requires forall i :: 0 <= i < |tp| ==> tp[i].1 == Count(p, tp[i].0)
    requires forall k :: 0 <= k < |p| ==> HasKey(tp, p[k])
    requires forall i :: 0 <= i < |tp| ==> tp[i].0 in p
    ensures DistinctKeys(Bump(tp, x))
    ensures forall i :: 0 <= i < |Bump(tp, x)| ==> Bump(tp, x)[i].1 == Count(p + [x], Bump(tp, x)[i].0)
    ensures forall k :: 0 <= k < |p + [x]| ==> HasKey(Bump(tp, x), (p + [x])[k])
    ensures forall i :: 0 <= i < |Bump(tp, x)| ==> Bump(tp, x)[i].0 in p + [x]
  {
    BumpEntries(tp, x);
    NewKeyUnseen(p, x, tp);
    BumpCounts(p, x, tp);
    BumpKeys(p, x, tp);
  }

  lemma NewKeyUnseen<V>(p: seq<V>, x: V, tp: seq<(V, nat)>)
    requires forall k :: 0 <= k < |p| ==> HasKey(tp, p[k])
    ensures !HasKey(tp, x) ==> x !in p
  {
    if x in p {
      var k :| 0 <= k < |p| && p[k] == x;
      assert HasKey(tp, p[k]);
    }
  }

  lemma BumpCounts<V>(p: seq<V>, x: V, tp: seq<(V, nat)>)
    requires DistinctKeys(tp)
    requires forall i :: 0 <= i < |tp| ==> tp[i].1 == Count(p, tp[i].0)
    requires forall i :: 0 <= i < |tp| ==> tp[i].0 in p
    requires !HasKey(tp, x) ==> x !in p
    ensures DistinctKeys(Bump(tp, x))
    ensures forall i :: 0 <= i < |Bump(tp, x)| ==>
      Bump(tp, x)[i].1 == Count(p + [x], Bump(tp, x)[i].0) && Bump(tp, x)[i].0 in p + [x]
  {
    var xs := p + [x];
    BumpEntries(tp, x);
    var t := Bump(tp, x);
    assert multiset(xs) == multiset(p) + multiset{x};
    forall i | 0 <= i < |t|
      ensures t[i].1 == Count(xs, t[i].0) && t[i].0 in xs
    {
      if i < |tp| {
        assert tp[i].0 in p;
      } else {
        assert t[i] == (x, 1);
      }
    }
    forall i, j | 0 <= i < j < |t|
      ensures t[i].0 != t[j].0
    {
      if j == |tp| {
        assert !HasKey(tp, x);
      }
    }
  }

  lemma BumpKeys<V>(p: seq<V>, x: V, tp: seq<(V, nat)>)
    requires DistinctKeys(tp)
    requires forall k :: 0 <= k < |p| ==> HasKey(tp, p[k])
    ensures forall k :: 0 <= k < |p + [x]| ==> HasKey(Bump(tp, x), (p + [x])[k])
  {
    var xs := p + [x];
    BumpEntries(tp, x);
    var t := Bump(tp, x);
    forall k | 0 <= k < |xs|
      ensures HasKey(t, xs[k])
    {
      if k < |p| {
        assert xs[k] == p[k];
        assert HasKey(tp, p[k]);
        var i :| 0 <= i < |tp| && tp[i].0 == p[k];
        assert t[i].0 == xs[k];
      } else if HasKey(tp, x) {
        var i :| 0 <= i < |tp| && tp[i].0 == x;
        assert t[i].0 == xs[k];
      } else {
        assert t[|tp|].0 == xs[k];
      }
    }
  }

  /** The counts of a Counter add up to the number of counted values. */
  lemma {:induction false} CounterOfSum<V>(xs: seq<V>)
    ensures SumCounts(CounterOf(xs)) == |xs|
  {
    if xs != [] {
      var p := xs[..|xs| - 1];
      CounterOfSum(p);
      BumpAddsOne(CounterOf(p), xs[|xs| - 1]);
    }
  }

  /** A Counter lists values in the order they are first met in `xs`. */
  lemma {:induction false} CounterOfFirstSeen<V>(xs: seq<V>)
    ensures forall i, j :: 0 <= i < j < |CounterOf(xs)| ==>
      SeenBefore(xs, CounterOf(xs)[i].0, CounterOf(xs)[j].0)
  {
    if xs != [] {
      var p, x := xs[..|xs| - 1], xs[|xs| - 1];
      assert xs == p + [x];
      CounterOfFirstSeen(p);
      FirstSeenStep(p, x, CounterOf(p));
    }
  }

  lemma FirstSeenStep<V>(p: seq<V>, x: V, tp: seq<(V, nat)>)
    requires DistinctKeys(tp)
    requires forall k :: 0 <= k < |p| ==> HasKey(tp, p[k])
    requires forall i :: 0 <= i < |tp| ==> tp[i].0 in p
    requires forall i, j :: 0 <= i < j < |tp| ==> SeenBefore(p, tp[i].0, tp[j].0)
    ensures forall i, j :: 0 <= i < j < |Bump(tp, x)| ==>
      SeenBefore(p + [x], Bump(tp, x)[i].0, Bump(tp, x)[j].0)
  {
    BumpEntries(tp, x);
    NewKeyUnseen(p, x, tp);
    var t := Bump(tp, x);
    forall i, j | 0 <= i < j < |t|
      ensures SeenBefore(p + [x], t[i].0, t[j].0)
    {
      FirstSeenPair(p, x, tp, i, j);
    }
  }

  lemma FirstSeenPair<V>(p: seq<V>, x: V, tp: seq<(V, nat)>, i: nat, j: nat)
    requires DistinctKeys(tp)
    requires forall i :: 0 <= i < |tp| ==> tp[i].0 in p
    requires forall i, j :: 0 <= i < j < |tp| ==> SeenBefore(p, tp[i].0, tp[j].0)
    requires !HasKey(tp, x) ==> x !in p
    requires i < j < |Bump(tp, x)|
    ensures SeenBefore(p + [x], Bump(tp, x)[i].0, Bump(tp, x)[j].0)
  {
    BumpEntries(tp, x);
    var t := Bump(tp, x);
    assert t[i].0 == tp[i].0 && tp[i].0 in p;
    if j < |tp| {
      assert t[j].0 == tp[j].0 && tp[j].0 in p;
      SeenBeforeExtend(p, x, tp[i].0, tp[j].0);
    } else {
      SeenBeforeNew(p, x, tp[i].0);
    }
  }

  lemma SeenBeforeExtend<V>(p: seq<V>, x: V, a: V, b: V)
    requires SeenBefore(p, a, b) && b in p
    ensures SeenBefore(p + [x], a, b)
  {
    var xs := p + [x];
    forall k | 0 <= k < |xs| && xs[k] == b
      ensures a in xs[..k]
    {
      if k < |p| {
        assert xs[k] == p[k] && xs[..k] == p[..k];
      } else {
        var k' :| 0 <= k' < |p| && p[k'] == b;
        assert a in p[..k'];
        assert xs[..k] == p;
      }
    }
  }

  lemma SeenBeforeNew<V>(p: seq<V>, x: V, a: V)
    requires a in p && x !in p
    ensures SeenBefore(p + [x], a, x)
  {
    var xs := p + [x];
    forall k | 0 <= k < |xs| && xs[k] == x
      ensures a in xs[..k]
    {
      if k == |p| {
        assert xs[..k] == p;
      }
    }
  }

  // ---------------------------------------------------------------------
  // most_common(n)

  /**
   * Places `x` before the first entry whose count is not larger than its own,
   * so that it stays ahead of the entries of equal count that came after it.
   */
  function InsertByCount<V(==)>(x: (V, nat), s: seq<(V, nat)>): (r: seq<(V, nat)>)
    ensures multiset(r) == multiset(s) + multiset{x}
    ensures NonIncreasing(s) ==> NonIncreasing(r)
    ensures DistinctKeys(s) && !HasKey(s, x.0) ==> DistinctKeys(r)
  {
    if s == [] || s[0].1 <= x.1 then
      InsertAtFront(x, s);
      [x] + s
    else
      var rest := InsertByCount(x, s[1..]);
      InsertBehindHead(x, s, rest);
      [s[0]] + rest
  }

  lemma InsertAtFront<V>(x: (V, nat), s: seq<(V, nat)>)
    requires s == [] || s[0].1 <= x.1
    ensures NonIncreasing(s) ==> NonIncreasing([x] + s)
    ensures DistinctKeys(s) && !HasKey(s, x.0) ==> DistinctKeys([x] + s)
  {
    var r := [x] + s;
    if NonIncreasing(s) {
      forall i, j | 0 <= i < j < |r|
        ensures r[i].1 >= r[j].1
      {
        assert r[j] == s[j - 1];
        if i > 0 {
          assert r[i] == s[i - 1];
        } else if j > 1 {
          assert s[0].1 >= s[j - 1].1;
        }
      }
    }
    if DistinctKeys(s) && !HasKey(s, x.0) {
      forall i, j | 0 <= i < j < |r|
        ensures r[i].0 != r[j].0
      {
        assert r[j] == s[j - 1];
        if i > 0 {
          assert r[i] == s[i - 1];
        }
      }
    }
  }

  lemma InsertBehindHead<V>(x: (V, nat), s: seq<(V, nat)>, rest: seq<(V, nat)>)
    requires s != [] && s[0].1 > x.1
    requires multiset(rest) == multiset(s[1..]) + multiset{x}
    requires NonIncreasing(s[1..]) ==> NonIncreasing(rest)
    requires DistinctKeys(s[1..]) && !HasKey(s[1..], x.0) ==> DistinctKeys(rest)
    ensures multiset([s[0]] + rest) == multiset(s) + multiset{x}
    ensures NonIncreasing(s) ==> NonIncreasing([s[0]] + rest)
    ensures DistinctKeys(s) && !HasKey(s, x.0) ==> DistinctKeys([s[0]] + rest)
  {
    assert s == [s[0]] + s[1..];
    ElementsOfInsert(x, s[1..], rest);
    if NonIncreasing(s) {
      BehindHeadOrdered(x, s, rest);
    }
    if DistinctKeys(s) && !HasKey(s, x.0) {
      BehindHeadDistinct(x, s, rest);
    }
  }

  lemma ElementsOfInsert<V>(x: (V, nat), tail: seq<(V, nat)>, rest: seq<(V, nat)>)
    requires multiset(rest) == multiset(tail) + multiset{x}
    ensures forall j :: 0 <= j < |rest| ==> rest[j] == x || rest[j] in tail
  {
    forall j | 0 <= j < |rest|
      ensures rest[j] == x || rest[j] in tail
    {
      assert rest[j] in multiset(rest);
    }
  }

  lemma BehindHeadOrdered<V>(x: (V, nat), s: seq<(V, nat)>, rest: seq<(V, nat)>)
    requires s != [] && s[0].1 > x.1 && NonIncreasing(s)
    requires forall j :: 0 <= j < |rest| ==> rest[j] == x || rest[j] in s[1..]
    requires NonIncreasing(s[1..]) ==> NonIncreasing(rest)
    ensures NonIncreasing([s[0]] + rest)
  {
    var tail := s[1..];
    var r := [s[0]] + rest;
    assert NonIncreasing(tail) by {
      forall i, j | 0 <= i < j < |tail|
        ensures tail[i].1 >= tail[j].1
      {
        assert tail[i] == s[i + 1] && tail[j] == s[j + 1];
      }
    }
    forall i, j | 0 <= i < j < |r|
      ensures r[i].1 >= r[j].1
    {
      assert r[j] == rest[j - 1];
      if i > 0 {
        assert r[i] == rest[i - 1];
      } else if rest[j - 1] != x {
        var k :| 0 <= k < |tail| && tail[k] == rest[j - 1];
        assert s[k + 1] == rest[j - 1];
      }
    }
  }

  lemma BehindHeadDistinct<V>(x: (V, nat), s: seq<(V, nat)>, rest: seq<(V, nat)>)
    requires s != [] && DistinctKeys(s) && !HasKey(s, x.0)
    requires forall j :: 0 <= j < |rest| ==> rest[j] == x || rest[j] in s[1..]
    requires DistinctKeys(s[1..]) && !HasKey(s[1..], x.0) ==> DistinctKeys(rest)
    ensures DistinctKeys([s[0]] + rest)
  {
    var tail := s[1..];
    var r := [s[0]] + rest;
    assert DistinctKeys(tail) && !HasKey(tail, x.0) by {
      forall i, j | 0 <= i < j < |tail|
        ensures tail[i].0 != tail[j].0
      {
        assert tail[i] == s[i + 1] && tail[j] == s[j + 1];
      }
      forall i | 0 <= i < |tail|
        ensures tail[i].0 != x.0
      {
        assert tail[i] == s[i + 1];
      }
    }
    forall i, j | 0 <= i < j < |r|
      ensures r[i].0 != r[j].0
    {
      assert r[j] == rest[j - 1];
      if i > 0 {
        assert r[i] == rest[i - 1];
      } else if rest[j - 1] != x {
        var k :| 0 <= k < |tail| && tail[k] == rest[j - 1];
        assert s[k + 1] == rest[j - 1];
      } else {
        assert s[0].0 != x.0;
      }
    }
  }

  /** A stable sort of `t` by count, largest first. */
  function SortByCount<V(==)>(t: seq<(V, nat)>): (r: seq<(V, nat)>)
    ensures multiset(r) == multiset(t)
    ensures NonIncreasing(r)
    ensures DistinctKeys(t) ==> DistinctKeys(r)
  {
    if t == [] then []
    else
      var rest := SortByCount(t[1..]);
      SortStep(t, rest);
      InsertByCount(t[0], rest)
  }

  lemma SortStep<V>(t: seq<(V, nat)>, rest: seq<(V, nat)>)
    requires t != [] && multiset(rest) == multiset(t[1..])
    ensures multiset(t) == multiset(rest) + multiset{t[0]}
    ensures DistinctKeys(t) ==> DistinctKeys(t[1..]) && !HasKey(rest, t[0].0)
  {
    var tail := t[1..];
    assert t == [t[0]] + tail;
    if DistinctKeys(t) {
      forall i, j | 0 <= i < j < |tail|
        ensures tail[i].0 != tail[j].0
      {
        assert tail[i] == t[i + 1] && tail[j] == t[j + 1];
      }
      forall i | 0 <= i < |rest|
        ensures rest[i].0 != t[0].0
      {
        assert rest[i] in multiset(tail);
        var j :| 0 <= j < |tail| && tail[j] == rest[i];
        assert t[j + 1] == rest[i];
      }
    }
  }

  lemma {:induction false} WithCountAppend<V>(a: seq<(V, nat)>, b: seq<(V, nat)>, c: nat)
    ensures WithCount(a + b, c) == WithCount(a, c) + WithCount(b, c)
  {
    if a == [] {
      assert a + b == b;
    } else {
      var head := if a[0].1 == c then [a[0]] else [];
      WithCountAppend(a[1..], b, c);
      assert (a + b)[0] == a[0];
      assert (a + b)[1..] == a[1..] + b;
      assert WithCount(a + b, c) == head + WithCount(a[1..] + b, c);
      assert WithCount(a, c) == head + WithCount(a[1..], c);
    }
  }

  lemma {:induction false} InsertByCountStable<V>(x: (V, nat), s: seq<(V, nat)>, c: nat)
    ensures WithCount(InsertByCount(x, s), c) == (if x.1 == c then [x] else []) + WithCount(s, c)
  {
    if s == [] || s[0].1 <= x.1 {
      assert ([x] + s)[1..] == s;
    } else {
      InsertByCountStable(x, s[1..], c);
      assert ([s[0]] + InsertByCount(x, s[1..]))[1..] == InsertByCount(x, s[1..]);
    }
  }

  /** Sorting by count keeps the entries of each count in their original order. */
  lemma {:induction false} SortByCountStable<V>(t: seq<(V, nat)>, c: nat)
    ensures WithCount(SortByCount(t), c) == WithCount(t, c)
  {
    if t != [] {
      SortByCountStable(t[1..], c);
      InsertByCountStable(t[0], SortByCount(t[1..]), c);
    }
  }

  /** `Counter(xs).most_common(n)`. */
  function MostCommon<V(==)>(xs: seq<V>, n: nat): seq<(V, nat)>
  {
    var sorted := SortByCount(CounterOf(xs));
    sorted[..Min(n, |sorted|)]
  }

  /**
   * `most_common(n)` returns min(n, number of distinct values) entries, each
   * holding a value of `xs` with its true count, no value twice, largest
   * count first.
   */
  lemma MostCommonCounts<V>(xs: seq<V>, n: nat)
    ensures |MostCommon(xs, n)| == Min(n, |CounterOf(xs)|)
    ensures DistinctKeys(MostCommon(xs, n))
    ensures NonIncreasing(MostCommon(xs, n))
    ensures forall i :: 0 <= i < |MostCommon(xs, n)| ==>
      MostCommon(xs, n)[i].0 in xs && MostCommon(xs, n)[i].1 == Count(xs, MostCommon(xs, n)[i].0)
  {
    var sorted := SortByCount(CounterOf(xs));
    SortedCounterEntries(xs);
    PrefixKeepsOrder(sorted, Min(n, |sorted|));
  }

  /** The sorted Counter has one entry per distinct value, each with its true count. */
  lemma SortedCounterEntries<V>(xs: seq<V>)
    ensures |SortByCount(CounterOf(xs))| == |CounterOf(xs)|
    ensures forall i :: 0 <= i < |SortByCount(CounterOf(xs))| ==>
      SortByCount(CounterOf(xs))[i].0 in xs &&
      SortByCount(CounterOf(xs))[i].1 == Count(xs, SortByCount(CounterOf(xs))[i].0)
  {
    var t := CounterOf(xs);
    var sorted := SortByCount(t);
    assert |sorted| == |t| by {
      assert |multiset(sorted)| == |multiset(t)|;
    }
    forall i | 0 <= i < |sorted|
      ensures sorted[i].0 in xs && sorted[i].1 == Count(xs, sorted[i].0)
    {
      assert sorted[i] in multiset(t);
      var j :| 0 <= j < |t| && t[j] == sorted[i];
    }
  }

  /** A prefix of a table keeps its distinct keys and its order. */
  lemma PrefixKeepsOrder<V>(s: seq<(V, nat)>, m: nat)
    requires m <= |s|
    requires DistinctKeys(s) && NonIncreasing(s)
    ensures DistinctKeys(s[..m]) && NonIncreasing(s[..m])
  {
  }

  /** No value of `xs` left out of `most_common(n)` has a larger count than the last one kept. */
  lemma MostCommonKeepsLargest<V>(xs: seq<V>, n: nat)
    ensures forall k :: 0 <= k < |xs| && !HasKey(MostCommon(xs, n), xs[k]) ==>
      |MostCommon(xs, n)| == n && (n > 0 ==> Count(xs, xs[k]) <= MostCommon(xs, n)[n - 1].1)
  {
    var r := MostCommon(xs, n);
    forall k | 0 <= k < |xs| && !HasKey(r, xs[k])
      ensures |r| == n && (n > 0 ==> Count(xs, xs[k]) <= r[n - 1].1)
    {
      LeftOutAt(xs, n, k);
    }
  }

  lemma LeftOutAt<V>(xs: seq<V>, n: nat, k: nat)
    requires k < |xs| && !HasKey(MostCommon(xs, n), xs[k])
    ensures |MostCommon(xs, n)| == n && (n > 0 ==> Count(xs, xs[k]) <= MostCommon(xs, n)[n - 1].1)
  {
    var t := CounterOf(xs);
    var sorted := SortByCount(t);
    var r := MostCommon(xs, n);
    assert r == sorted[..Min(n, |sorted|)];
    var j :| 0 <= j < |t| && t[j].0 == xs[k];
    assert t[j] in multiset(sorted);
    var p :| 0 <= p < |sorted| && sorted[p] == t[j];
    assert forall i :: 0 <= i < |r| ==> r[i] == sorted[i] && r[i].0 != xs[k];
    assert p >= |r|;
  }

  /** Entries of equal count keep the order in which their values were first met. */
  lemma MostCommonTieOrder<V>(xs: seq<V>, n: nat)
    ensures forall i, j :: 0 <= i < j < |MostCommon(xs, n)| && MostCommon(xs, n)[i].1 == MostCommon(xs, n)[j].1 ==>
      SeenBefore(xs, MostCommon(xs, n)[i].0, MostCommon(xs, n)[j].0)
  {
    var r := MostCommon(xs, n);
    forall i, j | 0 <= i < j < |r| && r[i].1 == r[j].1
      ensures SeenBefore(xs, r[i].0, r[j].0)
    {
      TieOrderAt(xs, n, i, j);
    }
  }

  lemma TieOrderAt<V>(xs: seq<V>, n: nat, i: nat, j: nat)
    requires i < j < |MostCommon(xs, n)| && MostCommon(xs, n)[i].1 == MostCommon(xs, n)[j].1
    ensures SeenBefore(xs, MostCommon(xs, n)[i].0, MostCommon(xs, n)[j].0)
  {
    var t := CounterOf(xs);
    var sorted := SortByCount(t);
    var r := MostCommon(xs, n);
    var c := r[i].1;
    assert r[i] == sorted[i] && r[j] == sorted[j];
    var i', j' := WithCountForward(sorted, c, i, j);
    SortByCountStable(t, c);
    var p, q := WithCountOrigin(t, c, i', j');
    CounterOfFirstSeen(xs);
  }

  /** Where the `j`-th entry of `s` lands in `WithCount(s, c)`. */
  lemma {:induction false} WithCountHas<V>(s: seq<(V, nat)>, c: nat, j: nat) returns (m: nat)
    requires j < |s| && s[j].1 == c
    ensures m < |WithCount(s, c)| && WithCount(s, c)[m] == s[j]
  {
    var head := if s[0].1 == c then [s[0]] else [];
    assert WithCount(s, c) == head + WithCount(s[1..], c);
    if j == 0 {
      m := 0;
    } else {
      var m' := WithCountHas(s[1..], c, j - 1);
      m := m' + |head|;
    }
  }

  /** Two entries of count `c` keep their order in `WithCount(s, c)`. */
  lemma {:induction false} WithCountForward<V>(s: seq<(V, nat)>, c: nat, i: nat, j: nat) returns (i': nat, j': nat)
    requires i < j < |s| && s[i].1 == c && s[j].1 == c
    ensures i' < j' < |WithCount(s, c)| && WithCount(s, c)[i'] == s[i] && WithCount(s, c)[j'] == s[j]
  {
    var head := if s[0].1 == c then [s[0]] else [];
    assert WithCount(s, c) == head + WithCount(s[1..], c);
    if i == 0 {
      var m := WithCountHas(s[1..], c, j - 1);
      i', j' := 0, m + 1;
    } else {
      var a, b := WithCountForward(s[1..], c, i - 1, j - 1);
      i', j' := a + |head|, b + |head|;
    }
  }

  /** Where the `m`-th entry of `WithCount(s, c)` comes from in `s`. */
  lemma {:induction false} WithCountFrom<V>(s: seq<(V, nat)>, c: nat, m: nat) returns (j: nat)
    requires m < |WithCount(s, c)|
    ensures j < |s| && s[j] == WithCount(s, c)[m]
  {
    var head := if s[0].1 == c then [s[0]] else [];
    assert WithCount(s, c) == head + WithCount(s[1..], c);
    if m < |head| {
      j := 0;
    } else {
      var j' := WithCountFrom(s[1..], c, m - |head|);
      j := j' + 1;
    }
  }

  /** Two entries of `WithCount(s, c)` come from entries of `s` in the same order. */
  lemma {:induction false} WithCountOrigin<V>(s: seq<(V, nat)>, c: nat, i': nat, j': nat) returns (i: nat, j: nat)
    requires i' < j' < |WithCount(s, c)|
    ensures i < j < |s| && s[i] == WithCount(s, c)[i'] && s[j] == WithCount(s, c)[j']
  {
    var head := if s[0].1 == c then [s[0]] else [];
    assert WithCount(s, c) == head + WithCount(s[1..], c);
    if i' < |head| {
      var b := WithCountFrom(s[1..], c, j' - 1);
      i, j := 0, b + 1;
    } else {
      var a, b := WithCountOrigin(s[1..], c, i' - |head|, j' - |head|);
      i, j := a + 1, b + 1;
    }
  }
}
