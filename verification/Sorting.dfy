/** A stable sort, the specification of the library sorts that the repository calls. */
module Sorting {

  ghost predicate TotalPreorder<T(!new)>(le: (T, T) -> bool) {
    && (forall x, y :: le(x, y) || le(y, x))
    && (forall x, y, z :: le(x, y) && le(y, z) ==> le(x, z))
  }

  ghost predicate SortedBy<T>(xs: seq<T>, le: (T, T) -> bool) {
    forall i, j :: 0 <= i < j < |xs| ==> le(xs[i], xs[j])
  }

  /** Put x before the first element that is not below it. */
  function Insert<T>(x: T, xs: seq<T>, le: (T, T) -> bool): seq<T> {
    if xs == [] then [x]
    else if le(x, xs[0]) then [x] + xs
    else [xs[0]] + Insert(x, xs[1..], le)
  }

  function Sort<T>(xs: seq<T>, le: (T, T) -> bool): seq<T> {
    if xs == [] then [] else Insert(xs[0], Sort(xs[1..], le), le)
  }

  lemma {:induction false} InsertKeepsElements<T>(x: T, xs: seq<T>, le: (T, T) -> bool)
    ensures multiset(Insert(x, xs, le)) == multiset(xs) + multiset{x}
  {
    if xs != [] {
      assert xs == [xs[0]] + xs[1..];
      if !le(x, xs[0]) { InsertKeepsElements(x, xs[1..], le); }
    }
  }

  lemma {:induction false} SortKeepsElements<T>(xs: seq<T>, le: (T, T) -> bool)
    ensures multiset(Sort(xs, le)) == multiset(xs)
    ensures |Sort(xs, le)| == |xs|
  {
    if xs != [] {
      SortKeepsElements(xs[1..], le);
      InsertKeepsElements(xs[0], Sort(xs[1..], le), le);
      assert xs == [xs[0]] + xs[1..];
    }
    assert |multiset(Sort(xs, le))| == |Sort(xs, le)|;
  }

  lemma {:induction false} InsertSorts<T(!new)>(x: T, xs: seq<T>, le: (T, T) -> bool)
    requires TotalPreorder(le) && SortedBy(xs, le)
    ensures SortedBy(Insert(x, xs, le), le)
  {
    if xs != [] && !le(x, xs[0]) {
      InsertSorts(x, xs[1..], le);
      InsertKeepsElements(x, xs[1..], le);
      var rest := Insert(x, xs[1..], le);
      forall i | 0 <= i < |rest| ensures le(xs[0], rest[i]) {
        assert rest[i] in multiset(rest);
        if rest[i] != x { assert rest[i] in multiset(xs[1..]); }
      }
    }
  }

  lemma {:induction false} SortSorts<T(!new)>(xs: seq<T>, le: (T, T) -> bool)
    requires TotalPreorder(le)
    ensures SortedBy(Sort(xs, le), le)
  {
    if xs != [] {
      SortSorts(xs[1..], le);
      InsertSorts(xs[0], Sort(xs[1..], le), le);
    }
  }

  /** The elements that tie with pivot, in the order in which they stand. */
  function Ties<T>(xs: seq<T>, pivot: T, le: (T, T) -> bool): seq<T> {
    if xs == [] then []
    else (if le(xs[0], pivot) && le(pivot, xs[0]) then [xs[0]] else []) + Ties(xs[1..], pivot, le)
  }

  lemma {:induction false} InsertIsStable<T(!new)>(x: T, xs: seq<T>, pivot: T, le: (T, T) -> bool)
    requires TotalPreorder(le)
    ensures Ties(Insert(x, xs, le), pivot, le) == Ties([x], pivot, le) + Ties(xs, pivot, le)
  {
    assert [x][1..] == [];
    if xs != [] {
      if le(x, xs[0]) {
        assert ([x] + xs)[1..] == xs;
      } else {
        InsertIsStable(x, xs[1..], pivot, le);
        var rest := Insert(x, xs[1..], le);
        assert ([xs[0]] + rest)[1..] == rest;
      }
    }
  }

  lemma TiesHead<T>(x: T, xs: seq<T>, pivot: T, le: (T, T) -> bool)
    ensures Ties([x] + xs, pivot, le) == Ties([x], pivot, le) + Ties(xs, pivot, le)
  {}

  /** Equal elements keep their order. */
  lemma {:induction false} SortIsStable<T(!new)>(xs: seq<T>, pivot: T, le: (T, T) -> bool)
    requires TotalPreorder(le)
    ensures Ties(Sort(xs, le), pivot, le) == Ties(xs, pivot, le)
  {
    if xs != [] {
      var x, rest := xs[0], xs[1..];
      SortIsStable(rest, pivot, le);
      InsertIsStable(x, Sort(rest, le), pivot, le);
      TiesHead(x, rest, pivot, le);
      assert xs == [x] + rest;
    }
  }

  /** The first k elements of the sorted sequence. */
  function Top<T>(xs: seq<T>, le: (T, T) -> bool, k: nat): (top: seq<T>)
    ensures |top| <= k
  {
    var sorted := Sort(xs, le);
    if |sorted| <= k then sorted else sorted[..k]
  }

  /** The top elements are sorted, and nothing left out goes before any of them. */
  lemma TopGoesFirst<T(!new)>(xs: seq<T>, le: (T, T) -> bool, k: nat)
    requires TotalPreorder(le)
    ensures var top := Top(xs, le, k);
      && |top| == (if |xs| <= k then |xs| else k)
      && multiset(top) <= multiset(xs) && SortedBy(top, le)
      && forall x, y :: x in top && y in multiset(xs) - multiset(top) ==> le(x, y)
  {
    var sorted, top := Sort(xs, le), Top(xs, le, k);
    SortKeepsElements(xs, le);
    SortSorts(xs, le);
    var rest := sorted[|top|..];
    assert sorted == top + rest;
    forall x, y | x in top && y in multiset(xs) - multiset(top) ensures le(x, y) {
      assert y in multiset(rest);
      var i :| 0 <= i < |top| && top[i] == x;
      var j :| 0 <= j < |rest| && rest[j] == y;
      assert sorted[i] == x && sorted[|top| + j] == y;
    }
  }

  lemma TwoPlaces<T>(xs: seq<T>, i: nat, j: nat)
    requires i < j < |xs|
    ensures xs[i] == xs[j] ==> multiset(xs)[xs[i]] >= 2
  {
    assert xs == xs[..i] + [xs[i]] + xs[i + 1..j] + [xs[j]] + xs[j + 1..];
  }

  // ---- strings compare by their scalar values ----

  predicate AtMost(a: string, b: string) {
    a == "" || (b != "" && (a[0] < b[0] || (a[0] == b[0] && AtMost(a[1..], b[1..]))))
  }

  lemma {:induction false} AtMostTotal(a: string, b: string)
    ensures AtMost(a, b) || AtMost(b, a)
    ensures AtMost(a, b) && AtMost(b, a) ==> a == b
    decreases |a|
  {
    if a != "" && b != "" && a[0] == b[0] {
      AtMostTotal(a[1..], b[1..]);
      assert a == [a[0]] + a[1..] && b == [b[0]] + b[1..];
    }
  }

  /** The order of dictionaries: a prefix comes first, and otherwise the first difference decides. */
  lemma {:induction false} DictionaryOrder(a: string, b: string)
    ensures AtMost(a, b) <==>
      a <= b || exists k :: 0 <= k < |a| && k < |b| && a[..k] == b[..k] && a[k] < b[k]
    decreases |a|
  {
    if a != "" && b != "" && a[0] == b[0] {
      DictionaryOrder(a[1..], b[1..]);
      assert a == [a[0]] + a[1..] && b == [b[0]] + b[1..];
      if k :| 0 <= k < |a| && k < |b| && a[..k] == b[..k] && a[k] < b[k] {
        assert a[1..][..k - 1] == a[..k][1..] && b[1..][..k - 1] == b[..k][1..];
        assert a[1..][k - 1] < b[1..][k - 1];
      }
      if k :| 0 <= k < |a| - 1 && k < |b| - 1 && a[1..][..k] == b[1..][..k] && a[1..][k] < b[1..][k] {
        assert a[..k + 1] == [a[0]] + a[1..][..k] && b[..k + 1] == [b[0]] + b[1..][..k];
        assert a[k + 1] < b[k + 1];
      }
    } else if a != "" && b != "" {
      assert a[..0] == b[..0];
      forall k | 0 < k < |a| && k < |b| ensures a[..k] != b[..k] { assert a[..k][0] != b[..k][0]; }
    }
  }

  lemma {:induction false} AtMostTransitive(a: string, b: string, c: string)
    requires AtMost(a, b) && AtMost(b, c)
    ensures AtMost(a, c)
    decreases |a|
  {
    if a != "" && a[0] == b[0] == c[0] { AtMostTransitive(a[1..], b[1..], c[1..]); }
  }

  lemma StringOrder()
    ensures TotalPreorder(AtMost)
  {
    forall a, b ensures AtMost(a, b) || AtMost(b, a) { AtMostTotal(a, b); }
    forall a, b, c | AtMost(a, b) && AtMost(b, c) ensures AtMost(a, c) { AtMostTransitive(a, b, c); }
  }
}
