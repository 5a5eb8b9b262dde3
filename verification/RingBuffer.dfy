/** A ring buffer kept as a map from slots to values, with an atomic 64-bit write index. */
module RingBuffer {

  const U64: nat := 0x1_0000_0000_0000_0000

  datatype Ring<+T> = Ring(slots: map<nat, T>, index: nat)

  function Empty<T>(): Ring<T> {
    Ring(map[], 0)
  }

  function Push<T>(r: Ring<T>, x: T, capacity: nat): Ring<T>
    requires capacity > 0
  {
    Ring(r.slots[r.index % capacity := x], (r.index + 1) % U64)
  }

  function PushAll<T>(xs: seq<T>, capacity: nat): Ring<T>
    requires capacity > 0
  {
    if xs == [] then Empty() else Push(PushAll(xs[..|xs| - 1], capacity), xs[|xs| - 1], capacity)
  }

  function Least(a: nat, b: nat): nat {
    if a <= b then a else b
  }

  /** The last n values, or all of them. */
  function Last<T>(xs: seq<T>, n: nat): (s: seq<T>)
    ensures |s| == Least(|xs|, n)
  {
    xs[|xs| - Least(|xs|, n)..]
  }

  /** The j-th value of all is still there. */
  predicate Kept(j: nat, total: nat, capacity: nat) {
    j < total && total - j <= capacity
  }

  lemma Multiples(d: int, c: int)
    requires c >= 0
    ensures d >= 1 ==> d * c >= c
    ensures d <= -1 ==> d * c <= -c
  {}

  /** A number below c that differs from x by a multiple of c is the remainder of x. */
  lemma RemainderIs(x: nat, q: int, r: nat, c: nat)
    requires x == q * c + r && r < c
    ensures x % c == r
  {
    var d := x / c - q;
    assert d * c == r - x % c;
    Multiples(d, c);
  }

  lemma SlotOf(x: nat, c: nat)
    requires c > 0
    ensures x % c < c && (x < c ==> x % c == x) && (x + c) % c == x % c
  {
    RemainderIs(x + c, x / c + 1, x % c, c);
    if x < c { RemainderIs(x, 0, x, c); }
  }

  /** Numbers less than c apart have different slots. */
  lemma SlotsDiffer(i: nat, j: nat, c: nat)
    requires i <= j < i + c
    ensures i % c == j % c ==> i == j
  {
    var d := j / c - i / c;
    assert j - i == d * c + (j % c - i % c);
    Multiples(d, c);
  }

  /** The ring's slots are in use from 0 up to the number of values or the capacity, and hold exactly
      the last values, each in the slot of its number modulo the capacity. */
  lemma {:induction false} RingHoldsLast<T>(xs: seq<T>, capacity: nat)
    requires capacity > 0 && |xs| < U64
    ensures var r := PushAll(xs, capacity);
      && r.index == |xs|
      && (forall k: nat :: k in r.slots <==> k < Least(|xs|, capacity))
      && (forall j: nat :: Kept(j, |xs|, capacity) ==> j % capacity in r.slots && r.slots[j % capacity] == xs[j])
  {
    hide Push;
    if xs != [] {
      RingHoldsLast(xs[..|xs| - 1], capacity);
      PushHoldsLast(PushAll(xs[..|xs| - 1], capacity), xs, capacity);
    }
  }

  lemma PushHoldsLast<T>(r: Ring<T>, xs: seq<T>, capacity: nat)
    requires capacity > 0 && 0 < |xs| < U64 && r.index == |xs| - 1
    requires forall k: nat :: k in r.slots <==> k < Least(|xs| - 1, capacity)
    requires forall j: nat :: Kept(j, |xs| - 1, capacity) ==>
      j % capacity in r.slots && r.slots[j % capacity] == xs[..|xs| - 1][j]
    ensures var r' := Push(r, xs[|xs| - 1], capacity);
      && r'.index == |xs|
      && (forall k: nat :: k in r'.slots <==> k < Least(|xs|, capacity))
      && (forall j: nat :: Kept(j, |xs|, capacity) ==> j % capacity in r'.slots && r'.slots[j % capacity] == xs[j])
  {
    var n := |xs| - 1;
    var r' := Push(r, xs[n], capacity);
    SlotOf(n, capacity);
    forall j: nat | Kept(j, |xs|, capacity)
      ensures j % capacity in r'.slots && r'.slots[j % capacity] == xs[j]
    {
      if j < n {
        SlotsDiffer(j, n, capacity);
        assert Kept(j, n, capacity) && xs[..n][j] == xs[j];
      }
    }
  }

  /** Every slot in use holds one of the last values. */
  lemma {:induction false} SlotsHoldLast<T>(xs: seq<T>, capacity: nat, k: nat) returns (j: nat)
    requires capacity > 0 && |xs| < U64 && k < Least(|xs|, capacity)
    ensures Kept(j, |xs|, capacity) && j % capacity == k
    ensures k in PushAll(xs, capacity).slots && PushAll(xs, capacity).slots[k] == xs[j]
  {
    RingHoldsLast(xs, capacity);
    j := NumberInSlot(|xs|, capacity, k);
  }

  lemma {:induction false} NumberInSlot(n: nat, capacity: nat, k: nat) returns (j: nat)
    requires k < Least(n, capacity)
    ensures Kept(j, n, capacity) && j % capacity == k
  {
    SlotOf(n - 1, capacity);
    if (n - 1) % capacity == k {
      j := n - 1;
    } else {
      j := NumberInSlot(n - 1, capacity, k);
      SlotOf(j, capacity);
    }
  }

  // ---- visiting the slots in an order that is not known ----

  /** xs are the values of the distinct slots ks. */
  ghost predicate Picks<T>(slots: map<nat, T>, ks: seq<nat>, xs: seq<T>) {
    && |ks| == |xs|
    && (forall i :: 0 <= i < |ks| ==> ks[i] in slots && xs[i] == slots[ks[i]])
    && forall i, j :: 0 <= i < j < |ks| ==> ks[i] != ks[j]
  }

  /** Collect every slot's value, in some order. */
  method Collect<T>(slots: map<nat, T>) returns (xs: seq<T>, ghost ks: seq<nat>)
    ensures Picks(slots, ks, xs) && |xs| == |slots|
  {
    xs, ks := [], [];
    var left := slots.Keys;
    while left != {}
      invariant left <= slots.Keys && Picks(slots, ks, xs) && |xs| + |left| == |slots|
      invariant forall i :: 0 <= i < |ks| ==> ks[i] !in left
      decreases left
    {
      var k :| k in left;
      left := left - {k};
      xs, ks := xs + [slots[k]], ks + [k];
    }
  }

  lemma {:induction false} SlotCount<T>(slots: map<nat, T>, n: nat)
    requires forall k: nat :: k in slots <==> k < n
    ensures |slots| == n
  {
    if n > 0 {
      var fewer := slots - {n - 1};
      SlotCount(fewer, n - 1);
      assert slots.Keys == fewer.Keys + {n - 1};
    }
  }
}
