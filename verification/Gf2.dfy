/** Polynomials over GF(2): the arithmetic in which a CRC is defined. */
module Gf2 {
  import opened Words

  /** A polynomial is the set of exponents whose coefficient is 1. */
  type Poly = set<nat>

  function Add(p: Poly, q: Poly): Poly {
    (p - q) + (q - p)
  }

  /** x^k * p */
  function Shift(p: Poly, k: nat): (s: Poly)
    ensures forall j: nat {:trigger j in s} :: j in s <==> k <= j && j - k in p
  {
    var s := set i | i in p :: i + k;
    assert forall j: nat {:trigger j in s} :: j in s <==> k <= j && j - k in p by {
      forall j: nat ensures j in s <==> k <= j && j - k in p {
        if k <= j && j - k in p { assert (j - k) + k in s; }
      }
    }
    s
  }

  /** The polynomial whose coefficients are listed with the highest power first. */
  function Coefficients(bits: seq<bool>): Poly {
    set i: nat | i < |bits| && CoefficientOf(bits, i)
  }

  /** The coefficient of x^i. */
  predicate CoefficientOf(bits: seq<bool>, i: nat) {
    i < |bits| && bits[|bits| - 1 - i]
  }

  /** The product of g with the polynomial listed in q, by Horner's rule. */
  function Product(q: seq<bool>, g: Poly): Poly {
    if q == [] then {}
    else Add(Shift(Product(q[..|q| - 1], g), 1), if q[|q| - 1] then g else {})
  }

  ghost predicate HasDegree(g: Poly, d: nat) {
    d in g && forall i :: i in g ==> i <= d
  }

  ghost predicate DegreeBelow(p: Poly, d: nat) {
    forall i :: i in p ==> i < d
  }

  /** p = q * g + r */
  ghost predicate Quotient(p: Poly, g: Poly, r: Poly, q: seq<bool>) {
    p == Add(Product(q, g), r)
  }

  /** r is what is left of p after division by g, a polynomial of degree d. */
  ghost predicate IsRemainder(p: Poly, g: Poly, d: nat, r: Poly) {
    DegreeBelow(r, d) && exists q :: Quotient(p, g, r, q)
  }

  function Zeros(n: nat): (z: seq<bool>)
    ensures |z| == n && forall i :: 0 <= i < n ==> !z[i]
  {
    seq(n, _ => false)
  }

  /** Listing one more coefficient multiplies by x and adds the constant term. */
  lemma CoefficientsSnoc(m: seq<bool>, b: bool)
    ensures Coefficients(m + [b]) == Add(Shift(Coefficients(m), 1), if b then {0} else {})
  {}

  lemma ShiftAdd(p: Poly, q: Poly, k: nat)
    ensures Shift(Add(p, q), k) == Add(Shift(p, k), Shift(q, k))
  {}

  /** Multiplication distributes over addition of the listed factor. */
  lemma {:induction false} ProductXor(a: seq<bool>, b: seq<bool>, g: Poly)
    requires |a| == |b|
    ensures Product(Xor(a, b), g) == Add(Product(a, g), Product(b, g))
  {
    if a != [] {
      var n := |a| - 1;
      ProductXor(a[..n], b[..n], g);
      assert Xor(a, b)[..n] == Xor(a[..n], b[..n]);
      ShiftAdd(Product(a[..n], g), Product(b[..n], g), 1);
    }
  }

  /** Leading zero coefficients do not matter. */
  lemma {:induction false} ProductPad(n: nat, q: seq<bool>, g: Poly)
    ensures Product(Zeros(n) + q, g) == Product(q, g)
  {
    var z := Zeros(n) + q;
    if q != [] {
      assert z[..|z| - 1] == Zeros(n) + q[..|q| - 1];
      ProductPad(n, q[..|q| - 1], g);
    } else if n > 0 {
      assert z[..|z| - 1] == Zeros(n - 1) + [];
      ProductPad(n - 1, [], g);
    }
  }

  /** A factor with leading coefficient 1 raises the degree by its own. */
  lemma {:induction false} ProductDegree(q: seq<bool>, g: Poly, d: nat)
    requires HasDegree(g, d) && q != [] && q[0]
    ensures HasDegree(Product(q, g), |q| - 1 + d)
  {
    if |q| > 1 {
      ProductDegree(q[..|q| - 1], g, d);
    } else {
      assert q[..|q| - 1] == [];
      assert Shift({}, 1) == {};
      assert Product(q, g) == g;
    }
  }

  /** No multiple of g other than zero is of lower degree than g. */
  lemma {:induction false} SmallMultipleIsZero(q: seq<bool>, g: Poly, d: nat)
    requires HasDegree(g, d) && DegreeBelow(Product(q, g), d)
    ensures Product(q, g) == {}
  {
    if q != [] {
      if q[0] {
        ProductDegree(q, g, d);
      } else {
        assert q == Zeros(1) + q[1..];
        ProductPad(1, q[1..], g);
        SmallMultipleIsZero(q[1..], g, d);
      }
    }
  }

  /** The sum of two multiples of g is a multiple of g. */
  lemma SumOfMultiples(a: seq<bool>, b: seq<bool>, g: Poly) returns (q: seq<bool>)
    ensures Product(q, g) == Add(Product(a, g), Product(b, g))
    decreases |b| < |a|
  {
    if |a| <= |b| {
      var pad := Zeros(|b| - |a|) + a;
      ProductPad(|b| - |a|, a, g);
      ProductXor(pad, b, g);
      q := Xor(pad, b);
    } else {
      q := SumOfMultiples(b, a, g);
    }
  }

  lemma RemainderIsUnique(p: Poly, g: Poly, d: nat, r: Poly, r': Poly)
    requires HasDegree(g, d)
    requires IsRemainder(p, g, d, r) && IsRemainder(p, g, d, r')
    ensures r == r'
  {
    var a :| Quotient(p, g, r, a);
    var b :| Quotient(p, g, r', b);
    var q := SumOfMultiples(a, b, g);
    assert Product(q, g) == Add(r, r');
    SmallMultipleIsZero(q, g, d);
    assert forall i :: i in r <==> i in r' by {
      assert forall i :: i in Add(r, r') <==> (i in r) != (i in r');
    }
  }

  ghost predicate IsMultiple(p: Poly, g: Poly) {
    exists q :: Quotient(p, g, {}, q)
  }

  lemma AddTwice(p: Poly, q: Poly)
    ensures Add(p, Add(p, q)) == q
  {}

  lemma AddCancels(p: Poly, q: Poly, r: Poly)
    ensures Add(Add(p, r), Add(q, r)) == Add(p, q)
    ensures Add(Add(p, r), q) == Add(Add(p, q), r)
  {}

  /** Two polynomials leave the same remainder exactly when their difference is a multiple. */
  lemma SameRemainder(p: Poly, p': Poly, g: Poly, d: nat, r: Poly)
    requires IsRemainder(p, g, d, r)
    ensures IsRemainder(p', g, d, r) <==> IsMultiple(Add(p, p'), g)
  {
    var a :| Quotient(p, g, r, a);
    if b :| Quotient(p', g, r, b) {
      AddCancels(Product(a, g), Product(b, g), r);
      var q := SumOfMultiples(a, b, g);
      assert Quotient(Add(p, p'), g, {}, q);
    }
    if q :| Quotient(Add(p, p'), g, {}, q) {
      AddTwice(p, p');
      AddCancels(Product(a, g), Product(q, g), r);
      var b := SumOfMultiples(a, q, g);
      assert Quotient(p', g, r, b);
    }
  }

  lemma ProductTimesX(q: seq<bool>, g: Poly)
    ensures Product(q + [false], g) == Shift(Product(q, g), 1)
  {}

  lemma {:induction false} ProductShift(q: seq<bool>, g: Poly, k: nat)
    ensures Product(q + Zeros(k), g) == Shift(Product(q, g), k)
  {
    if k == 0 {
      assert q + Zeros(0) == q;
    } else {
      ProductShift(q, g, k - 1);
      ProductTimesX(q + Zeros(k - 1), g);
      assert q + Zeros(k) == q + Zeros(k - 1) + [false];
    }
  }

  /** When g has a constant term, powers of x neither make nor spoil a multiple. */
  lemma ShiftedMultiple(p: Poly, k: nat, g: Poly)
    requires 0 in g
    ensures IsMultiple(Shift(p, k), g) <==> IsMultiple(p, g)
  {
    if q :| Quotient(Shift(p, k), g, {}, q) {
      var q' := DivideByPowerOfX(p, k, q, g);
      assert Quotient(p, g, {}, q');
    }
    if q :| Quotient(p, g, {}, q) {
      ProductShift(q, g, k);
      assert Quotient(Shift(p, k), g, {}, q + Zeros(k));
    }
  }

  /** A multiple of g that is divisible by x^k comes from a multiple of g divided by x^k. */
  lemma {:induction false} DivideByPowerOfX(b: Poly, k: nat, q: seq<bool>, g: Poly) returns (q': seq<bool>)
    requires 0 in g && Product(q, g) == Shift(b, k)
    ensures Product(q', g) == b
    decreases k
  {
    if k == 0 {
      q' := q;
    } else if q == [] {
      assert forall i: nat :: i in b <==> i + k in Shift(b, k);
      q' := [];
    } else {
      var m := q[..|q| - 1];
      assert !q[|q| - 1] by {
        assert 0 !in Shift(b, k);
        assert 0 !in Shift(Product(m, g), 1);
      }
      assert Product(q, g) == Shift(Product(m, g), 1);
      assert Product(m, g) == Shift(b, k - 1) by {
        forall i: nat ensures i in Product(m, g) <==> i in Shift(b, k - 1) {
          assert i + 1 in Shift(Product(m, g), 1) <==> i in Product(m, g);
          assert i + 1 in Shift(b, k) <==> i in Shift(b, k - 1);
        }
      }
      q' := DivideByPowerOfX(b, k - 1, m, g);
    }
  }

  /** A nonzero polynomial of lower degree than g is no multiple of g, wherever it is shifted to. */
  lemma BurstIsNotMultiple(b: Poly, k: nat, g: Poly, d: nat)
    requires HasDegree(g, d) && 0 in g
    requires b != {} && DegreeBelow(b, d)
    ensures !IsMultiple(Shift(b, k), g)
  {
    ShiftedMultiple(b, k, g);
    if q :| Quotient(b, g, {}, q) { SmallMultipleIsZero(q, g, d); }
  }
}
