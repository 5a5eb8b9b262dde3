/** Unsigned machine words as bounded numbers, and the bits they are made of. */
module Words {

  type Byte = b: nat | b < 0x100
  type Half = h: nat | h < 0x1_0000
  type Word = w: nat | w < 0x1_0000_0000

  function Pow2(n: nat): (p: nat)
    ensures p > 0
  {
    if n == 0 then 1 else 2 * Pow2(n - 1)
  }

  /** The lowest n bits of v, least significant first. */
  function BitsOf(v: nat, n: nat): (b: seq<bool>)
    ensures |b| == n
  {
    if n == 0 then [] else [v % 2 == 1] + BitsOf(v / 2, n - 1)
  }

  function ValueOf(b: seq<bool>): (v: nat)
    ensures v < Pow2(|b|)
  {
    if b == [] then 0 else (if b[0] then 1 else 0) + 2 * ValueOf(b[1..])
  }

  lemma {:induction false} ValueOfBits(v: nat, n: nat)
    requires v < Pow2(n)
    ensures ValueOf(BitsOf(v, n)) == v
  {
    if n > 0 { ValueOfBits(v / 2, n - 1); }
  }

  lemma {:induction false} HighBitsAreZero(v: nat, n: nat)
    requires v < Pow2(n)
    ensures BitsOf(v, n + 1) == BitsOf(v, n) + [false]
  {
    if n > 0 { HighBitsAreZero(v / 2, n - 1); }
  }

  // ---- 32-bit words ----

  function WordBits(w: Word): (b: seq<bool>)
    ensures |b| == 32
  {
    BitsOf(w, 32)
  }

  lemma WordRange()
    ensures Pow2(32) == 0x1_0000_0000
  {
    assert Pow2(8) == 0x100;
    assert Pow2(16) == 0x1_0000;
    assert Pow2(24) == 0x100_0000;
  }

  function Xor(a: seq<bool>, b: seq<bool>): (c: seq<bool>)
    requires |a| == |b|
    ensures |c| == |a| && forall i :: 0 <= i < |c| ==> c[i] == (a[i] != b[i])
  {
    seq(|a|, i requires 0 <= i < |a| => a[i] != b[i])
  }

  /** The exclusive or of two numbers, bit by bit. */
  function XorNat(a: nat, b: nat): nat
    decreases a + b
  {
    if a == 0 && b == 0 then 0
    else (if a % 2 != b % 2 then 1 else 0) + 2 * XorNat(a / 2, b / 2)
  }

  lemma {:induction false} XorNatStep(a: nat, b: nat)
    ensures XorNat(a, b) % 2 == (if a % 2 != b % 2 then 1 else 0)
    ensures XorNat(a, b) / 2 == XorNat(a / 2, b / 2)
  {}

  lemma XorHead(x: bool, y: bool, a: seq<bool>, b: seq<bool>)
    requires |a| == |b|
    ensures Xor([x] + a, [y] + b) == [x != y] + Xor(a, b)
  {}

  lemma {:induction false} XorNatBits(a: nat, b: nat, n: nat)
    requires a < Pow2(n) && b < Pow2(n)
    ensures XorNat(a, b) < Pow2(n)
    ensures BitsOf(XorNat(a, b), n) == Xor(BitsOf(a, n), BitsOf(b, n))
  {
    XorNatStep(a, b);
    if n > 0 {
      XorNatBits(a / 2, b / 2, n - 1);
      XorHead(a % 2 == 1, b % 2 == 1, BitsOf(a / 2, n - 1), BitsOf(b / 2, n - 1));
    } else {
      assert XorNat(0, 0) == 0;
    }
  }

  function XorWord(a: Word, b: Word): Word {
    WordRange();
    XorNatBits(a, b, 32);
    XorNat(a, b)
  }

  lemma XorWordBits(a: Word, b: Word)
    ensures WordBits(XorWord(a, b)) == Xor(WordBits(a), WordBits(b))
  {
    WordRange();
    XorNatBits(a, b, 32);
  }

  lemma WordBitsInjective(a: Word, b: Word)
    requires WordBits(a) == WordBits(b)
    ensures a == b
  {
    WordRange();
    ValueOfBits(a, 32);
    ValueOfBits(b, 32);
  }

  /** A right shift by one drops the lowest bit and brings in a zero at the top. */
  lemma BitsOfHalf(v: nat, n: nat)
    requires n > 0 && v < Pow2(n)
    ensures BitsOf(v / 2, n) == BitsOf(v, n)[1..] + [false]
  {}

  lemma WordBitsShift(w: Word)
    ensures WordBits(w / 2) == WordBits(w)[1..] + [false]
  {
    WordRange();
    BitsOfHalf(w, 32);
  }
}
