/** The CRC-32 of the binary protocol: a shift register that divides over GF(2). */
module Crc32 {
  import opened Words
  import opened Gf2

  const ONES: Word := 0xFFFF_FFFF

  /** The generator as the source writes it: bit 31 is the coefficient of x^0. */
  const REFLECTED: Word := 0xEDB8_8320

  /** x^32 + x^26 + x^23 + x^22 + x^16 + x^12 + x^11 + x^10 + x^8 + x^7 + x^5 + x^4 + x^2 + x + 1,
      the CRC-32 generator of ISO 3309, to which section 2.3.1 of RFC 1952 refers. */
  const GENERATOR: Poly := set i | 0 <= i <= 32 && InGenerator(i)

  predicate InGenerator(i: nat) {
    || i == 32 || i == 26 || i == 23 || i == 22 || i == 16 || i == 12 || i == 11 || i == 10
    || i == 8 || i == 7 || i == 5 || i == 4 || i == 2 || i == 1 || i == 0
  }

  // ---- the source's register ----

  function Step(crc: Word): Word {
    if crc % 2 != 0 then XorWord(crc / 2, REFLECTED) else crc / 2
  }

  function Steps(crc: Word, n: nat): Word {
    if n == 0 then crc else Step(Steps(crc, n - 1))
  }

  function Feed(crc: Word, data: seq<Byte>): Word {
    if data == [] then crc
    else Steps(XorWord(Feed(crc, data[..|data| - 1]), data[|data| - 1]), 8)
  }

  function Checksum(data: seq<Byte>): Word {
    XorWord(Feed(ONES, data), ONES)
  }

  method CalculateChecksum(data: seq<Byte>) returns (crc: Word)
    ensures crc == Checksum(data)
  {
    crc := 0xFFFF_FFFF;
    for i := 0 to |data|
      invariant crc == Feed(ONES, data[..i])
    {
      crc := XorWord(crc, data[i]);
      ghost var entered := crc;
      for k := 0 to 8
        invariant crc == Steps(entered, k)
      {
        if crc % 2 != 0 {
          crc := XorWord(crc / 2, 0xEDB8_8320);
        } else {
          crc := crc / 2;
        }
      }
      assert data[..i + 1][..i] == data[..i];
    }
    assert data[..|data|] == data;
    crc := XorWord(crc, 0xFFFF_FFFF);
  }

  // ---- the register, one message bit at a time ----

  /** The message bits in the order in which the register takes them. */
  function MessageBits(data: seq<Byte>): (b: seq<bool>)
    ensures |b| == 8 * |data|
  {
    if data == [] then [] else MessageBits(data[..|data| - 1]) + BitsOf(data[|data| - 1], 8)
  }

  function Turn(r: seq<bool>): (r': seq<bool>)
    requires |r| == 32
    ensures |r'| == 32
  {
    var s := r[1..] + [false];
    if r[0] then Xor(s, WordBits(REFLECTED)) else s
  }

  function TakeBit(r: seq<bool>, m: bool): (r': seq<bool>)
    requires |r| == 32
    ensures |r'| == 32
  {
    Turn(r[0 := r[0] != m])
  }

  function TakeBits(r: seq<bool>, bits: seq<bool>): (r': seq<bool>)
    requires |r| == 32
    ensures |r'| == 32
  {
    if bits == [] then r else TakeBit(TakeBits(r, bits[..|bits| - 1]), bits[|bits| - 1])
  }

  lemma {:induction false} TakeBitsAppend(r: seq<bool>, a: seq<bool>, b: seq<bool>)
    requires |r| == 32
    ensures TakeBits(r, a + b) == TakeBits(TakeBits(r, a), b)
  {
    if b == [] {
      assert a + b == a;
    } else {
      assert (a + b)[..|a + b| - 1] == a + b[..|b| - 1];
      TakeBitsAppend(r, a, b[..|b| - 1]);
    }
  }

  lemma StepIsTurn(c: Word)
    ensures WordBits(Step(c)) == Turn(WordBits(c))
  {
    WordBitsShift(c);
    XorWordBits(c / 2, REFLECTED);
    assert WordBits(c)[0] == (c % 2 == 1);
  }

  lemma {:induction false} ByteBitsPadded(v: nat, n: nat, k: nat)
    requires v < Pow2(n)
    ensures BitsOf(v, n + k) == BitsOf(v, n) + Zeros(k)
  {
    if k == 0 {
    } else {
      ByteBitsPadded(v, n, k - 1);
      Pow2Grows(n, k - 1);
      HighBitsAreZero(v, n + k - 1);
      assert Zeros(k) == Zeros(k - 1) + [false];
    }
  }

  lemma {:induction false} Pow2Grows(n: nat, k: nat)
    ensures Pow2(n) <= Pow2(n + k)
  {
    if k > 0 { Pow2Grows(n, k - 1); }
  }

  /** After k turns the low part of the register still holds the bits not yet taken. */
  lemma {:induction false} ByteTurns(c: Word, b: Byte, k: nat)
    requires k <= 8
    ensures WordBits(Steps(XorWord(c, b), k))
         == Xor(TakeBits(WordBits(c), BitsOf(b, 8)[..k]), BitsOf(b, 8)[k..] + Zeros(24 + k))
  {
    var bits := BitsOf(b, 8);
    if k == 0 {
      XorWordBits(c, b);
      assert Pow2(8) == 0x100;
      ByteBitsPadded(b, 8, 24);
      assert bits[..0] == [] && bits[0..] == bits;
    } else {
      ByteTurns(c, b, k - 1);
      StepIsTurn(Steps(XorWord(c, b), k - 1));
      var r := TakeBits(WordBits(c), bits[..k - 1]);
      var pending := bits[k - 1..] + Zeros(23 + k);
      assert bits[..k][..k - 1] == bits[..k - 1];
      assert bits[k..] + Zeros(24 + k) == pending[1..] + [false];
      TurnOfXor(r, pending);
    }
  }

  lemma TurnOfXor(r: seq<bool>, pending: seq<bool>)
    requires |r| == 32 && |pending| == 32
    ensures Turn(Xor(r, pending)) == Xor(TakeBit(r, pending[0]), pending[1..] + [false])
  {}

  lemma {:induction false} FeedIsTakeBits(c: Word, data: seq<Byte>)
    ensures WordBits(Feed(c, data)) == TakeBits(WordBits(c), MessageBits(data))
  {
    if data != [] {
      var init, last := data[..|data| - 1], data[|data| - 1];
      FeedIsTakeBits(c, init);
      ByteTurns(Feed(c, init), last, 8);
      var bits := BitsOf(last, 8);
      assert bits[..8] == bits && bits[8..] + Zeros(32) == Zeros(32);
      TakeBitsAppend(WordBits(c), MessageBits(init), bits);
    }
  }

  // ---- the register as a polynomial ----

  /** The polynomial held by a register: bit 0 is the coefficient of x^31. */
  function RegisterPoly(c: Word): Poly {
    Coefficients(WordBits(c))
  }

  /** x^32 * M + x^n * (x^31 + ... + 1), for the message M of n bits. */
  function Dividend(m: seq<bool>): Poly {
    Add(Shift(Coefficients(m), 32), Shift(Coefficients(WordBits(ONES)), |m|))
  }

  /** The n-bit word v lists, lowest bit first, the coefficients of x^(n - 1) .. x^0 of the generator. */
  predicate ListsGenerator(v: nat, n: nat) {
    n == 0 || ((v % 2 == 1 <==> InGenerator(n - 1)) && ListsGenerator(v / 2, n - 1))
  }

  lemma {:induction false} ListedCoefficients(v: nat, n: nat)
    requires ListsGenerator(v, n)
    ensures forall i: nat {:trigger CoefficientOf(BitsOf(v, n), i)} :: i < n ==>
      (CoefficientOf(BitsOf(v, n), i) <==> i in GENERATOR)
  {
    if n > 0 {
      ListedCoefficients(v / 2, n - 1);
      var bits, rest := BitsOf(v, n), BitsOf(v / 2, n - 1);
      forall i: nat | i < n ensures CoefficientOf(bits, i) <==> i in GENERATOR {
        if i < n - 1 { assert CoefficientOf(bits, i) == CoefficientOf(rest, i); }
      }
    }
  }

  lemma UpperHalfListsGenerator()
    ensures ListsGenerator(0xEDB8, 16)
  {
    assert ListsGenerator(0xED, 8);
  }

  lemma ReflectedListsGenerator()
    ensures ListsGenerator(REFLECTED, 32)
  {
    UpperHalfListsGenerator();
    assert ListsGenerator(0xED_B883, 24);
  }

  lemma ReflectedGenerator()
    ensures RegisterPoly(REFLECTED) == GENERATOR - {32}
  {
    ReflectedListsGenerator();
    ListedCoefficients(REFLECTED, 32);
  }

  // ---- the checksum is a remainder ----

  lemma DividendSnoc(m: seq<bool>, b: bool)
    ensures Dividend(m + [b]) == Add(Shift(Dividend(m), 1), if b then {32} else {})
  {
    hide Coefficients, WordBits;
    CoefficientsSnoc(m, b);
    var ones := Coefficients(WordBits(ONES));
    assert Shift(Coefficients(m + [b]), 32) == Add(Shift(Shift(Coefficients(m), 32), 1), if b then {32} else {});
    assert Shift(ones, |m| + 1) == Shift(Shift(ones, |m|), 1);
  }

  lemma CoefficientsXor(a: seq<bool>, b: seq<bool>)
    requires |a| == |b|
    ensures Coefficients(Xor(a, b)) == Add(Coefficients(a), Coefficients(b))
  {}

  /** Shifting a register multiplies by x and drops x^|r|. */
  lemma CoefficientsShift(r: seq<bool>)
    requires |r| > 0
    ensures Coefficients(r[1..] + [false]) == Shift(Coefficients(r), 1) - {|r|}
  {}

  /** Multiply by x, take in the message bit, and cancel x^32 if it arose. */
  lemma TakeBitIsDivisionStep(r: seq<bool>, b: bool)
    requires |r| == 32
    ensures Coefficients(TakeBit(r, b))
         == Add(Add(Shift(Coefficients(r), 1), if b then {32} else {}), if r[0] != b then GENERATOR else {})
  {
    var s := r[1..] + [false];
    assert r[0 := r[0] != b][1..] + [false] == s;
    CoefficientsShift(r);
    CoefficientsXor(s, WordBits(REFLECTED));
    ReflectedGenerator();
    assert 32 in Shift(Coefficients(r), 1) <==> CoefficientOf(r, 31);
    assert TakeBit(r, b) == if r[0] != b then Xor(s, WordBits(REFLECTED)) else s;
    assert 32 in GENERATOR;
  }

  lemma DivisionStep(p: Poly, r: Poly, r': Poly, b: bool, carry: bool)
    requires IsRemainder(p, GENERATOR, 32, r) && DegreeBelow(r', 32)
    requires r' == Add(Add(Shift(r, 1), if b then {32} else {}), if carry then GENERATOR else {})
    ensures IsRemainder(Add(Shift(p, 1), if b then {32} else {}), GENERATOR, 32, r')
  {
    var q :| Quotient(p, GENERATOR, r, q);
    var q' := q + [carry];
    assert q'[..|q'| - 1] == q;
    ShiftAdd(Product(q, GENERATOR), r, 1);
    assert Quotient(Add(Shift(p, 1), if b then {32} else {}), GENERATOR, r', q');
  }

  lemma EmptyDividend()
    ensures IsRemainder(Dividend([]), GENERATOR, 32, Coefficients(WordBits(ONES)))
  {
    var ones := Coefficients(WordBits(ONES));
    assert Coefficients([]) == {};
    assert Quotient(Dividend([]), GENERATOR, ones, []);
  }

  lemma {:induction false} TakeBitsIsDivision(m: seq<bool>)
    ensures IsRemainder(Dividend(m), GENERATOR, 32, Coefficients(TakeBits(WordBits(ONES), m)))
  {
    hide Dividend, TakeBit, Coefficients, IsRemainder, WordBits;
    if m == [] {
      EmptyDividend();
    } else {
      var init, b := m[..|m| - 1], m[|m| - 1];
      TakeBitsIsDivision(init);
      var r := TakeBits(WordBits(ONES), init);
      DegreeOfRegister(TakeBit(r, b));
      TakeBitIsDivisionStep(r, b);
      DivisionStep(Dividend(init), Coefficients(r), Coefficients(TakeBit(r, b)), b, r[0] != b);
      DividendSnoc(init, b);
      assert init + [b] == m;
    }
  }

  lemma DegreeOfRegister(r: seq<bool>)
    ensures DegreeBelow(Coefficients(r), |r|)
  {}

  lemma CoefficientsInjective(a: seq<bool>, b: seq<bool>)
    requires |a| == |b| && Coefficients(a) == Coefficients(b)
    ensures a == b
  {
    forall k | 0 <= k < |a| ensures a[k] == b[k] {
      assert |a| - 1 - k in Coefficients(a) <==> |a| - 1 - k in Coefficients(b);
      assert CoefficientOf(a, |a| - 1 - k) == CoefficientOf(b, |a| - 1 - k);
    }
  }

  lemma XorWordTwice(a: Word, b: Word)
    ensures XorWord(XorWord(a, b), b) == a
  {
    XorWordBits(a, b);
    XorWordBits(XorWord(a, b), b);
    assert Xor(Xor(WordBits(a), WordBits(b)), WordBits(b)) == WordBits(a);
    WordBitsInjective(XorWord(XorWord(a, b), b), a);
  }

  /** The checksum is the one word whose complement, read as a polynomial, is the remainder of the
      pre-conditioned message modulo the generator. */
  lemma ChecksumIsRemainder(data: seq<Byte>, c: Word)
    ensures c == Checksum(data) <==>
      IsRemainder(Dividend(MessageBits(data)), GENERATOR, 32, RegisterPoly(XorWord(c, ONES)))
  {
    var p, crc := Dividend(MessageBits(data)), Feed(ONES, data);
    TakeBitsIsDivision(MessageBits(data));
    FeedIsTakeBits(ONES, data);
    XorWordTwice(crc, ONES);
    XorWordTwice(c, ONES);
    if IsRemainder(p, GENERATOR, 32, RegisterPoly(XorWord(c, ONES))) {
      RemainderIsUnique(p, GENERATOR, 32, RegisterPoly(crc), RegisterPoly(XorWord(c, ONES)));
      CoefficientsInjective(WordBits(crc), WordBits(XorWord(c, ONES)));
      WordBitsInjective(crc, XorWord(c, ONES));
    }
  }

  // ---- which damage the checksum sees ----

  lemma DividendDifference(a: seq<bool>, b: seq<bool>)
    requires |a| == |b|
    ensures Add(Dividend(a), Dividend(b)) == Shift(Coefficients(Xor(a, b)), 32)
  {}

  /** Damage that keeps the length goes unseen exactly when the pattern of changed bits is a
      multiple of the generator. */
  lemma UndetectedDamage(a: seq<Byte>, b: seq<Byte>)
    requires |a| == |b|
    ensures Checksum(a) == Checksum(b) <==>
      IsMultiple(Coefficients(Xor(MessageBits(a), MessageBits(b))), GENERATOR)
  {
    var r := RegisterPoly(XorWord(Checksum(a), ONES));
    ChecksumIsRemainder(a, Checksum(a));
    ChecksumIsRemainder(b, Checksum(a));
    SameRemainder(Dividend(MessageBits(a)), Dividend(MessageBits(b)), GENERATOR, 32, r);
    DividendDifference(MessageBits(a), MessageBits(b));
    ShiftedMultiple(Coefficients(Xor(MessageBits(a), MessageBits(b))), 32, GENERATOR);
  }

  lemma ByteBitsInjective(a: Byte, b: Byte)
    requires BitsOf(a, 8) == BitsOf(b, 8)
    ensures a == b
  {
    assert Pow2(8) == 0x100;
    ValueOfBits(a, 8);
    ValueOfBits(b, 8);
  }

  lemma {:induction false} MessageBitsInjective(a: seq<Byte>, b: seq<Byte>)
    requires |a| == |b| && MessageBits(a) == MessageBits(b)
    ensures a == b
  {
    hide BitsOf;
    if a != [] {
      var n := |a| - 1;
      assert MessageBits(a)[..8 * n] == MessageBits(a[..n]) && MessageBits(b)[..8 * n] == MessageBits(b[..n]);
      assert MessageBits(a)[8 * n..] == BitsOf(a[n], 8) && MessageBits(b)[8 * n..] == BitsOf(b[n], 8);
      MessageBitsInjective(a[..n], b[..n]);
      ByteBitsInjective(a[n], b[n]);
      assert a == a[..n] + [a[n]] && b == b[..n] + [b[n]];
    }
  }

  /** Outside the window of w bits from bit s on, the two messages agree. */
  ghost predicate DifferOnlyWithin(a: seq<bool>, b: seq<bool>, s: nat, w: nat) {
    |a| == |b| && forall i :: 0 <= i < |a| && !(s <= i < s + w) ==> a[i] == b[i]
  }

  /** A bit pattern that is zero outside a window of 32 is a shifted polynomial of degree below 32. */
  lemma WindowPoly(x: seq<bool>, s: nat) returns (burst: Poly, k: nat)
    requires forall i :: 0 <= i < |x| && x[i] ==> s <= i < s + 32
    requires exists i :: 0 <= i < |x| && x[i]
    ensures burst != {} && DegreeBelow(burst, 32)
    ensures Coefficients(x) == Shift(burst, k)
  {
    k := if s + 32 <= |x| then |x| - s - 32 else 0;
    burst := set i | i in Coefficients(x) && i >= k :: i - k;
    assert forall i: nat :: CoefficientOf(x, i) ==> k <= i < k + 32;
    var j :| 0 <= j < |x| && x[j];
    assert CoefficientOf(x, |x| - 1 - j);
    assert |x| - 1 - j in Coefficients(x);
    assert |x| - 1 - j - k in burst;
  }

  /** Any damage confined to 32 consecutive bits changes the checksum. */
  lemma BurstIsDetected(a: seq<Byte>, b: seq<Byte>, s: nat)
    requires a != b && |a| == |b| && DifferOnlyWithin(MessageBits(a), MessageBits(b), s, 32)
    ensures Checksum(a) != Checksum(b)
  {
    var x := Xor(MessageBits(a), MessageBits(b));
    if forall i :: 0 <= i < |x| ==> !x[i] {
      assert MessageBits(a) == MessageBits(b);
      MessageBitsInjective(a, b);
    }
    var burst, k := WindowPoly(x, s);
    UndetectedDamage(a, b);
    BurstIsNotMultiple(burst, k, GENERATOR, 32);
  }
}
