/** HKDF over an HMAC with 32-octet output. */
module Hkdf {
  import opened Wrappers
  import opened Words

  /** Key and data to tag. */
  type Hmac = (seq<Byte>, seq<Byte>) -> seq<Byte>

  const HASH_LENGTH: nat := 32

  ghost predicate TagsAreFull(hmac: Hmac) {
    forall key, data :: |hmac(key, data)| == HASH_LENGTH
  }

  // ---- RFC 5869 ----

  /** Section 2.2: PRK = HMAC(salt, IKM). */
  function Extract(hmac: Hmac, salt: seq<Byte>, secret: seq<Byte>): seq<Byte> {
    hmac(salt, secret)
  }

  /** Section 2.3: T(0) is empty and T(i) = HMAC(PRK, T(i - 1) | info | i). */
  function T(hmac: Hmac, prk: seq<Byte>, info: seq<Byte>, i: nat): seq<Byte>
    requires i <= 255
  {
    if i == 0 then [] else hmac(prk, T(hmac, prk, info, i - 1) + info + [i])
  }

  /** T(1) | ... | T(n) */
  function Joined(hmac: Hmac, prk: seq<Byte>, info: seq<Byte>, n: nat): seq<Byte>
    requires n <= 255
  {
    if n == 0 then [] else Joined(hmac, prk, info, n - 1) + T(hmac, prk, info, n)
  }

  /** ceil(length / 32) */
  function BlocksFor(length: nat): (n: nat)
    ensures n * HASH_LENGTH >= length
    ensures n > 0 ==> (n - 1) * HASH_LENGTH < length
  {
    (length + 31) / 32
  }

  /** Section 2.3, for the lengths that it allows: the first octets of T(1) | T(2) | ... */
  function Expand(hmac: Hmac, prk: seq<Byte>, info: seq<Byte>, length: nat): seq<Byte>
    requires TagsAreFull(hmac) && length <= 255 * HASH_LENGTH
  {
    JoinedLength(hmac, prk, info, BlocksFor(length));
    Joined(hmac, prk, info, BlocksFor(length))[..length]
  }

  lemma {:induction false} JoinedLength(hmac: Hmac, prk: seq<Byte>, info: seq<Byte>, n: nat)
    requires TagsAreFull(hmac) && n <= 255
    ensures |Joined(hmac, prk, info, n)| == n * HASH_LENGTH
  {
    if n > 0 { JoinedLength(hmac, prk, info, n - 1); }
  }

  // ---- the source ----

  /** The i-th block of the source, whose one-octet counter starts over after 255. */
  function Block(hmac: Hmac, prk: seq<Byte>, info: seq<Byte>, i: nat): seq<Byte> {
    if i == 0 then []
    else
      var counter := i % 0x100;
      hmac(prk, (if counter > 1 then Block(hmac, prk, info, i - 1) else []) + info + [counter])
  }

  function Stream(hmac: Hmac, prk: seq<Byte>, info: seq<Byte>, n: nat): seq<Byte> {
    if n == 0 then [] else Stream(hmac, prk, info, n - 1) + Block(hmac, prk, info, n)
  }

  lemma {:induction false} StreamLength(hmac: Hmac, prk: seq<Byte>, info: seq<Byte>, n: nat)
    requires TagsAreFull(hmac)
    ensures |Stream(hmac, prk, info, n)| == n * HASH_LENGTH
  {
    if n > 0 { StreamLength(hmac, prk, info, n - 1); }
  }

  function Derived(hmac: Hmac, prk: seq<Byte>, info: seq<Byte>, length: nat): (key: seq<Byte>)
    requires TagsAreFull(hmac)
    ensures |key| == length
  {
    StreamLength(hmac, prk, info, BlocksFor(length));
    Stream(hmac, prk, info, BlocksFor(length))[..length]
  }

  lemma StartOfStream(hmac: Hmac, prk: seq<Byte>, info: seq<Byte>)
    ensures Stream(hmac, prk, info, 0) == []
  {}

  lemma NextBlock(hmac: Hmac, prk: seq<Byte>, info: seq<Byte>, n: nat)
    ensures var counter: Byte := (n + 1) % 0x100;
      Block(hmac, prk, info, n + 1)
        == hmac(prk, (if counter > 1 then Block(hmac, prk, info, n) else []) + info + [counter])
    ensures Stream(hmac, prk, info, n + 1) == Stream(hmac, prk, info, n) + Block(hmac, prk, info, n + 1)
  {}

  lemma EnoughBlocks(length: nat, n: nat)
    requires n * HASH_LENGTH >= length && (n > 0 ==> (n - 1) * HASH_LENGTH < length)
    ensures n == BlocksFor(length)
  {}

  lemma WholeKey(hmac: Hmac, prk: seq<Byte>, info: seq<Byte>, length: nat)
    requires TagsAreFull(hmac)
    ensures length <= |Stream(hmac, prk, info, BlocksFor(length))|
    ensures Derived(hmac, prk, info, length) == Stream(hmac, prk, info, BlocksFor(length))[..length]
  {
    StreamLength(hmac, prk, info, BlocksFor(length));
  }

  /** In a build that checks for overflow the last counter increment of the 255th block panics. */
  method DeriveKey(hmac: Hmac, secret: seq<Byte>, salt: seq<Byte>, info: seq<Byte>, length: nat, overflowChecks: bool)
    returns (key: Option<seq<Byte>>)
    requires TagsAreFull(hmac)
    ensures key == if overflowChecks && length > 254 * HASH_LENGTH then None
                   else Some(Derived(hmac, Extract(hmac, salt, secret), info, length))
  {
    hide Stream, Block, Derived, BlocksFor;
    var prk := hmac(salt, secret);
    StartOfStream(hmac, prk, info);
    var output: seq<Byte> := [];
    var block: seq<Byte> := seq(32, _ => 0);
    var counter: Byte := 1;
    ghost var n := 0;
    while |output| < length
      invariant counter == (n + 1) % 0x100 && (overflowChecks ==> n < 255)
      invariant n > 0 ==> block == Block(hmac, prk, info, n)
      invariant |Stream(hmac, prk, info, n)| == n * HASH_LENGTH
      invariant output ==
        if n * HASH_LENGTH <= length then Stream(hmac, prk, info, n) else Stream(hmac, prk, info, n)[..length]
      invariant n > 0 ==> (n - 1) * HASH_LENGTH < length
      decreases length - |output|
    {
      var data: seq<Byte> := [];
      if counter > 1 {
        data := data + block;
      }
      data := data + info;
      data := data + [counter];
      block := hmac(prk, data);
      ghost var fed := if counter > 1 then Block(hmac, prk, info, n) else [];
      assert data == fed + info + [counter];
      NextBlock(hmac, prk, info, n);
      assert block == Block(hmac, prk, info, n + 1);
      StreamLength(hmac, prk, info, n + 1);
      var remaining := length - |output|;
      var toTake := if remaining < 32 then remaining else 32;
      output := output + block[..toTake];
      n := n + 1;
      if counter == 255 && overflowChecks {
        return None;
      }
      counter := (counter + 1) % 0x100;
    }
    EnoughBlocks(length, n);
    WholeKey(hmac, prk, info, length);
    assert output == Stream(hmac, prk, info, n)[..length];
    key := Some(output);
  }

  // ---- what the derived key is ----

  lemma {:induction false} BlockIsT(hmac: Hmac, prk: seq<Byte>, info: seq<Byte>, i: nat)
    requires i <= 255
    ensures Block(hmac, prk, info, i) == T(hmac, prk, info, i)
  {
    if i > 0 {
      BlockIsT(hmac, prk, info, i - 1);
      if i == 1 { assert T(hmac, prk, info, 0) == []; }
    }
  }

  lemma {:induction false} StreamIsJoined(hmac: Hmac, prk: seq<Byte>, info: seq<Byte>, n: nat)
    requires n <= 255
    ensures Stream(hmac, prk, info, n) == Joined(hmac, prk, info, n)
  {
    if n > 0 {
      StreamIsJoined(hmac, prk, info, n - 1);
      BlockIsT(hmac, prk, info, n);
    }
  }

  /** For every length that RFC 5869 allows, the derived key is the one it defines. */
  lemma DerivesRfcKey(hmac: Hmac, secret: seq<Byte>, salt: seq<Byte>, info: seq<Byte>, length: nat)
    requires TagsAreFull(hmac) && length <= 255 * HASH_LENGTH
    ensures Derived(hmac, Extract(hmac, salt, secret), info, length)
         == Expand(hmac, Extract(hmac, salt, secret), info, length)
  {
    StreamIsJoined(hmac, Extract(hmac, salt, secret), info, BlocksFor(length));
  }

  lemma {:induction false} StreamGrows(hmac: Hmac, prk: seq<Byte>, info: seq<Byte>, n: nat, m: nat)
    requires n <= m
    ensures Stream(hmac, prk, info, n) <= Stream(hmac, prk, info, m)
    decreases m
  {
    if n < m { StreamGrows(hmac, prk, info, n, m - 1); }
  }

  /** A shorter key is always a prefix of a longer one. */
  lemma ShorterIsPrefix(hmac: Hmac, prk: seq<Byte>, info: seq<Byte>, short: nat, long: nat)
    requires TagsAreFull(hmac) && short <= long
    ensures Derived(hmac, prk, info, short) <= Derived(hmac, prk, info, long)
  {
    var n, m := BlocksFor(short), BlocksFor(long);
    StreamGrows(hmac, prk, info, n, m);
    StreamLength(hmac, prk, info, n);
    StreamLength(hmac, prk, info, m);
    var s, l := Stream(hmac, prk, info, n), Stream(hmac, prk, info, m);
    assert s == l[..|s|];
  }

  lemma {:induction false} BlocksRepeat(hmac: Hmac, prk: seq<Byte>, info: seq<Byte>, i: nat)
    requires i > 0
    ensures Block(hmac, prk, info, i + 0x100) == Block(hmac, prk, info, i)
  {
    if i % 0x100 > 1 { BlocksRepeat(hmac, prk, info, i - 1); }
  }

  /** Block i, found in the stream. */
  lemma {:induction false} StreamBlock(hmac: Hmac, prk: seq<Byte>, info: seq<Byte>, n: nat, i: nat)
    requires TagsAreFull(hmac) && i < n
    ensures i * HASH_LENGTH + HASH_LENGTH <= |Stream(hmac, prk, info, n)|
    ensures Stream(hmac, prk, info, n)[i * HASH_LENGTH..i * HASH_LENGTH + HASH_LENGTH] == Block(hmac, prk, info, i + 1)
    decreases n
  {
    StreamLength(hmac, prk, info, n - 1);
    if i < n - 1 {
      StreamBlock(hmac, prk, info, n - 1, i);
    }
  }

  /** Past the lengths that RFC 5869 allows, a build without overflow checks repeats its key stream
      every 256 blocks. */
  lemma LongKeysRepeat(hmac: Hmac, prk: seq<Byte>, info: seq<Byte>, length: nat, p: nat)
    requires TagsAreFull(hmac) && p + 0x100 * HASH_LENGTH < length
    ensures var key := Derived(hmac, prk, info, length); key[p + 0x100 * HASH_LENGTH] == key[p]
  {
    var n := BlocksFor(length);
    var stream := Stream(hmac, prk, info, n);
    StreamLength(hmac, prk, info, n);
    var i, k := p / HASH_LENGTH, p % HASH_LENGTH;
    StreamBlock(hmac, prk, info, n, i);
    StreamBlock(hmac, prk, info, n, i + 0x100);
    BlocksRepeat(hmac, prk, info, i + 1);
    var a, b := stream[i * HASH_LENGTH..i * HASH_LENGTH + HASH_LENGTH],
                stream[(i + 0x100) * HASH_LENGTH..(i + 0x100) * HASH_LENGTH + HASH_LENGTH];
    assert a == b && a[k] == stream[p] && b[k] == stream[p + 0x100 * HASH_LENGTH];
  }
}
