/** Strings as sequences of Unicode scalar values: white space, trimming, prefixes. */
module Text {

  /** The Unicode White_Space property, by which trim and the \s class go. */
  predicate IsSpace(c: char) {
    || '\U{0009}' <= c <= '\U{000D}' || c == ' ' || c == '\U{0085}' || c == '\U{00A0}' || c == '\U{1680}'
    || '\U{2000}' <= c <= '\U{200A}' || c == '\U{2028}' || c == '\U{2029}' || c == '\U{202F}'
    || c == '\U{205F}' || c == '\U{3000}'
  }

  /** Where the run of white space that starts at i ends. */
  function SpaceEnd(s: string, i: nat): (e: nat)
    requires i <= |s|
    ensures i <= e <= |s|
    ensures forall k :: i <= k < e ==> IsSpace(s[k])
    ensures e < |s| ==> !IsSpace(s[e])
    decreases |s| - i
  {
    if i < |s| && IsSpace(s[i]) then SpaceEnd(s, i + 1) else i
  }

  /** Where the run of white space that ends at i starts, looking no further back than at low. */
  function SpaceStart(s: string, low: nat, i: nat): (b: nat)
    requires low <= i <= |s|
    ensures low <= b <= i
    ensures forall k :: b <= k < i ==> IsSpace(s[k])
    ensures low < b ==> !IsSpace(s[b - 1])
  {
    if low < i && IsSpace(s[i - 1]) then SpaceStart(s, low, i - 1) else i
  }

  function Trim(s: string): string {
    s[SpaceEnd(s, 0)..SpaceStart(s, SpaceEnd(s, 0), |s|)]
  }

  predicate IsTrimmed(s: string) {
    s == "" || (!IsSpace(s[0]) && !IsSpace(s[|s| - 1]))
  }

  predicate StartsWith(s: string, prefix: string) {
    prefix <= s
  }

  predicate EndsWith(s: string, suffix: string) {
    |suffix| <= |s| && s[|s| - |suffix|..] == suffix
  }

  /** The code points with the White_Space property. */
  lemma SpacesByCode(c: char)
    ensures IsSpace(c) <==> c as int in {
      0x09, 0x0A, 0x0B, 0x0C, 0x0D, 0x20, 0x85, 0xA0, 0x1680, 0x2000, 0x2001, 0x2002, 0x2003, 0x2004, 0x2005,
      0x2006, 0x2007, 0x2008, 0x2009, 0x200A, 0x2028, 0x2029, 0x202F, 0x205F, 0x3000}
  {}

  /** A text has a prefix or suffix exactly if it is that with something after or before it. */
  lemma PrefixAndSuffix(s: string, part: string)
    ensures StartsWith(s, part) <==> exists rest :: s == part + rest
    ensures EndsWith(s, part) <==> exists rest :: s == rest + part
  {
    if StartsWith(s, part) { assert s == part + s[|part|..]; }
    if EndsWith(s, part) { assert s == s[..|s| - |part|] + part; }
    if rest :| s == part + rest { assert (part + rest)[..|part|] == part; }
    if rest :| s == rest + part { assert (rest + part)[|rest|..] == part; }
  }

  /** t occurs in s as a run of consecutive characters. */
  ghost predicate Occurs(t: string, s: string) {
    exists i :: OccursAt(t, s, i)
  }

  ghost predicate OccursAt(t: string, s: string, i: int) {
    0 <= i && i + |t| <= |s| && s[i..i + |t|] == t
  }

  /** Trimming takes out a run of the text that is trimmed. */
  lemma TrimOccurs(s: string)
    ensures Occurs(Trim(s), s)
  {
    assert OccursAt(Trim(s), s, SpaceEnd(s, 0));
  }

  /** Trimming leaves exactly the trimmed strings alone. */
  lemma TrimIdentity(s: string)
    ensures IsTrimmed(Trim(s))
    ensures Trim(s) == s <==> IsTrimmed(s)
  {}

  /** Only the trimmed part that has white space around it alone is what trimming leaves. */
  lemma TrimUnique(s: string, a: nat, b: nat)
    requires a <= b <= |s| && IsTrimmed(s[a..b])
    requires forall k :: 0 <= k < a || b <= k < |s| ==> IsSpace(s[k])
    ensures Trim(s) == s[a..b]
  {}

  /** Trimming takes off the white space around a trimmed text and nothing else. */
  lemma TrimTakesSpaceOff(before: string, t: string, after: string)
    requires IsTrimmed(t) && (forall c :: c in before || c in after ==> IsSpace(c))
    ensures Trim(before + t + after) == t
  {
    var s := before + t + after;
    forall k | 0 <= k < |before| || |before| + |t| <= k < |s| ensures IsSpace(s[k]) {
      assert s[k] in before || s[k] in after;
    }
    assert s[|before|..|before| + |t|] == t;
    TrimUnique(s, |before|, |before| + |t|);
  }

  lemma OccursTransitive(a: string, b: string, c: string)
    requires Occurs(a, b) && Occurs(b, c)
    ensures Occurs(a, c)
  {
    var i :| OccursAt(a, b, i);
    var j :| OccursAt(b, c, j);
    var u := c[j + i..j + i + |a|];
    assert forall k :: 0 <= k < |a| ==> u[k] == b[i + k] == a[k];
    assert OccursAt(a, c, j + i);
  }

  lemma SliceOccurs(s: string, i: nat, j: nat)
    requires i <= j <= |s|
    ensures Occurs(s[i..j], s)
  {
    assert OccursAt(s[i..j], s, i);
  }

  /** Substring search. */
  method Contains(text: string, part: string) returns (b: bool)
    ensures b <==> Occurs(part, text)
  {
    var i := 0;
    while i + |part| <= |text|
      invariant forall j :: 0 <= j < i ==> !OccursAt(part, text, j)
    {
      if text[i..i + |part|] == part {
        assert OccursAt(part, text, i);
        return true;
      }
      i := i + 1;
    }
    b := false;
  }
}
