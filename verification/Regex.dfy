/** The part of the regex language that the injection patterns use, matched leftmost-first. */
module Regex {
  import opened Wrappers
  import opened Text

  datatype Re =
    | Word(w: string)          // case-insensitively; w in lower case
    | Spaces(atLeast: nat)     // \s* and \s+
    | Cat(first: Re, second: Re)
    | Alt(left: Re, right: Re)
    | Opt(body: Re)

  // ---- which strings an expression matches ----

  /** Simple case folding: x folds to the lower-case letter c. The Kelvin sign and the long s fold to
      k and s. */
  predicate Folds(c: char, x: char) {
    || x == c
    || ('a' <= c <= 'z' && x as int == c as int - 32)
    || (c == 's' && x == '\U{017F}')
    || (c == 'k' && x == '\U{212A}')
  }

  predicate MatchesWord(w: string, s: string) {
    |s| == |w| && forall i :: 0 <= i < |w| ==> Folds(w[i], s[i])
  }

  /** Lower case, as far as the words go that are matched: Latin capitals, the long s and the Kelvin sign. */
  function LowerChar(x: char): char {
    if 'A' <= x <= 'Z' then (x as int + 32) as char
    else if x == '\U{017F}' then 's'
    else if x == '\U{212A}' then 'k'
    else x
  }

  function Lowered(s: string): (t: string)
    ensures |t| == |s| && forall i :: 0 <= i < |s| ==> t[i] == LowerChar(s[i])
  {
    seq(|s|, i requires 0 <= i < |s| => LowerChar(s[i]))
  }

  /** A lower-case word matches exactly the texts that are that word in lower case. */
  lemma WordsIgnoreCase(w: string, s: string)
    requires Lowered(w) == w
    ensures MatchesWord(w, s) <==> Lowered(s) == w
  {
    forall i | 0 <= i < |w| && i < |s| ensures Folds(w[i], s[i]) <==> LowerChar(s[i]) == w[i] {
      assert Lowered(w)[i] == w[i];
    }
    if Lowered(s) == w { assert forall i :: 0 <= i < |w| ==> Lowered(s)[i] == w[i]; }
  }

  predicate AllSpace(s: string) {
    forall i :: 0 <= i < |s| ==> IsSpace(s[i])
  }

  ghost predicate Matches(re: Re, s: string)
    decreases re
  {
    match re
    case Word(w) => MatchesWord(w, s)
    case Spaces(n) => |s| >= n && AllSpace(s)
    case Cat(a, b) => exists k: nat :: k <= |s| && Matches(a, s[..k]) && Matches(b, s[k..])
    case Alt(a, b) => Matches(a, s) || Matches(b, s)
    case Opt(a) => s == "" || Matches(a, s)
  }

  // ---- the matcher: all ends of a match that starts at i, most preferred first ----

  /** high, high - 1, ..., low */
  function Descending(high: nat, low: nat): (d: seq<nat>)
    ensures forall e :: e in d <==> low <= e <= high
    ensures forall n :: 0 <= n < |d| ==> low <= d[n] <= high
  {
    if high < low then [] else if high == 0 then [0] else [high] + Descending(high - 1, low)
  }

  function Ends(re: Re, s: string, i: nat): (ends: seq<nat>)
    requires i <= |s|
    ensures forall n :: 0 <= n < |ends| ==> i <= ends[n] <= |s|
    decreases re, 0, 0
  {
    match re
    case Word(w) => if i + |w| <= |s| && MatchesWord(w, s[i..i + |w|]) then [i + |w|] else []
    case Spaces(n) => Descending(SpaceEnd(s, i), i + n)
    case Cat(a, b) => CatEnds(b, s, Ends(a, s, i), i)
    case Alt(a, b) => Ends(a, s, i) + Ends(b, s, i)
    case Opt(a) => Ends(a, s, i) + [i]
  }

  function CatEnds(b: Re, s: string, starts: seq<nat>, i: nat): (ends: seq<nat>)
    requires forall n :: 0 <= n < |starts| ==> i <= starts[n] <= |s|
    ensures forall n :: 0 <= n < |ends| ==> i <= ends[n] <= |s|
    decreases b, 1, |starts|
  {
    if starts == [] then [] else Ends(b, s, starts[0]) + CatEnds(b, s, starts[1..], i)
  }

  lemma {:induction false} CatEndsUnion(b: Re, s: string, starts: seq<nat>, i: nat, e: nat)
    requires forall n :: 0 <= n < |starts| ==> i <= starts[n] <= |s|
    ensures e in CatEnds(b, s, starts, i) <==> exists n :: 0 <= n < |starts| && e in Ends(b, s, starts[n])
  {
    if starts != [] {
      var rest := starts[1..];
      CatEndsUnion(b, s, rest, i, e);
      if n :| 0 <= n < |starts| && e in Ends(b, s, starts[n]) && n > 0 { assert rest[n - 1] == starts[n]; }
      if n :| 0 <= n < |rest| && e in Ends(b, s, rest[n]) { assert starts[n + 1] == rest[n]; }
    }
  }

  lemma {:induction false} CatEndsAt(a: Re, b: Re, s: string, i: nat, k: nat, e: nat)
    requires i <= k <= e <= |s|
    ensures k in Ends(a, s, i) && e in Ends(b, s, k) <==> Matches(a, s[i..e][..k - i]) && Matches(b, s[i..e][k - i..])
    decreases Cat(a, b), 0
  {
    EndsAreMatches(a, s, i, k);
    EndsAreMatches(b, s, k, e);
    assert s[i..e][..k - i] == s[i..k] && s[i..e][k - i..] == s[k..e];
  }

  lemma CatEndsUnfolded(a: Re, b: Re, s: string, i: nat, e: nat)
    requires i <= e <= |s|
    ensures e in Ends(Cat(a, b), s, i) <==> exists k :: i <= k <= e && k in Ends(a, s, i) && e in Ends(b, s, k)
  {
    var starts := Ends(a, s, i);
    CatEndsUnion(b, s, starts, i, e);
    if n :| 0 <= n < |starts| && e in Ends(b, s, starts[n]) { assert starts[n] in starts; }
  }

  lemma {:induction false} CatEndsAreMatches(a: Re, b: Re, s: string, i: nat, e: nat)
    requires i <= e <= |s|
    ensures e in Ends(Cat(a, b), s, i) <==> Matches(Cat(a, b), s[i..e])
    decreases Cat(a, b), 1
  {
    var m := s[i..e];
    CatEndsUnfolded(a, b, s, i, e);
    if e in Ends(Cat(a, b), s, i) {
      var k: nat :| i <= k <= e && k in Ends(a, s, i) && e in Ends(b, s, k);
      CatEndsAt(a, b, s, i, k, e);
    }
    if k: nat :| k <= |m| && Matches(a, m[..k]) && Matches(b, m[k..]) {
      CatEndsAt(a, b, s, i, i + k, e);
    }
  }

  /** The matcher finds exactly the matches. */
  lemma {:induction false} EndsAreMatches(re: Re, s: string, i: nat, e: nat)
    requires i <= e <= |s|
    ensures e in Ends(re, s, i) <==> Matches(re, s[i..e])
    decreases re, 2
  {
    match re
    case Word(w) =>
    case Spaces(n) =>
      var end := SpaceEnd(s, i);
      if e <= end {
        assert AllSpace(s[i..e]);
      } else {
        assert s[i..e][end - i] == s[end];
      }
    case Cat(a, b) =>
      CatEndsAreMatches(a, b, s, i, e);
    case Alt(a, b) =>
      EndsAreMatches(a, s, i, e);
      EndsAreMatches(b, s, i, e);
    case Opt(a) =>
      EndsAreMatches(a, s, i, e);
  }

  // ---- leftmost-first search and replacement ----

  /** The end of the preferred match that starts at i. */
  function MatchAt(re: Re, s: string, i: nat): (e: Option<nat>)
    requires i <= |s|
    ensures e.Some? ==> i <= e.value <= |s| && e.value in Ends(re, s, i)
    ensures e.None? <==> Ends(re, s, i) == []
  {
    var ends := Ends(re, s, i);
    if ends == [] then None else Some(ends[0])
  }

  ghost predicate MatchIn(re: Re, s: string, i: nat, e: nat) {
    i <= e <= |s| && Matches(re, s[i..e])
  }

  ghost predicate Clean(re: Re, s: string) {
    forall i: nat, e: nat :: !MatchIn(re, s, i, e)
  }

  lemma NoMatchAt(re: Re, s: string, i: nat)
    requires i <= |s|
    ensures MatchAt(re, s, i) == None <==> forall e :: !MatchIn(re, s, i, e)
  {
    forall e: nat | i <= e <= |s| ensures e in Ends(re, s, i) <==> MatchIn(re, s, i, e) {
      EndsAreMatches(re, s, i, e);
    }
    if MatchAt(re, s, i).Some? { assert MatchIn(re, s, i, MatchAt(re, s, i).value); }
    if Ends(re, s, i) != [] { assert Ends(re, s, i)[0] in Ends(re, s, i); }
  }

  /** Replace, from position i on, the leftmost match, then the leftmost one after it, and so on. */
  function ReplaceFrom(re: Re, s: string, i: nat, mark: string): string
    requires i <= |s|
    decreases |s| - i
  {
    if i == |s| then ""
    else match MatchAt(re, s, i)
      case Some(e) => mark + if e > i then ReplaceFrom(re, s, e, mark) else [s[i]] + ReplaceFrom(re, s, i + 1, mark)
      case None => [s[i]] + ReplaceFrom(re, s, i + 1, mark)
  }

  function ReplaceAll(re: Re, s: string, mark: string): string {
    ReplaceFrom(re, s, 0, mark)
  }

  lemma ReplaceStep(re: Re, s: string, i: nat, mark: string)
    requires i < |s|
    ensures var m := MatchAt(re, s, i);
      && (m.None? ==> ReplaceFrom(re, s, i, mark) == [s[i]] + ReplaceFrom(re, s, i + 1, mark))
      && (m.Some? && m.value > i ==> ReplaceFrom(re, s, i, mark) == mark + ReplaceFrom(re, s, m.value, mark))
  {}

  // ---- which match is preferred, and what is replaced ----

  /** White space is matched as far as it goes, the left alternative comes first, an option is taken if
      it can be, and of two parts the first one decides before the second. */
  lemma Preferences(a: Re, b: Re, n: nat, s: string, i: nat)
    requires i <= |s|
    ensures MatchAt(Spaces(n), s, i) == if i + n <= SpaceEnd(s, i) then Some(SpaceEnd(s, i)) else None
    ensures MatchAt(Alt(a, b), s, i) == if MatchAt(a, s, i).Some? then MatchAt(a, s, i) else MatchAt(b, s, i)
    ensures MatchAt(Opt(a), s, i) == if MatchAt(a, s, i).Some? then MatchAt(a, s, i) else Some(i)
    ensures MatchAt(Cat(a, b), s, i) == FirstMatch(b, s, Ends(a, s, i))
  {
    FirstOfCat(b, s, Ends(a, s, i), i);
  }

  /** The match from the first of the starts at which there is one. */
  function FirstMatch(b: Re, s: string, starts: seq<nat>): (e: Option<nat>)
    requires forall n :: 0 <= n < |starts| ==> starts[n] <= |s|
  {
    if starts == [] then None
    else if MatchAt(b, s, starts[0]).Some? then MatchAt(b, s, starts[0])
    else FirstMatch(b, s, starts[1..])
  }

  lemma {:induction false} FirstOfCat(b: Re, s: string, starts: seq<nat>, i: nat)
    requires forall n :: 0 <= n < |starts| ==> i <= starts[n] <= |s|
    ensures var ends := CatEnds(b, s, starts, i);
      FirstMatch(b, s, starts) == if ends == [] then None else Some(ends[0])
  {
    hide Ends;
    if starts != [] { FirstOfCat(b, s, starts[1..], i); }
  }

  /** s goes on with the text at i, and no match starts in it. */
  ghost predicate IsText(re: Re, s: string, i: nat, text: string) {
    && i + |text| <= |s| && s[i..i + |text|] == text
    && forall p, e :: i <= p < i + |text| ==> !MatchIn(re, s, p, e)
  }

  /** A text without a match, then a match and what follows it. */
  datatype Scan = End(text: string) | Part(text: string, found: string, rest: Scan)

  /** From position i on, s is the text of the scan, in which no match starts, then the preferred match
      there, and so on. */
  ghost predicate IsScan(re: Re, s: string, i: nat, scan: Scan)
    requires i <= |s|
    decreases scan
  {
    var j := i + |scan.text|;
    && IsText(re, s, i, scan.text)
    && match scan
       case End(_) => j == |s|
       case Part(_, found, rest) =>
         && found != "" && j + |found| <= |s| && s[j..j + |found|] == found
         && MatchAt(re, s, j) == Some(j + |found|)
         && IsScan(re, s, j + |found|, rest)
  }

  function Woven(scan: Scan, mark: string): string {
    match scan
    case End(text) => text
    case Part(text, _, rest) => text + mark + Woven(rest, mark)
  }

  /** What is replaced are just the matches of a scan from the left; everything else stays as it is. */
  lemma {:induction false} OnlyMatchesAreReplaced(re: Re, s: string, i: nat, mark: string) returns (scan: Scan)
    requires i <= |s| && NonEmpty(re)
    ensures IsScan(re, s, i, scan) && ReplaceFrom(re, s, i, mark) == Woven(scan, mark)
    decreases |s| - i
  {
    hide Ends, MatchIn, MatchAt, ReplaceFrom, IsScan;
    if i == |s| {
      scan := End("");
      OutputEnds(re, s, mark);
      EndOfScan(re, s);
    } else if MatchAt(re, s, i).Some? {
      PreferredMatches(re, s, i);
      ReplaceStep(re, s, i, mark);
      var e := MatchAt(re, s, i).value;
      var rest := OnlyMatchesAreReplaced(re, s, e, mark);
      scan := Part("", s[i..e], rest);
      ScanMatch(re, s, i, rest);
    } else {
      ReplaceStep(re, s, i, mark);
      var rest := OnlyMatchesAreReplaced(re, s, i + 1, mark);
      scan := rest.(text := [s[i]] + rest.text);
      ScanText(re, s, i, rest);
    }
  }

  lemma EndOfScan(re: Re, s: string)
    ensures IsScan(re, s, |s|, End(""))
  {}

  lemma ScanMatch(re: Re, s: string, i: nat, rest: Scan)
    requires i < |s| && MatchAt(re, s, i).Some? && i < MatchAt(re, s, i).value
    requires IsScan(re, s, MatchAt(re, s, i).value, rest)
    ensures IsScan(re, s, i, Part("", s[i..MatchAt(re, s, i).value], rest))
  {
    hide Ends, MatchIn, MatchAt;
  }

  lemma ScanText(re: Re, s: string, i: nat, rest: Scan)
    requires i < |s| && MatchAt(re, s, i).None? && IsScan(re, s, i + 1, rest)
    ensures IsScan(re, s, i, rest.(text := [s[i]] + rest.text))
  {
    hide Ends, MatchIn, MatchAt, IsText;
    TextBefore(re, s, i, rest.text);
  }

  lemma TextBefore(re: Re, s: string, i: nat, text: string)
    requires i < |s| && MatchAt(re, s, i).None? && IsText(re, s, i + 1, text)
    ensures IsText(re, s, i, [s[i]] + text)
  {
    hide Ends, MatchIn, MatchAt;
    NoMatchAt(re, s, i);
    var j := i + 1 + |text|;
    assert s[i..j] == [s[i]] + s[i + 1..j];
  }

  lemma PreferredMatches(re: Re, s: string, i: nat)
    requires i <= |s| && NonEmpty(re) && MatchAt(re, s, i).Some?
    ensures i < MatchAt(re, s, i).value <= |s|
  {
    var end := MatchAt(re, s, i).value;
    EndsAreMatches(re, s, i, end);
    NonEmptyMatches(re, s[i..end]);
  }

  /** A part of a clean text is clean. */
  lemma PartIsClean(re: Re, part: string, s: string)
    requires Clean(re, s) && Occurs(part, s)
    ensures Clean(re, part)
  {
    var j :| OccursAt(part, s, j);
    forall i: nat, e: nat ensures !MatchIn(re, part, i, e) {
      if i <= e <= |part| {
        var u := s[j + i..j + e];
        assert |u| == e - i && forall k :: 0 <= k < e - i ==> u[k] == part[i + k];
        assert part[i..e] == u;
        assert !MatchIn(re, s, j + i, j + e);
      }
    }
  }

  lemma {:induction false} CleanIsKept(re: Re, s: string, i: nat, mark: string)
    requires i <= |s| && Clean(re, s)
    ensures ReplaceFrom(re, s, i, mark) == s[i..]
    decreases |s| - i
  {
    if i < |s| {
      NoMatchAt(re, s, i);
      CleanIsKept(re, s, i + 1, mark);
    }
  }

  // ---- conditions under which a replacement removes every match for good ----

  /** Every match has a character. */
  predicate NonEmpty(re: Re) {
    match re
    case Word(w) => w != ""
    case Spaces(n) => n > 0
    case Cat(a, b) => NonEmpty(a) || NonEmpty(b)
    case Alt(a, b) => NonEmpty(a) && NonEmpty(b)
    case Opt(_) => false
  }

  /** No match has the character c. */
  predicate Avoids(re: Re, c: char) {
    match re
    case Word(w) => forall i :: 0 <= i < |w| ==> !Folds(w[i], c)
    case Spaces(_) => !IsSpace(c)
    case Cat(a, b) => Avoids(a, c) && Avoids(b, c)
    case Alt(a, b) => Avoids(a, c) && Avoids(b, c)
    case Opt(a) => Avoids(a, c)
  }

  /** Every match has a character that is not in the given text. */
  predicate HasForeign(re: Re, text: string) {
    match re
    case Word(w) => exists i :: 0 <= i < |w| && ForeignTo(w[i], text)
    case Spaces(n) => n > 0 && forall k :: 0 <= k < |text| ==> !IsSpace(text[k])
    case Cat(a, b) => HasForeign(a, text) || HasForeign(b, text)
    case Alt(a, b) => HasForeign(a, text) && HasForeign(b, text)
    case Opt(_) => false
  }

  predicate ForeignTo(c: char, text: string) {
    forall k :: 0 <= k < |text| ==> !Folds(c, text[k])
  }

  lemma {:induction false} NonEmptyMatches(re: Re, s: string)
    requires NonEmpty(re) && Matches(re, s)
    ensures s != ""
  {
    match re
    case Word(_) =>
    case Spaces(_) =>
    case Cat(a, b) =>
      var k: nat :| k <= |s| && Matches(a, s[..k]) && Matches(b, s[k..]);
      if NonEmpty(a) { NonEmptyMatches(a, s[..k]); } else { NonEmptyMatches(b, s[k..]); }
    case Alt(a, b) =>
      if Matches(a, s) { NonEmptyMatches(a, s); } else { NonEmptyMatches(b, s); }
  }

  lemma {:induction false} AvoidedCharacter(re: Re, c: char, s: string)
    requires Avoids(re, c) && Matches(re, s)
    ensures c !in s
  {
    match re
    case Word(_) =>
    case Spaces(_) =>
    case Cat(a, b) =>
      var k: nat :| k <= |s| && Matches(a, s[..k]) && Matches(b, s[k..]);
      AvoidedCharacter(a, c, s[..k]);
      AvoidedCharacter(b, c, s[k..]);
      assert s == s[..k] + s[k..];
    case Alt(a, b) =>
      if Matches(a, s) { AvoidedCharacter(a, c, s); } else { AvoidedCharacter(b, c, s); }
    case Opt(a) =>
      if s != "" { AvoidedCharacter(a, c, s); }
  }

  lemma {:induction false} ForeignCharacter(re: Re, text: string, s: string)
    requires HasForeign(re, text) && Matches(re, s)
    ensures exists i :: 0 <= i < |s| && s[i] !in text
  {
    match re
    case Word(w) =>
      var i :| 0 <= i < |w| && ForeignTo(w[i], text);
      assert Folds(w[i], s[i]);
    case Spaces(_) =>
      assert IsSpace(s[0]);
    case Cat(a, b) =>
      var k: nat :| k <= |s| && Matches(a, s[..k]) && Matches(b, s[k..]);
      if HasForeign(a, text) {
        ForeignCharacter(a, text, s[..k]);
        var i :| 0 <= i < k && s[..k][i] !in text;
        assert s[i] !in text;
      } else {
        ForeignCharacter(b, text, s[k..]);
        var i :| 0 <= i < |s| - k && s[k..][i] !in text;
        assert s[k + i] !in text;
      }
    case Alt(a, b) =>
      if Matches(a, s) { ForeignCharacter(a, text, s); } else { ForeignCharacter(b, text, s); }
  }

  // ---- a bracketed replacement removes every match ----

  /** What the theorem asks of an expression and of the text between the brackets. */
  predicate Redactable(re: Re, text: string) {
    NonEmpty(re) && Avoids(re, '[') && Avoids(re, ']') && HasForeign(re, text)
  }

  lemma ReplacedFirst(re: Re, s: string, i: nat, text: string)
    requires i < |s| && MatchAt(re, s, i).Some?
    ensures var out := ReplaceFrom(re, s, i, "[" + text + "]"); out != "" && out[0] == '['
  {}

  /** As long as no bracket appears, the output is the input, and no match starts there. */
  lemma {:induction false} CopiedPrefix(re: Re, s: string, i: nat, text: string, n: nat)
    requires i <= |s|
    requires n <= |ReplaceFrom(re, s, i, "[" + text + "]")|
    requires '[' !in ReplaceFrom(re, s, i, "[" + text + "]")[..n]
    ensures i + n <= |s| && ReplaceFrom(re, s, i, "[" + text + "]")[..n] == s[i..i + n]
    ensures n > 0 ==> MatchAt(re, s, i) == None
    decreases |s| - i
  {
    hide Ends, MatchAt, ReplaceFrom;
    var mark := "[" + text + "]";
    var out := ReplaceFrom(re, s, i, mark);
    if n == 0 {
      assert out[..n] == s[i..i + n];
    } else {
      assert out[..n][0] == out[0];
      OutputEnds(re, s, mark);
      if MatchAt(re, s, i).Some? {
        ReplacedFirst(re, s, i, text);
      } else {
        ReplaceStep(re, s, i, mark);
        var rest := ReplaceFrom(re, s, i + 1, mark);
        assert out[..n] == [s[i]] + rest[..n - 1];
        assert rest[..n - 1] == out[..n][1..];
        CopiedPrefix(re, s, i + 1, text, n - 1);
      }
    }
  }

  lemma OutputEnds(re: Re, s: string, mark: string)
    ensures ReplaceFrom(re, s, |s|, mark) == ""
  {}

  /** No match starts in the replacement itself. */
  lemma MatchInBrackets(re: Re, text: string, rest: string, a: nat, e: nat)
    requires Redactable(re, text) && a < |text| + 2
    ensures !MatchIn(re, "[" + text + "]" + rest, a, e)
  {
    var out := "[" + text + "]" + rest;
    if MatchIn(re, out, a, e) {
      var m := out[a..e];
      NonEmptyMatches(re, m);
      AvoidedCharacter(re, '[', m);
      AvoidedCharacter(re, ']', m);
      assert forall k :: a <= k < e ==> m[k - a] == out[k];
      assert out[0] == '[' && out[|text| + 1] == ']';
      assert m == text[a - 1..e - 1];
      ForeignCharacter(re, text, m);
    }
  }

  /** No match starts at a character that was copied. */
  lemma MatchAtCopy(re: Re, s: string, i: nat, text: string, e: nat)
    requires i <= |s| && Redactable(re, text) && MatchAt(re, s, i) == None
    ensures !MatchIn(re, ReplaceFrom(re, s, i, "[" + text + "]"), 0, e)
  {
    var out := ReplaceFrom(re, s, i, "[" + text + "]");
    if MatchIn(re, out, 0, e) {
      AvoidedCharacter(re, '[', out[..e]);
      CopiedPrefix(re, s, i, text, e);
      NoMatchAt(re, s, i);
      assert MatchIn(re, s, i, i + e);
    }
  }

  lemma MatchInRest(re: Re, first: string, rest: string, a: nat, e: nat)
    requires |first| <= a
    ensures MatchIn(re, first + rest, a, e) <==> a <= e && MatchIn(re, rest, a - |first|, e - |first|)
  {
    if a <= e <= |first + rest| {
      assert (first + rest)[a..e] == rest[a - |first|..e - |first|];
    }
  }

  lemma {:induction false} ReplacementIsClean(re: Re, s: string, i: nat, text: string, a: nat, e: nat)
    requires i <= |s| && Redactable(re, text)
    ensures !MatchIn(re, ReplaceFrom(re, s, i, "[" + text + "]"), a, e)
    decreases |s| - i
  {
    hide MatchIn, Redactable, ReplaceFrom, MatchAt, Ends;
    var mark := "[" + text + "]";
    if i < |s| { ReplaceStep(re, s, i, mark); }
    if i == |s| {
      EmptyIsClean(re, s, text, a, e);
    } else if MatchAt(re, s, i).Some? {
      var end := MatchAt(re, s, i).value;
      MatchesAdvance(re, s, i, text);
      var rest := ReplaceFrom(re, s, end, mark);
      if a >= |mark| {
        if a <= e { ReplacementIsClean(re, s, end, text, a - |mark|, e - |mark|); }
        MatchInRest(re, mark, rest, a, e);
      } else {
        MatchInBrackets(re, text, rest, a, e);
      }
    } else if a == 0 {
      MatchAtCopy(re, s, i, text, e);
    } else {
      var rest := ReplaceFrom(re, s, i + 1, mark);
      if a <= e { ReplacementIsClean(re, s, i + 1, text, a - 1, e - 1); }
      MatchInRest(re, [s[i]], rest, a, e);
    }
  }

  lemma MatchesAdvance(re: Re, s: string, i: nat, text: string)
    requires i <= |s| && Redactable(re, text) && MatchAt(re, s, i).Some?
    ensures MatchAt(re, s, i).value > i
  {
    PreferredMatches(re, s, i);
  }

  lemma EmptyIsClean(re: Re, s: string, text: string, a: nat, e: nat)
    requires Redactable(re, text)
    ensures !MatchIn(re, ReplaceFrom(re, s, |s|, "[" + text + "]"), a, e)
  {
    if MatchIn(re, "", a, e) { NonEmptyMatches(re, ""[a..e]); }
  }

  /** After the replacement no match is left, and replacing again changes nothing. */
  lemma RedactionIsClean(re: Re, s: string, text: string)
    requires Redactable(re, text)
    ensures Clean(re, ReplaceAll(re, s, "[" + text + "]"))
    ensures var t := ReplaceAll(re, s, "[" + text + "]"); ReplaceAll(re, t, "[" + text + "]") == t
    ensures ReplaceAll(re, s, "[" + text + "]") == s <==> Clean(re, s)
  {
    var mark := "[" + text + "]";
    var t := ReplaceAll(re, s, mark);
    forall a: nat, e: nat ensures !MatchIn(re, t, a, e) { ReplacementIsClean(re, s, 0, text, a, e); }
    CleanIsKept(re, t, 0, mark);
    if Clean(re, s) { CleanIsKept(re, s, 0, mark); }
  }
}
