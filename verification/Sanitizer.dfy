/** The removal of prompt injection phrases. */
module Sanitizer {
  import opened Wrappers
  import opened Text
  import opened Regex

  /** a\s+b */
  function Then(a: Re, b: Re): Re {
    Cat(a, Cat(Spaces(1), b))
  }

  /** (w\s+)? */
  function Maybe(w: string): Re {
    Opt(Cat(Word(w), Spaces(1)))
  }

  function Either(a: string, b: string): Re {
    Alt(Word(a), Word(b))
  }

  function OneOf(a: string, b: string, c: string): Re {
    Alt(Word(a), Either(b, c))
  }

  // ---- the phrases of the source ----

  const IGNORE_PREVIOUS: Re := Then(Word("ignore"), Cat(Maybe("all"), Then(Word("previous"), Word("instructions"))))
  const IGNORE_PRIOR: Re := Then(Word("ignore"), Cat(Maybe("all"), Then(Word("prior"), Word("instructions"))))
  const DISREGARD: Re :=
    Then(Word("disregard"), Cat(Maybe("all"), Then(Word("previous"), OneOf("instructions", "prompts", "rules"))))
  const OVERRIDE_ROLE: Re :=
    Then(Word("override"), Cat(Maybe("the"), Then(Word("assistant"), Then(Word("system"), Word("role")))))
  const YOU_ARE_NOW: Re := Then(Word("you"), Then(Word("are"), Then(Word("now"), Cat(Either("a", "an"), Spaces(1)))))
  const ACT_AS_IF: Re :=
    Then(Word("act"), Then(Word("as"), Then(Word("if"), Then(Word("you"),
      Cat(Maybe("have"), Then(Word("no"), Word("restrictions")))))))
  const FORGET: Re := Then(Word("forget"), Cat(Maybe("all"), Then(Either("your", "previous"), Word("instructions"))))
  const NEW_INSTRUCTION: Re :=
    Then(Word("new"), Cat(Word("instruction"), Cat(Opt(Word("s")), Cat(Spaces(0), Word(":")))))
  const SYSTEM_PROMPT: Re := Cat(Word("system"), Cat(Spaces(0), Cat(Word("prompt"), Cat(Spaces(0), Word(":")))))
  const IMPORTANT: Re := Cat(Word("important:"), Cat(Spaces(0), Then(Word("you"), Cat(Word("must"), Spaces(1)))))
  const FROM_NOW_ON: Re := Then(Word("from"), Then(Word("now"), Then(Word("on"), Then(Word("you"), Word("will")))))
  const YOUR_INSTRUCTIONS: Re := Then(Either("your", "any"), Cat(OneOf("previous", "prior", "existing"), Spaces(1)))
  const DO_NOT_FOLLOW: Re := Then(Word("do"), Then(Word("not"), Then(Either("follow", "obey"), YOUR_INSTRUCTIONS)))
  const JAILBREAK: Re := Word("jailbreak")
  const DAN_MODE: Re := Then(Word("dan"), Word("mode"))
  const DEVELOPER_MODE: Re := Then(Word("developer"), Then(Word("mode"), OneOf("enabled", "activated", "on")))
  const ROLE_PLAY: Re := Word("\U{89D2}\U{8272}\U{626E}\U{6F14}")
  const IGNORE_IN_CHINESE: Re := Word("\U{5FFD}\U{7565}\U{4E4B}\U{524D}\U{7684}\U{6240}\U{6709}\U{6307}\U{4EE4}")

  /** All of them, in the order of the source. */
  const INJECTION_PATTERNS: seq<Re> := [
    IGNORE_PREVIOUS, IGNORE_PRIOR, DISREGARD, OVERRIDE_ROLE, YOU_ARE_NOW, ACT_AS_IF,
    FORGET, NEW_INSTRUCTION, SYSTEM_PROMPT, IMPORTANT, FROM_NOW_ON, DO_NOT_FOLLOW,
    JAILBREAK, DAN_MODE, DEVELOPER_MODE, ROLE_PLAY, IGNORE_IN_CHINESE
  ]

  /** The alternation of several expressions, earlier ones preferred. */
  function AnyOf(res: seq<Re>): Re
    requires res != []
  {
    if |res| == 1 then res[0] else Alt(res[0], AnyOf(res[1..]))
  }

  function InjectionRegex(): Re {
    AnyOf(INJECTION_PATTERNS)
  }

  function Sanitize(text: string): string {
    ReplaceAll(InjectionRegex(), text, "[REDACTED]")
  }

  lemma {:induction false} AnyOfMatches(res: seq<Re>, s: string)
    requires res != []
    ensures Matches(AnyOf(res), s) <==> exists k :: 0 <= k < |res| && Matches(res[k], s)
  {
    if |res| > 1 {
      var rest := res[1..];
      AnyOfMatches(rest, s);
      if k :| 0 <= k < |res| && Matches(res[k], s) && k > 0 { assert Matches(rest[k - 1], s); }
      if k :| 0 <= k < |rest| && Matches(rest[k], s) { assert Matches(res[k + 1], s); }
    }
  }

  /** The match of the first of several expressions that has one. */
  function FirstFound(res: seq<Re>, s: string, i: nat): Option<nat>
    requires i <= |s|
  {
    if res == [] then None
    else if MatchAt(res[0], s, i).Some? then MatchAt(res[0], s, i)
    else FirstFound(res[1..], s, i)
  }

  /** Of several expressions that match at one place the earliest is preferred. */
  lemma {:induction false} AnyOfPrefers(res: seq<Re>, s: string, i: nat)
    requires res != [] && i <= |s|
    ensures MatchAt(AnyOf(res), s, i) == FirstFound(res, s, i)
  {
    hide MatchAt;
    if |res| > 1 {
      AnyOfPrefers(res[1..], s, i);
      Preferences(res[0], AnyOf(res[1..]), 0, s, i);
    } else {
      assert FirstFound(res[1..], s, i) == None;
    }
  }

  lemma {:induction false} AnyOfRedactable(res: seq<Re>, text: string)
    requires res != [] && forall k :: 0 <= k < |res| ==> Redactable(res[k], text)
    ensures Redactable(AnyOf(res), text)
  {
    if |res| > 1 {
      AnyOfRedactable(res[1..], text);
      assert Redactable(res[0], text);
    }
  }

  predicate PlainText(w: string) {
    forall i :: 0 <= i < |w| ==> 'a' <= w[i] <= 'z' || w[i] == ':' || w[i] >= '\U{4E00}'
  }

  /** All words are in lower-case letters, Chinese characters and colons. */
  predicate Plain(re: Re) {
    match re
    case Word(w) => PlainText(w)
    case Spaces(_) => true
    case Cat(a, b) => Plain(a) && Plain(b)
    case Alt(a, b) => Plain(a) && Plain(b)
    case Opt(a) => Plain(a)
  }

  lemma {:induction false} PlainAvoidsBrackets(re: Re)
    requires Plain(re)
    ensures Avoids(re, '[') && Avoids(re, ']')
  {
    match re
    case Word(_) =>
    case Spaces(_) =>
    case Cat(a, b) => PlainAvoidsBrackets(a); PlainAvoidsBrackets(b);
    case Alt(a, b) => PlainAvoidsBrackets(a); PlainAvoidsBrackets(b);
    case Opt(a) => PlainAvoidsBrackets(a);
  }

  lemma PlainWords1()
    ensures PlainText("a") && PlainText("s") && PlainText(":") && PlainText("an")
    ensures PlainText("as") && PlainText("if") && PlainText("no") && PlainText("on")
    ensures PlainText("do") && PlainText("all") && PlainText("the") && PlainText("you")
    ensures PlainText("are") && PlainText("now") && PlainText("act") && PlainText("new")
    ensures PlainText("not") && PlainText("any") && PlainText("dan")
  {}

  lemma PlainWords2()
    ensures PlainText("role") && PlainText("have") && PlainText("your") && PlainText("must")
    ensures PlainText("from") && PlainText("will") && PlainText("obey") && PlainText("mode")
    ensures PlainText("prior") && PlainText("rules")
  {}

  lemma PlainWords3()
    ensures PlainText("ignore") && PlainText("system") && PlainText("forget") && PlainText("prompt")
    ensures PlainText("follow") && PlainText("prompts") && PlainText("enabled")
  {}

  lemma PlainWords4()
    ensures PlainText("previous") && PlainText("override") && PlainText("existing") && PlainText("disregard")
    ensures PlainText("assistant")
  {}

  lemma PlainWords5()
    ensures PlainText("jailbreak") && PlainText("developer") && PlainText("activated") && PlainText("important:")
  {}

  lemma PlainWords6()
    ensures PlainText("instruction") && PlainText("instructions") && PlainText("restrictions")
  {}

  lemma PlainChinese()
    ensures PlainText("\U{89D2}\U{8272}\U{626E}\U{6F14}")
    ensures PlainText("\U{5FFD}\U{7565}\U{4E4B}\U{524D}\U{7684}\U{6240}\U{6709}\U{6307}\U{4EE4}")
  {}

  lemma PatternsArePlain(k: nat)
    requires k < |INJECTION_PATTERNS|
    ensures Plain(INJECTION_PATTERNS[k])
  {
    hide PlainText;
    PlainWords1(); PlainWords2(); PlainWords3(); PlainWords4(); PlainWords5(); PlainWords6();
    PlainChinese();
  }

  /** Every match of a pattern has a character that does not occur in REDACTED: white space, a colon,
      the i of jailbreak or a Chinese character. */
  lemma PatternsAreForeign(k: nat)
    requires k < |INJECTION_PATTERNS|
    ensures NonEmpty(INJECTION_PATTERNS[k]) && HasForeign(INJECTION_PATTERNS[k], "REDACTED")
  {
    ForeignWords();
    NoSpaceInRedacted();
    hide ForeignTo;
  }

  lemma NoSpaceInRedacted()
    ensures forall n: nat :: n > 0 ==> HasForeign(Spaces(n), "REDACTED")
  {}

  lemma ForeignWords()
    ensures ForeignTo("jailbreak"[2], "REDACTED")
    ensures ForeignTo(":"[0], "REDACTED")
    ensures ForeignTo("\U{89D2}\U{8272}\U{626E}\U{6F14}"[0], "REDACTED")
    ensures ForeignTo("\U{5FFD}\U{7565}\U{4E4B}\U{524D}\U{7684}\U{6240}\U{6709}\U{6307}\U{4EE4}"[0], "REDACTED")
  {}

  lemma InjectionIsRedactable()
    ensures Redactable(InjectionRegex(), "REDACTED")
  {
    forall k | 0 <= k < |INJECTION_PATTERNS| ensures Redactable(INJECTION_PATTERNS[k], "REDACTED") {
      PatternsArePlain(k);
      PlainAvoidsBrackets(INJECTION_PATTERNS[k]);
      PatternsAreForeign(k);
    }
    AnyOfRedactable(INJECTION_PATTERNS, "REDACTED");
  }

  /** s[i..e] matches one of the phrases. */
  ghost predicate Phrase(s: string, i: nat, e: nat) {
    i <= e <= |s| && exists k :: 0 <= k < |INJECTION_PATTERNS| && Matches(INJECTION_PATTERNS[k], s[i..e])
  }

  ghost predicate PhraseFree(s: string) {
    forall i: nat, e: nat :: !Phrase(s, i, e)
  }

  lemma PhraseIsMatch(s: string, i: nat, e: nat)
    ensures Phrase(s, i, e) <==> MatchIn(InjectionRegex(), s, i, e)
  {
    if i <= e <= |s| { AnyOfMatches(INJECTION_PATTERNS, s[i..e]); }
  }

  lemma PhraseFreeIsClean(s: string)
    ensures PhraseFree(s) <==> Clean(InjectionRegex(), s)
  {
    forall i: nat, e: nat ensures Phrase(s, i, e) <==> MatchIn(InjectionRegex(), s, i, e) { PhraseIsMatch(s, i, e); }
  }

  // ---- what the parts of the patterns match ----

  /** One and then the other, with white space between them. */
  lemma ThenMatches(a: Re, b: Re, s: string)
    ensures Matches(Then(a, b), s) <==> exists i, j ::
      0 <= i < j <= |s| && Matches(a, s[..i]) && AllSpace(s[i..j]) && Matches(b, s[j..])
  {
    hide Matches;
    if Matches(Then(a, b), s) { var i, j := ThenParts(a, b, s); }
    if i, j :| 0 <= i < j <= |s| && Matches(a, s[..i]) && AllSpace(s[i..j]) && Matches(b, s[j..]) {
      ThenMatch(a, b, s, i, j);
    }
  }

  lemma ThenParts(a: Re, b: Re, s: string) returns (i: nat, j: nat)
    requires Matches(Then(a, b), s)
    ensures i < j <= |s| && Matches(a, s[..i]) && AllSpace(s[i..j]) && Matches(b, s[j..])
  {
    i :| i <= |s| && Matches(a, s[..i]) && Matches(Cat(Spaces(1), b), s[i..]);
    var k := AfterSpaces(b, s[i..]);
    j := i + k;
    assert s[i..][..k] == s[i..j] && s[i..][k..] == s[j..];
  }

  lemma ThenMatch(a: Re, b: Re, s: string, i: nat, j: nat)
    requires i < j <= |s| && Matches(a, s[..i]) && AllSpace(s[i..j]) && Matches(b, s[j..])
    ensures Matches(Then(a, b), s)
  {
    var rest, k := s[i..], j - i;
    assert rest[..k] == s[i..j] && rest[k..] == s[j..];
    assert Matches(Cat(Spaces(1), b), rest) by { SpacesBefore(b, rest, k); }
  }

  lemma SpacesBefore(b: Re, s: string, k: nat)
    requires 0 < k <= |s| && AllSpace(s[..k]) && Matches(b, s[k..])
    ensures Matches(Cat(Spaces(1), b), s)
  {
    assert Matches(Spaces(1), s[..k]);
  }

  lemma AfterSpaces(b: Re, s: string) returns (k: nat)
    requires Matches(Cat(Spaces(1), b), s)
    ensures 0 < k <= |s| && AllSpace(s[..k]) && Matches(b, s[k..])
  {
    k :| k <= |s| && Matches(Spaces(1), s[..k]) && Matches(b, s[k..]);
  }

  /** Nothing, or the word and white space after it. */
  lemma MaybeMatches(w: string, s: string)
    ensures Matches(Maybe(w), s) <==>
      s == "" || exists i :: 0 <= i < |s| && MatchesWord(w, s[..i]) && AllSpace(s[i..])
  {
    if Matches(Maybe(w), s) && s != "" {
      assert Matches(Cat(Word(w), Spaces(1)), s);
      var i: nat :| i <= |s| && Matches(Word(w), s[..i]) && Matches(Spaces(1), s[i..]);
    }
    if i :| 0 <= i < |s| && MatchesWord(w, s[..i]) && AllSpace(s[i..]) {
      var k: nat := i;
      assert Matches(Word(w), s[..k]) && Matches(Spaces(1), s[k..]);
      assert Matches(Cat(Word(w), Spaces(1)), s);
    }
  }

  lemma ChoicePrefers(a: string, b: string, c: string, s: string, i: nat)
    requires i <= |s|
    ensures MatchAt(Either(a, b), s, i) == FirstFound([Word(a), Word(b)], s, i)
    ensures MatchAt(OneOf(a, b, c), s, i) == FirstFound([Word(a), Word(b), Word(c)], s, i)
  {
    assert [Word(a), Word(b), Word(c)][1..] == [Word(b), Word(c)] && [Word(b), Word(c)][1..] == [Word(c)];
    assert AnyOf([Word(c)]) == Word(c) && AnyOf([Word(b), Word(c)]) == Either(b, c);
    assert [Word(a), Word(b)][1..] == [Word(b)] && AnyOf([Word(b)]) == Word(b);
    AnyOfPrefers([Word(a), Word(b)], s, i);
    AnyOfPrefers([Word(a), Word(b), Word(c)], s, i);
  }

  /** A choice of two or three words matches any one of them, the earlier ones preferred. */
  lemma ChoiceMatches(a: string, b: string, c: string, s: string)
    ensures Matches(Either(a, b), s) <==> MatchesWord(a, s) || MatchesWord(b, s)
    ensures Matches(OneOf(a, b, c), s) <==> MatchesWord(a, s) || MatchesWord(b, s) || MatchesWord(c, s)
    ensures forall i: nat :: i <= |s| ==>
      MatchAt(Either(a, b), s, i) == FirstFound([Word(a), Word(b)], s, i)
      && MatchAt(OneOf(a, b, c), s, i) == FirstFound([Word(a), Word(b), Word(c)], s, i)
  {
    forall i: nat | i <= |s|
      ensures MatchAt(Either(a, b), s, i) == FirstFound([Word(a), Word(b)], s, i)
      ensures MatchAt(OneOf(a, b, c), s, i) == FirstFound([Word(a), Word(b), Word(c)], s, i)
    {
      ChoicePrefers(a, b, c, s, i);
    }
    assert Matches(Word(a), s) <==> MatchesWord(a, s);
    assert Matches(Either(b, c), s) <==> MatchesWord(b, s) || MatchesWord(c, s);
  }

  /** Jailbreak is a phrase, in any letters. */
  lemma JailbreakIsPhrase(s: string)
    requires Lowered(s) == "jailbreak"
    ensures Phrase(s, 0, |s|)
  {
    LoweredPlain("jailbreak");
    WordsIgnoreCase("jailbreak", s);
    assert s[0..|s|] == s;
    assert Matches(INJECTION_PATTERNS[12], s);
  }

  /** Sanitized text has no phrase anywhere; sanitizing again changes nothing; and text is left alone
      exactly when it has no phrase. */
  lemma SanitizeRemovesPhrases(text: string)
    ensures PhraseFree(Sanitize(text))
    ensures Sanitize(Sanitize(text)) == Sanitize(text)
    ensures Sanitize(text) == text <==> PhraseFree(text)
  {
    hide PhraseFree, Clean, Redactable, InjectionRegex, ReplaceAll;
    InjectionIsRedactable();
    RedactionIsClean(InjectionRegex(), text, "REDACTED");
    assert "[" + "REDACTED" + "]" == "[REDACTED]";
    PhraseFreeIsClean(text);
    PhraseFreeIsClean(Sanitize(text));
  }

  // ---- upper and lower case ----

  lemma LoweredParts(s: string, i: nat, e: nat)
    requires i <= e <= |s|
    ensures Lowered(s[i..e]) == Lowered(s)[i..e]
  {}

  lemma LoweredConcat(a: string, b: string)
    ensures Lowered(a + b) == Lowered(a) + Lowered(b)
  {}

  lemma LoweredChar(c: char)
    ensures Lowered([c]) == [LowerChar(c)] == Lowered([LowerChar(c)])
  {}

  lemma LoweredPlain(w: string)
    requires PlainText(w)
    ensures Lowered(w) == w
  {}

  lemma LoweredTwice(s: string)
    ensures Lowered(Lowered(s)) == Lowered(s)
  {}

  lemma LoweredSpaces(s: string, i: nat)
    requires i <= |s|
    ensures SpaceEnd(Lowered(s), i) == SpaceEnd(s, i)
    decreases |s| - i
  {
    if i < |s| { LoweredSpaces(s, i + 1); }
  }

  lemma LoweredWord(w: string, s: string, i: nat)
    requires i <= |s| && PlainText(w)
    ensures Ends(Word(w), s, i) == Ends(Word(w), Lowered(s), i)
  {
    if i + |w| <= |s| {
      var part := s[i..i + |w|];
      LoweredPlain(w);
      LoweredParts(s, i, i + |w|);
      LoweredTwice(part);
      WordsIgnoreCase(w, part);
      WordsIgnoreCase(w, Lowered(part));
    }
  }

  lemma {:induction false} LoweredCat(b: Re, s: string, starts: seq<nat>, i: nat)
    requires Plain(b) && forall n :: 0 <= n < |starts| ==> i <= starts[n] <= |s|
    ensures CatEnds(b, s, starts, i) == CatEnds(b, Lowered(s), starts, i)
    decreases b, 1, |starts|
  {
    if starts != [] {
      LoweredEnds(b, s, starts[0]);
      LoweredCat(b, s, starts[1..], i);
    }
  }

  /** The matcher finds the same matches, preferred in the same order, in the text in lower case. */
  lemma {:induction false} LoweredEnds(re: Re, s: string, i: nat)
    requires i <= |s| && Plain(re)
    ensures Ends(re, s, i) == Ends(re, Lowered(s), i)
    decreases re, 0
  {
    match re
    case Word(w) => LoweredWord(w, s, i);
    case Spaces(_) => LoweredSpaces(s, i);
    case Cat(a, b) => LoweredEnds(a, s, i); LoweredCat(b, s, Ends(a, s, i), i);
    case Alt(a, b) => LoweredEnds(a, s, i); LoweredEnds(b, s, i);
    case Opt(a) => LoweredEnds(a, s, i);
  }

  lemma {:induction false} LoweredReplacement(re: Re, s: string, i: nat, mark: string)
    requires i <= |s| && Plain(re) && NonEmpty(re)
    ensures Lowered(ReplaceFrom(re, s, i, mark)) == Lowered(ReplaceFrom(re, Lowered(s), i, mark))
    decreases |s| - i
  {
    hide Ends, ReplaceFrom, MatchAt, Lowered;
    var t := Lowered(s);
    if i == |s| {
      OutputEnds(re, s, mark);
      OutputEnds(re, t, mark);
    } else {
      LoweredMatchAt(re, s, i);
      ReplaceStep(re, s, i, mark);
      ReplaceStep(re, t, i, mark);
      if MatchAt(re, s, i).Some? {
        var e := MatchAt(re, s, i).value;
        PreferredMatches(re, s, i);
        LoweredReplacement(re, s, e, mark);
        LoweredConcat(mark, ReplaceFrom(re, s, e, mark));
        LoweredConcat(mark, ReplaceFrom(re, t, e, mark));
      } else {
        LoweredReplacement(re, s, i + 1, mark);
        LoweredConcat([s[i]], ReplaceFrom(re, s, i + 1, mark));
        LoweredConcat([t[i]], ReplaceFrom(re, t, i + 1, mark));
        LoweredChar(s[i]);
      }
    }
  }

  lemma LoweredMatchAt(re: Re, s: string, i: nat)
    requires i <= |s| && Plain(re)
    ensures MatchAt(re, s, i) == MatchAt(re, Lowered(s), i)
  {
    LoweredEnds(re, s, i);
  }

  lemma LoweredMatch(re: Re, s: string, i: nat, e: nat)
    requires Plain(re)
    ensures MatchIn(re, s, i, e) <==> MatchIn(re, Lowered(s), i, e)
  {
    if i <= e <= |s| {
      LoweredEnds(re, s, i);
      EndsAreMatches(re, s, i, e);
      EndsAreMatches(re, Lowered(s), i, e);
    }
  }

  lemma {:induction false} AnyOfPlain(res: seq<Re>)
    requires res != [] && forall k :: 0 <= k < |res| ==> Plain(res[k])
    ensures Plain(AnyOf(res))
  {
    if |res| > 1 { AnyOfPlain(res[1..]); }
  }

  lemma InjectionIsPlain()
    ensures Plain(InjectionRegex())
  {
    forall k | 0 <= k < |INJECTION_PATTERNS| ensures Plain(INJECTION_PATTERNS[k]) { PatternsArePlain(k); }
    AnyOfPlain(INJECTION_PATTERNS);
  }

  lemma RedactableNonEmpty(re: Re, text: string)
    requires Redactable(re, text)
    ensures NonEmpty(re)
  {}

  /** Texts that differ only in upper and lower case have the same phrases, and what is left of them when
      these are taken out differs only so. */
  lemma SanitizeIgnoresCase(s: string, t: string, i: nat, e: nat)
    requires Lowered(s) == Lowered(t)
    ensures Phrase(s, i, e) <==> Phrase(t, i, e)
    ensures Lowered(Sanitize(s)) == Lowered(Sanitize(t))
  {
    hide InjectionRegex, Plain, Redactable;
    InjectionIsPlain();
    InjectionIsRedactable();
    RedactableNonEmpty(InjectionRegex(), "REDACTED");
    LoweredPhrase(s, i, e);
    LoweredPhrase(t, i, e);
    LoweredReplacement(InjectionRegex(), s, 0, "[REDACTED]");
    LoweredReplacement(InjectionRegex(), t, 0, "[REDACTED]");
  }

  lemma LoweredPhrase(s: string, i: nat, e: nat)
    ensures Phrase(s, i, e) <==> Phrase(Lowered(s), i, e)
  {
    hide *;
    InjectionIsPlain();
    PhraseIsMatch(s, i, e);
    PhraseIsMatch(Lowered(s), i, e);
    LoweredMatch(InjectionRegex(), s, i, e);
  }

  /** The text is cut into texts and the preferred matches between them, and each match is replaced by
      the mark; nothing else is. */
  lemma SanitizeReplacesMatches(text: string) returns (scan: Scan)
    ensures IsScan(InjectionRegex(), text, 0, scan) && Sanitize(text) == Woven(scan, "[REDACTED]")
  {
    hide InjectionRegex, Redactable;
    InjectionIsRedactable();
    RedactableNonEmpty(InjectionRegex(), "REDACTED");
    scan := OnlyMatchesAreReplaced(InjectionRegex(), text, 0, "[REDACTED]");
  }

  // ---- the patterns as they are written ----

  /** The symbols of an expression in regex syntax. */
  function Symbols(re: Re): seq<string>
    decreases re, 1
  {
    match re
    case Word(w) => [w]
    case Spaces(n) => [if n == 0 then "\\s*" else "\\s+"]
    case Cat(a, b) => Symbols(a) + Symbols(b)
    case Alt(_, _) => ["("] + Choices(re) + [")"]
    case Opt(a) => if a.Word? && |a.w| == 1 then [a.w + "?"] else ["("] + Symbols(a) + [")?"]
  }

  function Choices(re: Re): seq<string>
    requires re.Alt?
    decreases re, 0
  {
    Symbols(re.left) + ["|"] + if re.right.Alt? then Choices(re.right) else Symbols(re.right)
  }

  /** Every pattern has the symbols of the source's text after the flag (?i), in lower case. */
  lemma PatternsAsWritten1()
    ensures Symbols(IGNORE_PREVIOUS) == ["ignore", "\\s+", "(", "all", "\\s+", ")?", "previous", "\\s+", "instructions"]
    ensures Symbols(IGNORE_PRIOR) == ["ignore", "\\s+", "(", "all", "\\s+", ")?", "prior", "\\s+", "instructions"]
  {}

  lemma PatternsAsWritten2()
    ensures Symbols(DISREGARD) == [
      "disregard", "\\s+", "(", "all", "\\s+", ")?", "previous", "\\s+", "(", "instructions", "|", "prompts", "|",
      "rules", ")"]
  {}

  lemma PatternsAsWritten3()
    ensures Symbols(OVERRIDE_ROLE) == [
      "override", "\\s+", "(", "the", "\\s+", ")?", "assistant", "\\s+", "system", "\\s+", "role"]
  {}

  lemma PatternsAsWritten4()
    ensures Symbols(YOU_ARE_NOW) == ["you", "\\s+", "are", "\\s+", "now", "\\s+", "(", "a", "|", "an", ")", "\\s+"]
  {}

  lemma PatternsAsWritten5()
    ensures Symbols(ACT_AS_IF) == [
      "act", "\\s+", "as", "\\s+", "if", "\\s+", "you", "\\s+", "(", "have", "\\s+", ")?", "no", "\\s+",
      "restrictions"]
  {}

  lemma PatternsAsWritten6()
    ensures Symbols(FORGET) == [
      "forget", "\\s+", "(", "all", "\\s+", ")?", "(", "your", "|", "previous", ")", "\\s+", "instructions"]
  {}

  lemma PatternsAsWritten7()
    ensures Symbols(NEW_INSTRUCTION) == ["new", "\\s+", "instruction", "s?", "\\s*", ":"]
    ensures Symbols(SYSTEM_PROMPT) == ["system", "\\s*", "prompt", "\\s*", ":"]
    ensures Symbols(IMPORTANT) == ["important:", "\\s*", "you", "\\s+", "must", "\\s+"]
    ensures Symbols(FROM_NOW_ON) == ["from", "\\s+", "now", "\\s+", "on", "\\s+", "you", "\\s+", "will"]
  {
    assert "s" + "?" == "s?";
  }

  lemma PatternsAsWritten8()
    ensures Symbols(DO_NOT_FOLLOW) == ["do"] + ["\\s+"] + (
      ["not"] + ["\\s+"] + (["(", "follow", "|", "obey", ")"] + ["\\s+"] + Symbols(YOUR_INSTRUCTIONS)))
    ensures Symbols(YOUR_INSTRUCTIONS) == [
      "(", "your", "|", "any", ")", "\\s+", "(", "previous", "|", "prior", "|", "existing", ")", "\\s+"]
  {
    var more := Then(Either("follow", "obey"), YOUR_INSTRUCTIONS);
    YourInstructions();
    ThenWritten(Either("follow", "obey"), YOUR_INSTRUCTIONS);
    ThenWritten(Word("not"), more);
    ThenWritten(Word("do"), Then(Word("not"), more));
    FollowOrObey();
    hide Symbols;
  }

  lemma FollowOrObey()
    ensures Symbols(Either("follow", "obey")) == ["(", "follow", "|", "obey", ")"]
    ensures Symbols(Word("do")) == ["do"] && Symbols(Word("not")) == ["not"]
  {}

  lemma ThenWritten(a: Re, b: Re)
    ensures Symbols(Then(a, b)) == Symbols(a) + ["\\s+"] + Symbols(b)
  {
    assert Symbols(Cat(Spaces(1), b)) == Symbols(Spaces(1)) + Symbols(b);
  }

  lemma YourInstructions()
    ensures Symbols(YOUR_INSTRUCTIONS) == [
      "(", "your", "|", "any", ")", "\\s+", "(", "previous", "|", "prior", "|", "existing", ")", "\\s+"]
  {}

  lemma PatternsAsWritten9()
    ensures Symbols(JAILBREAK) == ["jailbreak"]
    ensures Symbols(DAN_MODE) == ["dan", "\\s+", "mode"]
    ensures Symbols(DEVELOPER_MODE) == [
      "developer", "\\s+", "mode", "\\s+", "(", "enabled", "|", "activated", "|", "on", ")"]
    ensures Symbols(ROLE_PLAY) == ["\U{89D2}\U{8272}\U{626E}\U{6F14}"]
    ensures Symbols(IGNORE_IN_CHINESE) == ["\U{5FFD}\U{7565}\U{4E4B}\U{524D}\U{7684}\U{6240}\U{6709}\U{6307}\U{4EE4}"]
  {}

  lemma PartIsPhraseFree(part: string, s: string)
    requires PhraseFree(s) && Occurs(part, s)
    ensures PhraseFree(part)
  {
    hide PhraseFree, Clean, InjectionRegex;
    PhraseFreeIsClean(s);
    PartIsClean(InjectionRegex(), part, s);
    PhraseFreeIsClean(part);
  }
}
