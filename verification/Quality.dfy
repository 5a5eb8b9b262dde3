/** The question-answer pairs, the short payload and the quality score. */
module Quality {
  import opened Text
  import opened Markdown
  import opened Compiler

  datatype QaPair = QaPair(question: string, answer: string)

  datatype MiniDocPayload = MiniDocPayload(summary: string, tokenCount: nat, qaPairs: seq<QaPair>)

  const NO_ANSWER: string := "No detailed information available."

  function PairFor(c: ParsedContent, i: nat): QaPair
    requires i < |c.headings|
  {
    QaPair("What is " + c.headings[i] + "?", if i < |c.paragraphs| then c.paragraphs[i] else NO_ANSWER)
  }

  /** Heading i is answered by paragraph i as long as there are paragraphs; 20 pairs are kept. */
  method GenerateQaPairs(c: ParsedContent) returns (pairs: seq<QaPair>)
    ensures |pairs| == (if |c.headings| > 20 then 20 else |c.headings|)
    ensures forall i :: 0 <= i < |pairs| ==> pairs[i] == PairFor(c, i)
  {
    pairs := [];
    var next := 0;
    for i := 0 to |c.headings|
      invariant next == (if i < |c.paragraphs| then i else |c.paragraphs|)
      invariant |pairs| == i && forall k :: 0 <= k < i ==> pairs[k] == PairFor(c, k)
    {
      var answer := "No detailed information available.";
      if next < |c.paragraphs| {
        answer := c.paragraphs[next];
        next := next + 1;
      }
      pairs := pairs + [QaPair("What is " + c.headings[i] + "?", answer)];
    }
    if |pairs| > 20 { pairs := pairs[..20]; }
  }

  // ---- lengths and counts ----

  /** The length of the UTF-8 encoding of a character. */
  function Width(ch: char): nat {
    var c := ch as int;
    if c < 0x80 then 1 else if c < 0x800 then 2 else if c < 0x1_0000 then 3 else 4
  }

  /** The length of the UTF-8 encoding. */
  function ByteLength(s: string): nat {
    if s == "" then 0 else ByteLength(s[..|s| - 1]) + Width(s[|s| - 1])
  }

  /** The UTF-8 encoding of a character, as section 3 of RFC 3629 has it. */
  function Utf8(ch: char): seq<nat> {
    var c := ch as nat;
    if c < 0x80 then [c]
    else if c < 0x800 then [0xC0 + c / 0x40, 0x80 + c % 0x40]
    else if c < 0x1_0000 then [0xE0 + c / 0x1000, 0x80 + c / 0x40 % 0x40, 0x80 + c % 0x40]
    else [0xF0 + c / 0x4_0000, 0x80 + c / 0x1000 % 0x40, 0x80 + c / 0x40 % 0x40, 0x80 + c % 0x40]
  }

  /** The width is the length of the encoding, whose first octet tells it, and whose other octets carry six
      bits each. */
  lemma WidthOfUtf8(ch: char)
    ensures var b, c := Utf8(ch), ch as nat;
      && |b| == Width(ch) && (forall i :: 1 <= i < |b| ==> 0x80 <= b[i] < 0xC0)
      && (|b| == 1 ==> b[0] == c < 0x80)
      && (|b| == 2 ==> 0xC2 <= b[0] < 0xE0 && (b[0] - 0xC0) * 0x40 + b[1] - 0x80 == c)
      && (|b| == 3 ==> 0xE0 <= b[0] < 0xF0 && (b[0] - 0xE0) * 0x1000 + (b[1] - 0x80) * 0x40 + b[2] - 0x80 == c)
      && (|b| == 4 ==> 0xF0 <= b[0] < 0xF5)
      && (|b| == 4 ==> (b[0] - 0xF0) * 0x4_0000 + (b[1] - 0x80) * 0x1000 + (b[2] - 0x80) * 0x40 + b[3] - 0x80 == c)
      && 1 <= |b| <= 4
  {
    SixBits(ch as nat);
  }

  lemma SixBits(c: nat)
    ensures c / 0x1000 == c / 0x40 / 0x40 && c / 0x4_0000 == c / 0x1000 / 0x40
  {}

  function Encoded(s: string): seq<nat> {
    if s == "" then [] else Encoded(s[..|s| - 1]) + Utf8(s[|s| - 1])
  }

  lemma {:induction false} ByteLengthOfUtf8(s: string)
    ensures ByteLength(s) == |Encoded(s)|
  {
    if s != "" {
      ByteLengthOfUtf8(s[..|s| - 1]);
      WidthOfUtf8(s[|s| - 1]);
    }
  }

  /** How many matches a scan from the left finds that do not overlap. */
  function MatchCount(s: string, pattern: string): nat
    requires pattern != ""
    decreases |s|
  {
    if |s| < |pattern| then 0
    else if StartsWith(s, pattern) then 1 + MatchCount(s[|pattern|..], pattern)
    else MatchCount(s[1..], pattern)
  }

  /** The pattern stands at every one of the places, and they do not overlap. */
  ghost predicate Apart(s: string, pattern: string, places: seq<int>) {
    && (forall i :: 0 <= i < |places| ==> OccursAt(pattern, s, places[i]))
    && forall i, j :: 0 <= i < j < |places| ==> places[i] + |pattern| <= places[j]
  }

  function Shifted(places: seq<int>, n: int): (t: seq<int>)
    ensures |t| == |places| && forall i :: 0 <= i < |places| ==> t[i] == places[i] + n
  {
    seq(|places|, i requires 0 <= i < |places| => places[i] + n)
  }

  lemma ShiftedOccurs(s: string, pattern: string, n: nat, i: int)
    requires n <= |s|
    ensures i >= n ==> (OccursAt(pattern, s, i) <==> OccursAt(pattern, s[n..], i - n))
  {
    if i >= n && i + |pattern| <= |s| { assert s[n..][i - n..i - n + |pattern|] == s[i..i + |pattern|]; }
  }

  /** The scan finds as many matches as can be found, if they are not to overlap. */
  lemma {:induction false} MatchCountIsMost(s: string, pattern: string, places: seq<int>)
    requires pattern != "" && Apart(s, pattern, places)
    ensures |places| <= MatchCount(s, pattern)
    decreases |s|
  {
    hide StartsWith, OccursAt, Apart;
    if places != [] {
      FirstPlace(s, pattern, places);
      if StartsWith(s, pattern) {
        PlacesAfter(s, pattern, places[1..], |pattern|);
        MatchCountIsMost(s[|pattern|..], pattern, Shifted(places[1..], -|pattern|));
      } else {
        PlacesAfter(s, pattern, places, 1);
        MatchCountIsMost(s[1..], pattern, Shifted(places, -1));
      }
    }
  }

  lemma FirstPlace(s: string, pattern: string, places: seq<int>)
    requires pattern != "" && Apart(s, pattern, places) && places != []
    ensures |pattern| <= |s| && Apart(s, pattern, places[1..])
    ensures forall i :: 0 <= i < |places| - 1 ==> places[1..][i] >= |pattern|
    ensures !StartsWith(s, pattern) ==> forall i :: 0 <= i < |places| ==> places[i] >= 1
  {
    assert OccursAt(pattern, s, places[0]);
    assert places[0] == 0 ==> s[0..|pattern|] == s[..|pattern|];
  }

  lemma PlacesAfter(s: string, pattern: string, places: seq<int>, n: nat)
    requires n <= |s| && Apart(s, pattern, places) && forall i :: 0 <= i < |places| ==> places[i] >= n
    ensures Apart(s[n..], pattern, Shifted(places, -(n as int)))
  {
    forall i | 0 <= i < |places| ensures OccursAt(pattern, s[n..], places[i] - n) {
      assert OccursAt(pattern, s, places[i]);
      ShiftedOccurs(s, pattern, n, places[i]);
    }
  }

  lemma {:induction false} MatchesFound(s: string, pattern: string) returns (places: seq<int>)
    requires pattern != ""
    ensures Apart(s, pattern, places) && |places| == MatchCount(s, pattern)
    decreases |s|
  {
    hide StartsWith, OccursAt, Apart;
    if |s| < |pattern| {
      places := [];
      assert Apart(s, pattern, places) by { NoPlaces(s, pattern); }
    } else if StartsWith(s, pattern) {
      var rest := MatchesFound(s[|pattern|..], pattern);
      places := [0] + Shifted(rest, |pattern|);
      PlacesBefore(s, pattern, rest, |pattern|);
      PlaceInFront(s, pattern, Shifted(rest, |pattern|));
    } else {
      var rest := MatchesFound(s[1..], pattern);
      places := Shifted(rest, 1);
      PlacesBefore(s, pattern, rest, 1);
    }
  }

  lemma NoPlaces(s: string, pattern: string)
    ensures Apart(s, pattern, [])
  {}

  lemma PlacesBefore(s: string, pattern: string, places: seq<int>, n: nat)
    requires n <= |s| && Apart(s[n..], pattern, places)
    ensures Apart(s, pattern, Shifted(places, n)) && forall i :: 0 <= i < |places| ==> Shifted(places, n)[i] >= n
  {
    forall i | 0 <= i < |places| ensures OccursAt(pattern, s, places[i] + n) && places[i] >= 0 {
      assert OccursAt(pattern, s[n..], places[i]);
      ShiftedOccurs(s, pattern, n, places[i] + n);
    }
  }

  lemma PlaceInFront(s: string, pattern: string, places: seq<int>)
    requires StartsWith(s, pattern) && Apart(s, pattern, places)
    requires forall i :: 0 <= i < |places| ==> places[i] >= |pattern|
    ensures Apart(s, pattern, [0] + places)
  {
    assert OccursAt(pattern, s, 0);
  }

  function PairTokens(pairs: seq<QaPair>): nat {
    if pairs == [] then 0
    else
      var last := pairs[|pairs| - 1];
      PairTokens(pairs[..|pairs| - 1]) + ByteLength(last.question) / 4 + ByteLength(last.answer) / 4
  }

  function Join(parts: seq<string>): string {
    if parts == [] then "" else if |parts| == 1 then parts[0] else parts[0] + " " + Join(parts[1..])
  }

  lemma {:induction false} JoinConcat(a: seq<string>, b: seq<string>)
    requires a != [] && b != []
    ensures Join(a + b) == Join(a) + " " + Join(b)
  {
    if |a| == 1 {
      assert (a + b)[1..] == b;
    } else {
      assert (a + b)[1..] == a[1..] + b;
      JoinConcat(a[1..], b);
    }
  }

  method CompileMdoc(c: ParsedContent) returns (mdoc: MiniDocPayload)
    ensures mdoc.summary == Join(if |c.paragraphs| > 3 then c.paragraphs[..3] else c.paragraphs)
    ensures |mdoc.qaPairs| <= 20 && |mdoc.qaPairs| <= |c.headings|
    ensures forall i :: 0 <= i < |mdoc.qaPairs| ==> mdoc.qaPairs[i] == PairFor(c, i)
    ensures mdoc.tokenCount == ByteLength(mdoc.summary) / 4 + PairTokens(mdoc.qaPairs)
  {
    var summary := Join(if |c.paragraphs| > 3 then c.paragraphs[..3] else c.paragraphs);
    var pairs := GenerateQaPairs(c);
    var summaryTokens, qaTokens := ByteLength(summary) / 4, 0;
    for i := 0 to |pairs|
      invariant qaTokens == PairTokens(pairs[..i])
    {
      assert pairs[..i + 1][..i] == pairs[..i];
      qaTokens := qaTokens + ByteLength(pairs[i].question) / 4 + ByteLength(pairs[i].answer) / 4;
    }
    assert pairs[..|pairs|] == pairs;
    mdoc := MiniDocPayload(summary, summaryTokens + qaTokens, pairs);
  }

  // ---- the score ----

  function Least(a: nat, b: nat): nat {
    if a <= b then a else b
  }

  function Base(doc: FullDocPayload): nat {
    Least(ByteLength(doc.rawMarkdown), 5000) / 10
    + MatchCount(doc.rawMarkdown, "# ") * 5
    + |doc.dataTables| * 15
    + MatchCount(doc.rawMarkdown, "```") / 2 * 10
  }

  function Trust(doc: FullDocPayload): nat {
    if doc.verificationSignature != "unverified" && doc.verificationSignature != "" then 50 else 0
  }

  function SummaryBonus(mdoc: MiniDocPayload): nat {
    if ByteLength(mdoc.summary) > 50 then Least(ByteLength(mdoc.summary), 500) / 5 else 0
  }

  /** n times the multiplier for a number of pairs, rounded down. */
  function Multiplied(n: nat, pairs: nat): nat {
    if pairs > 20 then n * 3 else if pairs > 10 then n * 2 else if pairs > 5 then n * 3 / 2
    else if pairs > 0 then n * 6 / 5 else n
  }

  method CalculateQualityScore(mdoc: MiniDocPayload, doc: FullDocPayload) returns (score: nat)
    ensures score == Score(mdoc, doc)
  {
    hide MatchCount, ByteLength;
    var base, length := 0, ByteLength(doc.rawMarkdown);
    base := base + (if length <= 5000 then length else 5000) / 10;
    var headingCount := MatchCount(doc.rawMarkdown, "# ");
    base := base + headingCount * 5;
    base := base + |doc.dataTables| * 15;
    var codeCount := MatchCount(doc.rawMarkdown, "```") / 2;
    base := base + codeCount * 10;
    assert base == Base(doc);
    var trust := 0;
    if doc.verificationSignature != "unverified" && doc.verificationSignature != "" { trust := 50; }
    var summaryBonus := 0;
    length := ByteLength(mdoc.summary);
    if length > 50 { summaryBonus := (if length <= 500 then length else 500) / 5; }
    assert trust == Trust(doc) && summaryBonus == SummaryBonus(mdoc);
    var sum, pairs := base + trust + summaryBonus, |mdoc.qaPairs|;
    var raw := sum;
    if pairs > 20 {
      raw := sum * 3;
    } else if pairs > 10 {
      raw := sum * 2;
    } else if pairs > 5 {
      raw := sum * 3 / 2;
    } else if pairs > 0 {
      raw := sum * 6 / 5;
    }
    score := if raw < 1 then 1 else raw;
  }

  function Score(mdoc: MiniDocPayload, doc: FullDocPayload): nat {
    var raw := Multiplied(Base(doc) + Trust(doc) + SummaryBonus(mdoc), |mdoc.qaPairs|);
    if raw < 1 then 1 else raw
  }

  lemma {:induction false} LongerIsLonger(s: string, t: string)
    ensures ByteLength(s) <= ByteLength(s + t)
  {
    if t == "" {
      assert s + t == s;
    } else {
      assert (s + t)[..|s + t| - 1] == s + t[..|t| - 1];
      LongerIsLonger(s, t[..|t| - 1]);
    }
  }

  lemma {:induction false} MoreTextMoreMatches(s: string, t: string, pattern: string)
    requires pattern != ""
    ensures MatchCount(s, pattern) <= MatchCount(s + t, pattern)
    decreases |s|
  {
    if |s| >= |pattern| {
      var n := if StartsWith(s, pattern) then |pattern| else 1;
      assert StartsWith(s + t, pattern) <==> StartsWith(s, pattern) by {
        assert (s + t)[..|pattern|] == s[..|pattern|];
      }
      assert (s + t)[n..] == s[n..] + t;
      MoreTextMoreMatches(s[n..], t, pattern);
    }
  }

  lemma MultipliedGrows(n: nat, m: nat, p: nat, q: nat)
    requires n <= m && p <= q
    ensures n <= Multiplied(n, p) <= Multiplied(m, q)
  {}

  /** The score is at least 1 and never falls when Markdown is appended, tables or pairs are added, or
      the summary is extended. */
  lemma ScoreGrows(mdoc: MiniDocPayload, doc: FullDocPayload, markdown: string, tables: seq<string>,
                   pairs: seq<QaPair>, summary: string)
    ensures var more := mdoc.(qaPairs := mdoc.qaPairs + pairs, summary := mdoc.summary + summary);
      var bigger := doc.(rawMarkdown := doc.rawMarkdown + markdown, dataTables := doc.dataTables + tables);
      1 <= Score(mdoc, doc) <= Score(more, bigger)
  {
    hide MatchCount, ByteLength, Base, Multiplied, SummaryBonus;
    var more := mdoc.(qaPairs := mdoc.qaPairs + pairs, summary := mdoc.summary + summary);
    var bigger := doc.(rawMarkdown := doc.rawMarkdown + markdown, dataTables := doc.dataTables + tables);
    LongerIsLonger(doc.rawMarkdown, markdown);
    LongerIsLonger(mdoc.summary, summary);
    MoreTextMoreMatches(doc.rawMarkdown, markdown, "# ");
    MoreTextMoreMatches(doc.rawMarkdown, markdown, "```");
    BaseGrows(doc, bigger);
    BonusGrows(mdoc, more);
    MultipliedGrows(Base(doc) + Trust(doc) + SummaryBonus(mdoc), Base(bigger) + Trust(bigger) + SummaryBonus(more),
                    |mdoc.qaPairs|, |more.qaPairs|);
  }

  lemma BonusGrows(mdoc: MiniDocPayload, more: MiniDocPayload)
    requires ByteLength(mdoc.summary) <= ByteLength(more.summary)
    ensures SummaryBonus(mdoc) <= SummaryBonus(more)
  {}

  lemma BaseGrows(doc: FullDocPayload, bigger: FullDocPayload)
    requires ByteLength(doc.rawMarkdown) <= ByteLength(bigger.rawMarkdown)
    requires MatchCount(doc.rawMarkdown, "# ") <= MatchCount(bigger.rawMarkdown, "# ")
    requires MatchCount(doc.rawMarkdown, "```") <= MatchCount(bigger.rawMarkdown, "```")
    requires |doc.dataTables| <= |bigger.dataTables|
    ensures Base(doc) <= Base(bigger)
  {}

  // ---- the headings of a printed document are counted ----

  /** How often a hash is followed by a space. */
  function HashSpaces(s: string): nat {
    if |s| < 2 then 0 else (if s[0] == '#' && s[1] == ' ' then 1 else 0) + HashSpaces(s[1..])
  }

  lemma {:induction false} CountsAllHashSpaces(s: string)
    ensures MatchCount(s, "# ") == HashSpaces(s)
    decreases |s|
  {
    if |s| >= 2 {
      assert StartsWith(s, "# ") <==> s[0] == '#' && s[1] == ' ' by { assert s[..2] == [s[0], s[1]]; }
      CountsAllHashSpaces(s[1..]);
      if StartsWith(s, "# ") {
        CountsAllHashSpaces(s[2..]);
        assert s[1..][1..] == s[2..];
      }
    }
  }

  lemma {:induction false} HashSpacesAdd(a: string, b: string)
    ensures HashSpaces(a) + HashSpaces(b) <= HashSpaces(a + b)
    decreases |a|
  {
    if a == "" {
      assert a + b == b;
    } else {
      assert (a + b)[1..] == a[1..] + b;
      HashSpacesAdd(a[1..], b);
    }
  }

  lemma {:induction false} EveryHeadingCounts(headings: seq<string>)
    ensures HashSpaces(Section("## ", headings, "\n\n")) >= |headings|
  {
    if headings != [] {
      var entry, rest := "## " + headings[0] + "\n\n", Section("## ", headings[1..], "\n\n");
      EveryHeadingCounts(headings[1..]);
      HashSpacesAdd(entry, rest);
      var tail := " " + headings[0] + "\n\n";
      assert entry == "##" + tail && entry[1..] == "#" + tail;
    }
  }

  /** A printed document scores at least one heading for its title and for each of its headings. */
  lemma PrintedHeadingsAreCounted(c: ParsedContent)
    ensures MatchCount(Print(c), "# ") >= |c.headings| + if c.title == "" then 0 else 1
  {
    var title, headings := TitleText(c.title), Section("## ", c.headings, "\n\n");
    var rest := Section("", c.paragraphs, "\n\n") + Section("```\n", c.codeBlocks, "\n```\n\n");
    assert Print(c) == title + (headings + rest);
    CountsAllHashSpaces(Print(c));
    HashSpacesAdd(title, headings + rest);
    HashSpacesAdd(headings, rest);
    EveryHeadingCounts(c.headings);
    if c.title != "" { assert title[0] == '#' && title[1] == ' '; }
  }
}
