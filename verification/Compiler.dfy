/** The compiler of payloads: the Markdown printer, and how it relates to the parser. */
module Compiler {
  import opened Wrappers
  import opened Text
  import opened Sanitizer
  import opened Markdown

  datatype FullDocPayload = FullDocPayload(rawMarkdown: string, dataTables: seq<string>, verificationSignature: string)

  // ---- the printer ----

  function TitleText(title: string): string {
    if title == "" then "" else "# " + title + "\n\n"
  }

  function Section(prefix: string, xs: seq<string>, suffix: string): string {
    if xs == [] then "" else prefix + xs[0] + suffix + Section(prefix, xs[1..], suffix)
  }

  function Print(c: ParsedContent): string {
    TitleText(c.title) + Section("## ", c.headings, "\n\n") + Section("", c.paragraphs, "\n\n")
      + Section("```\n", c.codeBlocks, "\n```\n\n")
  }

  lemma {:induction false} SectionSnoc(prefix: string, xs: seq<string>, suffix: string, x: string)
    ensures Section(prefix, xs + [x], suffix) == Section(prefix, xs, suffix) + (prefix + x + suffix)
  {
    if xs != [] {
      assert (xs + [x])[1..] == xs[1..] + [x];
      SectionSnoc(prefix, xs[1..], suffix, x);
    } else {
      assert [x][1..] == [];
    }
  }

  /** Append each of xs, with prefix and suffix, to a text. */
  method PushAll(text: string, prefix: string, xs: seq<string>, suffix: string) returns (longer: string)
    ensures longer == text + Section(prefix, xs, suffix)
  {
    longer := text;
    for i := 0 to |xs|
      invariant longer == text + Section(prefix, xs[..i], suffix)
    {
      longer := longer + (prefix + xs[i] + suffix);
      SectionSnoc(prefix, xs[..i], suffix, xs[i]);
      assert xs[..i + 1] == xs[..i] + [xs[i]];
    }
    assert xs[..|xs|] == xs;
  }

  /** The signature comes from the site identity, None standing for its failure. */
  method CompileDoc(parsed: ParsedContent, siteId: Option<string>) returns (doc: FullDocPayload)
    ensures doc.rawMarkdown == Print(parsed) && doc.dataTables == parsed.tables
    ensures doc.verificationSignature == match siteId case Some(id) => id case None => "unverified"
  {
    var rawMarkdown := "";
    if parsed.title != "" {
      rawMarkdown := rawMarkdown + ("# " + parsed.title + "\n\n");
    }
    rawMarkdown := PushAll(rawMarkdown, "## ", parsed.headings, "\n\n");
    rawMarkdown := PushAll(rawMarkdown, "", parsed.paragraphs, "\n\n");
    rawMarkdown := PushAll(rawMarkdown, "```\n", parsed.codeBlocks, "\n```\n\n");
    var signature := match siteId case Some(id) => id case None => "unverified";
    doc := FullDocPayload(rawMarkdown, parsed.tables, signature);
  }

  // ---- what the parser makes of printed text ----

  predicate SingleLine(s: string) {
    '\n' !in s
  }

  predicate TitleOk(t: string) {
    SingleLine(t) && (t == "" || !IsSpace(t[|t| - 1]))
  }

  predicate HeadingOk(h: string) {
    SingleLine(h) && h != "" && IsTrimmed(h)
  }

  predicate HasMarker(p: string) {
    || StartsWith(p, "# ") || StartsWith(p, "## ") || StartsWith(p, "### ") || StartsWith(p, "```")
    || StartsWith(p, "|") || StartsWith(p, "- ") || StartsWith(p, "* ")
  }

  predicate ParagraphOk(p: string) {
    SingleLine(p) && p != "" && IsTrimmed(p) && !HasMarker(p)
  }

  /** The contents that survive printing and parsing. */
  predicate Printable(c: ParsedContent) {
    && TitleOk(c.title)
    && (forall h :: h in c.headings ==> HeadingOk(h))
    && (forall p :: p in c.paragraphs ==> ParagraphOk(p))
  }

  function AddText(c: ParsedContent, s: string): ParsedContent {
    AddLines(c, Lines(s))
  }

  /** The content after one printed line for each of xs. */
  function AddEach(c: ParsedContent, prefix: string, xs: seq<string>): ParsedContent
    decreases xs
  {
    if xs == [] then c else AddEach(Add(c, Classify(prefix + xs[0])), prefix, xs[1..])
  }

  lemma {:induction false} AddLinesCons(c: ParsedContent, line: string, lines: seq<string>)
    ensures AddLines(c, [line] + lines) == AddLines(Add(c, Classify(line)), lines)
  {
    hide Classify, Add;
    if lines == [] {
      assert [line] + lines == [line] && [line][..0] == [];
    } else {
      var n := |lines| - 1;
      assert ([line] + lines)[..n + 1] == [line] + lines[..n];
      AddLinesCons(c, line, lines[..n]);
    }
  }

  lemma LineEndOf(x: string, rest: string)
    requires SingleLine(x)
    ensures LineEnd(x + "\n" + rest, 0) == |x|
  {
    var s := x + "\n" + rest;
    var n := LineEnd(s, 0);
    assert s[|x|] == '\n' && forall k :: 0 <= k < |x| ==> s[k] == x[k];
  }

  lemma LinesStep(x: string, rest: string)
    requires SingleLine(x)
    ensures Lines(x + "\n" + rest) == [DropReturn(x)] + Lines(rest)
  {
    hide LineEnd, DropReturn;
    LineEndOf(x, rest);
    var s := x + "\n" + rest;
    assert s[..|x|] == x && s[|x| + 1..] == rest;
  }

  lemma LinesOfEntry(x: string, rest: string)
    requires SingleLine(x)
    ensures Lines(x + "\n\n" + rest) == [DropReturn(x), ""] + Lines(rest)
  {
    hide Lines;
    assert x + "\n\n" + rest == x + "\n" + ("" + "\n" + rest);
    LinesStep(x, "" + "\n" + rest);
    LinesStep("", rest);
  }

  /** One printed entry: its line is classified, and the blank line after it adds nothing. */
  lemma AddEntry(c: ParsedContent, x: string, rest: string)
    requires SingleLine(x)
    ensures AddText(c, x + "\n\n" + rest) == AddText(Add(c, Classify(x)), rest)
  {
    hide Classify, Add, AddLines, Lines, DropReturn;
    LinesOfEntry(x, rest);
    var line := DropReturn(x);
    assert [line, ""] + Lines(rest) == [line] + ([""] + Lines(rest));
    AddLinesCons(c, line, [""] + Lines(rest));
    AddLinesCons(Add(c, Classify(line)), "", Lines(rest));
    ReturnDoesNotMatter(x);
    BlankLineAddsNothing(Add(c, Classify(x)));
  }

  lemma TrimReturn(x: string)
    ensures Trim(DropReturn(x)) == Trim(x)
  {}

  lemma ReturnDoesNotMatter(x: string)
    ensures Classify(DropReturn(x)) == Classify(x)
  {
    hide Trim, DropReturn, DropHashes, StartsWith;
    TrimReturn(x);
  }

  lemma BlankLineAddsNothing(c: ParsedContent)
    ensures Add(c, Classify("")) == c
  {}

  lemma {:induction false} AddSection(c: ParsedContent, prefix: string, xs: seq<string>, rest: string)
    requires SingleLine(prefix) && forall x :: x in xs ==> SingleLine(x)
    decreases xs
    ensures AddText(c, Section(prefix, xs, "\n\n") + rest) == AddText(AddEach(c, prefix, xs), rest)
  {
    hide Classify, AddText, Add;
    if xs == [] {
      assert Section(prefix, xs, "\n\n") + rest == rest;
    } else {
      var tail := Section(prefix, xs[1..], "\n\n");
      var more := tail + rest;
      assert Section(prefix, xs, "\n\n") == (prefix + xs[0]) + "\n\n" + tail;
      assert Section(prefix, xs, "\n\n") + rest == (prefix + xs[0]) + "\n\n" + more;
      assert xs[0] in xs && SingleLine(prefix + xs[0]);
      AddEntry(c, prefix + xs[0], more);
      AddSection(Add(c, Classify(prefix + xs[0])), prefix, xs[1..], rest);
    }
  }

  /** The parsed form of printed content whose fields have no line feeds. */
  lemma ParseOfPrint(c: ParsedContent)
    requires c.codeBlocks == [] && SingleLine(c.title)
    requires forall x :: x in c.headings || x in c.paragraphs ==> SingleLine(x)
    ensures var titled := if c.title == "" then EMPTY_CONTENT else Add(EMPTY_CONTENT, Classify("# " + c.title));
      ParseText(Print(c)) == AddEach(AddEach(titled, "## ", c.headings), "", c.paragraphs).(rawText := Print(c))
  {
    hide Classify, Add;
    var titled := if c.title == "" then EMPTY_CONTENT else Add(EMPTY_CONTENT, Classify("# " + c.title));
    var hs, ps := Section("## ", c.headings, "\n\n"), Section("", c.paragraphs, "\n\n");
    assert Print(c) == TitleText(c.title) + (hs + ps);
    assert AddText(EMPTY_CONTENT, Print(c)) == AddText(titled, hs + ps) by {
      if c.title == "" {
        assert "" + (hs + ps) == hs + ps;
      } else {
        assert TitleText(c.title) + (hs + ps) == ("# " + c.title) + "\n\n" + (hs + ps);
        AddEntry(EMPTY_CONTENT, "# " + c.title, hs + ps);
      }
    }
    AddSection(titled, "## ", c.headings, ps);
    AddSection(AddEach(titled, "## ", c.headings), "", c.paragraphs, "");
    assert ps + "" == ps;
  }

  // ---- exactly the printable contents survive ----

  lemma ClassifyTitle(t: string)
    requires t != "" && TitleOk(t)
    ensures Classify("# " + t) == Title(t)
  {}

  lemma TrimLeadingSpace(s: string)
    ensures Trim(" " + s) == Trim(s)
  {
    var a := SpaceEnd(s, 0);
    var b := SpaceStart(s, a, |s|);
    TrimIdentity(s);
    assert (" " + s)[a + 1..b + 1] == s[a..b];
    TrimUnique(" " + s, a + 1, b + 1);
  }

  lemma ClassifyHeading(h: string)
    requires HeadingOk(h)
    ensures Classify("## " + h) == Heading(h)
  {
    hide Trim;
    var line := "## " + h;
    assert line[0] == '#' && line[|line| - 1] == h[|h| - 1];
    TrimIdentity(line);
    assert line[..3] == "## " && line[1] == '#' && line[2] == ' ';
    assert HashEnd(line, 0) == 2 && line[2..] == " " + h;
    TrimLeadingSpace(h);
    TrimIdentity(h);
  }

  lemma ClassifyParagraph(p: string)
    requires SingleLine(p)
    ensures Classify(p) == Paragraph(p) <==> ParagraphOk(p)
  {
    TrimIdentity(p);
    var t := Trim(p);
    if t == p {
      assert StartsWith(p, "- ") || StartsWith(p, "* ") ==> |p[2..]| == |p| - 2;
    }
  }

  lemma {:induction false} AddHeadings(c: ParsedContent, hs: seq<string>)
    requires forall h :: h in hs ==> HeadingOk(h)
    ensures AddEach(c, "## ", hs) == c.(headings := c.headings + hs)
    decreases hs
  {
    hide Classify, HeadingOk;
    if hs == [] {
      assert c.headings + hs == c.headings;
    } else {
      assert hs[0] in hs;
      ClassifyHeading(hs[0]);
      AddHeadings(c.(headings := c.headings + [hs[0]]), hs[1..]);
      assert c.headings + [hs[0]] + hs[1..] == c.headings + hs;
    }
  }

  /** What paragraph lines add to the paragraphs. */
  function Contribution(ps: seq<string>): (r: seq<string>)
    ensures |r| <= |ps|
  {
    if ps == [] then []
    else (match Classify(ps[0]) case Paragraph(p) => [p] case _ => []) + Contribution(ps[1..])
  }

  lemma {:induction false} AddContribution(c: ParsedContent, ps: seq<string>)
    ensures AddEach(c, "", ps).paragraphs == c.paragraphs + Contribution(ps)
    decreases ps
  {
    hide Classify;
    if ps == [] {
      assert c.paragraphs + [] == c.paragraphs;
    } else {
      assert "" + ps[0] == ps[0];
      var next := Add(c, Classify(ps[0]));
      var first := match Classify(ps[0]) case Paragraph(p) => [p] case _ => [];
      AddContribution(next, ps[1..]);
      assert next.paragraphs == c.paragraphs + first;
      assert (c.paragraphs + first) + Contribution(ps[1..]) == c.paragraphs + (first + Contribution(ps[1..]));
    }
  }

  lemma {:induction false} AddParagraphs(c: ParsedContent, ps: seq<string>)
    requires forall p :: p in ps ==> Classify(p) == Paragraph(p)
    ensures AddEach(c, "", ps) == c.(paragraphs := c.paragraphs + ps)
    decreases ps
  {
    hide Classify;
    if ps == [] {
      assert c.paragraphs + [] == c.paragraphs;
    } else {
      assert ps[0] in ps && "" + ps[0] == ps[0];
      AddParagraphs(c.(paragraphs := c.paragraphs + [ps[0]]), ps[1..]);
      assert c.paragraphs + [ps[0]] + ps[1..] == c.paragraphs + ps;
    }
  }

  lemma {:induction false} WholeContribution(ps: seq<string>)
    requires Contribution(ps) == ps
    ensures forall p :: p in ps ==> Classify(p) == Paragraph(p)
  {
    hide Classify;
    if ps != [] {
      var rest := ps[1..];
      assert Classify(ps[0]).Paragraph?;
      assert Contribution(rest) == Contribution(ps)[1..];
      WholeContribution(rest);
      forall p | p in ps ensures Classify(p) == Paragraph(p) {
        if p != ps[0] { assert p in rest; }
      }
    }
  }

  /** The shape of every parsed title, heading and paragraph. */
  ghost predicate Shaped(c: ParsedContent) {
    && TitleOk(c.title)
    && (forall h :: h in c.headings ==> HeadingOk(h))
    && (forall p :: p in c.paragraphs ==> SingleLine(p))
  }

  lemma {:induction false} LinesAreSingle(s: string)
    ensures forall line :: line in Lines(s) ==> SingleLine(line)
    decreases |s|
  {
    var n := LineEnd(s, 0);
    if s != "" && n < |s| {
      LinesAreSingle(s[n + 1..]);
    }
  }

  lemma HashesDropped(s: string)
    requires StartsWith(s, "## ") || StartsWith(s, "### ")
    ensures DropHashes(s) != "" && DropHashes(s)[0] == ' '
  {
    if StartsWith(s, "## ") {
      assert s[..3] == "## " && s[0] == '#' && s[1] == '#' && s[2] == ' ';
      assert HashEnd(s, 0) == 2;
    } else {
      assert s[..4] == "### " && s[0] == '#' && s[1] == '#' && s[2] == '#' && s[3] == ' ';
      assert HashEnd(s, 0) == 3;
    }
  }

  lemma TrimKeepsSolid(s: string)
    requires s != "" && !IsSpace(s[|s| - 1])
    ensures Trim(s) != ""
  {}

  lemma PartIsSingleLine(t: string, line: string)
    requires Occurs(t, line) && SingleLine(line)
    ensures SingleLine(t)
  {}

  lemma HeadingIsSolid(trimmed: string)
    requires IsTrimmed(trimmed) && (StartsWith(trimmed, "## ") || StartsWith(trimmed, "### "))
    ensures var h := Trim(DropHashes(trimmed)); h != "" && IsTrimmed(h)
  {
    hide Trim;
    HashesDropped(trimmed);
    TrimKeepsSolid(DropHashes(trimmed));
    TrimIdentity(DropHashes(trimmed));
  }

  lemma ItemShape(line: string)
    requires SingleLine(line)
    ensures Classify(line).Title? ==> TitleOk(Classify(line).t)
    ensures Classify(line).Heading? ==> HeadingOk(Classify(line).h)
    ensures Classify(line).Paragraph? ==> SingleLine(Classify(line).p)
  {
    hide Trim, DropHashes, SingleLine, Occurs;
    ItemOccurs(line);
    PartIsSingleLine(TextOf(Classify(line)), line);
    TrimIdentity(line);
    if Classify(line).Heading? { HeadingIsSolid(Trim(line)); }
  }

  lemma {:induction false} ParsedIsShaped(lines: seq<string>)
    requires forall line :: line in lines ==> SingleLine(line)
    ensures Shaped(AddLines(EMPTY_CONTENT, lines))
  {
    hide Classify, TitleOk, HeadingOk, SingleLine;
    if lines == [] {
      EmptyTitle();
    } else {
      ParsedIsShaped(lines[..|lines| - 1]);
      ItemShape(lines[|lines| - 1]);
    }
  }

  lemma EmptyTitle()
    ensures TitleOk("")
  {}

  predicate SameText(a: ParsedContent, b: ParsedContent) {
    a.title == b.title && a.headings == b.headings && a.paragraphs == b.paragraphs
  }

  /** Content without code blocks, whose printed text has no injection phrase, comes back from the
      parser with its title, headings and paragraphs exactly when it is printable. */
  lemma PrintedContentParsesBack(c: ParsedContent)
    requires c.codeBlocks == [] && PhraseFree(Print(c))
    ensures SameText(ParseText(Sanitize(Print(c))), c) <==> Printable(c)
  {
    hide PhraseFree, Sanitize, Print, Classify, Lines, ParagraphOk;
    SanitizeRemovesPhrases(Print(c));
    var r := ParseText(Print(c));
    LinesAreSingle(Print(c));
    ParsedIsShaped(Lines(Print(c)));
    if Shaped(c) {
      ParseOfPrint(c);
      if c.title != "" { ClassifyTitle(c.title); }
      var titled := EMPTY_CONTENT.(title := c.title);
      AddHeadings(titled, c.headings);
      assert [] + c.headings == c.headings && [] + c.paragraphs == c.paragraphs;
      var headed := titled.(headings := c.headings);
      AddContribution(headed, c.paragraphs);
      forall p | p in c.paragraphs ensures Classify(p) == Paragraph(p) <==> ParagraphOk(p) { ClassifyParagraph(p); }
      assert r.paragraphs == Contribution(c.paragraphs);
      if r.paragraphs == c.paragraphs { WholeContribution(c.paragraphs); }
      if Printable(c) { AddParagraphs(headed, c.paragraphs); }
    }
    assert Printable(c) ==> Shaped(c) by { PrintableIsShaped(c); }
  }

  lemma PrintableIsShaped(c: ParsedContent)
    ensures Printable(c) ==> Shaped(c)
  {}

  /** Parsed content whose paragraphs carry no marker of their own is a fixed point of printing and parsing. */
  lemma ParsedContentSurvives(md: string)
    requires var c := ParseText(Sanitize(md)); PhraseFree(Print(c))
    ensures var c := ParseText(Sanitize(md));
      SameText(ParseText(Sanitize(Print(c))), c) <==> forall p :: p in c.paragraphs ==> ParagraphOk(p)
  {
    hide PhraseFree, Sanitize, Print, Lines, ParagraphOk, TitleOk, HeadingOk;
    var s := Sanitize(md);
    var c := ParseText(s);
    LinesAreSingle(s);
    ParsedIsShaped(Lines(s));
    NoCode(EMPTY_CONTENT, Lines(s));
    PrintedContentParsesBack(c);
  }

  lemma {:induction false} NoCode(c: ParsedContent, lines: seq<string>)
    ensures AddLines(c, lines).codeBlocks == c.codeBlocks
  {
    hide Classify;
    if lines != [] { NoCode(c, lines[..|lines| - 1]); }
  }
}
