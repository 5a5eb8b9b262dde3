/** The Markdown parser. */
module Markdown {
  import opened Text
  import opened Sanitizer

  datatype ParsedContent = ParsedContent(
    title: string, headings: seq<string>, paragraphs: seq<string>, links: seq<string>,
    codeBlocks: seq<string>, tables: seq<string>, rawText: string)

  const EMPTY_CONTENT: ParsedContent := ParsedContent("", [], [], [], [], [], "")

  // ---- lines ----

  /** The position of the first line feed from i on, or the length. */
  function LineEnd(s: string, i: nat): (n: nat)
    requires i <= |s|
    ensures i <= n <= |s|
    ensures forall k :: i <= k < n ==> s[k] != '\n'
    ensures n < |s| ==> s[n] == '\n'
    decreases |s| - i
  {
    if i < |s| && s[i] != '\n' then LineEnd(s, i + 1) else i
  }

  function DropReturn(line: string): string {
    if line != "" && line[|line| - 1] == '\r' then line[..|line| - 1] else line
  }

  /** Lines end in a line feed, with or without a carriage return before it; a last line need not. */
  function Lines(s: string): seq<string>
    decreases |s|
  {
    var n := LineEnd(s, 0);
    if s == "" then []
    else if n == |s| then [s]
    else [DropReturn(s[..n])] + Lines(s[n + 1..])
  }

  /** Each line with its ending, one after the other. */
  function Terminated(lines: seq<string>, endings: seq<string>): string
    requires |endings| == |lines|
  {
    if lines == [] then "" else lines[0] + endings[0] + Terminated(lines[1..], endings[1..])
  }

  /** Any lines that end in a line feed or in a carriage return and a line feed, and a last one that need
      not end, are found again. */
  lemma {:induction false} LinesOfText(lines: seq<string>, endings: seq<string>, last: string)
    requires |endings| == |lines| && '\n' !in last
    requires forall i :: 0 <= i < |lines| ==>
      '\n' !in lines[i] && (endings[i] == "\r\n" || (endings[i] == "\n" && !EndsWith(lines[i], "\r")))
    ensures Lines(Terminated(lines, endings) + last) == lines + if last == "" then [] else [last]
  {
    hide Lines;
    if lines == [] {
      LastLine(last);
    } else {
      LinesOfText(lines[1..], endings[1..], last);
      var rest := Terminated(lines[1..], endings[1..]) + last;
      assert Terminated(lines, endings) + last == lines[0] + endings[0] + rest;
      FirstLine(lines[0], endings[0], rest);
    }
  }

  lemma LastLine(last: string)
    requires '\n' !in last
    ensures Lines("" + last) == if last == "" then [] else [last]
  {
    assert "" + last == last;
    assert forall k :: 0 <= k < |last| ==> last[k] in last;
  }

  lemma FirstLine(line: string, ending: string, rest: string)
    requires '\n' !in line && (ending == "\r\n" || (ending == "\n" && !EndsWith(line, "\r")))
    ensures Lines(line + ending + rest) == [line] + Lines(rest)
  {
    var s, n := line + ending + rest, |line| + |ending| - 1;
    assert s[n] == '\n' && forall k :: 0 <= k < n ==> s[k] != '\n';
    assert LineEnd(s, 0) == n && s[n + 1..] == rest;
    if ending == "\n" {
      assert s[..n] == line;
      assert line != "" ==> line[|line| - 1..] == [line[|line| - 1]];
    } else {
      assert s[..n] == line + "\r";
    }
  }

  // ---- one line ----

  datatype Item = Skip | Title(t: string) | Heading(h: string) | Table(row: string) | Paragraph(p: string)

  /** Where the number signs that start at i end. */
  function HashEnd(s: string, i: nat): (e: nat)
    requires i <= |s|
    ensures i <= e <= |s|
    ensures forall k :: i <= k < e ==> s[k] == '#'
    ensures e < |s| ==> s[e] != '#'
    decreases |s| - i
  {
    if i < |s| && s[i] == '#' then HashEnd(s, i + 1) else i
  }

  function DropHashes(s: string): string {
    s[HashEnd(s, 0)..]
  }

  function Classify(line: string): Item {
    var trimmed := Trim(line);
    if trimmed == "" then Skip
    else if StartsWith(trimmed, "# ") then Title(trimmed[2..])
    else if StartsWith(trimmed, "## ") || StartsWith(trimmed, "### ") then Heading(Trim(DropHashes(trimmed)))
    else if StartsWith(trimmed, "```") then Skip
    else if StartsWith(trimmed, "|") then Table(trimmed)
    else if StartsWith(trimmed, "- ") || StartsWith(trimmed, "* ") then Paragraph(trimmed[2..])
    else Paragraph(trimmed)
  }

  function Add(c: ParsedContent, item: Item): ParsedContent {
    match item
    case Skip => c
    case Title(t) => c.(title := t)
    case Heading(h) => c.(headings := c.headings + [h])
    case Table(row) => c.(tables := c.tables + [row])
    case Paragraph(p) => c.(paragraphs := c.paragraphs + [p])
  }

  function AddLines(c: ParsedContent, lines: seq<string>): ParsedContent {
    if lines == [] then c else Add(AddLines(c, lines[..|lines| - 1]), Classify(lines[|lines| - 1]))
  }

  /** The content of text that has been sanitized already. */
  function ParseText(s: string): ParsedContent {
    AddLines(EMPTY_CONTENT, Lines(s)).(rawText := s)
  }

  lemma AddLinesSnoc(c: ParsedContent, lines: seq<string>, i: nat)
    requires i < |lines|
    ensures AddLines(c, lines[..i + 1]) == Add(AddLines(c, lines[..i]), Classify(lines[i]))
  {
    assert lines[..i + 1][..i] == lines[..i];
  }

  method ParseMarkdown(md: string) returns (content: ParsedContent)
    ensures content == ParseText(Sanitize(md))
  {
    hide Sanitize, Lines, Trim, DropHashes;
    content := EMPTY_CONTENT;
    var sanitized := Sanitize(md);
    var lines := Lines(sanitized);
    for i := 0 to |lines|
      invariant content == AddLines(EMPTY_CONTENT, lines[..i])
    {
      AddLinesSnoc(EMPTY_CONTENT, lines, i);
      var trimmed := Trim(lines[i]);
      if trimmed == "" {
        continue;
      }
      if StartsWith(trimmed, "# ") {
        content := content.(title := trimmed[2..]);
      } else if StartsWith(trimmed, "## ") || StartsWith(trimmed, "### ") {
        content := content.(headings := content.headings + [Trim(DropHashes(trimmed))]);
      } else if StartsWith(trimmed, "```") {
        continue;
      } else if StartsWith(trimmed, "|") {
        content := content.(tables := content.tables + [trimmed]);
      } else if StartsWith(trimmed, "- ") || StartsWith(trimmed, "* ") {
        content := content.(paragraphs := content.paragraphs + [trimmed[2..]]);
      } else {
        content := content.(paragraphs := content.paragraphs + [trimmed]);
      }
    }
    assert lines[..|lines|] == lines;
    content := content.(rawText := sanitized);
  }

  /** The lines, trimmed, that start with the mark. */
  function Marked(lines: seq<string>, mark: char): (rows: seq<string>)
    ensures forall row :: row in rows ==> row != "" && row[0] == mark && IsTrimmed(row)
  {
    if lines == [] then []
    else
      var trimmed := Trim(lines[|lines| - 1]);
      TrimIdentity(lines[|lines| - 1]);
      Marked(lines[..|lines| - 1], mark) + if trimmed != "" && trimmed[0] == mark then [trimmed] else []
  }

  /** The table rows are just the lines that start with a bar, in their order. */
  lemma {:induction false} TablesAreBarLines(c: ParsedContent, lines: seq<string>)
    ensures AddLines(c, lines).tables == c.tables + Marked(lines, '|')
  {
    hide Trim, Classify;
    if lines != [] {
      TablesAreBarLines(c, lines[..|lines| - 1]);
      TableIsBarLine(lines[|lines| - 1]);
    }
  }

  lemma TableIsBarLine(line: string)
    ensures var trimmed := Trim(line); var item := Classify(line);
      if trimmed != "" && trimmed[0] == '|' then item == Table(trimmed) else !item.Table?
  {
    hide Trim, DropHashes;
    var trimmed := Trim(line);
    assert trimmed != "" && StartsWith(trimmed, "|") ==> trimmed[0] == '|';
    assert trimmed != "" && trimmed[0] == '|' ==> trimmed[..1] == "|";
  }

  // ---- every field is a part of the sanitized text ----

  lemma FirstOrLater(s: string, line: string)
    requires LineEnd(s, 0) < |s| && line in Lines(s)
    ensures line == DropReturn(s[..LineEnd(s, 0)]) || line in Lines(s[LineEnd(s, 0) + 1..])
  {}

  lemma OnlyLine(s: string, line: string)
    requires LineEnd(s, 0) == |s| && line in Lines(s)
    ensures Occurs(line, s)
  {
    assert OccursAt(s, s, 0);
  }

  lemma FirstLineOccurs(s: string)
    ensures Occurs(DropReturn(s[..LineEnd(s, 0)]), s)
  {
    var first := DropReturn(s[..LineEnd(s, 0)]);
    assert first == s[0..|first|];
    SliceOccurs(s, 0, |first|);
  }

  lemma {:induction false} LineOccurs(s: string, line: string)
    requires line in Lines(s)
    ensures Occurs(line, s)
    decreases |s|
  {
    hide Occurs, DropReturn, LineEnd, Lines;
    var n := LineEnd(s, 0);
    if n == |s| {
      OnlyLine(s, line);
    } else {
      FirstOrLater(s, line);
      var first, rest := DropReturn(s[..n]), s[n + 1..];
      if line == first {
        FirstLineOccurs(s);
      } else {
        LineOccurs(rest, line);
        SliceOccurs(s, n + 1, |s|);
        assert s[n + 1..|s|] == rest;
        OccursTransitive(line, rest, s);
      }
    }
  }

  function TextOf(item: Item): string {
    match item
    case Skip => ""
    case Title(t) => t
    case Heading(h) => h
    case Table(row) => row
    case Paragraph(p) => p
  }

  lemma ItemOccurs(line: string)
    ensures Occurs(TextOf(Classify(line)), line)
  {
    hide Occurs, Trim, IsSpace;
    var trimmed := Trim(line);
    TrimOccurs(line);
    var t := TextOf(Classify(line));
    if Classify(line).Heading? {
      var h := DropHashes(trimmed);
      SliceOccurs(trimmed, HashEnd(trimmed, 0), |trimmed|);
      assert trimmed[HashEnd(trimmed, 0)..|trimmed|] == h;
      TrimOccurs(h);
      OccursTransitive(t, h, trimmed);
    } else if |t| == |trimmed| {
      SliceOccurs(trimmed, 0, |trimmed|);
      assert trimmed[0..|trimmed|] == trimmed;
    } else if t != "" {
      SliceOccurs(trimmed, 2, |trimmed|);
      assert trimmed[2..|trimmed|] == trimmed[2..];
    } else {
      SliceOccurs(trimmed, 0, 0);
    }
    OccursTransitive(t, trimmed, line);
  }

  ghost predicate AllFields(c: ParsedContent, p: string -> bool) {
    && p(c.title)
    && (forall x :: x in c.headings ==> p(x))
    && (forall x :: x in c.paragraphs ==> p(x))
    && (forall x :: x in c.tables ==> p(x))
  }

  lemma {:induction false} FieldsOccur(s: string, lines: seq<string>)
    requires forall line :: line in lines ==> Occurs(line, s)
    ensures AllFields(AddLines(EMPTY_CONTENT, lines), x => Occurs(x, s))
  {
    hide Classify, Occurs;
    if lines == [] {
      SliceOccurs(s, 0, 0);
    } else {
      var line := lines[|lines| - 1];
      FieldsOccur(s, lines[..|lines| - 1]);
      ItemOccurs(line);
      OccursTransitive(TextOf(Classify(line)), line, s);
    }
  }

  /** No field of parsed Markdown, and not its raw text, has an injection phrase. */
  lemma ParsedFieldsArePhraseFree(md: string)
    ensures var c := ParseText(Sanitize(md));
      && PhraseFree(c.title) && PhraseFree(c.rawText)
      && forall x :: x in c.headings || x in c.paragraphs || x in c.tables ==> PhraseFree(x)
  {
    var s := Sanitize(md);
    SanitizeRemovesPhrases(md);
    forall line | line in Lines(s) ensures Occurs(line, s) { LineOccurs(s, line); }
    FieldsOccur(s, Lines(s));
    forall x | Occurs(x, s) ensures PhraseFree(x) { PartIsPhraseFree(x, s); }
  }
}
