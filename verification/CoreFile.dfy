/** The compilation of a site's pages into one bundle with its aggregates. */
module CoreFile {
  import opened Text
  import opened Wrappers
  import Quality
  import Sorting

  datatype QaPair = QaPair(question: string, answer: string)

  /** What parsing and compiling one page gives. */
  datatype Parts = Parts(
    title: string, paragraphs: seq<string>, links: seq<string>, coordinates: map<string, string>,
    hasCode: bool, hasTables: bool, tokenCount: nat, qaPairs: seq<QaPair>, rawMarkdown: string, qualityScore: nat)

  datatype Input = Input(url: string, parts: Parts)

  datatype CorePage = CorePage(
    url: string, path: string, title: string, depth: nat, qualityScore: nat, tokenCount: nat, qaPairCount: nat,
    rawMarkdown: string, coordinates: map<string, string>, linksInternal: seq<string>, linksExternal: seq<string>)

  datatype PageHash = PageHash(url: string, sha256: string)

  datatype Scores = Scores(
    bestPage: string, bestScore: nat, worstPage: string, worstScore: nat, average: real, overall: nat)

  datatype Bundle = Bundle(
    pages: seq<CorePage>, allQaPairs: seq<QaPair>, topics: map<string, seq<string>>,
    totalTokens: nat, pagesWithCode: nat, pagesWithTables: nat,
    scores: Scores, aeoReadiness: nat, pageHashes: seq<PageHash>,
    title: string, coordinates: map<string, string>,
    siteSummary: string, description: string, contentHash: string)

  // ---- one page ----

  function TrimPrefixes(s: string, prefix: string): string
    requires prefix != ""
    decreases |s|
  {
    if StartsWith(s, prefix) then TrimPrefixes(s[|prefix|..], prefix) else s
  }

  function PathOf(url: string, domain: string): string {
    var s := TrimPrefixes(TrimPrefixes(url, "https://"), "http://");
    if StartsWith(s, domain) then TrimPrefixes(s[|domain|..], "/") else s
  }

  function Repeated(s: string, n: nat): string {
    if n == 0 then "" else s + Repeated(s, n - 1)
  }

  /** Every prefix is trimmed, as often as it stands there. */
  lemma {:induction false} PrefixesTrimmed(prefix: string, n: nat, rest: string)
    requires prefix != "" && !StartsWith(rest, prefix)
    ensures TrimPrefixes(Repeated(prefix, n) + rest, prefix) == rest
  {
    if n == 0 {
      assert Repeated(prefix, 0) + rest == rest;
    } else {
      var more := Repeated(prefix, n - 1) + rest;
      assert Repeated(prefix, n) + rest == prefix + more && (prefix + more)[|prefix|..] == more;
      PrefixesTrimmed(prefix, n - 1, rest);
    }
  }

  /** The path is what comes after the schemes, the domain and slashes; without the domain in front, all
      that comes after the schemes. */
  lemma PathOfUrl(n: nat, m: nat, s: string, domain: string, k: nat, path: string)
    requires !StartsWith(s, "http://") && !StartsWith(Repeated("http://", m) + s, "https://")
    requires !StartsWith(path, "/")
    ensures var url := Repeated("https://", n) + (Repeated("http://", m) + s);
      && (!StartsWith(s, domain) ==> PathOf(url, domain) == s)
      && (s == domain + (Repeated("/", k) + path) ==> PathOf(url, domain) == path)
  {
    PrefixesTrimmed("https://", n, Repeated("http://", m) + s);
    PrefixesTrimmed("http://", m, s);
    if s == domain + (Repeated("/", k) + path) {
      assert s[|domain|..] == Repeated("/", k) + path && s[..|domain|] == domain;
      PrefixesTrimmed("/", k, path);
    }
  }

  /** The depth is one less than the number of slashes in the path, but not below zero. */
  lemma DepthOfPath(path: string)
    ensures var slashes := multiset(path)['/']; DepthOf(path) == if slashes == 0 then 0 else slashes - 1
  {
    SlashesCounted(path);
  }

  lemma {:induction false} SlashesCounted(path: string)
    ensures Quality.MatchCount(path, "/") == multiset(path)['/']
    decreases |path|
  {
    if path != "" {
      assert path == [path[0]] + path[1..] && path[..1] == [path[0]];
      assert StartsWith(path, "/") <==> path[0] == '/';
      SlashesCounted(path[1..]);
    }
  }

  /** One less than the number of slashes, but not below zero. */
  function DepthOf(path: string): nat {
    var slashes := Quality.MatchCount(path, "/");
    if slashes == 0 then 0 else slashes - 1
  }

  /** The links that contain the domain, or those that do not, in order. */
  ghost function LinksWith(links: seq<string>, domain: string, wanted: bool): seq<string> {
    if links == [] then []
    else
      var n := |links| - 1;
      LinksWith(links[..n], domain, wanted) + if Occurs(domain, links[n]) == wanted then [links[n]] else []
  }

  ghost function PageOf(domain: string, input: Input): CorePage {
    var p := input.parts;
    var path := PathOf(input.url, domain);
    CorePage(input.url, path, p.title, DepthOf(path), p.qualityScore, p.tokenCount, |p.qaPairs|,
             p.rawMarkdown, p.coordinates, LinksWith(p.links, domain, true), LinksWith(p.links, domain, false))
  }

  ghost function PagesOf(domain: string, inputs: seq<Input>): (pages: seq<CorePage>)
    ensures |pages| == |inputs|
    ensures forall i :: 0 <= i < |pages| ==> pages[i] == PageOf(domain, inputs[i])
  {
    seq(|inputs|, i requires 0 <= i < |inputs| => PageOf(domain, inputs[i]))
  }

  lemma LinksSnoc(links: seq<string>, link: string, domain: string, wanted: bool)
    ensures LinksWith(links + [link], domain, wanted)
         == LinksWith(links, domain, wanted) + if Occurs(domain, link) == wanted then [link] else []
  {
    hide Occurs;
    assert (links + [link])[..|links|] == links;
  }

  /** Every link goes to exactly one of the two lists. */
  lemma {:induction false} LinksArePartitioned(links: seq<string>, domain: string)
    ensures multiset(LinksWith(links, domain, true)) + multiset(LinksWith(links, domain, false)) == multiset(links)
  {
    if links != [] {
      hide LinksWith, Occurs;
      var n := |links| - 1;
      LinksArePartitioned(links[..n], domain);
      LinksSnoc(links[..n], links[n], domain, true);
      LinksSnoc(links[..n], links[n], domain, false);
      assert links == links[..n] + [links[n]];
    }
  }

  /** A link goes to the list that is for it. */
  lemma {:induction false} LinksAreSorted(links: seq<string>, domain: string, wanted: bool)
    ensures forall l :: l in LinksWith(links, domain, wanted) <==> l in links && Occurs(domain, l) == wanted
  {
    if links != [] {
      hide LinksWith, Occurs;
      var n := |links| - 1;
      LinksAreSorted(links[..n], domain, wanted);
      LinksSnoc(links[..n], links[n], domain, wanted);
      assert links == links[..n] + [links[n]];
    }
  }

  // ---- aggregates over a list of pages ----

  function TokenSum(pages: seq<CorePage>): nat {
    if pages == [] then 0 else pages[0].tokenCount + TokenSum(pages[1..])
  }

  function QaSum(pages: seq<CorePage>): nat {
    if pages == [] then 0 else pages[0].qaPairCount + QaSum(pages[1..])
  }

  function ScoreSum(pages: seq<CorePage>): nat {
    if pages == [] then 0 else pages[0].qualityScore + ScoreSum(pages[1..])
  }

  predicate PathAtMost(a: CorePage, b: CorePage) {
    Sorting.AtMost(a.path, b.path)
  }

  lemma PathOrder()
    ensures Sorting.TotalPreorder(PathAtMost)
  {
    Sorting.StringOrder();
    forall a: CorePage, b: CorePage ensures PathAtMost(a, b) || PathAtMost(b, a) {
      Sorting.AtMostTotal(a.path, b.path);
    }
    forall a: CorePage, b: CorePage, c: CorePage | PathAtMost(a, b) && PathAtMost(b, c) ensures PathAtMost(a, c) {
      Sorting.AtMostTransitive(a.path, b.path, c.path);
    }
  }

  lemma {:induction false} InsertKeepsSums(x: CorePage, pages: seq<CorePage>)
    ensures var more := Sorting.Insert(x, pages, PathAtMost);
      TokenSum(more) == x.tokenCount + TokenSum(pages) && QaSum(more) == x.qaPairCount + QaSum(pages)
  {
    if pages == [] || PathAtMost(x, pages[0]) {
      assert ([x] + pages)[1..] == pages && [x][1..] == [];
    } else {
      InsertKeepsSums(x, pages[1..]);
      var rest := Sorting.Insert(x, pages[1..], PathAtMost);
      assert ([pages[0]] + rest)[1..] == rest;
    }
  }

  lemma {:induction false} SortKeepsSums(pages: seq<CorePage>)
    ensures var sorted := Sorting.Sort(pages, PathAtMost);
      TokenSum(sorted) == TokenSum(pages) && QaSum(sorted) == QaSum(pages)
  {
    if pages != [] {
      SortKeepsSums(pages[1..]);
      InsertKeepsSums(pages[0], Sorting.Sort(pages[1..], PathAtMost));
    }
  }

  lemma {:induction false} SumsSnoc(pages: seq<CorePage>, p: CorePage)
    ensures TokenSum(pages + [p]) == TokenSum(pages) + p.tokenCount
    ensures QaSum(pages + [p]) == QaSum(pages) + p.qaPairCount
    ensures ScoreSum(pages + [p]) == ScoreSum(pages) + p.qualityScore
  {
    if pages == [] {
      assert [p][1..] == [];
    } else {
      assert (pages + [p])[1..] == pages[1..] + [p];
      SumsSnoc(pages[1..], p);
    }
  }

  /** The last of the pages with the highest score. */
  predicate IsBest(pages: seq<CorePage>, b: nat) {
    && b < |pages|
    && (forall i :: 0 <= i < |pages| ==> pages[i].qualityScore <= pages[b].qualityScore)
    && (forall i :: b < i < |pages| ==> pages[i].qualityScore < pages[b].qualityScore)
  }

  /** The first of the pages with the lowest score. */
  predicate IsWorst(pages: seq<CorePage>, w: nat) {
    && w < |pages|
    && (forall i :: 0 <= i < |pages| ==> pages[i].qualityScore >= pages[w].qualityScore)
    && (forall i :: 0 <= i < w ==> pages[i].qualityScore > pages[w].qualityScore)
  }

  lemma {:induction false} SumIsBounded(pages: seq<CorePage>, low: nat, high: nat)
    requires forall i :: 0 <= i < |pages| ==> low <= pages[i].qualityScore <= high
    ensures low * |pages| <= ScoreSum(pages) <= high * |pages|
  {
    if pages != [] {
      SumIsBounded(pages[1..], low, high);
      assert low * |pages| == low * |pages[1..]| + low && high * |pages| == high * |pages[1..]| + high;
    }
  }

  // ---- topics ----

  function TopicOf(p: Parts): string {
    if "topic" in p.coordinates then p.coordinates["topic"] else "General"
  }

  function ListUnder(topics: map<string, seq<string>>, name: string): seq<string> {
    if name in topics then topics[name] else []
  }

  /** The pages with more than three question-answer pairs that belong to a topic, in input order. */
  function TopicUrls(inputs: seq<Input>, name: string): seq<string> {
    if inputs == [] then []
    else
      var last := inputs[|inputs| - 1];
      TopicUrls(inputs[..|inputs| - 1], name)
      + if |last.parts.qaPairs| > 3 && TopicOf(last.parts) == name then [last.url] else []
  }

  /** Each topic lists exactly its pages, and a topic is there only with at least one page. */
  ghost predicate TopicsRight(topics: map<string, seq<string>>, inputs: seq<Input>) {
    && (forall name :: ListUnder(topics, name) == TopicUrls(inputs, name))
    && (forall name :: name in topics ==> topics[name] != [])
  }

  // ---- the coordinates of the site ----

  function ValuesFor(pages: seq<CorePage>, key: string): seq<string> {
    if pages == [] then []
    else
      var last := pages[|pages| - 1];
      ValuesFor(pages[..|pages| - 1], key) + if key in last.coordinates then [last.coordinates[key]] else []
  }

  function Occurrences(xs: seq<string>, v: string): nat {
    if xs == [] then 0 else Occurrences(xs[..|xs| - 1], v) + if xs[|xs| - 1] == v then 1 else 0
  }

  /** v is there, and no value is there more often. */
  ghost predicate IsMode(xs: seq<string>, v: string) {
    Occurrences(xs, v) > 0 && forall u :: Occurrences(xs, u) <= Occurrences(xs, v)
  }

  /** The value of k, if it is among the given keys. */
  function OneMore(coordinates: map<string, string>, keys: set<string>, k: string): seq<string> {
    if k in coordinates && k in keys then [coordinates[k]] else []
  }

  /** The values of one page, coordinate by coordinate, in whatever order its map is visited. */
  method AddCoordinates(all: map<string, seq<string>>, coordinates: map<string, string>)
    returns (more: map<string, seq<string>>)
    requires forall k :: k in all ==> all[k] != []
    ensures forall k :: ListUnder(more, k) == ListUnder(all, k) + OneMore(coordinates, coordinates.Keys, k)
    ensures forall k :: k in more ==> more[k] != []
  {
    more := all;
    var left := coordinates.Keys;
    while left != {}
      invariant left <= coordinates.Keys
      invariant forall k :: ListUnder(more, k) == ListUnder(all, k) + OneMore(coordinates, coordinates.Keys - left, k)
      invariant forall k :: k in more ==> more[k] != []
      decreases left
    {
      var k :| k in left;
      left := left - {k};
      more := more[k := (if k in more then more[k] else []) + [coordinates[k]]];
    }
  }

  /** Gather, for every coordinate, the values that the pages give it. */
  method GatherCoordinates(pages: seq<CorePage>) returns (all: map<string, seq<string>>)
    ensures forall k :: ListUnder(all, k) == ValuesFor(pages, k)
    ensures forall k :: k in all ==> all[k] != []
  {
    all := map[];
    for i := 0 to |pages|
      invariant forall k :: ListUnder(all, k) == ValuesFor(pages[..i], k)
      invariant forall k :: k in all ==> all[k] != []
    {
      assert pages[..i + 1][..i] == pages[..i];
      all := AddCoordinates(all, pages[i].coordinates);
    }
    assert pages[..|pages|] == pages;
  }

  method CountValues(vals: seq<string>) returns (counts: map<string, nat>)
    ensures forall v :: (if v in counts then counts[v] else 0) == Occurrences(vals, v)
    ensures forall v :: v in counts ==> counts[v] > 0
  {
    counts := map[];
    for i := 0 to |vals|
      invariant forall v :: (if v in counts then counts[v] else 0) == Occurrences(vals[..i], v)
      invariant forall v :: v in counts ==> counts[v] > 0
    {
      assert vals[..i + 1][..i] == vals[..i];
      counts := counts[vals[i] := (if vals[i] in counts then counts[vals[i]] else 0) + 1];
    }
    assert vals[..|vals|] == vals;
  }

  /** A value with the highest count, whichever of several the map shows last. */
  method MostFrequent(vals: seq<string>) returns (best: string)
    requires vals != []
    ensures IsMode(vals, best)
  {
    var counts := CountValues(vals);
    assert Occurrences(vals, vals[|vals| - 1]) > 0;
    best := vals[|vals| - 1];
    var left := counts.Keys;
    while left != {}
      invariant left <= counts.Keys && best in counts
      invariant forall v :: v in counts && v !in left ==> counts[v] <= counts[best]
      decreases left
    {
      var v :| v in left;
      left := left - {v};
      if counts[v] >= counts[best] { best := v; }
    }
    forall u ensures Occurrences(vals, u) <= Occurrences(vals, best) {}
  }

  /** Every coordinate that some page has gets a most frequent one of its values. */
  ghost predicate CoordinatesRight(result: map<string, string>, pages: seq<CorePage>) {
    && (forall k :: k in result <==> ValuesFor(pages, k) != [])
    && (forall k :: k in result ==> IsMode(ValuesFor(pages, k), result[k]))
  }

  method ExtractCoordinates(pages: seq<CorePage>) returns (result: map<string, string>)
    ensures CoordinatesRight(result, pages)
  {
    hide IsMode;
    var all := GatherCoordinates(pages);
    result := map[];
    var left := all.Keys;
    while left != {}
      invariant left <= all.Keys
      invariant forall k :: k in result <==> k in all && k !in left
      invariant forall k :: k in result ==> IsMode(ValuesFor(pages, k), result[k])
      decreases left
    {
      var k :| k in left;
      left := left - {k};
      assert all[k] == ListUnder(all, k);
      var best := MostFrequent(all[k]);
      result := result[k := best];
    }
    forall k ensures k in result <==> ValuesFor(pages, k) != [] { assert ListUnder(all, k) == ValuesFor(pages, k); }
  }

  // ---- the compiler ----

  function AeoReadiness(totalQas: nat): nat {
    if totalQas > 20 then 95 else if totalQas > 10 then 80 else if totalQas > 5 then 65
    else if totalQas > 0 then 40 else 10
  }

  function ConcatQa(inputs: seq<Input>): seq<QaPair> {
    if inputs == [] then [] else ConcatQa(inputs[..|inputs| - 1]) + inputs[|inputs| - 1].parts.qaPairs
  }

  /** The first paragraphs of the pages that have any. */
  function FirstParagraphs(inputs: seq<Input>): seq<string> {
    if inputs == [] then []
    else
      var paragraphs := inputs[|inputs| - 1].parts.paragraphs;
      FirstParagraphs(inputs[..|inputs| - 1]) + if paragraphs == [] then [] else [paragraphs[0]]
  }

  predicate HasCode(input: Input) {
    input.parts.hasCode
  }

  predicate HasTables(input: Input) {
    input.parts.hasTables
  }

  /** How many inputs satisfy a test. */
  function CountWhere(inputs: seq<Input>, test: Input -> bool): nat {
    if inputs == [] then 0
    else CountWhere(inputs[..|inputs| - 1], test) + if test(inputs[|inputs| - 1]) then 1 else 0
  }

  ghost predicate Accumulated(domain: string, inputs: seq<Input>, pages: seq<CorePage>, qa: seq<QaPair>,
                              topics: map<string, seq<string>>, paragraphs: seq<string>,
                              tokens: nat, code: nat, tables: nat) {
    && pages == PagesOf(domain, inputs)
    && qa == ConcatQa(inputs) && |qa| == QaSum(pages)
    && TopicsRight(topics, inputs)
    && paragraphs == FirstParagraphs(inputs)
    && tokens == TokenSum(pages)
    && code == CountWhere(inputs, HasCode)
    && tables == CountWhere(inputs, HasTables)
  }

  method SplitLinks(links: seq<string>, domain: string) returns (internal: seq<string>, external: seq<string>)
    ensures internal == LinksWith(links, domain, true) && external == LinksWith(links, domain, false)
  {
    internal, external := [], [];
    for i := 0 to |links|
      invariant internal == LinksWith(links[..i], domain, true) && external == LinksWith(links[..i], domain, false)
    {
      assert links[..i + 1][..i] == links[..i];
      var inside := Contains(links[i], domain);
      if inside { internal := internal + [links[i]]; } else { external := external + [links[i]]; }
    }
    assert links[..|links|] == links;
  }

  lemma NothingAccumulated(domain: string)
    ensures Accumulated(domain, [], [], [], map[], [], 0, 0, 0)
  {}

  lemma TopicsOneMore(topics: map<string, seq<string>>, inputs: seq<Input>, last: Input)
    requires TopicsRight(topics, inputs)
    ensures var name := TopicOf(last.parts);
      TopicsRight(if |last.parts.qaPairs| > 3 then topics[name := ListUnder(topics, name) + [last.url]] else topics,
                  inputs + [last])
  {
    hide TopicOf;
    var more := inputs + [last];
    assert more[..|inputs|] == inputs;
    var name := TopicOf(last.parts);
    var topics' := if |last.parts.qaPairs| > 3 then topics[name := ListUnder(topics, name) + [last.url]] else topics;
    forall other ensures ListUnder(topics', other) == TopicUrls(more, other) {
      assert ListUnder(topics, other) == TopicUrls(inputs, other);
    }
  }

  lemma PagesSnoc(domain: string, inputs: seq<Input>, last: Input)
    ensures PagesOf(domain, inputs + [last]) == PagesOf(domain, inputs) + [PageOf(domain, last)]
  {}

  lemma InputsSnoc(inputs: seq<Input>, last: Input, test: Input -> bool)
    ensures CountWhere(inputs + [last], test) == CountWhere(inputs, test) + if test(last) then 1 else 0
    ensures ConcatQa(inputs + [last]) == ConcatQa(inputs) + last.parts.qaPairs
    ensures FirstParagraphs(inputs + [last])
         == FirstParagraphs(inputs) + if last.parts.paragraphs == [] then [] else [last.parts.paragraphs[0]]
  {
    assert (inputs + [last])[..|inputs|] == inputs;
  }

  lemma AccumulateOne(domain: string, inputs: seq<Input>, last: Input, pages: seq<CorePage>, qa: seq<QaPair>,
                      topics: map<string, seq<string>>, paragraphs: seq<string>, tokens: nat, code: nat, tables: nat)
    requires Accumulated(domain, inputs, pages, qa, topics, paragraphs, tokens, code, tables)
    ensures var p, name := last.parts, TopicOf(last.parts);
      Accumulated(domain, inputs + [last], pages + [PageOf(domain, last)], qa + p.qaPairs,
                  if |p.qaPairs| > 3 then topics[name := ListUnder(topics, name) + [last.url]] else topics,
                  paragraphs + (if p.paragraphs == [] then [] else [p.paragraphs[0]]),
                  tokens + p.tokenCount, code + (if p.hasCode then 1 else 0), tables + if p.hasTables then 1 else 0)
  {
    hide TopicsRight, TopicOf, LinksWith, PathOf, PagesOf, CountWhere, ConcatQa, FirstParagraphs;
    hide TokenSum, QaSum, DepthOf;
    InputsSnoc(inputs, last, HasCode);
    InputsSnoc(inputs, last, HasTables);
    TopicsOneMore(topics, inputs, last);
    PagesSnoc(domain, inputs, last);
    SumsSnoc(pages, PageOf(domain, last));
  }

  /** The accumulating loop over the pages. */
  method Accumulate(domain: string, inputs: seq<Input>)
    returns (pages: seq<CorePage>, qa: seq<QaPair>, topics: map<string, seq<string>>, paragraphs: seq<string>,
             tokens: nat, code: nat, tables: nat)
    ensures Accumulated(domain, inputs, pages, qa, topics, paragraphs, tokens, code, tables)
  {
    hide PathOf, DepthOf, LinksWith, Accumulated;
    pages, qa, topics, paragraphs, tokens, code, tables := [], [], map[], [], 0, 0, 0;
    NothingAccumulated(domain);
    for i := 0 to |inputs|
      invariant Accumulated(domain, inputs[..i], pages, qa, topics, paragraphs, tokens, code, tables)
    {
      AccumulateOne(domain, inputs[..i], inputs[i], pages, qa, topics, paragraphs, tokens, code, tables);
      assert inputs[..i + 1] == inputs[..i] + [inputs[i]];
      var url, p := inputs[i].url, inputs[i].parts;
      if |p.qaPairs| > 3 {
        var name := if "topic" in p.coordinates then p.coordinates["topic"] else "General";
        topics := topics[name := (if name in topics then topics[name] else []) + [url]];
      }
      qa := qa + p.qaPairs;
      paragraphs := paragraphs + (if p.paragraphs == [] then [] else [p.paragraphs[0]]);
      tokens := tokens + p.tokenCount;
      if p.hasCode { code := code + 1; }
      if p.hasTables { tables := tables + 1; }
      var internal, external := SplitLinks(p.links, domain);
      var path := PathOf(url, domain);
      pages := pages + [CorePage(url, path, p.title, DepthOf(path), p.qualityScore, p.tokenCount, |p.qaPairs|,
                                 p.rawMarkdown, p.coordinates, internal, external)];
    }
    assert inputs[..|inputs|] == inputs;
  }

  method FindBest(pages: seq<CorePage>) returns (b: nat)
    requires pages != []
    ensures IsBest(pages, b)
  {
    b := 0;
    for i := 1 to |pages|
      invariant IsBest(pages[..i], b)
    {
      if pages[i].qualityScore >= pages[b].qualityScore { b := i; }
    }
    assert pages[..|pages|] == pages;
  }

  method FindWorst(pages: seq<CorePage>) returns (w: nat)
    requires pages != []
    ensures IsWorst(pages, w)
  {
    w := 0;
    for i := 1 to |pages|
      invariant IsWorst(pages[..i], w)
    {
      if pages[i].qualityScore < pages[w].qualityScore { w := i; }
    }
    assert pages[..|pages|] == pages;
  }

  method HashPages(pages: seq<CorePage>, sha256Hex: string -> string) returns (hashes: seq<PageHash>)
    ensures HashesRight(hashes, pages, sha256Hex)
  {
    hashes := seq(|pages|, i requires 0 <= i < |pages| => PageHash(pages[i].url, sha256Hex(pages[i].rawMarkdown)));
  }

  /** One hash for each page, in the order of the pages. */
  ghost predicate HashesRight(hashes: seq<PageHash>, pages: seq<CorePage>, sha256Hex: string -> string) {
    && |hashes| == |pages|
    && forall i :: 0 <= i < |pages| ==> hashes[i] == PageHash(pages[i].url, sha256Hex(pages[i].rawMarkdown))
  }

  lemma AverageAtLeast(sum: nat, n: nat, x: int)
    requires n > 0
    ensures x * n <= sum <==> x as real <= sum as real / n as real
    ensures sum <= x * n <==> sum as real / n as real <= x as real
  {}

  /** The average lies between the scores that bound the summands, and truncating it divides. */
  lemma AverageOfScores(sum: nat, n: nat, low: nat, high: nat)
    requires n > 0 && low * n <= sum <= high * n
    ensures var average := sum as real / n as real;
      low as real <= average <= high as real && low <= average.Floor <= high
  {
    AverageAtLeast(sum, n, low);
    AverageAtLeast(sum, n, high);
  }

  /** Best and worst page are attained and bound the average; the overall score is the truncated
      average with at most 5 added. */
  ghost predicate ScoresRight(s: Scores, pages: seq<CorePage>, totalQas: nat) {
    if pages == [] then
      s.bestScore == 0 && s.worstScore == 0 && s.overall == 0 && s.average == 0.0
    else
      && (exists i: nat :: IsBest(pages, i) && s.bestPage == pages[i].url && s.bestScore == pages[i].qualityScore)
      && (exists i: nat :: IsWorst(pages, i) && s.worstPage == pages[i].url && s.worstScore == pages[i].qualityScore)
      && s.average == ScoreSum(pages) as real / |pages| as real
      && s.worstScore as real <= s.average <= s.bestScore as real
      && s.worstScore <= s.overall <= s.bestScore + 5
      && s.overall == s.average.Floor + if totalQas > 5 then 5 else 0
  }

  lemma ScoresAreRight(s: Scores, pages: seq<CorePage>, totalQas: nat, worst: nat, best: nat)
    requires pages != [] && IsWorst(pages, worst) && IsBest(pages, best)
    requires s.bestPage == pages[best].url && s.bestScore == pages[best].qualityScore
    requires s.worstPage == pages[worst].url && s.worstScore == pages[worst].qualityScore
    requires s.average == ScoreSum(pages) as real / |pages| as real
    requires s.overall == s.average.Floor + if totalQas > 5 then 5 else 0
    ensures ScoresRight(s, pages, totalQas)
  {
    SumIsBounded(pages, s.worstScore, s.bestScore);
    AverageOfScores(ScoreSum(pages), |pages|, s.worstScore, s.bestScore);
  }

  lemma IndexInRange(pages: seq<CorePage>, w: nat, b: nat)
    requires IsWorst(pages, w) && IsBest(pages, b)
    ensures w < |pages| && b < |pages|
  {}

  lemma FloorIsNatural(average: real, sum: nat, n: nat)
    requires n > 0 && average == sum as real / n as real
    ensures average.Floor >= 0
  {}

  method ScorePages(pages: seq<CorePage>, totalQas: nat) returns (s: Scores)
    ensures ScoresRight(s, pages, totalQas)
  {
    if pages == [] {
      return Scores("", 0, "", 0, 0.0, 0);
    }
    hide ScoresRight, IsBest, IsWorst;
    var sum := 0;
    for i := 0 to |pages|
      invariant sum == ScoreSum(pages[..i])
    {
      SumsSnoc(pages[..i], pages[i]);
      assert pages[..i + 1] == pages[..i] + [pages[i]];
      sum := sum + pages[i].qualityScore;
    }
    assert pages[..|pages|] == pages;
    var average := sum as real / |pages| as real;
    var best := FindBest(pages);
    var worst := FindWorst(pages);
    IndexInRange(pages, worst, best);
    FloorIsNatural(average, ScoreSum(pages), |pages|);
    var raw: nat := average.Floor;
    var overall := if totalQas > 0 && AeoReadiness(totalQas) > 50 then raw + 5 else raw;
    s := Scores(pages[best].url, pages[best].qualityScore,
                pages[worst].url, pages[worst].qualityScore, average, overall);
    ScoresAreRight(s, pages, totalQas, worst, best);
  }

  // ---- the site summary ----

  const SUMMARY_BYTES: nat := 1000

  function Decimal(n: nat): string
    decreases n
  {
    var digit := [('0' as int + n % 10) as char];
    if n < 10 then digit else Decimal(n / 10) + digit
  }

  /** The number that digits stand for. */
  function Value(digits: string): nat
    requires forall i :: 0 <= i < |digits| ==> '0' <= digits[i] <= '9'
  {
    if digits == "" then 0
    else Value(digits[..|digits| - 1]) * 10 + (digits[|digits| - 1] as int - '0' as int)
  }

  lemma ValueSnoc(digits: string, c: char)
    requires (forall i :: 0 <= i < |digits| ==> '0' <= digits[i] <= '9') && '0' <= c <= '9'
    ensures Value(digits + [c]) == Value(digits) * 10 + (c as int - '0' as int)
  {
    assert (digits + [c])[..|digits|] == digits;
  }

  /** Decimals are digits without a leading zero that stand for the number. */
  lemma {:induction false} ValueOfDecimal(n: nat)
    ensures forall i :: 0 <= i < |Decimal(n)| ==> '0' <= Decimal(n)[i] <= '9'
    ensures Value(Decimal(n)) == n && Decimal(n) != "" && (n > 0 ==> Decimal(n)[0] != '0')
  {
    hide Value;
    var digit := ('0' as int + n % 10) as char;
    assert digit as int - '0' as int == n % 10;
    if n < 10 {
      assert "" + [digit] == [digit] == Decimal(n);
      NoDigits();
      ValueSnoc("", digit);
    } else {
      ValueOfDecimal(n / 10);
      ValueSnoc(Decimal(n / 10), digit);
    }
  }

  lemma NoDigits()
    ensures Value("") == 0
  {}

  /** No character starts at byte n: cutting the text there panics. */
  ghost predicate CutPanics(text: string, n: nat) {
    Quality.ByteLength(text) > n && forall k :: 0 <= k <= |text| ==> Quality.ByteLength(text[..k]) != n
  }

  lemma PrefixStep(text: string, k: nat)
    requires k < |text|
    ensures Quality.ByteLength(text[..k + 1]) == Quality.ByteLength(text[..k]) + Quality.Width(text[k])
  {
    assert text[..k + 1][..k] == text[..k];
  }

  lemma {:induction false} PrefixesGrow(text: string, k: nat, j: nat)
    requires k <= j <= |text|
    ensures Quality.ByteLength(text[..j]) >= Quality.ByteLength(text[..k]) + (j - k)
  {
    hide Quality.ByteLength;
    if k < j {
      PrefixesGrow(text, k, j - 1);
      PrefixStep(text, j - 1);
    }
  }

  /** The part of a text before byte n, None standing for the panic. */
  method CutAt(text: string, n: nat) returns (cut: Option<string>)
    requires Quality.ByteLength(text) > n
    ensures cut == None <==> CutPanics(text, n)
    ensures cut.Some? ==> cut.value <= text && Quality.ByteLength(cut.value) == n
  {
    hide Quality.ByteLength;
    var k, bytes := 0, 0;
    assert Quality.ByteLength(text[..0]) == 0 by { NoBytes(text); }
    assert text[..|text|] == text;
    while bytes < n
      invariant k <= |text| && bytes == Quality.ByteLength(text[..k])
      invariant forall i :: 0 <= i < k ==> Quality.ByteLength(text[..i]) < n
      decreases |text| - k
    {
      PrefixStep(text, k);
      bytes := bytes + Quality.Width(text[k]);
      k := k + 1;
    }
    if bytes == n {
      return Some(text[..k]);
    }
    forall i | k <= i <= |text| ensures Quality.ByteLength(text[..i]) > n { PrefixesGrow(text, k, i); }
    cut := None;
  }

  lemma NoBytes(text: string)
    ensures Quality.ByteLength(text[..0]) == 0
  {}

  ghost predicate IsSummary(text: string, summary: string) {
    if Quality.ByteLength(text) <= 1000 then summary == text
    else exists cut ::
      cut <= text && Quality.ByteLength(cut) == 1000
      && summary == cut + "... (" + Decimal(Quality.ByteLength(text)) + " total chars)"
  }

  method Summarize(text: string) returns (summary: Option<string>)
    ensures summary == None <==> CutPanics(text, SUMMARY_BYTES)
    ensures summary.Some? ==> IsSummary(text, summary.value)
  {
    hide Quality.ByteLength, Decimal;
    if Quality.ByteLength(text) <= SUMMARY_BYTES {
      return Some(text);
    }
    var cut := CutAt(text, SUMMARY_BYTES);
    summary := if cut.None? then None
               else Some(cut.value + "... (" + Decimal(Quality.ByteLength(text)) + " total chars)");
  }

  /** A text of one-byte characters is never cut inside a character. */
  lemma AsciiIsCut(text: string, n: nat)
    requires forall i :: 0 <= i < |text| ==> text[i] as int < 0x80
    ensures !CutPanics(text, n)
  {
    AsciiLength(text);
    if n <= |text| { AsciiLength(text[..n]); }
  }

  lemma {:induction false} AsciiLength(text: string)
    requires forall i :: 0 <= i < |text| ==> text[i] as int < 0x80
    ensures Quality.ByteLength(text) == |text|
  {
    if text != "" { AsciiLength(text[..|text| - 1]); }
  }

  function Copies(n: nat): (s: string)
    ensures |s| == n && forall i :: 0 <= i < n ==> s[i] == '\U{4E2D}'
  {
    seq(n, _ => '\U{4E2D}')
  }

  lemma {:induction false} CopiesLength(n: nat)
    ensures Quality.ByteLength(Copies(n)) == 3 * n
  {
    if n > 0 {
      CopiesLength(n - 1);
      assert Copies(n)[..n - 1] == Copies(n - 1);
    } else {
      assert Copies(0) == "";
    }
  }

  /** A site with one page, whose first paragraph is 334 times U+4E2D, cannot be compiled. */
  lemma OneParagraphPanics(url: string, parts: Parts)
    requires parts.paragraphs == [Copies(334)]
    ensures CutPanics(Quality.Join(FirstParagraphs([Input(url, parts)])), SUMMARY_BYTES)
  {
    var inputs := [Input(url, parts)];
    assert FirstParagraphs(inputs[..0]) == [];
    var text := Copies(334);
    assert FirstParagraphs(inputs) == [text] && Quality.Join([text]) == text;
    CopiesLength(334);
    forall k | 0 <= k <= 334 ensures Quality.ByteLength(text[..k]) == 3 * k {
      CopiesLength(k);
      assert text[..k] == Copies(k);
    }
  }

  // ---- the bundle ----

  lemma SortedByPath(pages: seq<CorePage>)
    ensures var sorted := Sorting.Sort(pages, PathAtMost);
      && multiset(sorted) == multiset(pages) && Sorting.SortedBy(sorted, PathAtMost)
      && (forall i, j :: 0 <= i < j < |sorted| ==> Sorting.AtMost(sorted[i].path, sorted[j].path))
      && TokenSum(sorted) == TokenSum(pages) && QaSum(sorted) == QaSum(pages)
  {
    PathOrder();
    Sorting.SortKeepsElements(pages, PathAtMost);
    Sorting.SortSorts(pages, PathAtMost);
    SortKeepsSums(pages);
  }

  function SiteText(inputs: seq<Input>): string {
    Quality.Join(FirstParagraphs(inputs))
  }

  ghost predicate BundleRight(b: Bundle, domain: string, inputs: seq<Input>, sha256Hex: string -> string) {
    && b.pages == Sorting.Sort(PagesOf(domain, inputs), PathAtMost)
    && multiset(b.pages) == multiset(PagesOf(domain, inputs)) && Sorting.SortedBy(b.pages, PathAtMost)
    && (forall i, j :: 0 <= i < j < |b.pages| ==> Sorting.AtMost(b.pages[i].path, b.pages[j].path))
    && b.totalTokens == TokenSum(b.pages)
    && b.allQaPairs == ConcatQa(inputs) && |b.allQaPairs| == QaSum(b.pages)
    && b.pagesWithCode == CountWhere(inputs, HasCode)
    && b.pagesWithTables == CountWhere(inputs, HasTables)
    && TopicsRight(b.topics, inputs)
    && ScoresRight(b.scores, b.pages, |b.allQaPairs|)
    && b.aeoReadiness == (var n := |b.allQaPairs|; if n == 0 then 10 else if n <= 5 then 40 else if n <= 10 then 65
                                                  else if n <= 20 then 80 else 95)
    && HashesRight(b.pageHashes, b.pages, sha256Hex)
    && b.title == (if b.pages == [] then "" else b.pages[0].title) && CoordinatesRight(b.coordinates, b.pages)
    && IsSummary(SiteText(inputs), b.siteSummary) && b.contentHash == sha256Hex(SiteText(inputs))
    && b.description <= b.siteSummary && |b.description| == (if |b.siteSummary| <= 500 then |b.siteSummary| else 500)
  }

  /** None stands for the panic: there is a bundle exactly if the summary can be cut, and then all of it fits
      the pages. */
  method CompileFromPages(domain: string, inputs: seq<Input>, sha256Hex: string -> string) returns (out: Option<Bundle>)
    ensures out == None <==> CutPanics(SiteText(inputs), 1000)
    ensures out.Some? ==> BundleRight(out.value, domain, inputs, sha256Hex)
  {
    hide ScoresRight, HashesRight, TopicsRight, CoordinatesRight;
    hide CutPanics, IsSummary, Quality.Join, FirstParagraphs;
    var pages, qa, topics, paragraphs, tokens, code, tables := Accumulate(domain, inputs);
    var sorted := Sorting.Sort(pages, PathAtMost);
    SortedByPath(pages);
    hide Sorting.Sort, Sorting.SortedBy, PathAtMost;
    var text := Quality.Join(paragraphs);
    var summarized := Summarize(text);
    if summarized.None? {
      return None;
    }
    var summary := summarized.value;
    var description := if |summary| <= 500 then summary else summary[..500];
    var coordinates := ExtractCoordinates(sorted);
    var title := if sorted == [] then "" else sorted[0].title;
    var hashes := HashPages(sorted, sha256Hex);
    var scores := ScorePages(sorted, |qa|);
    out := Some(Bundle(sorted, qa, topics, tokens, code, tables, scores, AeoReadiness(|qa|), hashes,
                       title, coordinates, summary, description, sha256Hex(text)));
  }
}
