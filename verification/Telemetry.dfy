/** The telemetry tracker: counters, capped histories, a request ring and the report. */
module Telemetry {
  import opened RingBuffer
  import opened Sets
  import Sorting

  const RING_SIZE: nat := 100
  const HISTORY_SIZE: nat := 50

  datatype ScoreSnapshot = ScoreSnapshot(score: nat, recordedAt: int)

  datatype RequestTelemetry = RequestTelemetry(domain: string, cacheHit: bool, timestamp: int)

  datatype Data = Data(
    hits: nat, misses: nat, expired: nat,
    qualityHistory: map<string, seq<ScoreSnapshot>>, siteDomains: map<string, string>,
    handshakeCounts: map<string, nat>, recent: Ring<RequestTelemetry>)

  const NO_DATA: Data := Data(0, 0, 0, map[], map[], map[], Ring(map[], 0))

  datatype Record =
    | CacheHit
    | CacheMiss
    | EntriesExpired(count: nat)
    | QualityScore(siteId: string, domain: string, snapshot: ScoreSnapshot)
    | HandshakeDone(siteId: string)
    | RequestSeen(request: RequestTelemetry)

  /** The last n elements stay. */
  function Capped<T>(xs: seq<T>, n: nat): seq<T> {
    if |xs| > n then xs[|xs| - n..] else xs
  }

  function CountOf(counts: map<string, nat>, k: string): nat {
    if k in counts then counts[k] else 0
  }

  function HistoryOf(d: Data, siteId: string): seq<ScoreSnapshot> {
    if siteId in d.qualityHistory then d.qualityHistory[siteId] else []
  }

  function DomainOf(d: Data, siteId: string): string {
    if siteId in d.siteDomains then d.siteDomains[siteId] else ""
  }

  /** The score recorded last, 0 if there is none. */
  function ScoreOf(d: Data, siteId: string): nat {
    var history := HistoryOf(d, siteId);
    if history == [] then 0 else history[|history| - 1].score
  }

  function Recorded(d: Data, r: Record): Data {
    match r
    case CacheHit => d.(hits := d.hits + 1)
    case CacheMiss => d.(misses := d.misses + 1)
    case EntriesExpired(count) => d.(expired := (d.expired + count) % U64)
    case QualityScore(siteId, domain, snapshot) =>
      d.(siteDomains := d.siteDomains[siteId := domain],
         qualityHistory := d.qualityHistory[siteId := Capped(HistoryOf(d, siteId) + [snapshot], HISTORY_SIZE)])
    case HandshakeDone(siteId) =>
      d.(handshakeCounts := d.handshakeCounts[siteId := CountOf(d.handshakeCounts, siteId) + 1])
    case RequestSeen(request) => d.(recent := Push(d.recent, request, RING_SIZE))
  }

  function AllRecorded(d: Data, rs: seq<Record>): Data {
    if rs == [] then d else Recorded(AllRecorded(d, rs[..|rs| - 1]), rs[|rs| - 1])
  }

  datatype TopSite = TopSite(siteId: string, domain: string, qualityScore: nat, totalHandshakes: nat)

  datatype QualityTrend = QualityTrend(siteId: string, domain: string, currentScore: nat, history: seq<ScoreSnapshot>)

  datatype Report = Report(
    hits: nat, misses: nat, hitRatio: real, totalEntries: nat, expired: nat, qualityTrends: seq<QualityTrend>,
    topSites: seq<TopSite>, recentRequests: seq<RequestTelemetry>, uptimeSeconds: nat)

  /** What the report says of a site. */
  function RowOf(d: Data, siteId: string): TopSite {
    TopSite(siteId, DomainOf(d, siteId), ScoreOf(d, siteId), CountOf(d.handshakeCounts, siteId))
  }

  function TrendOf(d: Data, siteId: string): QualityTrend {
    QualityTrend(siteId, DomainOf(d, siteId), ScoreOf(d, siteId), HistoryOf(d, siteId))
  }

  predicate MoreHandshakes(a: TopSite, b: TopSite) {
    a.totalHandshakes >= b.totalHandshakes
  }

  predicate Newer(a: RequestTelemetry, b: RequestTelemetry) {
    a.timestamp >= b.timestamp
  }

  class TelemetryTracker {
    var cacheHits: nat
    var cacheMisses: nat
    var entriesExpired: nat
    var qualityHistory: map<string, seq<ScoreSnapshot>>
    var siteDomains: map<string, string>
    var handshakeCounts: map<string, nat>
    var recentRequests: map<nat, RequestTelemetry>
    var recentIndex: nat

    function State(): Data
      reads this
    {
      Data(cacheHits, cacheMisses, entriesExpired, qualityHistory, siteDomains, handshakeCounts,
           Ring(recentRequests, recentIndex))
    }

    constructor ()
      ensures State() == NO_DATA
    {
      cacheHits, cacheMisses, entriesExpired := 0, 0, 0;
      qualityHistory, siteDomains, handshakeCounts := map[], map[], map[];
      recentRequests, recentIndex := map[], 0;
    }

    method RecordCacheHit()
      modifies this
      ensures State() == Recorded(old(State()), CacheHit)
    {
      cacheHits := cacheHits + 1;
    }

    method RecordCacheMiss()
      modifies this
      ensures State() == Recorded(old(State()), CacheMiss)
    {
      cacheMisses := cacheMisses + 1;
    }

    method RecordExpired(count: nat)
      modifies this
      ensures State() == Recorded(old(State()), EntriesExpired(count))
    {
      entriesExpired := (entriesExpired + count) % 0x1_0000_0000_0000_0000;
    }

    method RecordQualityScore(siteId: string, domain: string, score: nat, now: int)
      modifies this
      ensures State() == Recorded(old(State()), QualityScore(siteId, domain, ScoreSnapshot(score, now)))
    {
      siteDomains := siteDomains[siteId := domain];
      var history := if siteId in qualityHistory then qualityHistory[siteId] else [];
      history := history + [ScoreSnapshot(score, now)];
      var len := |history|;
      if len > 50 {
        history := history[len - 50..];
      }
      qualityHistory := qualityHistory[siteId := history];
    }

    method RecordHandshake(siteId: string)
      modifies this
      ensures State() == Recorded(old(State()), HandshakeDone(siteId))
    {
      if siteId !in handshakeCounts {
        handshakeCounts := handshakeCounts[siteId := 0];
      }
      handshakeCounts := handshakeCounts[siteId := handshakeCounts[siteId] + 1];
    }

    method RecordRequest(request: RequestTelemetry)
      modifies this
      ensures State() == Recorded(old(State()), RequestSeen(request))
    {
      var idx := recentIndex % 100;
      recentIndex := (recentIndex + 1) % 0x1_0000_0000_0000_0000;
      recentRequests := recentRequests[idx := request];
    }

    /** One row for each site with handshakes, in whatever order the map is visited. */
    method ListSites() returns (sites: seq<TopSite>)
      ensures Lists(sites, State(), handshakeCounts.Keys)
    {
      hide Lists, Capped;
      sites := [];
      var left := handshakeCounts.Keys;
      ListsNone(State());
      assert left - left == {};
      while left != {}
        invariant left <= handshakeCounts.Keys
        invariant Lists(sites, State(), handshakeCounts.Keys - left)
        decreases left
      {
        var k :| k in left;
        var domain := if k in siteDomains then siteDomains[k] else "";
        var history := if k in qualityHistory then qualityHistory[k] else [];
        var score := if history == [] then 0 else history[|history| - 1].score;
        var row := TopSite(k, domain, score, handshakeCounts[k]);
        ListsOneMore(sites, State(), handshakeCounts.Keys - left, row);
        assert handshakeCounts.Keys - left + {k} == handshakeCounts.Keys - (left - {k});
        sites := sites + [row];
        left := left - {k};
      }
      assert handshakeCounts.Keys - {} == handshakeCounts.Keys;
    }

    /** One trend for each site with a history, in whatever order the map is visited. */
    method ListTrends() returns (trends: seq<QualityTrend>)
      ensures ListsTrends(trends, State(), qualityHistory.Keys)
    {
      hide ListsTrends, Capped;
      trends := [];
      var left := qualityHistory.Keys;
      TrendsNone(State());
      assert left - left == {};
      while left != {}
        invariant left <= qualityHistory.Keys
        invariant ListsTrends(trends, State(), qualityHistory.Keys - left)
        decreases left
      {
        var k :| k in left;
        var history := qualityHistory[k];
        var score := if history == [] then 0 else history[|history| - 1].score;
        var domain := if k in siteDomains then siteDomains[k] else "";
        TrendsOneMore(trends, State(), qualityHistory.Keys - left, k);
        assert qualityHistory.Keys - left + {k} == qualityHistory.Keys - (left - {k});
        trends := trends + [QualityTrend(k, domain, score, history)];
        left := left - {k};
      }
      assert qualityHistory.Keys - {} == qualityHistory.Keys;
    }

    /** The sites with the most handshakes and the newest requests that are still in the ring. */
    method MakeReport(totalEntries: nat, uptimeSeconds: nat) returns (r: Report)
      ensures r.hits == cacheHits && r.misses == cacheMisses && r.expired == entriesExpired
      ensures r.totalEntries == totalEntries && r.uptimeSeconds == uptimeSeconds
      ensures ListsTrends(r.qualityTrends, State(), qualityHistory.Keys)
      ensures r.hitRatio * (cacheHits + cacheMisses) as real
           == if cacheHits + cacheMisses > 0 then cacheHits as real else 0.0
      ensures |r.topSites| == if |handshakeCounts| < 10 then |handshakeCounts| else 10
      ensures forall s :: s in r.topSites ==> s.siteId in handshakeCounts && s == RowOf(State(), s.siteId)
      ensures forall i, j :: 0 <= i < j < |r.topSites| ==>
        r.topSites[i].siteId != r.topSites[j].siteId && r.topSites[i].totalHandshakes >= r.topSites[j].totalHandshakes
      ensures forall s, k ::
        s in r.topSites && k in handshakeCounts && (forall t :: t in r.topSites ==> t.siteId != k) ==>
        s.totalHandshakes >= handshakeCounts[k]
      ensures |r.recentRequests| == if |recentRequests| < 20 then |recentRequests| else 20
      ensures forall i, j :: 0 <= i < j < |r.recentRequests| ==>
        r.recentRequests[i].timestamp >= r.recentRequests[j].timestamp
      ensures forall q :: q in r.recentRequests ==> exists k :: k in recentRequests && recentRequests[k] == q
      ensures forall q, k :: q in r.recentRequests && k in recentRequests && recentRequests[k] !in r.recentRequests ==>
        q.timestamp >= recentRequests[k].timestamp
    {
      hide Lists, ListsTrends, RowOf, Picks, Sorting.Top;
      var total := cacheHits + cacheMisses;
      var hitRatio := if total > 0 then cacheHits as real / total as real else 0.0;

      var trends := ListTrends();
      var sites := ListSites();
      var topSites := Sorting.Top(sites, MoreHandshakes, 10);
      TopSitesAreTop(sites, State(), topSites);

      var recent, ks := Collect(recentRequests);
      var newest := Sorting.Top(recent, Newer, 20);
      NewestAreNewest(recentRequests, ks, recent, newest);
      r := Report(cacheHits, cacheMisses, hitRatio, totalEntries, entriesExpired, trends,
                  topSites, newest, uptimeSeconds);
    }
  }

  /** trends has the trend of each of the keys, just once. */
  ghost predicate ListsTrends(trends: seq<QualityTrend>, d: Data, keys: set<string>) {
    && |trends| == |keys|
    && (forall q :: q in trends ==> q.siteId in keys && q == TrendOf(d, q.siteId))
    && (forall k :: k in keys ==> TrendOf(d, k) in trends)
  }

  lemma TrendsNone(d: Data)
    ensures ListsTrends([], d, {})
  {}

  lemma TrendsOneMore(trends: seq<QualityTrend>, d: Data, keys: set<string>, k: string)
    requires ListsTrends(trends, d, keys) && k !in keys
    ensures ListsTrends(trends + [TrendOf(d, k)], d, keys + {k})
  {
    hide DomainOf, ScoreOf, HistoryOf;
  }

  /** sites has the row of each of the keys. */
  ghost predicate Lists(sites: seq<TopSite>, d: Data, keys: set<string>) {
    && |sites| == |keys|
    && (forall s :: s in sites ==> s.siteId in keys && s == RowOf(d, s.siteId))
    && (forall k :: k in keys ==> exists s :: s in sites && s.siteId == k)
    && (forall i, j :: 0 <= i < j < |sites| ==> sites[i].siteId != sites[j].siteId)
  }

  lemma ListsNone(d: Data)
    ensures Lists([], d, {})
  {}

  lemma ListsOneMore(sites: seq<TopSite>, d: Data, keys: set<string>, row: TopSite)
    requires Lists(sites, d, keys) && row.siteId !in keys && row == RowOf(d, row.siteId)
    ensures Lists(sites + [row], d, keys + {row.siteId})
  {
    hide RowOf;
    var more := sites + [row];
    forall k | k in keys + {row.siteId} ensures exists s :: s in more && s.siteId == k {
      if k == row.siteId { assert row in more; } else {
        var s :| s in sites && s.siteId == k;
        assert s in more;
      }
    }
  }

  lemma TopSitesAreTop(sites: seq<TopSite>, d: Data, top: seq<TopSite>)
    requires Lists(sites, d, d.handshakeCounts.Keys) && top == Sorting.Top(sites, MoreHandshakes, 10)
    ensures |top| == Least(|d.handshakeCounts|, 10)
    ensures forall s :: s in top ==> s.siteId in d.handshakeCounts && s == RowOf(d, s.siteId)
    ensures forall i, j :: 0 <= i < j < |top| ==> top[i].siteId != top[j].siteId && MoreHandshakes(top[i], top[j])
    ensures forall s, k ::
      s in top && k in d.handshakeCounts && (forall t :: t in top ==> t.siteId != k)
      ==> s.totalHandshakes >= d.handshakeCounts[k]
  {
    hide ScoreOf, DomainOf;
    Sorting.TopGoesFirst(sites, MoreHandshakes, 10);
    forall s | s in top ensures s in sites { assert s in multiset(top); assert s in multiset(sites); }
    forall i, j | 0 <= i < j < |top| ensures top[i].siteId != top[j].siteId {
      DistinctRows(sites, d, top, i, j);
    }
    forall s, k | s in top && k in d.handshakeCounts && (forall t :: t in top ==> t.siteId != k)
      ensures s.totalHandshakes >= d.handshakeCounts[k]
    {
      var row :| row in sites && row.siteId == k;
      assert row in multiset(sites) && row !in top && row !in multiset(top);
      assert MoreHandshakes(s, row);
    }
  }

  lemma OnePlace(sites: seq<TopSite>, p: nat)
    requires p < |sites| && forall i, j :: 0 <= i < j < |sites| ==> sites[i].siteId != sites[j].siteId
    ensures multiset(sites)[sites[p]] == 1
  {
    var before, after := sites[..p], sites[p + 1..];
    assert sites == before + [sites[p]] + after;
    assert sites[p] !in before && sites[p] !in after;
    assert multiset(before)[sites[p]] == 0 && multiset(after)[sites[p]] == 0;
  }

  lemma DistinctRows(sites: seq<TopSite>, d: Data, top: seq<TopSite>, i: nat, j: nat)
    requires Lists(sites, d, d.handshakeCounts.Keys) && multiset(top) <= multiset(sites) && i < j < |top|
    ensures top[i].siteId != top[j].siteId
  {
    assert top[i] in multiset(top) && top[j] in multiset(top);
    var p :| 0 <= p < |sites| && sites[p] == top[i];
    var q :| 0 <= q < |sites| && sites[q] == top[j];
    Sorting.TwoPlaces(top, i, j);
    OnePlace(sites, p);
    assert top[i] != top[j];
    assert p != q;
  }

  lemma NewestAreNewest(slots: map<nat, RequestTelemetry>, ks: seq<nat>,
                        recent: seq<RequestTelemetry>, newest: seq<RequestTelemetry>)
    requires Picks(slots, ks, recent) && |recent| == |slots| && newest == Sorting.Top(recent, Newer, 20)
    ensures |newest| == Least(|slots|, 20) && Sorting.SortedBy(newest, Newer)
    ensures forall q :: q in newest ==> exists k :: k in slots && slots[k] == q
    ensures forall q, k :: q in newest && k in slots && slots[k] !in newest ==> Newer(q, slots[k])
  {
    Sorting.TopGoesFirst(recent, Newer, 20);
    forall q | q in newest ensures exists k :: k in slots && slots[k] == q {
      assert q in multiset(newest) && q in multiset(recent);
      var i :| 0 <= i < |recent| && recent[i] == q;
      assert slots[ks[i]] == q;
    }
    AllPicked(slots, ks, recent);
    forall q, k | q in newest && k in slots && slots[k] !in newest ensures Newer(q, slots[k]) {
      assert slots[k] in multiset(recent) && slots[k] !in multiset(newest);
    }
  }

  /** As many distinct slots as there are: every value is among the picks. */
  lemma AllPicked<T>(slots: map<nat, T>, ks: seq<nat>, xs: seq<T>)
    requires Picks(slots, ks, xs) && |xs| == |slots|
    ensures forall k :: k in slots ==> slots[k] in xs
  {
    var picked := set i | 0 <= i < |ks| :: ks[i];
    DistinctCount(ks);
    assert picked <= slots.Keys;
    SameSize(picked, slots.Keys);
    forall k | k in slots ensures slots[k] in xs {
      var i :| 0 <= i < |ks| && ks[i] == k;
      assert xs[i] == slots[k];
    }
  }

  lemma {:induction false} DistinctCount(ks: seq<nat>)
    requires forall i, j :: 0 <= i < j < |ks| ==> ks[i] != ks[j]
    ensures |set i | 0 <= i < |ks| :: ks[i]| == |ks|
  {
    if ks != [] {
      var n := |ks| - 1;
      DistinctCount(ks[..n]);
      var fewer := set i | 0 <= i < n :: ks[..n][i];
      assert (set i | 0 <= i < |ks| :: ks[i]) == fewer + {ks[n]};
    }
  }

  // ---- what a run of records leaves ----

  function Scores(rs: seq<Record>, siteId: string): seq<ScoreSnapshot> {
    if rs == [] then []
    else
      var last := rs[|rs| - 1];
      Scores(rs[..|rs| - 1], siteId) + if last.QualityScore? && last.siteId == siteId then [last.snapshot] else []
  }

  function Requests(rs: seq<Record>): seq<RequestTelemetry> {
    if rs == [] then []
    else Requests(rs[..|rs| - 1]) + if rs[|rs| - 1].RequestSeen? then [rs[|rs| - 1].request] else []
  }

  function Count(rs: seq<Record>, r: Record): nat {
    if rs == [] then 0 else Count(rs[..|rs| - 1], r) + if rs[|rs| - 1] == r then 1 else 0
  }

  function ExpiredSum(rs: seq<Record>): nat {
    if rs == [] then 0
    else ExpiredSum(rs[..|rs| - 1]) + if rs[|rs| - 1].EntriesExpired? then rs[|rs| - 1].count else 0
  }

  lemma {:induction false} ExpiredAddUp(rs: seq<Record>)
    ensures AllRecorded(NO_DATA, rs).expired == ExpiredSum(rs) % U64
  {
    hide Capped, HistoryOf, Push, CountOf;
    if rs != [] { ExpiredAddUp(rs[..|rs| - 1]); }
  }

  /** The domain given with the last score of a site. */
  function LastDomain(rs: seq<Record>, siteId: string): string {
    if rs == [] then ""
    else
      var last := rs[|rs| - 1];
      if last.QualityScore? && last.siteId == siteId then last.domain else LastDomain(rs[..|rs| - 1], siteId)
  }

  lemma {:induction false} CountersCount(rs: seq<Record>, siteId: string)
    ensures var d := AllRecorded(NO_DATA, rs);
      && d.hits == Count(rs, CacheHit) && d.misses == Count(rs, CacheMiss)
      && CountOf(d.handshakeCounts, siteId) == Count(rs, HandshakeDone(siteId))
      && DomainOf(d, siteId) == LastDomain(rs, siteId)
  {
    hide Capped, HistoryOf, Push;
    if rs != [] { CountersCount(rs[..|rs| - 1], siteId); }
  }

  lemma {:induction false} HistoriesAreSuffixes(rs: seq<Record>, siteId: string)
    ensures HistoryOf(AllRecorded(NO_DATA, rs), siteId) == Last(Scores(rs, siteId), HISTORY_SIZE)
  {
    hide Capped, Push, CountOf, Last;
    if rs == [] {
      NoScores();
    } else {
      var init, last := rs[..|rs| - 1], rs[|rs| - 1];
      HistoriesAreSuffixes(init, siteId);
      if last.QualityScore? && last.siteId == siteId {
        CappedPush(Scores(init, siteId), last.snapshot, HISTORY_SIZE);
      } else {
        assert Scores(rs, siteId) == Scores(init, siteId);
      }
    }
  }

  lemma NoScores()
    ensures Last<ScoreSnapshot>([], HISTORY_SIZE) == []
  {}

  lemma {:induction false} RingOfRequests(rs: seq<Record>)
    ensures AllRecorded(NO_DATA, rs).recent == PushAll(Requests(rs), RING_SIZE)
  {
    hide Capped, HistoryOf, CountOf;
    if rs != [] {
      var init, last := rs[..|rs| - 1], rs[|rs| - 1];
      RingOfRequests(init);
      if last.RequestSeen? {
        var all := Requests(rs);
        assert all[..|all| - 1] == Requests(init);
      } else {
        assert Requests(rs) == Requests(init);
      }
    }
  }

  /** Every counter counts its records; a site has the domain it was given last, and as history the last
      50 of its scores, in order; the ring is the ring of all requests. */
  lemma RecordsLeaveTheirMark(rs: seq<Record>, siteId: string)
    ensures var d := AllRecorded(NO_DATA, rs);
      && d.hits == Count(rs, CacheHit) && d.misses == Count(rs, CacheMiss) && d.expired == ExpiredSum(rs) % U64
      && CountOf(d.handshakeCounts, siteId) == Count(rs, HandshakeDone(siteId))
      && DomainOf(d, siteId) == LastDomain(rs, siteId)
      && HistoryOf(d, siteId) == Last(Scores(rs, siteId), HISTORY_SIZE)
      && d.recent == PushAll(Requests(rs), RING_SIZE)
  {
    CountersCount(rs, siteId);
    HistoriesAreSuffixes(rs, siteId);
    RingOfRequests(rs);
    ExpiredAddUp(rs);
  }

  lemma CappedPush<T>(xs: seq<T>, x: T, n: nat)
    requires n > 0
    ensures Capped(Last(xs, n) + [x], n) == Last(xs + [x], n)
  {}

  /** After any number of requests below 2^64 the ring holds the last 100 of them. */
  lemma RingHoldsLastRequests(rs: seq<Record>, k: nat) returns (j: nat)
    requires |rs| < U64 && k in AllRecorded(NO_DATA, rs).recent.slots
    ensures var requests := Requests(rs); var d := AllRecorded(NO_DATA, rs);
      && |d.recent.slots| == Least(|requests|, RING_SIZE)
      && Kept(j, |requests|, RING_SIZE) && d.recent.slots[k] == requests[j]
      && forall i: nat :: Kept(i, |requests|, RING_SIZE) ==>
           i % RING_SIZE in d.recent.slots && d.recent.slots[i % RING_SIZE] == requests[i]
  {
    RecordsLeaveTheirMark(rs, "");
    RequestsAtMost(rs);
    RingHoldsLast(Requests(rs), RING_SIZE);
    SlotCount(PushAll(Requests(rs), RING_SIZE).slots, Least(|Requests(rs)|, RING_SIZE));
    j := SlotsHoldLast(Requests(rs), RING_SIZE, k);
  }

  lemma {:induction false} RequestsAtMost(rs: seq<Record>)
    ensures |Requests(rs)| <= |rs|
  {
    if rs != [] { RequestsAtMost(rs[..|rs| - 1]); }
  }
}
