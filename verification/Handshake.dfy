/** The handshake handler, which answers from the cache or compiles, and counts what it does. */
module Handshake {
  import opened Wrappers
  import opened Cache
  import T = Telemetry

  /** What compiling a fetched page gives. */
  datatype Page<+P> = Page(siteId: string, doc: P, mdoc: P, qualityScore: nat)

  datatype PayloadType = Doc | Mdoc

  /** A request, by itself or as one of a batch, and what the world shows while it is handled: the clock,
      in nanoseconds, on arrival, at the cache lookup and at the insert, and the compiled page, None
      standing for any failure to get it. */
  datatype Call<+P> = Call(
    batched: bool, url: string, payloadType: PayloadType, nonceLength: nat, timestamp: int,
    arrival: int, lookup: int, compiled: int, upstream: Option<Page<P>>)

  datatype Response<+P> = Unauthorized | UpstreamFailed | Served(siteId: string, payload: P)

  datatype Service<P> = Service(cache: Entries<Page<P>>, telemetry: T.Data)

  const I64: int := 0x8000_0000_0000_0000

  /** A difference of 64-bit numbers, cut to 64 bits. */
  function Wrapped(x: int): int {
    (x + I64) % (2 * I64) - I64
  }

  /** The absolute value of a 64-bit number, which of the lowest one is that number itself. */
  function Abs64(x: int): int {
    if x < 0 && x != -I64 then -x else x
  }

  /** Whole seconds since the epoch, for clocks past it. */
  function UnixSeconds(t: int): int {
    t / NANOS
  }

  predicate NonceAccepted<P>(c: Call<P>) {
    Abs64(Wrapped(UnixSeconds(c.arrival) - c.timestamp)) <= 300 && c.nonceLength >= 16
  }

  /** A nonce is accepted exactly within 300 seconds before and after the request's own time, apart from
      the one time 2^63 seconds before the clock, where the difference wraps around; the clock is one that
      the library can show. */
  lemma NonceIsRecent<P>(c: Call<P>)
    requires -0x8000_0000_0000_0000 <= c.timestamp < 0x8000_0000_0000_0000
    requires 0 <= c.arrival < (0x8000_0000_0000_0000 - 300) * 1_000_000_000
    ensures var age := c.arrival / 1_000_000_000 - c.timestamp;
      NonceAccepted(c) <==> c.nonceLength >= 16 && (-300 <= age <= 300 || age == 0x8000_0000_0000_0000)
  {
    var age := UnixSeconds(c.arrival) - c.timestamp;
    assert Wrapped(age) == if age < I64 then age else age - 2 * I64;
  }

  function Selected<P>(p: Page<P>, t: PayloadType): P {
    if t.Doc? then p.doc else p.mdoc
  }

  /** A request that is part of a batch is not recorded as a request. */
  function RequestRecord<P>(c: Call<P>, cacheHit: bool): seq<T.Record> {
    if c.batched then [] else [T.RequestSeen(T.RequestTelemetry(c.url, cacheHit, c.arrival))]
  }

  /** The telemetry records that a call makes, in order. */
  function RecordsOf<P>(c: Call<P>, hit: Option<CacheEntry<Page<P>>>): seq<T.Record> {
    if !NonceAccepted(c) then (if c.batched then [] else [T.CacheMiss]) + RequestRecord(c, false)
    else match hit
      case Some(e) => [T.CacheHit, T.HandshakeDone(e.value.siteId)] + RequestRecord(c, true)
      case None =>
        match c.upstream
        case None => [T.CacheMiss]
        case Some(page) =>
          [T.CacheMiss, T.QualityScore(page.siteId, c.url, T.ScoreSnapshot(page.qualityScore, c.compiled)),
           T.HandshakeDone(page.siteId)] + RequestRecord(c, false)
  }

  /** Every call counts as a hit or a miss, but for the part of a batch whose nonce is not accepted. */
  predicate IsCounted<P>(c: Call<P>) {
    NonceAccepted(c) || !c.batched
  }

  function Handled<P>(s: Service<P>, c: Call<P>, ttl: int): (Service<P>, Response<P>) {
    var hit := Lookup(s.cache, c.url, c.lookup, ttl);
    var telemetry := T.AllRecorded(s.telemetry, RecordsOf(c, hit));
    if !NonceAccepted(c) then (Service(s.cache, telemetry), Unauthorized)
    else match hit
      case Some(e) => (Service(s.cache, telemetry), Served(e.value.siteId, Selected(e.value, c.payloadType)))
      case None =>
        match c.upstream
        case None => (Service(s.cache - {c.url}, telemetry), UpstreamFailed)
        case Some(page) =>
          (Service((s.cache - {c.url})[c.url := CacheEntry(page, c.compiled)], telemetry),
           Served(page.siteId, Selected(page, c.payloadType)))
  }

  /** The response to a call that has or has not found an entry: a page's doc or mdoc, as is asked for. */
  predicate IsAnswer<P(==)>(r: Response<P>, c: Call<P>, hit: Option<CacheEntry<Page<P>>>) {
    match r
    case Unauthorized => !NonceAccepted(c)
    case UpstreamFailed => NonceAccepted(c) && hit.None? && c.upstream.None?
    case Served(siteId, payload) =>
      && NonceAccepted(c) && (hit.Some? || c.upstream.Some?)
      && var page := if hit.Some? then hit.value.value else c.upstream.value;
         siteId == page.siteId && payload == if c.payloadType.Doc? then page.doc else page.mdoc
  }

  /** A few records, one after the other. */
  lemma RecordedInTurn(d: T.Data, rs: seq<T.Record>)
    requires |rs| <= 4
    ensures T.AllRecorded(d, rs) ==
      if rs == [] then d else
      var d1 := T.Recorded(d, rs[0]);
      if |rs| == 1 then d1 else
      var d2 := T.Recorded(d1, rs[1]);
      if |rs| == 2 then d2 else
      var d3 := T.Recorded(d2, rs[2]);
      if |rs| == 3 then d3 else T.Recorded(d3, rs[3])
  {}

  /** The handler, step by step, on the cache and the telemetry that all calls share. */
  method HandleHandshake<P>(cache: RfoCache<Page<P>>, telemetry: T.TelemetryTracker, c: Call<P>)
    returns (r: Response<P>)
    requires cache as object != telemetry && !c.batched
    modifies cache, telemetry
    ensures (Service(cache.inner, telemetry.State()), r)
         == Handled(Service(old(cache.inner), old(telemetry.State())), c, cache.ttlSeconds)
    ensures IsAnswer(r, c, Lookup(old(cache.inner), c.url, c.lookup, cache.ttlSeconds))
  {
    hide T.Recorded, T.AllRecorded, Lookup, NonceAccepted;
    RecordedInTurn(telemetry.State(), RecordsOf(c, Lookup(cache.inner, c.url, c.lookup, cache.ttlSeconds)));
    if !NonceAccepted(c) {
      telemetry.RecordCacheMiss();
      telemetry.RecordRequest(T.RequestTelemetry(c.url, false, c.arrival));
      return Unauthorized;
    }
    var found := cache.Get(c.url, c.lookup);
    if found.Some? {
      var entry := found.value;
      telemetry.RecordCacheHit();
      telemetry.RecordHandshake(entry.value.siteId);
      telemetry.RecordRequest(T.RequestTelemetry(c.url, true, c.arrival));
      return Served(entry.value.siteId, Selected(entry.value, c.payloadType));
    }
    telemetry.RecordCacheMiss();
    if c.upstream.None? {
      return UpstreamFailed;
    }
    var page := c.upstream.value;
    cache.Insert(c.url, CacheEntry(page, c.compiled));
    telemetry.RecordQualityScore(page.siteId, c.url, page.qualityScore, c.compiled);
    telemetry.RecordHandshake(page.siteId);
    telemetry.RecordRequest(T.RequestTelemetry(c.url, false, c.arrival));
    r := Served(page.siteId, Selected(page, c.payloadType));
  }

  /** What is done for each request of a batch. */
  method ProcessHandshakeInner<P>(cache: RfoCache<Page<P>>, telemetry: T.TelemetryTracker, c: Call<P>)
    returns (r: Response<P>)
    requires cache as object != telemetry && c.batched
    modifies cache, telemetry
    ensures (Service(cache.inner, telemetry.State()), r)
         == Handled(Service(old(cache.inner), old(telemetry.State())), c, cache.ttlSeconds)
    ensures IsAnswer(r, c, Lookup(old(cache.inner), c.url, c.lookup, cache.ttlSeconds))
  {
    hide T.Recorded, T.AllRecorded, Lookup, NonceAccepted;
    RecordedInTurn(telemetry.State(), RecordsOf(c, Lookup(cache.inner, c.url, c.lookup, cache.ttlSeconds)));
    if !NonceAccepted(c) {
      return Unauthorized;
    }
    var found := cache.Get(c.url, c.lookup);
    if found.Some? {
      var entry := found.value;
      telemetry.RecordCacheHit();
      telemetry.RecordHandshake(entry.value.siteId);
      return Served(entry.value.siteId, Selected(entry.value, c.payloadType));
    }
    telemetry.RecordCacheMiss();
    if c.upstream.None? {
      return UpstreamFailed;
    }
    var page := c.upstream.value;
    cache.Insert(c.url, CacheEntry(page, c.compiled));
    telemetry.RecordQualityScore(page.siteId, c.url, page.qualityScore, c.compiled);
    telemetry.RecordHandshake(page.siteId);
    r := Served(page.siteId, Selected(page, c.payloadType));
  }

  // ---- runs of handshakes and other users of the cache, one after the other ----

  /** What other code does with the cache. */
  datatype CacheUse<+P> =
    | PutIn(key: string, entry: CacheEntry<Page<P>>, now: int)
    | LookUp(key: string, now: int)
    | TakeOut(key: string, now: int)
    | CleanUp(now: int)
    | TakeAllOut(now: int)

  datatype Event<+P> = Request(c: Call<P>) | Other(op: CacheUse<P>)

  function Used<P>(m: Entries<Page<P>>, op: CacheUse<P>, ttl: int): Entries<Page<P>> {
    match op
    case PutIn(key, entry, _) => m[key := entry]
    case LookUp(key, now) => if Lookup(m, key, now, ttl).None? then m - {key} else m
    case TakeOut(key, _) => m - {key}
    case CleanUp(now) => FreshOnly(m, now, ttl)
    case TakeAllOut(_) => map[]
  }

  function After<P>(events: seq<Event<P>>, ttl: int): Service<P> {
    if events == [] then Service(map[], T.NO_DATA)
    else
      var s := After(events[..|events| - 1], ttl);
      match events[|events| - 1]
      case Request(c) => Handled(s, c, ttl).0
      case Other(op) => s.(cache := Used(s.cache, op, ttl))
  }

  /** The response to the request that comes last. */
  function Answer<P>(events: seq<Event<P>>, ttl: int): Response<P>
    requires events != [] && events[|events| - 1].Request?
  {
    Handled(After(events[..|events| - 1], ttl), events[|events| - 1].c, ttl).1
  }

  /** The request got as far as compiling a page. */
  predicate Compiles<P>(s: Service<P>, c: Call<P>, ttl: int) {
    NonceAccepted(c) && c.upstream.Some? && Lookup(s.cache, c.url, c.lookup, ttl).None?
  }

  /** The entry put in last for a URL, by a request or by other code, unless it has been taken out. */
  function Latest<P>(events: seq<Event<P>>, url: string, ttl: int): Option<CacheEntry<Page<P>>> {
    if events == [] then None
    else
      var init := events[..|events| - 1];
      match events[|events| - 1]
      case Request(c) =>
        if c.url == url && Compiles(After(init, ttl), c, ttl) then Some(CacheEntry(c.upstream.value, c.compiled))
        else Latest(init, url, ttl)
      case Other(PutIn(key, entry, _)) => if key == url then Some(entry) else Latest(init, url, ttl)
      case Other(TakeOut(key, _)) => if key == url then None else Latest(init, url, ttl)
      case Other(TakeAllOut(_)) => None
      case Other(_) => Latest(init, url, ttl)
  }

  function Begins<P>(e: Event<P>): int {
    match e case Request(c) => c.arrival case Other(op) => op.now
  }

  function Ends<P>(e: Event<P>): int {
    match e case Request(c) => c.compiled case Other(op) => op.now
  }

  /** Clocks do not go back, within an event and from event to event. */
  predicate Chronological<P>(events: seq<Event<P>>) {
    && (forall i :: 0 <= i < |events| && events[i].Request? ==>
          events[i].c.arrival <= events[i].c.lookup <= events[i].c.compiled)
    && (forall i, j :: 0 <= i < j < |events| ==> Ends(events[i]) <= Begins(events[j]))
  }

  /** The cache has the latest entry for every URL, except for entries that have expired. */
  ghost predicate HasLatest<P>(m: Entries<Page<P>>, url: string, latest: Option<CacheEntry<Page<P>>>,
                               now: int, ttl: int) {
    && (url in m ==> latest == Some(m[url]))
    && (url !in m && latest.Some? ==> !Fresh(latest.value, now, ttl))
  }

  lemma LaterHasLatest<P>(m: Entries<Page<P>>, url: string, latest: Option<CacheEntry<Page<P>>>,
                          now: int, later: int, ttl: int)
    requires HasLatest(m, url, latest, now, ttl) && now <= later
    ensures HasLatest(m, url, latest, later, ttl)
  {}

  lemma {:induction false} CacheHasLatest<P>(events: seq<Event<P>>, url: string, ttl: int, now: int)
    requires Chronological(events) && (events != [] ==> Ends(events[|events| - 1]) <= now)
    ensures HasLatest(After(events, ttl).cache, url, Latest(events, url, ttl), now, ttl)
  {
    hide NonceAccepted, Fresh, Selected, RecordsOf, Chronological;
    if events != [] {
      var init, last := events[..|events| - 1], events[|events| - 1];
      var moment := match last case Request(c) => c.lookup case Other(op) => op.now;
      Earlier(events, moment);
      CacheHasLatest(init, url, ttl, moment);
      LaterHasLatest(After(events, ttl).cache, url, Latest(events, url, ttl), moment, now, ttl);
    }
  }

  /** The moment of the last event at which the cache is looked at is not before the events so far. */
  lemma Earlier<P>(events: seq<Event<P>>, moment: int)
    requires Chronological(events) && events != []
    requires moment == match events[|events| - 1] case Request(c) => c.lookup case Other(op) => op.now
    ensures var init := events[..|events| - 1];
      Chronological(init) && (init != [] ==> Ends(init[|init| - 1]) <= moment) && moment <= Ends(events[|events| - 1])
  {}

  /** A request with a good nonce is answered with the latest entry for its URL exactly while that is
      within its time to live, and otherwise with a page compiled for it or a failure. */
  lemma AnswersAreLatest<P>(events: seq<Event<P>>, ttl: int)
    requires events != [] && events[|events| - 1].Request? && Chronological(events)
    ensures var c := events[|events| - 1].c; var latest := Latest(events[..|events| - 1], c.url, ttl);
      Answer(events, ttl) ==
        if !NonceAccepted(c) then Unauthorized
        else if latest.Some? && Fresh(latest.value, c.lookup, ttl) then
          var page := latest.value.value; Served(page.siteId, if c.payloadType.Doc? then page.doc else page.mdoc)
        else match c.upstream
          case Some(page) => Served(page.siteId, if c.payloadType.Doc? then page.doc else page.mdoc)
          case None => UpstreamFailed
  {
    hide NonceAccepted, Fresh, RecordsOf, After, Chronological;
    var c := events[|events| - 1].c;
    Earlier(events, c.lookup);
    CacheHasLatest(events[..|events| - 1], c.url, ttl, c.lookup);
  }

  /** How many requests there were, without parts of batches whose nonce was not accepted. */
  function CountedRequests<P>(events: seq<Event<P>>): nat {
    if events == [] then 0
    else
      var last := events[|events| - 1];
      CountedRequests(events[..|events| - 1]) + if last.Request? && IsCounted(last.c) then 1 else 0
  }

  /** How many requests were answered from the cache. */
  function CacheAnswers<P>(events: seq<Event<P>>, ttl: int): nat {
    if events == [] then 0
    else
      var init, last := events[..|events| - 1], events[|events| - 1];
      CacheAnswers(init, ttl)
      + if last.Request? && NonceAccepted(last.c)
           && Lookup(After(init, ttl).cache, last.c.url, last.c.lookup, ttl).Some? then 1 else 0
  }

  /** Every counted request counts as one hit or one miss, whatever becomes of it; a hit is an answer from
      the cache. */
  lemma {:induction false} HitsAndMissesAreCalls<P>(events: seq<Event<P>>, ttl: int)
    ensures var d := After(events, ttl).telemetry;
      d.hits + d.misses == CountedRequests(events) && d.hits == CacheAnswers(events, ttl)
  {
    hide NonceAccepted, Lookup, Used, RecordsOf;
    if events != [] {
      var init, last := events[..|events| - 1], events[|events| - 1];
      HitsAndMissesAreCalls(init, ttl);
      if last.Request? {
        var s := After(init, ttl);
        CountersRecorded(s.telemetry, last.c, Lookup(s.cache, last.c.url, last.c.lookup, ttl));
      }
    }
  }

  lemma CountersRecorded<P>(d: T.Data, c: Call<P>, hit: Option<CacheEntry<Page<P>>>)
    ensures var d' := T.AllRecorded(d, RecordsOf(c, hit));
      && d'.hits == d.hits + (if NonceAccepted(c) && hit.Some? then 1 else 0)
      && d'.hits + d'.misses == d.hits + d.misses + if IsCounted(c) then 1 else 0
  {
    hide NonceAccepted, T.Capped, T.CountOf, T.HistoryOf;
    RecordedInTurn(d, RecordsOf(c, hit));
  }

  /** How many requests were answered with a page of the site. */
  function ServedBy<P>(events: seq<Event<P>>, siteId: string, ttl: int): nat {
    if events == [] then 0
    else
      ServedBy(events[..|events| - 1], siteId, ttl)
      + if events[|events| - 1].Request? && Answer(events, ttl).Served? && Answer(events, ttl).siteId == siteId
        then 1 else 0
  }

  /** A site's handshakes are the requests that were answered with a page of it. */
  lemma {:induction false} HandshakesAreServed<P>(events: seq<Event<P>>, siteId: string, ttl: int)
    ensures T.CountOf(After(events, ttl).telemetry.handshakeCounts, siteId) == ServedBy(events, siteId, ttl)
  {
    hide NonceAccepted, Fresh, Selected, Used, RecordsOf, T.CountOf;
    if events == [] {
      assert T.CountOf(T.NO_DATA.handshakeCounts, siteId) == 0 by { NobodyCounted(siteId); }
    } else {
      var init, last := events[..|events| - 1], events[|events| - 1];
      HandshakesAreServed(init, siteId, ttl);
      if last.Request? {
        var s := After(init, ttl);
        HandshakesRecorded(s.telemetry, last.c, Lookup(s.cache, last.c.url, last.c.lookup, ttl), siteId);
      }
    }
  }

  lemma NobodyCounted(siteId: string)
    ensures T.CountOf(T.NO_DATA.handshakeCounts, siteId) == 0
  {}

  lemma HandshakesRecorded<P>(d: T.Data, c: Call<P>, hit: Option<CacheEntry<Page<P>>>, siteId: string)
    ensures T.CountOf(T.AllRecorded(d, RecordsOf(c, hit)).handshakeCounts, siteId)
      == T.CountOf(d.handshakeCounts, siteId) + if !NonceAccepted(c) then 0
        else match hit
          case Some(e) => if e.value.siteId == siteId then 1 else 0
          case None => if c.upstream.Some? && c.upstream.value.siteId == siteId then 1 else 0
  {
    hide NonceAccepted, T.Capped;
    RecordedInTurn(d, RecordsOf(c, hit));
  }
}
