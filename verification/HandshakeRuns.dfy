/** Handshakes that overlap in any order, on one cache, which other code uses too, and one telemetry tracker. */
module HandshakeRuns {
  import opened Wrappers
  import opened Sets
  import Cache
  import opened Handshake
  import T = Telemetry

  /** Which counter a call goes into. */
  datatype How = Hit | Miss | NotCounted

  /** How far a call has come. */
  datatype Stage<+P> =
    | Looking(c: Call<P>)                 // the nonce is accepted, the cache comes next
    | Dropping(c: Call<P>)                // an expired entry was found and is to be removed
    | Missed(c: Call<P>)                  // the miss is to be recorded
    | Fetching(c: Call<P>)                // the miss is recorded, the page comes next
    | Answering(c: Call<P>, how: How, records: seq<T.Record>, response: Response<P>)
    | Done(c: Call<P>, how: How, response: Response<P>)

  /** The cache steps taken so far are kept in the order in which they were taken. */
  datatype State<P> = State(
    cache: Cache.State<Page<P>>, telemetry: T.Data, stages: map<nat, Stage<P>>, steps: seq<Cache.Step<Page<P>>>)

  /** A new call, one atomic step of a call, or one that other code takes on the cache. */
  datatype Action<P> = Arrive(t: nat, c: Call<P>) | Advance(t: nat, now: int) | UseCache(step: Cache.Step<Page<P>>)

  function NothingYet<P>(): State<P> {
    State(Cache.NoState(), T.NO_DATA, map[], [])
  }

  /** Under what number a call takes its steps on the cache. */
  function CallThread(t: nat): nat {
    2 * t
  }

  /** Other code does not take steps under the number of a call. */
  function Apart<V>(a: Cache.Step<V>): Cache.Step<V> {
    match a
    case Look(thread, key, now) => Cache.Look(2 * thread + 1, key, now)
    case Drop(thread, now) => Cache.Drop(2 * thread + 1, now)
    case _ => a
  }

  function Arrived<P>(c: Call<P>): Stage<P> {
    if NonceAccepted(c) then Looking(c)
    else Answering(c, if c.batched then NotCounted else Miss, RecordsOf(c, None), Unauthorized)
  }

  /** Take a step on the cache. */
  function WithStep<P>(s: State<P>, a: Cache.Step<Page<P>>, ttl: int): State<P> {
    s.(cache := Cache.Next(s.cache, a, ttl), steps := s.steps + [a])
  }

  function AtStage<P>(s: State<P>, t: nat, stage: Stage<P>): State<P> {
    s.(stages := s.stages[t := stage])
  }

  function FromEntry<P>(c: Call<P>, e: Cache.CacheEntry<Page<P>>): Stage<P> {
    Answering(c, Hit, RecordsOf(c, Some(e)), Served(e.value.siteId, Selected(e.value, c.payloadType)))
  }

  /** The stage after looking the URL up at a moment. */
  function AfterLook<P>(c: Call<P>, m: Cache.Entries<Page<P>>, now: int, ttl: int): Stage<P> {
    match Cache.Lookup(m, c.url, now, ttl)
    case Some(e) => FromEntry(c, e)
    case None => if c.url in m then Dropping(c) else Missed(c)
  }

  /** The records of a call after the first one. */
  function LaterRecords<P>(c: Call<P>): seq<T.Record> {
    var records := RecordsOf(c, None);
    if records == [] then [] else records[1..]
  }

  function FromPage<P>(c: Call<P>, page: Page<P>, now: int): Stage<P> {
    Answering(c, Miss, LaterRecords(c.(compiled := now)), Served(page.siteId, Selected(page, c.payloadType)))
  }

  function Advanced<P>(s: State<P>, t: nat, now: int, ttl: int): State<P>
    requires t in s.stages
  {
    match s.stages[t]
    case Looking(c) =>
      AtStage(WithStep(s, Cache.Look(CallThread(t), c.url, now), ttl), t, AfterLook(c, s.cache.inner, now, ttl))
    case Dropping(c) => AtStage(WithStep(s, Cache.Drop(CallThread(t), now), ttl), t, Missed(c))
    case Missed(c) => AtStage(s.(telemetry := T.Recorded(s.telemetry, T.CacheMiss)), t, Fetching(c))
    case Fetching(c) =>
      (match c.upstream
       case None => AtStage(s, t, Done(c, Miss, UpstreamFailed))
       case Some(page) =>
         AtStage(WithStep(s, Cache.Insert(c.url, Cache.CacheEntry(page, now), now), ttl), t, FromPage(c, page, now)))
    case Answering(c, how, records, response) =>
      if records == [] then AtStage(s, t, Done(c, how, response))
      else AtStage(s.(telemetry := T.Recorded(s.telemetry, records[0])), t, Answering(c, how, records[1..], response))
    case Done(_, _, _) => s
  }

  function Next<P>(s: State<P>, a: Action<P>, ttl: int): State<P> {
    match a
    case Arrive(t, c) => if t in s.stages then s else AtStage(s, t, Arrived(c))
    case Advance(t, now) => if t in s.stages then Advanced(s, t, now, ttl) else s
    case UseCache(step) => WithStep(s, Apart(step), ttl)
  }

  function Execute<P>(actions: seq<Action<P>>, ttl: int): State<P> {
    if actions == [] then NothingYet()
    else Next(Execute(actions[..|actions| - 1], ttl), actions[|actions| - 1], ttl)
  }

  // ---- hits and misses ----

  predicate Counts(r: T.Record) {
    r.CacheHit? || r.CacheMiss?
  }

  /** The call has made its one entry in the hit or miss counter. */
  predicate Counted<P>(st: Stage<P>) {
    || st.Fetching?
    || (st.Done? && !st.how.NotCounted?)
    || (st.Answering? && !st.how.NotCounted? && (st.records == [] || !Counts(st.records[0])))
  }

  predicate CountedHit<P>(st: Stage<P>) {
    Counted(st) && !st.Fetching? && st.how.Hit?
  }

  predicate CountedMiss<P>(st: Stage<P>) {
    Counted(st) && (st.Fetching? || st.how.Miss?)
  }

  /** The one entry comes first, and is a hit exactly for an answer from the cache. */
  predicate WellFormed<P>(st: Stage<P>) {
    match st
    case Answering(c, how, records, _) =>
      && (how.NotCounted? <==> !IsCounted(c))
      && (forall i :: 1 <= i < |records| ==> !Counts(records[i]))
      && (records != [] && Counts(records[0]) ==> how == if records[0].CacheHit? then Hit else Miss)
    case Done(c, how, _) => how.NotCounted? <==> !IsCounted(c)
    case _ => NonceAccepted(st.c)
  }

  function Hits<P>(s: State<P>): set<nat> {
    set t | t in s.stages && CountedHit(s.stages[t])
  }

  function Misses<P>(s: State<P>): set<nat> {
    set t | t in s.stages && CountedMiss(s.stages[t])
  }

  ghost predicate Accounted<P>(s: State<P>, ttl: int) {
    && s.telemetry.hits == |Hits(s)| && s.telemetry.misses == |Misses(s)|
    && (forall t :: t in s.stages ==> WellFormed(s.stages[t]))
    && s.cache == Cache.Execute(s.steps, ttl)
  }

  /** One call moves on and makes at most one entry. */
  lemma Moved<P>(s: State<P>, s': State<P>, t: nat, st: Stage<P>)
    requires s'.stages == s.stages[t := st]
    ensures var was := t in s.stages && CountedHit(s.stages[t]);
      |Hits(s')| == |Hits(s)| - (if was then 1 else 0) + if CountedHit(st) then 1 else 0
    ensures var was := t in s.stages && CountedMiss(s.stages[t]);
      |Misses(s')| == |Misses(s)| - (if was then 1 else 0) + if CountedMiss(st) then 1 else 0
  {
    hide CountedHit, CountedMiss;
    Recount(Hits(s), Hits(s'), t);
    Recount(Misses(s), Misses(s'), t);
  }

  /** The entry in the hit or miss counter, if there is one, is the first of a call's records and the only one. */
  lemma OneEntryFirst<P>(c: Call<P>, hit: Option<Cache.CacheEntry<Page<P>>>)
    ensures var rs := RecordsOf(c, hit);
      && (IsCounted(c) ==> rs != [] && Counts(rs[0]) && (rs[0].CacheHit? <==> NonceAccepted(c) && hit.Some?))
      && (!IsCounted(c) ==> rs == [])
      && forall i :: 1 <= i < |rs| ==> !Counts(rs[i])
  {}

  function One(b: bool): nat {
    if b then 1 else 0
  }

  /** The counters move as the call's stage does. */
  lemma AdvanceCounts<P>(s: State<P>, t: nat, now: int, ttl: int)
    requires t in s.stages && WellFormed(s.stages[t])
    ensures var s' := Advanced(s, t, now, ttl); t in s'.stages && s'.stages == s.stages[t := s'.stages[t]]
    ensures var s' := Advanced(s, t, now, ttl); var st, st' := s.stages[t], s'.stages[t];
      && WellFormed(st')
      && s'.telemetry.hits == s.telemetry.hits + One(CountedHit(st')) - One(CountedHit(st))
      && s'.telemetry.misses == s.telemetry.misses + One(CountedMiss(st')) - One(CountedMiss(st))
  {
    hide Cache.Next, Cache.Lookup, NonceAccepted, RecordsOf;
    match s.stages[t] {
      case Looking(c) => OneEntryFirst(c, Cache.Lookup(s.cache.inner, c.url, now, ttl));
      case Fetching(c) => OneEntryFirst(c.(compiled := now), None);
      case _ =>
    }
  }

  lemma AdvanceStepsCache<P>(s: State<P>, t: nat, now: int, ttl: int)
    requires t in s.stages && s.cache == Cache.Execute(s.steps, ttl)
    ensures var s' := Advanced(s, t, now, ttl); s'.cache == Cache.Execute(s'.steps, ttl)
  {
    hide Cache.Next, Cache.Lookup, RecordsOf, T.Recorded, AfterLook;
    var s' := Advanced(s, t, now, ttl);
    assert |s'.steps| > |s.steps| ==> s'.steps[..|s'.steps| - 1] == s.steps;
  }

  lemma AdvanceKeepsAccounts<P>(s: State<P>, t: nat, now: int, ttl: int)
    requires Accounted(s, ttl) && t in s.stages
    ensures Accounted(Advanced(s, t, now, ttl), ttl)
  {
    hide Hits, Misses, CountedHit, CountedMiss, WellFormed, Advanced;
    var s' := Advanced(s, t, now, ttl);
    AdvanceCounts(s, t, now, ttl);
    AdvanceStepsCache(s, t, now, ttl);
    Moved(s, s', t, s'.stages[t]);
  }

  lemma StepKeepsAccounts<P>(s: State<P>, a: Action<P>, ttl: int)
    requires Accounted(s, ttl)
    ensures Accounted(Next(s, a, ttl), ttl)
  {
    hide Cache.Next, Hits, Misses, Advanced, NonceAccepted;
    match a
    case Arrive(t, c) =>
      if t !in s.stages {
        OneEntryFirst(c, None);
        Moved(s, Next(s, a, ttl), t, Arrived(c));
      }
    case Advance(t, now) =>
      if t in s.stages { AdvanceKeepsAccounts(s, t, now, ttl); }
    case UseCache(_) =>
      var s' := Next(s, a, ttl);
      assert s'.steps[..|s'.steps| - 1] == s.steps;
      assert Hits(s') == Hits(s) && Misses(s') == Misses(s) by { SameStages(s, s'); }
  }

  lemma SameStages<P>(s: State<P>, s': State<P>)
    requires s'.stages == s.stages
    ensures Hits(s') == Hits(s) && Misses(s') == Misses(s)
  {}

  /** In every interleaving the hit counter is the number of calls that were counted as answered from
      the cache, and the miss counter the number of the others that were counted. */
  lemma {:induction false} EveryInterleavingIsAccounted<P>(actions: seq<Action<P>>, ttl: int)
    ensures Accounted(Execute(actions, ttl), ttl)
  {
    hide Accounted, Next;
    if actions == [] {
      NothingIsAccounted<P>(ttl);
    } else {
      EveryInterleavingIsAccounted(actions[..|actions| - 1], ttl);
      StepKeepsAccounts(Execute(actions[..|actions| - 1], ttl), actions[|actions| - 1], ttl);
    }
  }

  lemma NothingIsAccounted<P>(ttl: int)
    ensures Accounted(NothingYet<P>(), ttl)
  {}

  /** When every call has been answered, hits and misses together are the calls, but for parts of batches
      whose nonce was not accepted, and the hits are the answers from the cache. */
  lemma AnsweredCallsAreHitsAndMisses<P>(actions: seq<Action<P>>, ttl: int)
    requires var s := Execute(actions, ttl); forall t :: t in s.stages ==> s.stages[t].Done?
    ensures var s := Execute(actions, ttl);
      && s.telemetry.hits + s.telemetry.misses == |set t | t in s.stages && IsCounted(s.stages[t].c)|
      && s.telemetry.hits == |set t | t in s.stages && s.stages[t].how.Hit?|
  {
    hide Execute, Hits, Misses, Cache.Execute;
    EveryInterleavingIsAccounted(actions, ttl);
    DoneCallsAreCounted(Execute(actions, ttl));
  }

  lemma DoneIsCounted<P>(st: Stage<P>)
    requires st.Done? && WellFormed(st)
    ensures CountedHit(st) <==> st.how.Hit?
    ensures CountedMiss(st) <==> st.how.Miss?
    ensures IsCounted(st.c) <==> !st.how.NotCounted?
  {}

  lemma DoneCallsAreCounted<P>(s: State<P>)
    requires forall t :: t in s.stages ==> s.stages[t].Done? && WellFormed(s.stages[t])
    ensures Hits(s) == set t | t in s.stages && s.stages[t].how.Hit?
    ensures |Hits(s)| + |Misses(s)| == |set t | t in s.stages && IsCounted(s.stages[t].c)|
  {
    hide IsCounted, CountedHit, CountedMiss, WellFormed;
    forall t | t in s.stages
      ensures CountedHit(s.stages[t]) <==> s.stages[t].how.Hit?
      ensures CountedMiss(s.stages[t]) <==> s.stages[t].how.Miss?
      ensures IsCounted(s.stages[t].c) <==> !s.stages[t].how.NotCounted?
    {
      DoneIsCounted(s.stages[t]);
    }
    assert Hits(s) + Misses(s) == (set t | t in s.stages && IsCounted(s.stages[t].c)) && Hits(s) !! Misses(s);
  }

  // ---- handshakes of a site ----

  /** The call has been counted as a handshake of the site that it is answered with. */
  predicate Greeted<P>(st: Stage<P>, siteId: string) {
    && (st.Answering? || st.Done?) && st.response.Served? && st.response.siteId == siteId
    && (st.Answering? ==> T.HandshakeDone(siteId) !in st.records)
  }

  /** At most one handshake is left to record, of the site that the call is answered with. */
  predicate GreetsOnce<P>(st: Stage<P>) {
    st.Answering? ==>
      && (forall i :: 0 <= i < |st.records| && st.records[i].HandshakeDone? ==>
            st.response.Served? && st.response.siteId == st.records[i].siteId)
      && (forall i, j :: 0 <= i < j < |st.records| ==> !(st.records[i].HandshakeDone? && st.records[j].HandshakeDone?))
  }

  function GreetedCalls<P>(s: State<P>, siteId: string): set<nat> {
    set t | t in s.stages && Greeted(s.stages[t], siteId)
  }

  ghost predicate SiteAccounted<P>(s: State<P>, siteId: string) {
    && T.CountOf(s.telemetry.handshakeCounts, siteId) == |GreetedCalls(s, siteId)|
    && (forall t :: t in s.stages ==> GreetsOnce(s.stages[t]) && WellFormed(s.stages[t]))
  }

  lemma MovedGreeted<P>(s: State<P>, s': State<P>, t: nat, st: Stage<P>, siteId: string)
    requires s'.stages == s.stages[t := st]
    ensures |GreetedCalls(s', siteId)| ==
      |GreetedCalls(s, siteId)| - One(t in s.stages && Greeted(s.stages[t], siteId)) + One(Greeted(st, siteId))
  {
    hide Greeted;
    Recount(GreetedCalls(s, siteId), GreetedCalls(s', siteId), t);
  }

  /** A call starts to answer with its one handshake still to be recorded. */
  lemma NewAnswers<P>(c: Call<P>, now: int)
    requires NonceAccepted(c)
    ensures forall e: Cache.CacheEntry<Page<P>> ::
      GreetsOnce(FromEntry(c, e)) && forall siteId :: !Greeted(FromEntry(c, e), siteId)
    ensures c.upstream.Some? ==>
      var st := FromPage(c, c.upstream.value, now); GreetsOnce(st) && forall siteId :: !Greeted(st, siteId)
  {
    hide Selected;
    var later := c.(compiled := now);
    assert NonceAccepted(later);
    forall e: Cache.CacheEntry<Page<P>> ensures T.HandshakeDone(e.value.siteId) in RecordsOf(c, Some(e)) {
      assert RecordsOf(c, Some(e))[1] == T.HandshakeDone(e.value.siteId);
    }
    if c.upstream.Some? {
      assert RecordsOf(later, None)[1..][1] == T.HandshakeDone(c.upstream.value.siteId);
    }
  }

  lemma AdvanceGreets<P>(s: State<P>, t: nat, now: int, ttl: int, siteId: string)
    requires t in s.stages && WellFormed(s.stages[t]) && GreetsOnce(s.stages[t])
    ensures var s' := Advanced(s, t, now, ttl); t in s'.stages && s'.stages == s.stages[t := s'.stages[t]]
    ensures var s' := Advanced(s, t, now, ttl); var st, st' := s.stages[t], s'.stages[t];
      && GreetsOnce(st')
      && T.CountOf(s'.telemetry.handshakeCounts, siteId)
         == T.CountOf(s.telemetry.handshakeCounts, siteId) + One(Greeted(st', siteId)) - One(Greeted(st, siteId))
  {
    if s.stages[t].Answering? {
      AnsweringGreets(s, t, now, ttl, siteId);
    } else {
      hide NonceAccepted, Cache.Next, Cache.Lookup, T.CountOf, RecordsOf, FromEntry, FromPage, Greeted, GreetsOnce;
      PlainStages(s.stages[t], siteId);
      if !s.stages[t].Done? { NewAnswers(s.stages[t].c, now); }
      forall st: Stage<P> ensures !st.Answering? ==> GreetsOnce(st) { PlainStages(st, siteId); }
      forall st: Stage<P> ensures !st.Answering? && !(st.Done? && st.response.Served?) ==> !Greeted(st, siteId) {
        PlainStages(st, siteId);
      }
    }
  }

  /** Stages without records have nothing to greet, and answer nothing yet unless they are done. */
  lemma PlainStages<P>(st: Stage<P>, siteId: string)
    ensures !st.Answering? ==> GreetsOnce(st)
    ensures !st.Answering? && !(st.Done? && st.response.Served?) ==> !Greeted(st, siteId)
  {}

  lemma AnsweringGreets<P>(s: State<P>, t: nat, now: int, ttl: int, siteId: string)
    requires t in s.stages && s.stages[t].Answering? && GreetsOnce(s.stages[t])
    ensures var s' := Advanced(s, t, now, ttl); t in s'.stages && s'.stages == s.stages[t := s'.stages[t]]
    ensures var s' := Advanced(s, t, now, ttl); var st, st' := s.stages[t], s'.stages[t];
      && GreetsOnce(st')
      && T.CountOf(s'.telemetry.handshakeCounts, siteId)
         == T.CountOf(s.telemetry.handshakeCounts, siteId) + One(Greeted(st', siteId)) - One(Greeted(st, siteId))
  {
    hide T.Capped, T.HistoryOf;
    var records := s.stages[t].records;
    if records != [] {
      assert records == [records[0]] + records[1..];
      assert T.HandshakeDone(siteId) in records <==>
        records[0] == T.HandshakeDone(siteId) || T.HandshakeDone(siteId) in records[1..];
    }
  }

  lemma ArrivedGreets<P>(c: Call<P>, siteId: string)
    ensures GreetsOnce(Arrived(c)) && WellFormed(Arrived(c)) && !Greeted(Arrived(c), siteId)
  {}

  lemma StepKeepsSites<P>(s: State<P>, a: Action<P>, ttl: int, siteId: string)
    requires SiteAccounted(s, siteId)
    ensures SiteAccounted(Next(s, a, ttl), siteId)
  {
    hide Advanced, Arrived, GreetedCalls, Greeted, GreetsOnce, WellFormed, T.CountOf, Cache.Next;
    var s' := Next(s, a, ttl);
    match a
    case Arrive(t, c) =>
      if t !in s.stages {
        ArrivedGreets(c, siteId);
        MovedGreeted(s, s', t, Arrived(c), siteId);
      }
    case Advance(t, now) =>
      if t in s.stages {
        AdvanceGreets(s, t, now, ttl, siteId);
        AdvanceCounts(s, t, now, ttl);
        MovedGreeted(s, s', t, s'.stages[t], siteId);
      }
    case UseCache(_) => SameGreeted(s, s', siteId);
  }

  lemma SameGreeted<P>(s: State<P>, s': State<P>, siteId: string)
    requires s'.stages == s.stages
    ensures GreetedCalls(s', siteId) == GreetedCalls(s, siteId)
  {}

  /** In every interleaving a site's handshake counter is the number of calls that have been counted among
      those that are answered with a page of it. */
  lemma {:induction false} EveryInterleavingCountsSites<P>(actions: seq<Action<P>>, ttl: int, siteId: string)
    ensures SiteAccounted(Execute(actions, ttl), siteId)
  {
    hide SiteAccounted, Next;
    if actions == [] {
      NoSiteYet<P>(siteId);
    } else {
      EveryInterleavingCountsSites(actions[..|actions| - 1], ttl, siteId);
      StepKeepsSites(Execute(actions[..|actions| - 1], ttl), actions[|actions| - 1], ttl, siteId);
    }
  }

  lemma NoSiteYet<P>(siteId: string)
    ensures SiteAccounted(NothingYet<P>(), siteId)
  {
    assert GreetedCalls(NothingYet<P>(), siteId) == {};
  }

  /** When every call has been answered, that is the number of answers with a page of the site. */
  lemma AnsweredCallsAreHandshakes<P>(actions: seq<Action<P>>, ttl: int, siteId: string)
    requires var s := Execute(actions, ttl); forall t :: t in s.stages ==> s.stages[t].Done?
    ensures var s := Execute(actions, ttl);
      T.CountOf(s.telemetry.handshakeCounts, siteId)
      == |set t | t in s.stages && s.stages[t].response.Served? && s.stages[t].response.siteId == siteId|
  {
    hide Execute, T.CountOf;
    EveryInterleavingCountsSites(actions, ttl, siteId);
    var s := Execute(actions, ttl);
    assert GreetedCalls(s, siteId)
        == set t | t in s.stages && s.stages[t].response.Served? && s.stages[t].response.siteId == siteId;
  }

  // ---- which removals are whose ----

  /** A call is about to remove a key exactly when it has found it expired, and only its own URL. */
  ghost predicate RemovalsBelong<P>(s: State<P>) {
    forall t: nat ::
      && (CallThread(t) in s.cache.pending <==> t in s.stages && s.stages[t].Dropping?)
      && (CallThread(t) in s.cache.pending ==> s.cache.pending[CallThread(t)] == s.stages[t].c.url)
  }

  lemma AdvanceKeepsRemovals<P>(s: State<P>, t: nat, now: int, ttl: int)
    requires RemovalsBelong(s) && t in s.stages
    ensures RemovalsBelong(Advanced(s, t, now, ttl))
  {
    hide Cache.Fresh, RecordsOf, T.Recorded, LaterRecords;
  }

  lemma StepKeepsRemovals<P>(s: State<P>, a: Action<P>, ttl: int)
    requires RemovalsBelong(s)
    ensures RemovalsBelong(Next(s, a, ttl))
  {
    hide Advanced, RecordsOf, Cache.Fresh, Cache.FreshOnly;
    match a
    case Arrive(_, _) =>
    case Advance(t, now) => if t in s.stages { AdvanceKeepsRemovals(s, t, now, ttl); }
    case UseCache(step) => OthersKeepRemovals(s.cache, step, ttl);
  }

  lemma OthersKeepRemovals<V>(s: Cache.State<V>, a: Cache.Step<V>, ttl: int)
    ensures forall t: nat {:trigger CallThread(t)} ::
      var s' := Cache.Next(s, Apart(a), ttl);
      && (CallThread(t) in s'.pending <==> CallThread(t) in s.pending)
      && (CallThread(t) in s'.pending ==> s'.pending[CallThread(t)] == s.pending[CallThread(t)])
  {
    hide Cache.Fresh, Cache.FreshOnly;
  }

  lemma {:induction false} EveryRemovalBelongs<P>(actions: seq<Action<P>>, ttl: int)
    ensures RemovalsBelong(Execute(actions, ttl))
  {
    hide Next, RemovalsBelong;
    if actions == [] {
      NoRemovalYet<P>();
    } else {
      EveryRemovalBelongs(actions[..|actions| - 1], ttl);
      StepKeepsRemovals(Execute(actions[..|actions| - 1], ttl), actions[|actions| - 1], ttl);
    }
  }

  lemma NoRemovalYet<P>()
    ensures RemovalsBelong(NothingYet<P>())
  {}

  // ---- what a call finds ----

  /** In every interleaving, a look is answered from the cache exactly if the latest insert for its URL
      is alive and its key still there, and then with the page of that insert. */
  lemma HitIsLatestInsert<P>(actions: seq<Action<P>>, t: nat, now: int, ttl: int)
    requires t in Execute(actions, ttl).stages && Execute(actions, ttl).stages[t].Looking?
    ensures var s := Execute(actions, ttl); var c := s.stages[t].c;
      var after := Execute(actions + [Advance(t, now)], ttl).stages[t];
      match Cache.Lookup(Cache.Kept(s.steps), c.url, now, ttl)
      case Some(e) =>
        if c.url in s.cache.inner then
          && after == FromEntry(c, e)
          && after.response == Served(e.value.siteId, if c.payloadType.Doc? then e.value.doc else e.value.mdoc)
        else after == Missed(c)
      case None => after == if c.url in s.cache.inner then Dropping(c) else Missed(c)
  {
    hide Cache.Kept, Cache.Execute, Execute, Cache.Fresh, Cache.Next, RecordsOf;
    EveryInterleavingIsAccounted(actions, ttl);
    var s := Execute(actions, ttl);
    Cache.PresentIsLatest(s.steps, ttl);
    ExecuteSnoc(actions, Advance(t, now), ttl);
  }

  lemma ExecuteSnoc<P>(actions: seq<Action<P>>, a: Action<P>, ttl: int)
    ensures Execute(actions + [a], ttl) == Next(Execute(actions, ttl), a, ttl)
  {}

  /** Under clocks that do not go back, and unless a removal has taken a fresh entry, a look finds the
      latest insert for its URL exactly while that is within its time to live. */
  lemma LookFindsLatestInsert<P>(actions: seq<Action<P>>, t: nat, now: int, ttl: int)
    requires var s := Execute(actions, ttl);
      && t in s.stages && s.stages[t].Looking?
      && Cache.Chronological(s.steps) && Cache.NoneTakesFresh(s.steps, ttl)
      && forall a :: a in s.steps ==> a.now <= now
    ensures var s := Execute(actions, ttl); var c := s.stages[t].c;
      var after := Execute(actions + [Advance(t, now)], ttl).stages[t];
      match Cache.Lookup(Cache.Kept(s.steps), c.url, now, ttl)
      case Some(e) =>
        && after == FromEntry(c, e)
        && after.response == Served(e.value.siteId, if c.payloadType.Doc? then e.value.doc else e.value.mdoc)
      case None => after == Dropping(c) || after == Missed(c)
  {
    hide Cache.Lookup, Cache.Kept, Cache.Execute, Cache.NoneTakesFresh, Cache.Chronological, Execute;
    EveryInterleavingIsAccounted(actions, ttl);
    Cache.LooksAgree(Execute(actions, ttl).steps, now, ttl);
    ExecuteSnoc(actions, Advance(t, now), ttl);
  }

  /** An answer is what the call asks for: of a page that was inserted for its URL before, of the page
      compiled for it, or the failure it has met. */
  ghost predicate IsRight<P>(st: Stage<P>, steps: seq<Cache.Step<Page<P>>>) {
    st.Answering? || st.Done? ==>
      match st.response
      case Unauthorized => !NonceAccepted(st.c)
      case UpstreamFailed => NonceAccepted(st.c) && st.how == Miss && st.c.upstream.None?
      case Served(_, _) =>
        && NonceAccepted(st.c)
        && match st.how
           case Hit => exists k :: 0 <= k < |steps| && IsPageOf(steps[k], st.c, st.response)
           case Miss => st.c.upstream.Some? && IsPage(st.c.upstream.value, st.c, st.response)
           case NotCounted => false
  }

  predicate IsPage<P(==)>(page: Page<P>, c: Call<P>, r: Response<P>) {
    r == Served(page.siteId, if c.payloadType.Doc? then page.doc else page.mdoc)
  }

  predicate IsPageOf<P(==)>(a: Cache.Step<Page<P>>, c: Call<P>, r: Response<P>) {
    a.Insert? && a.key == c.url && IsPage(a.entry.value, c, r)
  }

  lemma StillRight<P>(st: Stage<P>, steps: seq<Cache.Step<Page<P>>>, a: Cache.Step<Page<P>>)
    requires IsRight(st, steps)
    ensures IsRight(st, steps + [a])
  {
    if (st.Answering? || st.Done?) && st.response.Served? && st.how.Hit? {
      var k :| 0 <= k < |steps| && IsPageOf(steps[k], st.c, st.response);
      assert (steps + [a])[k] == steps[k];
    }
  }

  lemma AdvancedIsRight<P>(s: State<P>, t: nat, now: int, ttl: int)
    requires t in s.stages && WellFormed(s.stages[t]) && IsRight(s.stages[t], s.steps)
    requires s.cache == Cache.Execute(s.steps, ttl)
    ensures var s' := Advanced(s, t, now, ttl); IsRight(s'.stages[t], s'.steps)
  {
    hide Cache.Execute, Cache.Fresh, Cache.Next, RecordsOf, NonceAccepted;
    var st, s' := s.stages[t], Advanced(s, t, now, ttl);
    if st.Looking? && Cache.Lookup(s.cache.inner, st.c.url, now, ttl).Some? {
      Cache.PresentIsLatest(s.steps, ttl);
      assert s.steps[..|s.steps|] == s.steps;
      var k := Cache.KeptHasInsert(s.steps, |s.steps|, st.c.url);
      assert s'.steps[k] == s.steps[k] && IsPageOf(s'.steps[k], st.c, s'.stages[t].response);
    }
  }

  lemma StepKeepsRight<P>(s: State<P>, a: Action<P>, ttl: int)
    requires Accounted(s, ttl) && forall t :: t in s.stages ==> IsRight(s.stages[t], s.steps)
    ensures var s' := Next(s, a, ttl); forall t :: t in s'.stages ==> IsRight(s'.stages[t], s'.steps)
  {
    hide Cache.Execute, Cache.Next, Hits, Misses, RecordsOf, NonceAccepted, IsRight, WellFormed;
    var s' := Next(s, a, ttl);
    forall t | t in s'.stages ensures IsRight(s'.stages[t], s'.steps) {
      if a.Advance? && a.t == t {
        AdvancedIsRight(s, t, a.now, ttl);
      } else if t !in s.stages {
        ArrivedIsRight(a.c, s.steps);
      } else if s'.steps != s.steps {
        StillRight(s.stages[t], s.steps, s'.steps[|s.steps|]);
      }
    }
  }

  lemma ArrivedIsRight<P>(c: Call<P>, steps: seq<Cache.Step<Page<P>>>)
    ensures IsRight(Arrived(c), steps)
  {}

  /** In every interleaving, with whatever else is done to the cache, no call is answered with the page of
      another URL or with the payload it has not asked for. */
  lemma {:induction false} EveryAnswerIsRight<P>(actions: seq<Action<P>>, ttl: int)
    ensures var s := Execute(actions, ttl); forall t :: t in s.stages ==> IsRight(s.stages[t], s.steps)
  {
    hide Next, IsRight, Accounted;
    if actions != [] {
      var init := actions[..|actions| - 1];
      EveryInterleavingIsAccounted(init, ttl);
      EveryAnswerIsRight(init, ttl);
      StepKeepsRight(Execute(init, ttl), actions[|actions| - 1], ttl);
    }
  }

  /** What other code does in one go, its steps do on the shared cache, and they touch nothing else. */
  lemma OthersUseCache<P>(s: State<P>, op: CacheUse<P>, n: nat, ttl: int)
    requires 2 * n + 1 !in s.cache.pending
    ensures var s' := match op
      case PutIn(key, entry, now) => Next(s, UseCache(Cache.Insert(key, entry, now)), ttl)
      case LookUp(key, now) => Next(Next(s, UseCache(Cache.Look(n, key, now)), ttl), UseCache(Cache.Drop(n, now)), ttl)
      case TakeOut(key, now) => Next(s, UseCache(Cache.Remove(key, now)), ttl)
      case CleanUp(now) => Next(s, UseCache(Cache.Cleanup(now)), ttl)
      case TakeAllOut(now) => Next(s, UseCache(Cache.Clear(now)), ttl);
      && s'.cache == Cache.State(Used(s.cache.inner, op, ttl), s.cache.pending)
      && s'.telemetry == s.telemetry && s'.stages == s.stages
  {
    hide Cache.Fresh;
    if op.LookUp? {
      var looked := Next(s, UseCache(Cache.Look(n, op.key, op.now)), ttl);
      assert looked.cache.pending - {2 * n + 1} == s.cache.pending;
      assert op.key !in s.cache.inner ==> s.cache.inner - {op.key} == s.cache.inner;
    }
  }

  // ---- a run in which a live page is missed ----

  const LATE: int := 301 * Cache.NANOS

  function CallAt<P>(page: Page<P>, seconds: int): Call<P> {
    Call(false, "u", Doc, 16, seconds, seconds * Cache.NANOS, 0, 0, Some(page))
  }

  lemma CallIsAccepted<P>(page: Page<P>, seconds: int)
    requires 0 <= seconds < I64 - 300
    ensures NonceAccepted(CallAt(page, seconds))
  {
    NonceIsRecent(CallAt(page, seconds));
  }

  /** Two calls miss, and the first of them inserts its page. */
  function TwoMisses<P>(page: Page<P>): seq<Action<P>> {
    [Arrive(1, CallAt(page, 0))] + [Advance(1, 0)] + [Advance(1, 0)]
    + [Arrive(2, CallAt(page, 0))] + [Advance(2, 0)] + [Advance(2, 0)] + [Advance(1, 0)]
  }

  lemma AfterTwoMisses<P>(page: Page<P>)
    ensures var s := Execute(TwoMisses(page), 300); var c := CallAt(page, 0);
      && s.stages.Keys == {1, 2} && s.stages[2] == Fetching(c)
      && s.cache == Cache.State(map["u" := Cache.CacheEntry(page, 0)], map[])
      && s.steps == [Cache.Look(2, "u", 0), Cache.Look(4, "u", 0), Cache.Insert("u", Cache.CacheEntry(page, 0), 0)]
  {
    hide Execute, RecordsOf, T.Recorded, NonceAccepted;
    var c := CallAt(page, 0);
    CallIsAccepted(page, 0);
    var a1 := [Arrive(1, c)];
    assert [] + a1 == a1;
    assert Execute<P>([], 300) == NothingYet() by { NoAction<P>(); }
    ExecuteSnoc([], Arrive(1, c), 300);
    ExecuteSnoc(a1, Advance(1, 0), 300);
    ExecuteSnoc(a1 + [Advance(1, 0)], Advance(1, 0), 300);
    var a3 := a1 + [Advance(1, 0)] + [Advance(1, 0)];
    ExecuteSnoc(a3, Arrive(2, c), 300);
    ExecuteSnoc(a3 + [Arrive(2, c)], Advance(2, 0), 300);
    ExecuteSnoc(a3 + [Arrive(2, c)] + [Advance(2, 0)], Advance(2, 0), 300);
    ExecuteSnoc(a3 + [Arrive(2, c)] + [Advance(2, 0)] + [Advance(2, 0)], Advance(1, 0), 300);
  }

  lemma NoAction<P>()
    ensures Execute<P>([], 300) == NothingYet()
  {}

  /** A third call finds the page expired, the second call inserts a new one, and the third removes it. */
  function LostInsert<P>(page: Page<P>): seq<Action<P>> {
    TwoMisses(page) + [Arrive(3, CallAt(page, 301))] + [Advance(3, LATE)] + [Advance(2, LATE)] + [Advance(3, LATE)]
  }

  lemma AfterLostInsert<P>(page: Page<P>)
    ensures var s := Execute(LostInsert(page), 300);
      && 4 !in s.stages && "u" !in s.cache.inner
      && s.steps == Execute(TwoMisses(page), 300).steps + [Cache.Look(6, "u", LATE)]
           + [Cache.Insert("u", Cache.CacheEntry(page, LATE), LATE)] + [Cache.Drop(6, LATE)]
  {
    hide Execute, RecordsOf, T.Recorded, TwoMisses, NonceAccepted;
    CallIsAccepted(page, 301);
    var d, b := CallAt(page, 301), TwoMisses(page);
    AfterTwoMisses(page);
    ExecuteSnoc(b, Arrive(3, d), 300);
    ExecuteSnoc(b + [Arrive(3, d)], Advance(3, LATE), 300);
    ExecuteSnoc(b + [Arrive(3, d)] + [Advance(3, LATE)], Advance(2, LATE), 300);
    ExecuteSnoc(b + [Arrive(3, d)] + [Advance(3, LATE)] + [Advance(2, LATE)], Advance(3, LATE), 300);
  }

  lemma KeptAfterLostInsert<P>(page: Page<P>)
    ensures var steps := Execute(LostInsert(page), 300).steps;
      && Cache.Chronological(steps) && (forall a :: a in steps ==> a.now <= LATE)
      && Cache.Lookup(Cache.Kept(steps), "u", LATE, 300).Some?
  {
    hide Execute, LostInsert, TwoMisses, Cache.Kept, Cache.Execute;
    AfterTwoMisses(page);
    AfterLostInsert(page);
    var steps := Execute(TwoMisses(page), 300).steps;
    var look, insert := Cache.Look(6, "u", LATE), Cache.Insert("u", Cache.CacheEntry(page, LATE), LATE);
    Cache.Snoc(steps + [look], insert, 300);
    Cache.Snoc(steps + [look] + [insert], Cache.Drop(6, LATE), 300);
  }

  /** A call can miss a page that another call has just inserted: a third one had found an expired page
      there, and removes the key after the insert. */
  lemma FreshPageCanBeMissed<P>(page: Page<P>) returns (actions: seq<Action<P>>, t: nat)
    ensures var s := Execute(actions, 300);
      && t in s.stages && s.stages[t] == Looking(CallAt(page, 301))
      && Cache.Chronological(s.steps) && (forall a :: a in s.steps ==> a.now <= LATE)
      && Cache.Lookup(Cache.Kept(s.steps), "u", LATE, 300).Some?
      && Execute(actions + [Advance(t, LATE)], 300).stages[t] == Missed(CallAt(page, 301))
  {
    hide Execute, LostInsert, RecordsOf, Cache.Kept, Cache.Chronological, NonceAccepted;
    CallIsAccepted(page, 301);
    AfterLostInsert(page);
    KeptAfterLostInsert(page);
    actions, t := LostInsert(page) + [Arrive(4, CallAt(page, 301))], 4;
    ExecuteSnoc(LostInsert(page), Arrive(4, CallAt(page, 301)), 300);
    ExecuteSnoc(actions, Advance(4, LATE), 300);
  }

  // ---- a call that nothing interrupts ----

  /** Advance one call until it is done, looking and inserting at the given moments. */
  function Finish<P>(s: State<P>, t: nat, lookup: int, compiled: int, ttl: int, fuel: nat): State<P>
    decreases fuel
  {
    if fuel == 0 || t !in s.stages || s.stages[t].Done? then s
    else Finish(Advanced(s, t, if s.stages[t].Looking? then lookup else compiled, ttl),
                t, lookup, compiled, ttl, fuel - 1)
  }

  lemma {:induction false} RecordedFirst(d: T.Data, rs: seq<T.Record>)
    requires rs != []
    ensures T.AllRecorded(d, rs) == T.AllRecorded(T.Recorded(d, rs[0]), rs[1..])
  {
    hide T.Recorded;
    if |rs| == 1 {
      assert rs[..0] == [] && rs[1..] == [];
    } else {
      RecordedFirst(d, rs[..|rs| - 1]);
      assert rs[..|rs| - 1][1..] == rs[1..][..|rs| - 2];
    }
  }

  lemma {:induction false} FinishAnswering<P>(s: State<P>, t: nat, lookup: int, compiled: int, ttl: int, fuel: nat)
    requires t in s.stages && s.stages[t].Answering? && fuel > |s.stages[t].records|
    ensures var st := s.stages[t]; var s' := Finish(s, t, lookup, compiled, ttl, fuel);
      && t in s'.stages && s'.stages[t] == Done(st.c, st.how, st.response) && s'.cache == s.cache
      && s'.telemetry == T.AllRecorded(s.telemetry, st.records)
    decreases |s.stages[t].records|
  {
    hide T.Recorded;
    var st := s.stages[t];
    var s1 := Advanced(s, t, compiled, ttl);
    if st.records != [] {
      FinishAnswering(s1, t, lookup, compiled, ttl, fuel - 1);
      RecordedFirst(s.telemetry, st.records);
    }
  }

  /** From the recorded miss on. */
  lemma FinishFetching<P>(s: State<P>, t: nat, c: Call<P>, ttl: int, fuel: nat)
    requires t in s.stages && s.stages[t] == Fetching(c) && NonceAccepted(c) && fuel > 4
    ensures var s' := Finish(s, t, c.lookup, c.compiled, ttl, fuel);
      && t in s'.stages && s'.telemetry == T.AllRecorded(s.telemetry, LaterRecords(c))
      && match c.upstream
         case None => s'.stages[t] == Done(c, Miss, UpstreamFailed) && s'.cache == s.cache
         case Some(page) =>
           && s'.stages[t] == Done(c, Miss, Served(page.siteId, Selected(page, c.payloadType)))
           && s'.cache.inner == s.cache.inner[c.url := Cache.CacheEntry(page, c.compiled)]
  {
    hide T.Recorded, NonceAccepted, Selected;
    var s1 := Advanced(s, t, c.compiled, ttl);
    if c.upstream.Some? {
      assert c.(compiled := c.compiled) == c;
      FinishAnswering(s1, t, c.lookup, c.compiled, ttl, fuel - 1);
    }
  }

  lemma FinishMissed<P>(s: State<P>, t: nat, c: Call<P>, ttl: int, fuel: nat)
    requires t in s.stages && s.stages[t] == Missed(c) && NonceAccepted(c) && fuel > 5
    ensures var s' := Finish(s, t, c.lookup, c.compiled, ttl, fuel);
      && t in s'.stages && s'.telemetry == T.AllRecorded(s.telemetry, RecordsOf(c, None))
      && match c.upstream
         case None => s'.stages[t] == Done(c, Miss, UpstreamFailed) && s'.cache == s.cache
         case Some(page) =>
           && s'.stages[t] == Done(c, Miss, Served(page.siteId, Selected(page, c.payloadType)))
           && s'.cache.inner == s.cache.inner[c.url := Cache.CacheEntry(page, c.compiled)]
  {
    hide T.Recorded, NonceAccepted, Selected;
    OneEntryFirst(c, None);
    FinishFetching(Advanced(s, t, c.compiled, ttl), t, c, ttl, fuel - 1);
    RecordedFirst(s.telemetry, RecordsOf(c, None));
  }

  /** In every run, a call whose steps nothing comes between does what the handler does in one go. */
  lemma UninterruptedCallIsHandled<P>(actions: seq<Action<P>>, t: nat, c: Call<P>, ttl: int)
    requires t !in Execute(actions, ttl).stages
    ensures var s := Execute(actions, ttl);
      var s' := Finish(Next(s, Arrive(t, c), ttl), t, c.lookup, c.compiled, ttl, 8);
      && t in s'.stages && s'.stages[t].Done?
      && (Service(s'.cache.inner, s'.telemetry), s'.stages[t].response)
           == Handled(Service(s.cache.inner, s.telemetry), c, ttl)
  {
    hide Execute, Finish, Next, Handled;
    EveryRemovalBelongs(actions, ttl);
    assert CallThread(t) !in Execute(actions, ttl).cache.pending;
    HandledFrom(Execute(actions, ttl), t, c, ttl);
  }

  lemma HandledFrom<P>(s: State<P>, t: nat, c: Call<P>, ttl: int)
    requires t !in s.stages && CallThread(t) !in s.cache.pending
    ensures var s' := Finish(Next(s, Arrive(t, c), ttl), t, c.lookup, c.compiled, ttl, 8);
      && t in s'.stages && s'.stages[t].Done?
      && (Service(s'.cache.inner, s'.telemetry), s'.stages[t].response)
           == Handled(Service(s.cache.inner, s.telemetry), c, ttl)
  {
    hide T.Recorded, T.AllRecorded, NonceAccepted, Selected, Cache.Fresh;
    var s0 := Next(s, Arrive(t, c), ttl);
    if !NonceAccepted(c) {
      FinishAnswering(s0, t, c.lookup, c.compiled, ttl, 8);
    } else {
      var s1 := Advanced(s0, t, c.lookup, ttl);
      match s1.stages[t]
      case Answering(_, _, _, _) =>
        FinishAnswering(s1, t, c.lookup, c.compiled, ttl, 7);
      case Dropping(_) =>
        FinishMissed(Advanced(s1, t, c.compiled, ttl), t, c, ttl, 6);
      case Missed(_) =>
        assert c.url !in s.cache.inner && s.cache.inner - {c.url} == s.cache.inner;
        FinishMissed(s1, t, c, ttl, 7);
    }
  }
}
