/** The fixed-window rate limiter with its background cleanup. */
module RateLimiter {
  import opened Words
  import opened Wrappers

  const NANOS: nat := 1_000_000_000
  const WINDOW_SECS: nat := 60
  const MAX_REQUESTS: Word := 100

  /** One window in clock ticks of a nanosecond. */
  const WINDOW: nat := 60_000_000_000

  /** Whole seconds from earlier to later, 0 if later is not later. */
  function Seconds(later: nat, earlier: nat): nat {
    if later < earlier then 0 else (later - earlier) / NANOS
  }

  datatype Entry = Entry(count: Word, windowStart: nat)

  type Table = map<string, Entry>

  /** The entry in the window that it is counted in at time now. */
  function InWindow(e: Entry, now: nat): Entry {
    if Seconds(now, e.windowStart) >= WINDOW_SECS then Entry(0, now) else e
  }

  /** The entry after one more request at time now; the counter is a u32 that wraps. */
  function Counted(e: Entry, now: nat): Entry {
    var current := InWindow(e, now);
    current.(count := (current.count + 1) % 0x1_0000_0000)
  }

  function Checked(t: Table, ip: string, now: nat): Table {
    t[ip := Counted(if ip in t then t[ip] else Entry(0, now), now)]
  }

  /** One more request makes the counter start over, or panics in a build that checks for overflow. */
  predicate Overflows(t: Table, ip: string, now: nat) {
    ip in t && InWindow(t[ip], now).count == 0xFFFF_FFFF
  }

  function Admits(t: Table, ip: string, now: nat, limit: Word): bool {
    Checked(t, ip, now)[ip].count <= limit
  }

  function Cleaned(t: Table, now: nat): Table {
    map ip | ip in t && Seconds(now, t[ip].windowStart) < 2 * WINDOW_SECS :: t[ip]
  }

  class RateLimitState {
    var inner: Table

    constructor ()
      ensures inner == map[]
    {
      inner := map[];
    }

    /** None stands for the panic of a build that checks for overflow, which leaves the entry as it was. A
        minute after an entry's window began, the request starts a new one. */
    method CheckRateLimit(ip: string, now: nat, overflowChecks: bool) returns (allowed: Option<bool>)
      modifies this
      ensures if overflowChecks && Overflows(old(inner), ip, now) then allowed == None && inner == old(inner)
              else allowed == Some(Admits(old(inner), ip, now, MAX_REQUESTS)) && inner == Checked(old(inner), ip, now)
      ensures ip !in old(inner) || now - old(inner)[ip].windowStart >= 60_000_000_000 ==>
        allowed == Some(true) && inner == old(inner)[ip := Entry(1, now)]
      ensures ip in old(inner) && now - old(inner)[ip].windowStart < 60_000_000_000
              && old(inner)[ip].count < 0xFFFF_FFFF ==>
        var e := old(inner)[ip];
        allowed == Some(e.count < 100) && inner == old(inner)[ip := Entry(e.count + 1, e.windowStart)]
      ensures forall events :: !overflowChecks && After(events) == old(inner) ==>
        var more := events + [Check(ip, now)];
        inner == After(more) && allowed == Some(Allowed(more, 100))
      ensures forall events :: overflowChecks && AfterChecking(events) == old(inner) ==>
        var more := events + [Check(ip, now)];
        inner == AfterChecking(more) && allowed == if Panics(more) then None else Some(AllowedChecking(more, 100))
    {
      forall events ensures Continues(events, Check(ip, now)) { OneMore(events, Check(ip, now)); }
      var entry := if ip in inner then inner[ip] else Entry(0, now);
      if Seconds(now, entry.windowStart) >= 60 {
        entry := entry.(count := 0);
        entry := entry.(windowStart := now);
      }
      if overflowChecks && entry.count == 0xFFFF_FFFF {
        return None;
      }
      entry := entry.(count := (entry.count + 1) % 0x1_0000_0000);
      inner := inner[ip := entry];
      allowed := Some(entry.count <= 100);
    }

    method Cleanup(now: nat)
      modifies this
      ensures inner == Cleaned(old(inner), now)
      ensures forall ip :: ip in inner <==> ip in old(inner) && now - old(inner)[ip].windowStart < 120_000_000_000
      ensures forall events :: After(events) == old(inner) ==> inner == After(events + [Event.Cleanup(now)])
      ensures forall events :: AfterChecking(events) == old(inner) ==>
        inner == AfterChecking(events + [Event.Cleanup(now)])
    {
      forall events ensures Continues(events, Event.Cleanup(now)) { OneMore(events, Event.Cleanup(now)); }
      inner := map ip | ip in inner && Seconds(now, inner[ip].windowStart) < 60 * 2 :: inner[ip];
    }
  }

  // ---- runs ----

  datatype Event = Check(ip: string, now: nat) | Cleanup(now: nat)

  predicate Chronological(events: seq<Event>) {
    forall i, j :: 0 <= i < j < |events| ==> events[i].now <= events[j].now
  }

  function After(events: seq<Event>): Table {
    if events == [] then map[]
    else
      var before, last := After(events[..|events| - 1]), events[|events| - 1];
      match last
      case Check(ip, now) => Checked(before, ip, now)
      case Cleanup(now) => Cleaned(before, now)
  }

  ghost predicate Continues(events: seq<Event>, e: Event) {
    var more := events + [e];
    && After(more) == (match e
         case Check(ip, now) => Checked(After(events), ip, now)
         case Cleanup(now) => Cleaned(After(events), now))
    && AfterChecking(more) == (match e
         case Check(ip, now) =>
           var t := AfterChecking(events); if Overflows(t, ip, now) then t else Checked(t, ip, now)
         case Cleanup(now) => Cleaned(AfterChecking(events), now))
    && more[..|more| - 1] == events && more[|more| - 1] == e
  }

  lemma OneMore(events: seq<Event>, e: Event)
    ensures Continues(events, e)
  {
    assert (events + [e])[..|events|] == events;
  }

  /** The decision on the last event. */
  predicate Allowed(events: seq<Event>, limit: Word)
    requires events != [] && events[|events| - 1].Check?
  {
    var last := events[|events| - 1];
    Admits(After(events[..|events| - 1]), last.ip, last.now, limit)
  }

  function WithoutCleanup(events: seq<Event>): seq<Event> {
    if events == [] then []
    else
      var last := events[|events| - 1];
      WithoutCleanup(events[..|events| - 1]) + if last.Check? then [last] else []
  }

  // ---- cleanup cannot be noticed ----

  /** The tables agree, except that t may have lost entries that are stale at time now. */
  ghost predicate LostOnlyStale(t: Table, u: Table, now: nat) {
    && (forall ip :: ip in t ==> ip in u && t[ip] == u[ip])
    && (forall ip :: ip in u && ip !in t ==> Seconds(now, u[ip].windowStart) >= 2 * WINDOW_SECS)
  }

  lemma SecondsGrow(now: nat, later: nat, start: nat)
    requires now <= later
    ensures Seconds(now, start) <= Seconds(later, start)
  {}

  lemma {:induction false} CleanupLosesOnlyStale(events: seq<Event>)
    requires Chronological(events)
    ensures events != [] ==> LostOnlyStale(After(events), After(WithoutCleanup(events)), events[|events| - 1].now)
    ensures events == [] ==> After(events) == After(WithoutCleanup(events)) == map[]
  {
    if events != [] {
      var init, last := events[..|events| - 1], events[|events| - 1];
      CleanupLosesOnlyStale(init);
      var t, u := After(init), After(WithoutCleanup(init));
      LaterStale(init, last.now);
      if last.Check? {
        var fewer := WithoutCleanup(events);
        assert fewer[..|fewer| - 1] == WithoutCleanup(init) && fewer[|fewer| - 1] == last;
        StaleDoesNotMatter(t, u, last.ip, last.now);
      } else {
        assert WithoutCleanup(events) == WithoutCleanup(init);
      }
    }
  }

  lemma LaterStale(events: seq<Event>, now: nat)
    requires Chronological(events) && forall e :: e in events ==> e.now <= now
    requires events != [] ==> LostOnlyStale(After(events), After(WithoutCleanup(events)), events[|events| - 1].now)
    ensures LostOnlyStale(After(events), After(WithoutCleanup(events)), now)
  {
    if events != [] {
      var u := After(WithoutCleanup(events));
      assert events[|events| - 1] in events;
      forall ip | ip in u { SecondsGrow(events[|events| - 1].now, now, u[ip].windowStart); }
    }
  }

  /** A stale entry is counted like a missing one. */
  lemma StaleDoesNotMatter(t: Table, u: Table, ip: string, now: nat)
    requires LostOnlyStale(t, u, now)
    ensures Checked(t, ip, now)[ip] == Checked(u, ip, now)[ip]
    ensures LostOnlyStale(Checked(t, ip, now), Checked(u, ip, now), now)
  {}

  /** Cleanups at any moments leave every decision as it would be without them. */
  lemma CleanupIsInvisible(events: seq<Event>, limit: Word)
    requires Chronological(events) && events != [] && events[|events| - 1].Check?
    ensures WithoutCleanup(events) != [] && WithoutCleanup(events)[|WithoutCleanup(events)| - 1].Check?
    ensures Allowed(events, limit) == Allowed(WithoutCleanup(events), limit)
  {
    var init, last := events[..|events| - 1], events[|events| - 1];
    CleanupLosesOnlyStale(init);
    LaterStale(init, last.now);
    StaleDoesNotMatter(After(init), After(WithoutCleanup(init)), last.ip, last.now);
    var fewer := WithoutCleanup(events);
    assert fewer[..|fewer| - 1] == WithoutCleanup(init) && fewer[|fewer| - 1] == last;
  }

  // ---- a decision depends only on the address's own calls ----

  /** When the address asked. */
  function OwnTimes(events: seq<Event>, ip: string): seq<nat> {
    if events == [] then []
    else
      var last := events[|events| - 1];
      OwnTimes(events[..|events| - 1], ip) + if last.Check? && last.ip == ip then [last.now] else []
  }

  /** The start of the window that the last call falls into. */
  function WindowOf(times: seq<nat>): nat
    requires times != []
  {
    var n := |times| - 1;
    if n == 0 || times[n] >= WindowOf(times[..n]) + WINDOW then times[n] else WindowOf(times[..n])
  }

  /** Which call of its window the last call is, counting from 1. */
  function Position(times: seq<nat>): nat
    requires times != []
  {
    var n := |times| - 1;
    if n == 0 || times[n] >= WindowOf(times[..n]) + WINDOW then 1 else Position(times[..n]) + 1
  }

  lemma {:induction false} EntryCountsOwnCalls(events: seq<Event>, ip: string)
    requires forall e :: e in events ==> e.Check?
    ensures var t, times := After(events), OwnTimes(events, ip);
      (ip in t <==> times != [])
      && (times != [] ==> t[ip] == Entry(Position(times) % 0x1_0000_0000, WindowOf(times)))
  {
    if events != [] {
      var init, last := events[..|events| - 1], events[|events| - 1];
      assert last in events;
      EntryCountsOwnCalls(init, ip);
      if last.ip == ip {
        var earlier := OwnTimes(init, ip);
        CountedOnce(earlier, last.now);
      } else {
        assert OwnTimes(events, ip) == OwnTimes(init, ip);
      }
    }
  }

  lemma CountedOnce(earlier: seq<nat>, now: nat)
    ensures var times := earlier + [now];
      Counted(if earlier == [] then Entry(0, now) else Entry(Position(earlier) % 0x1_0000_0000, WindowOf(earlier)), now)
        == Entry(Position(times) % 0x1_0000_0000, WindowOf(times))
  {}

  lemma {:induction false} CleanupIsNotACall(events: seq<Event>, ip: string)
    ensures OwnTimes(WithoutCleanup(events), ip) == OwnTimes(events, ip)
    ensures forall e :: e in WithoutCleanup(events) ==> e.Check?
  {
    if events != [] {
      var init, last := events[..|events| - 1], events[|events| - 1];
      CleanupIsNotACall(init, ip);
      if last.Check? {
        var fewer := WithoutCleanup(events);
        assert fewer[..|fewer| - 1] == WithoutCleanup(init);
      } else {
        assert WithoutCleanup(events) == WithoutCleanup(init);
      }
    }
  }

  /** Exactly the first calls of a window are allowed (the u32 counter starts over after 2^32 calls),
      whatever other addresses and the cleanup do. */
  lemma AllowedByPosition(events: seq<Event>, limit: Word)
    requires Chronological(events) && events != [] && events[|events| - 1].Check?
    ensures var times := OwnTimes(events, events[|events| - 1].ip);
      times != [] && (Allowed(events, limit) <==> Position(times) % 0x1_0000_0000 <= limit)
  {
    var ip := events[|events| - 1].ip;
    CleanupIsInvisible(events, limit);
    CleanupIsNotACall(events, ip);
    var fewer := WithoutCleanup(events);
    EntryCountsOwnCalls(fewer, ip);
    assert Allowed(fewer, limit) <==> After(fewer)[ip].count <= limit;
  }

  // ---- how much a window, and any minute, lets through ----

  /** How many of the address's calls with a time in [from, to) were allowed. */
  function AllowedBetween(events: seq<Event>, ip: string, from: nat, to: nat, limit: Word): nat {
    if events == [] then 0
    else
      var last := events[|events| - 1];
      AllowedBetween(events[..|events| - 1], ip, from, to, limit)
      + if last.Check? && last.ip == ip && from <= last.now < to && Allowed(events, limit) then 1 else 0
  }

  /** The same, from the times of the calls alone. */
  function AdmittedBetween(times: seq<nat>, from: nat, to: nat, limit: Word): nat {
    if times == [] then 0
    else
      AdmittedBetween(times[..|times| - 1], from, to, limit)
      + if from <= times[|times| - 1] < to && Position(times) % 0x1_0000_0000 <= limit then 1 else 0
  }

  /** The same for a counter that never starts over within a window. */
  function EarlyBetween(times: seq<nat>, from: nat, to: nat, limit: nat): nat {
    if times == [] then 0
    else
      EarlyBetween(times[..|times| - 1], from, to, limit)
      + if from <= times[|times| - 1] < to && Position(times) <= limit then 1 else 0
  }

  function Least(a: nat, b: nat): nat {
    if a <= b then a else b
  }

  /** Windows start at least 60 s apart, so a minute touches at most two of them. */
  lemma {:induction false} MinuteTouchesTwoWindows(times: seq<nat>, from: nat, limit: nat)
    requires forall i, j :: 0 <= i < j < |times| ==> times[i] <= times[j]
    ensures EarlyBetween(times, from, from + WINDOW, limit) <= 2 * limit
    ensures times != [] ==>
      var n, w, p := EarlyBetween(times, from, from + WINDOW, limit), WindowOf(times), Least(Position(times), limit);
      && w <= times[|times| - 1]
      && (times[|times| - 1] < from ==> n == 0)
      && (w < from ==> n <= p)
      && (from <= w < from + WINDOW ==> n <= limit + p)
  {
    if times != [] {
      MinuteTouchesTwoWindows(times[..|times| - 1], from, limit);
    }
  }

  lemma {:induction false} OwnTimesOrdered(events: seq<Event>, ip: string)
    requires Chronological(events)
    ensures var times := OwnTimes(events, ip);
      && |times| <= |events|
      && (forall i, j :: 0 <= i < j < |times| ==> times[i] <= times[j])
      && (events != [] ==> forall i :: 0 <= i < |times| ==> times[i] <= events[|events| - 1].now)
  {
    if events != [] { OwnTimesOrdered(events[..|events| - 1], ip); }
  }

  lemma OwnTimesSnoc(events: seq<Event>)
    requires events != [] && events[|events| - 1].Check?
    ensures var times := OwnTimes(events, events[|events| - 1].ip);
      && times != [] && times[|times| - 1] == events[|events| - 1].now
      && times[..|times| - 1] == OwnTimes(events[..|events| - 1], events[|events| - 1].ip)
  {}

  lemma {:induction false} AllowedAreAdmitted(events: seq<Event>, ip: string, from: nat, to: nat, limit: Word)
    requires Chronological(events)
    ensures AllowedBetween(events, ip, from, to, limit) == AdmittedBetween(OwnTimes(events, ip), from, to, limit)
  {
    hide Allowed, Position;
    if events != [] {
      var init, last := events[..|events| - 1], events[|events| - 1];
      AllowedAreAdmitted(init, ip, from, to, limit);
      if last.Check? && last.ip == ip {
        OwnTimesSnoc(events);
        AllowedByPosition(events, limit);
      } else {
        assert OwnTimes(events, ip) == OwnTimes(init, ip);
      }
    }
  }

  /** No window gets as many calls as would make its counter start over. */
  ghost predicate WindowsFit(times: seq<nat>) {
    forall n :: 0 < n <= |times| ==> Position(times[..n]) < 0x1_0000_0000
  }

  lemma {:induction false} AdmittedAreEarly(times: seq<nat>, from: nat, to: nat, limit: Word)
    requires WindowsFit(times)
    ensures AdmittedBetween(times, from, to, limit) == EarlyBetween(times, from, to, limit)
  {
    hide Position;
    if times != [] {
      var init := times[..|times| - 1];
      assert forall n :: 0 < n <= |init| ==> init[..n] == times[..n];
      assert times[..|times|] == times;
      AdmittedAreEarly(init, from, to, limit);
    }
  }

  /** As long as no window gets 2^32 calls, no address gets more than twice the limit through in any
      60 seconds. */
  lemma AtMostTwoWindowsPerMinute(events: seq<Event>, ip: string, from: nat, limit: Word)
    requires Chronological(events) && WindowsFit(OwnTimes(events, ip))
    ensures AllowedBetween(events, ip, from, from + WINDOW, limit) <= 2 * limit
  {
    AllowedAreAdmitted(events, ip, from, from + WINDOW, limit);
    AdmittedAreEarly(OwnTimes(events, ip), from, from + WINDOW, limit);
    OwnTimesOrdered(events, ip);
    MinuteTouchesTwoWindows(OwnTimes(events, ip), from, limit);
  }

  // ---- a build that checks for overflow ----

  /** The table after a run in which a call that overflows panics and leaves the table alone. */
  function AfterChecking(events: seq<Event>): Table {
    if events == [] then map[]
    else
      var before, last := AfterChecking(events[..|events| - 1]), events[|events| - 1];
      match last
      case Check(ip, now) => if Overflows(before, ip, now) then before else Checked(before, ip, now)
      case Cleanup(now) => Cleaned(before, now)
  }

  /** The last event is a call that panics. */
  predicate Panics(events: seq<Event>)
    requires events != [] && events[|events| - 1].Check?
  {
    var last := events[|events| - 1];
    Overflows(AfterChecking(events[..|events| - 1]), last.ip, last.now)
  }

  /** The last event is a call that is allowed. */
  predicate AllowedChecking(events: seq<Event>, limit: Word)
    requires events != [] && events[|events| - 1].Check?
  {
    var last := events[|events| - 1];
    !Panics(events) && Admits(AfterChecking(events[..|events| - 1]), last.ip, last.now, limit)
  }

  const MOST: nat := 0xFFFF_FFFF

  /** The entry of an address, unless it was stale and cleaned up, has the position of the address's last
      call, as far as the counter goes. */
  ghost predicate CountsPositions(t: Table, times: seq<nat>, ip: string, now: nat) {
    if ip in t then times != [] && t[ip] == Entry(Least(Position(times), MOST), WindowOf(times))
    else times == [] || Seconds(now, WindowOf(times)) >= 2 * WINDOW_SECS
  }

  lemma CountsOneMore(t: Table, times: seq<nat>, ip: string, now: nat)
    requires CountsPositions(t, times, ip, now)
    ensures var more := times + [now];
      && (Overflows(t, ip, now) <==> Position(more) > MOST)
      && CountsPositions(if Overflows(t, ip, now) then t else Checked(t, ip, now), more, ip, now)
      && (!Overflows(t, ip, now) ==> Checked(t, ip, now)[ip].count == Position(more))
  {
    var more := times + [now];
    assert more[..|times|] == times;
  }

  lemma CountsLater(t: Table, times: seq<nat>, ip: string, now: nat, later: nat)
    requires CountsPositions(t, times, ip, now) && now <= later
    ensures CountsPositions(t, times, ip, later)
  {
    if times != [] { SecondsGrow(now, later, WindowOf(times)); }
  }

  lemma {:induction false} EveryRunCountsPositions(events: seq<Event>, ip: string, now: nat)
    requires Chronological(events) && forall e :: e in events ==> e.now <= now
    ensures CountsPositions(AfterChecking(events), OwnTimes(events, ip), ip, now)
  {
    hide CountsPositions, Overflows, Checked;
    if events == [] {
      NothingCounted(ip, now);
    } else {
      var init, last := events[..|events| - 1], events[|events| - 1];
      assert last in events;
      EveryRunCountsPositions(init, ip, last.now);
      var t, times := AfterChecking(init), OwnTimes(init, ip);
      if last.Check? && last.ip == ip {
        CountsOneMore(t, times, ip, last.now);
      } else {
        assert OwnTimes(events, ip) == times;
        OthersCount(t, times, ip, last);
      }
      CountsLater(AfterChecking(events), OwnTimes(events, ip), ip, last.now, now);
    }
  }

  lemma NothingCounted(ip: string, now: nat)
    ensures CountsPositions(map[], [], ip, now)
  {}

  /** Calls of other addresses and cleanups leave the entry right. */
  lemma OthersCount(t: Table, times: seq<nat>, ip: string, e: Event)
    requires CountsPositions(t, times, ip, e.now) && !(e.Check? && e.ip == ip)
    ensures match e
      case Check(other, now) =>
        CountsPositions(if Overflows(t, other, now) then t else Checked(t, other, now), times, ip, now)
      case Cleanup(now) => CountsPositions(Cleaned(t, now), times, ip, now)
  {
    hide Position, WindowOf, Overflows;
  }

  /** A build that checks for overflow panics at every call of a window from the 2^32-th on, and allows
      just the calls up to the limit, whatever other addresses and the cleanup do. */
  lemma OverflowsByPosition(events: seq<Event>, limit: Word)
    requires Chronological(events) && events != [] && events[|events| - 1].Check?
    ensures var times := OwnTimes(events, events[|events| - 1].ip);
      && times != []
      && (Panics(events) <==> Position(times) >= 0x1_0000_0000)
      && (AllowedChecking(events, limit) <==> Position(times) <= limit)
  {
    hide Position, Overflows, Checked, CountsPositions, AfterChecking;
    var init, last := events[..|events| - 1], events[|events| - 1];
    forall e | e in init ensures e.now <= last.now {}
    EveryRunCountsPositions(init, last.ip, last.now);
    CountsOneMore(AfterChecking(init), OwnTimes(init, last.ip), last.ip, last.now);
    assert OwnTimes(events, last.ip) == OwnTimes(init, last.ip) + [last.now];
  }

  /** How many of the address's calls with a time in [from, to) were allowed. */
  function AllowedBetweenChecking(events: seq<Event>, ip: string, from: nat, to: nat, limit: Word): nat {
    if events == [] then 0
    else
      var last := events[|events| - 1];
      AllowedBetweenChecking(events[..|events| - 1], ip, from, to, limit)
      + if last.Check? && last.ip == ip && from <= last.now < to && AllowedChecking(events, limit) then 1 else 0
  }

  lemma {:induction false} AllowedCheckingAreEarly(events: seq<Event>, ip: string, from: nat, to: nat, limit: Word)
    requires Chronological(events)
    ensures AllowedBetweenChecking(events, ip, from, to, limit) == EarlyBetween(OwnTimes(events, ip), from, to, limit)
  {
    hide AllowedChecking, Position, Panics;
    if events != [] {
      var init, last := events[..|events| - 1], events[|events| - 1];
      AllowedCheckingAreEarly(init, ip, from, to, limit);
      if last.Check? && last.ip == ip {
        OwnTimesSnoc(events);
        OverflowsByPosition(events, limit);
      } else {
        assert OwnTimes(events, ip) == OwnTimes(init, ip);
      }
    }
  }

  /** In such a build no address ever gets more than twice the limit through in any 60 seconds. */
  lemma AtMostTwoWindowsWhenChecking(events: seq<Event>, ip: string, from: nat, limit: Word)
    requires Chronological(events)
    ensures AllowedBetweenChecking(events, ip, from, from + WINDOW, limit) <= 2 * limit
  {
    AllowedCheckingAreEarly(events, ip, from, from + WINDOW, limit);
    OwnTimesOrdered(events, ip);
    MinuteTouchesTwoWindows(OwnTimes(events, ip), from, limit);
  }

  // ---- what one window lets through, for any number of calls ----

  /** How many of the first p calls of a window are let through. */
  function LetThrough(p: nat, limit: Word): nat {
    if p == 0 then 0 else LetThrough(p - 1, limit) + if p % 0x1_0000_0000 <= limit then 1 else 0
  }

  lemma {:induction false} FirstRound(p: nat, limit: Word)
    requires p < 0x1_0000_0000
    ensures LetThrough(p, limit) == Least(p, limit)
  {
    if p > 0 { FirstRound(p - 1, limit); }
  }

  /** From the 2^32-th call on the counter goes round again. */
  lemma {:induction false} SecondRound(p: nat, limit: Word, k: nat)
    requires p == 0x1_0000_0000 && k < p
    ensures LetThrough(p + k, limit) == limit + 1 + Least(k, limit)
  {
    if k == 0 {
      FirstRound(p - 1, limit);
    } else {
      SecondRound(p, limit, k - 1);
    }
  }

  lemma {:induction false} LetThroughGrows(p: nat, q: nat, limit: Word)
    requires p <= q
    ensures LetThrough(p, limit) <= LetThrough(q, limit)
  {
    if p < q { LetThroughGrows(p, q - 1, limit); }
  }

  lemma LimitHolds(p: nat, limit: Word)
    ensures LetThrough(p, limit) == Least(p, limit) <==> p < 0x1_0000_0000
  {
    hide LetThrough;
    var round: nat := 0x1_0000_0000;
    if p < round {
      FirstRound(p, limit);
    } else {
      SecondRound(round, limit, 0);
      LetThroughGrows(round, p, limit);
    }
  }

  /** How many calls of the address's present window were allowed. */
  function AllowedInWindow(events: seq<Event>, ip: string, limit: Word): nat {
    if events == [] then 0
    else
      var init, last := events[..|events| - 1], events[|events| - 1];
      if !(last.Check? && last.ip == ip) then AllowedInWindow(init, ip, limit)
      else
        (if Allowed(events, limit) then 1 else 0)
        + if Position(OwnTimes(events, ip)) == 1 then 0 else AllowedInWindow(init, ip, limit)
  }

  lemma {:induction false} WindowLetsThrough(events: seq<Event>, ip: string, limit: Word)
    requires Chronological(events) && OwnTimes(events, ip) != []
    ensures AllowedInWindow(events, ip, limit) == LetThrough(Position(OwnTimes(events, ip)), limit)
  {
    hide Allowed;
    var init, last := events[..|events| - 1], events[|events| - 1];
    var times := OwnTimes(events, ip);
    if last.Check? && last.ip == ip {
      AllowedByPosition(events, limit);
      OwnTimesSnoc(events);
      if Position(times) > 1 { WindowLetsThrough(init, ip, limit); } else { assert LetThrough(0, limit) == 0; }
    } else {
      assert times == OwnTimes(init, ip);
      WindowLetsThrough(init, ip, limit);
    }
  }

  /** Of the calls of a window just the first ones are let through, up to the limit, if and only if
      there are fewer than 2^32 of them. */
  lemma WindowLetsLimitThrough(events: seq<Event>, ip: string, limit: Word)
    requires Chronological(events) && OwnTimes(events, ip) != []
    ensures AllowedInWindow(events, ip, limit) == Least(Position(OwnTimes(events, ip)), limit)
      <==> Position(OwnTimes(events, ip)) < 0x1_0000_0000
  {
    hide Position, AllowedInWindow;
    WindowLetsThrough(events, ip, limit);
    LimitHolds(Position(OwnTimes(events, ip)), limit);
  }

  // ---- a run in which the counter starts over ----

  function Burst(n: nat): (events: seq<Event>)
    ensures |events| == n && forall i :: 0 <= i < n ==> events[i] == Check("a", 0)
  {
    seq(n, _ => Check("a", 0))
  }

  lemma {:induction false} BurstLetsThrough(n: nat, limit: Word)
    ensures var times := OwnTimes(Burst(n), "a");
      && |times| == n && (n > 0 ==> Position(times) == n && WindowOf(times) == 0)
      && AdmittedBetween(times, 0, WINDOW, limit) == LetThrough(n, limit)
  {
    if n > 0 {
      hide OwnTimes;
      BurstLetsThrough(n - 1, limit);
      assert Burst(n)[..n - 1] == Burst(n - 1);
      OwnTimesSnoc(Burst(n));
    } else {
      assert OwnTimes(Burst(0), "a") == [];
    }
  }

  /** With 2^32 calls in one window, one more than twice the limit can get through within a minute. */
  lemma WrappedCounterLetsMoreThrough(limit: Word) returns (events: seq<Event>)
    ensures Chronological(events) && AllowedBetween(events, "a", 0, WINDOW, limit) == 2 * limit + 1
  {
    hide AllowedBetween, AdmittedBetween, LetThrough, OwnTimes;
    var round: nat := 0x1_0000_0000;
    events := Burst(round + limit);
    AllowedAreAdmitted(events, "a", 0, WINDOW, limit);
    BurstLetsThrough(round + limit, limit);
    SecondRound(round, limit, limit);
  }
}
