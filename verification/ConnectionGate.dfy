/** The connection gate: an atomic counter that any number of threads add to and take from. */
module ConnectionGate {
  import opened Words
  import opened Wrappers
  import opened Sets
  import RateLimiter

  const U64: nat := 0x1_0000_0000_0000_0000

  /** Where a thread stands in its call of check_connection, and after it; seen is what its fetch_add
      returned, and turn the number of its per-address count among all of them. */
  datatype Thread =
    | Added(ip: string, seen: nat)            // has done fetch_add
    | RollingBack(ip: string, seen: nat)      // has compared, and must take its increment back
    | CountingIp(ip: string, seen: nat)       // has compared, and goes on to the per-address count
    | Holding(ip: string, seen: nat, turn: nat, allowed: bool)  // has returned; the slot is kept either way
    | Refused(ip: string, seen: nat)          // has returned false and given the increment back
    | Panicked(ip: string, seen: nat)         // the per-address counter overflowed; the slot is kept
    | Released                                // has given the slot back

  datatype Gate = Gate(counter: nat, perIp: RateLimiter.Table, threads: map<nat, Thread>, log: seq<RateLimiter.Event>)

  /** The limits, and whether the build checks for overflow of the per-address counters. */
  datatype Limits = Limits(maxPerIp: Word, maxGlobal: nat, overflowChecks: bool)

  /** The atomic steps of thread t. */
  datatype Action =
    | FetchAdd(t: nat, ip: string)
    | Compare(t: nat)
    | TakeBack(t: nat)
    | CountIp(t: nat, now: nat)
    | Release(t: nat)

  const OPEN_GATE: Gate := Gate(0, map[], map[], [])

  predicate Possible(g: Gate, a: Action) {
    match a
    case FetchAdd(t, _) => t !in g.threads
    case Compare(t) => t in g.threads && g.threads[t].Added?
    case TakeBack(t) => t in g.threads && g.threads[t].RollingBack?
    case CountIp(t, _) => t in g.threads && g.threads[t].CountingIp?
    case Release(t) => t in g.threads && g.threads[t].Holding?
  }

  function Next(limits: Limits, g: Gate, a: Action): Gate {
    if !Possible(g, a) then g
    else match a
      case FetchAdd(t, ip) =>
        g.(counter := (g.counter + 1) % U64, threads := g.threads[t := Added(ip, g.counter)])
      case Compare(t) =>
        var (ip, seen) := (g.threads[t].ip, g.threads[t].seen);
        g.(threads := g.threads[t := if seen >= limits.maxGlobal then RollingBack(ip, seen) else CountingIp(ip, seen)])
      case TakeBack(t) =>
        var refused := Refused(g.threads[t].ip, g.threads[t].seen);
        g.(counter := (g.counter + U64 - 1) % U64, threads := g.threads[t := refused])
      case CountIp(t, now) => Counted(limits, g, t, now)
      case Release(t) =>
        g.(counter := (g.counter + U64 - 1) % U64, threads := g.threads[t := Released])
  }

  function Counted(limits: Limits, g: Gate, t: nat, now: nat): Gate
    requires t in g.threads && g.threads[t].CountingIp?
  {
    var (ip, seen) := (g.threads[t].ip, g.threads[t].seen);
    if limits.overflowChecks && RateLimiter.Overflows(g.perIp, ip, now) then
      g.(threads := g.threads[t := Panicked(ip, seen)])
    else
      var allowed := RateLimiter.Admits(g.perIp, ip, now, limits.maxPerIp);
      g.(perIp := RateLimiter.Checked(g.perIp, ip, now),
         threads := g.threads[t := Holding(ip, seen, |g.log|, allowed)],
         log := g.log + [RateLimiter.Check(ip, now)])
  }

  function Execute(limits: Limits, actions: seq<Action>): Gate {
    if actions == [] then OPEN_GATE
    else Next(limits, Execute(limits, actions[..|actions| - 1]), actions[|actions| - 1])
  }

  lemma ExecuteSnoc(limits: Limits, actions: seq<Action>, a: Action)
    ensures Execute(limits, actions + [a]) == Next(limits, Execute(limits, actions), a)
  {}

  // ---- who is in the counter ----

  /** Has passed, or is bound to pass, the global check, and has not released its slot. */
  predicate Owns(limits: Limits, p: Thread) {
    (p.Added? && p.seen < limits.maxGlobal) || p.CountingIp? || HoldsSlot(p)
  }

  /** Has failed, or is bound to fail, the global check, and has not taken its increment back. */
  predicate AwaitsRollback(limits: Limits, p: Thread) {
    (p.Added? && p.seen >= limits.maxGlobal) || p.RollingBack?
  }

  /** The call is over and its slot still taken. */
  predicate HoldsSlot(p: Thread) {
    p.Holding? || p.Panicked?
  }

  predicate MidCall(p: Thread) {
    p.Added? || p.RollingBack? || p.CountingIp?
  }

  function Owners(limits: Limits, g: Gate): set<nat> {
    set t | t in g.threads && Owns(limits, g.threads[t])
  }

  function Waiting(limits: Limits, g: Gate): set<nat> {
    set t | t in g.threads && AwaitsRollback(limits, g.threads[t])
  }

  function SlotHolders(g: Gate): set<nat> {
    set t | t in g.threads && HoldsSlot(g.threads[t])
  }

  ghost predicate Accounted(limits: Limits, g: Gate) {
    && g.counter == |Owners(limits, g)| + |Waiting(limits, g)|
    && |Owners(limits, g)| <= limits.maxGlobal
    && g.perIp == RateLimiter.After(g.log)
  }

  /** What moving one thread to phase p does to the two counts. */
  lemma Moved(limits: Limits, g: Gate, g': Gate, t: nat, p: Thread)
    requires g'.threads == g.threads[t := p]
    ensures var before := if t in g.threads && Owns(limits, g.threads[t]) then 1 else 0;
      |Owners(limits, g')| == |Owners(limits, g)| - before + if Owns(limits, p) then 1 else 0
    ensures var before := if t in g.threads && AwaitsRollback(limits, g.threads[t]) then 1 else 0;
      |Waiting(limits, g')| == |Waiting(limits, g)| - before + if AwaitsRollback(limits, p) then 1 else 0
  {
    hide Owns, AwaitsRollback;
    Recount(Owners(limits, g), Owners(limits, g'), t);
    Recount(Waiting(limits, g), Waiting(limits, g'), t);
  }

  lemma CountersFit(limits: Limits, g: Gate, n: nat)
    requires Accounted(limits, g) && |g.threads| <= n
    ensures g.counter <= n
  {
    var owners, waiting := Owners(limits, g), Waiting(limits, g);
    assert |owners + waiting| == |owners| + |waiting| by { assert owners !! waiting; }
    Subset(owners + waiting, g.threads.Keys);
  }

  lemma StepKeepsAccounts(limits: Limits, g: Gate, a: Action, n: nat)
    requires Accounted(limits, g) && |g.threads| <= n && n + 1 < U64
    ensures Accounted(limits, Next(limits, g, a)) && |Next(limits, g, a).threads| <= n + 1
  {
    hide RateLimiter.Checked, RateLimiter.Admits, RateLimiter.Overflows, RateLimiter.After, Owners, Waiting;
    CountersFit(limits, g, n);
    if Possible(g, a) {
      var g' := Next(limits, g, a);
      Moved(limits, g, g', a.t, g'.threads[a.t]);
      if a.CountIp? { LoggedCheck(g.log, g.threads[a.t].ip, a.now); }
    }
  }

  lemma LoggedCheck(log: seq<RateLimiter.Event>, ip: string, now: nat)
    ensures RateLimiter.After(log + [RateLimiter.Check(ip, now)])
         == RateLimiter.Checked(RateLimiter.After(log), ip, now)
  {}

  /** In every interleaving the counter is exactly the slots owned plus the increments still to be
      taken back, and no more slots are owned than the limit. */
  lemma {:induction false} EveryInterleavingIsAccounted(limits: Limits, actions: seq<Action>)
    requires |actions| < U64 - 1
    ensures Accounted(limits, Execute(limits, actions)) && |Execute(limits, actions).threads| <= |actions|
  {
    hide Accounted, Next;
    if actions == [] {
      OpenGate(limits);
    } else {
      var init := actions[..|actions| - 1];
      EveryInterleavingIsAccounted(limits, init);
      StepKeepsAccounts(limits, Execute(limits, init), actions[|actions| - 1], |init|);
    }
  }

  lemma OpenGate(limits: Limits)
    ensures Accounted(limits, OPEN_GATE)
  {}

  /** Whenever no call is under way, the counter is the number of slots held, and within the limit. */
  lemma QuietCounterIsHolders(limits: Limits, actions: seq<Action>)
    requires |actions| < U64 - 1
    requires var g := Execute(limits, actions); forall t :: t in g.threads ==> !MidCall(g.threads[t])
    ensures var g := Execute(limits, actions);
      g.counter == |SlotHolders(g)| <= limits.maxGlobal
  {
    hide Execute;
    EveryInterleavingIsAccounted(limits, actions);
    var g := Execute(limits, actions);
    assert Waiting(limits, g) == {};
    assert Owners(limits, g) == SlotHolders(g);
  }

  // ---- when the global check refuses ----

  lemma {:induction false} OthersLeaveAlone(limits: Limits, before: seq<Action>, others: seq<Action>, t: nat)
    requires t in Execute(limits, before).threads && forall a :: a in others ==> a.t != t
    ensures var g := Execute(limits, before + others);
      t in g.threads && g.threads[t] == Execute(limits, before).threads[t]
  {
    if others == [] {
      assert before + others == before;
    } else {
      hide Execute, Counted;
      var init, a := others[..|others| - 1], others[|others| - 1];
      OthersLeaveAlone(limits, before, init, t);
      assert before + others == before + init + [a];
      ExecuteSnoc(limits, before + init, a);
    }
  }

  /** A call is refused by the global check exactly when, at its fetch_add, the slots owned and the
      increments of calls that are themselves bound to fail already reach the limit, whatever other
      threads do before it compares. */
  lemma RefusedExactlyWhenFull(limits: Limits, before: seq<Action>, t: nat, ip: string, others: seq<Action>)
    requires |before| < U64 - 1 && t !in Execute(limits, before).threads
    requires forall a :: a in others ==> a.t != t
    ensures var g, g' := Execute(limits, before), Execute(limits, before + [FetchAdd(t, ip)] + others + [Compare(t)]);
      && t in g'.threads
      && g'.threads[t] ==
        if |Owners(limits, g)| + |Waiting(limits, g)| >= limits.maxGlobal then RollingBack(ip, g.counter)
        else CountingIp(ip, g.counter)
  {
    hide Execute;
    EveryInterleavingIsAccounted(limits, before);
    ExecuteSnoc(limits, before, FetchAdd(t, ip));
    OthersLeaveAlone(limits, before + [FetchAdd(t, ip)], others, t);
    ExecuteSnoc(limits, before + [FetchAdd(t, ip)] + others, Compare(t));
  }

  /** So a call can be refused while no slot is held at all: another call's increment stands in for one. */
  lemma RefusalWithoutHolders(overflowChecks: bool) returns (actions: seq<Action>)
    ensures var g := Execute(Limits(100, 1, overflowChecks), actions);
      && 3 in g.threads && g.threads[3].RollingBack?
      && forall t :: t in g.threads ==> !HoldsSlot(g.threads[t])
  {
    hide Execute, Counted;
    var limits := Limits(100, 1, overflowChecks);
    var first := [FetchAdd(1, "a"), Compare(1), CountIp(1, 0)];
    actions := first + [FetchAdd(2, "b")] + [Release(1)] + [FetchAdd(3, "c")] + [Compare(3)];
    OneHolder(limits);
    ExecuteSnoc(limits, first, FetchAdd(2, "b"));
    ExecuteSnoc(limits, first + [FetchAdd(2, "b")], Release(1));
    ExecuteSnoc(limits, first + [FetchAdd(2, "b")] + [Release(1)], FetchAdd(3, "c"));
    ExecuteSnoc(limits, first + [FetchAdd(2, "b")] + [Release(1)] + [FetchAdd(3, "c")], Compare(3));
  }

  lemma OneHolder(limits: Limits)
    requires limits.maxGlobal >= 1 && limits.maxPerIp >= 1
    ensures var g := Execute(limits, [FetchAdd(1, "a"), Compare(1), CountIp(1, 0)]);
      && g.counter == 1 && g.threads == map[1 := Holding("a", 0, 0, true)]
      && g.perIp == map["a" := RateLimiter.Entry(1, 0)] && |g.log| == 1
  {
    hide Execute;
    NoAction(limits);
    ExecuteSnoc(limits, [], FetchAdd(1, "a"));
    ExecuteSnoc(limits, [FetchAdd(1, "a")], Compare(1));
    ExecuteSnoc(limits, [FetchAdd(1, "a"), Compare(1)], CountIp(1, 0));
    assert [] + [FetchAdd(1, "a")] == [FetchAdd(1, "a")];
    assert [FetchAdd(1, "a")] + [Compare(1)] == [FetchAdd(1, "a"), Compare(1)];
    assert [FetchAdd(1, "a"), Compare(1)] + [CountIp(1, 0)] == [FetchAdd(1, "a"), Compare(1), CountIp(1, 0)];
  }

  lemma NoAction(limits: Limits)
    ensures Execute(limits, []) == OPEN_GATE
  {}

  // ---- what a verdict says, and who keeps a slot ----

  /** Which call of its address in its window the turn-th count was, starting over after 2^32. */
  function CountAt(log: seq<RateLimiter.Event>, ip: string, turn: nat): nat
    requires turn < |log| && log[turn].Check? && log[turn].ip == ip
  {
    RateLimiter.Position(RateLimiter.OwnTimes(log[..turn + 1], ip)) % 0x1_0000_0000
  }

  /** What a thread's phase says of its call. */
  ghost predicate Explained(limits: Limits, log: seq<RateLimiter.Event>, p: Thread) {
    match p
    case Added(_, _) => true
    case RollingBack(_, seen) => seen >= limits.maxGlobal
    case Refused(_, seen) => seen >= limits.maxGlobal
    case CountingIp(_, seen) => seen < limits.maxGlobal
    case Panicked(_, seen) => seen < limits.maxGlobal
    case Holding(ip, seen, turn, allowed) =>
      && seen < limits.maxGlobal && turn < |log| && log[turn].Check? && log[turn].ip == ip
      && (allowed <==> CountAt(log, ip, turn) <= limits.maxPerIp)
    case Released => true
  }

  ghost predicate AllExplained(limits: Limits, g: Gate) {
    && g.perIp == RateLimiter.After(g.log) && (forall e :: e in g.log ==> e.Check?)
    && forall t :: t in g.threads ==> Explained(limits, g.log, g.threads[t])
  }

  lemma LongerLogExplains(limits: Limits, log: seq<RateLimiter.Event>, e: RateLimiter.Event, p: Thread)
    requires Explained(limits, log, p)
    ensures Explained(limits, log + [e], p)
  {
    if p.Holding? { assert (log + [e])[..p.turn + 1] == log[..p.turn + 1]; }
  }

  /** The count of an address decides by the position of its call. */
  lemma CountedByPosition(log: seq<RateLimiter.Event>, ip: string, now: nat, limit: Word)
    requires forall e :: e in log ==> e.Check?
    ensures var more := log + [RateLimiter.Check(ip, now)];
      RateLimiter.Admits(RateLimiter.After(log), ip, now, limit) <==> CountAt(more, ip, |log|) <= limit
  {
    hide RateLimiter.Position, RateLimiter.Checked, RateLimiter.OwnTimes;
    var more := log + [RateLimiter.Check(ip, now)];
    LoggedCheck(log, ip, now);
    RateLimiter.EntryCountsOwnCalls(more, ip);
    assert more[..|log| + 1] == more;
    EntryThere(RateLimiter.After(log), ip, now);
  }

  lemma EntryThere(t: RateLimiter.Table, ip: string, now: nat)
    ensures ip in RateLimiter.Checked(t, ip, now)
  {}

  lemma StepKeepsExplained(limits: Limits, g: Gate, a: Action)
    requires AllExplained(limits, g)
    ensures AllExplained(limits, Next(limits, g, a))
  {
    hide RateLimiter.Checked, RateLimiter.Admits, RateLimiter.Overflows, RateLimiter.After, Explained;
    if Possible(g, a) {
      var g' := Next(limits, g, a);
      if g'.log != g.log {
        var e := RateLimiter.Check(g.threads[a.t].ip, a.now);
        LoggedCheck(g.log, e.ip, e.now);
        forall t | t in g.threads ensures Explained(limits, g'.log, g.threads[t]) {
          LongerLogExplains(limits, g.log, e, g.threads[t]);
        }
      }
      StepExplains(limits, g, a);
    }
  }

  lemma StepExplains(limits: Limits, g: Gate, a: Action)
    requires AllExplained(limits, g) && Possible(g, a)
    ensures var g' := Next(limits, g, a); a.t in g'.threads && Explained(limits, g'.log, g'.threads[a.t])
  {
    hide RateLimiter.Checked, RateLimiter.Admits, RateLimiter.Overflows, RateLimiter.After, CountAt;
    if a.CountIp? { CountedByPosition(g.log, g.threads[a.t].ip, a.now, limits.maxPerIp); }
  }

  lemma {:induction false} EveryVerdictIsExplained(limits: Limits, actions: seq<Action>)
    ensures AllExplained(limits, Execute(limits, actions))
  {
    hide AllExplained, Next;
    if actions == [] {
      OpenGateIsExplained(limits);
    } else {
      EveryVerdictIsExplained(limits, actions[..|actions| - 1]);
      StepKeepsExplained(limits, Execute(limits, actions[..|actions| - 1]), actions[|actions| - 1]);
    }
  }

  lemma OpenGateIsExplained(limits: Limits)
    ensures AllExplained(limits, OPEN_GATE)
  {}

  predicate SaidNo(p: Thread) {
    p.Refused? || (p.Holding? && !p.allowed)
  }

  /** In every run a call that returned false keeps a slot if and only if its fetch_add saw less than
      the global limit and its position in the window of its address is over the limit; otherwise its
      fetch_add saw the global limit reached. */
  lemma TurnedAwayKeepsSlot(limits: Limits, actions: seq<Action>, t: nat)
    requires t in Execute(limits, actions).threads && SaidNo(Execute(limits, actions).threads[t])
    ensures var g := Execute(limits, actions); var p := g.threads[t];
      && (t in Owners(limits, g) <==> p.seen < limits.maxGlobal)
      && (t in Owners(limits, g) ==>
            p.Holding? && p.turn < |g.log| && g.log[p.turn].Check? && g.log[p.turn].ip == p.ip
            && CountAt(g.log, p.ip, p.turn) > limits.maxPerIp)
  {
    hide Execute, CountAt;
    EveryVerdictIsExplained(limits, actions);
  }

  /** A run in which a call is turned away and keeps its slot. */
  lemma SomeoneIsTurnedAway(overflowChecks: bool) returns (actions: seq<Action>)
    ensures var g := Execute(Limits(1, 2, overflowChecks), actions);
      g.counter == 2 && 2 in g.threads && g.threads[2] == Holding("a", 1, 1, false)
  {
    hide Execute;
    var limits := Limits(1, 2, overflowChecks);
    var first := [FetchAdd(1, "a"), Compare(1), CountIp(1, 0)];
    actions := first + [FetchAdd(2, "a")] + [Compare(2)] + [CountIp(2, 0)];
    OneHolder(limits);
    ExecuteSnoc(limits, first, FetchAdd(2, "a"));
    ExecuteSnoc(limits, first + [FetchAdd(2, "a")], Compare(2));
    ExecuteSnoc(limits, first + [FetchAdd(2, "a")] + [Compare(2)], CountIp(2, 0));
  }

  // ---- callers that release only what was admitted ----

  /** Only calls that returned true are ever released. */
  ghost predicate OnlyAdmittedReleased(limits: Limits, actions: seq<Action>) {
    forall i :: 0 <= i < |actions| && actions[i].Release? && Possible(Execute(limits, actions[..i]), actions[i]) ==>
      Execute(limits, actions[..i]).threads[actions[i].t].allowed
  }

  /** Takes a slot and is turned away. */
  predicate TurnsAway(limits: Limits, g: Gate, a: Action) {
    a.CountIp? && Possible(g, a) && SaidNo(Next(limits, g, a).threads[a.t])
  }

  /** How many calls have been turned away so far by the count of their address. */
  function TurnedAway(limits: Limits, actions: seq<Action>): nat {
    if actions == [] then 0
    else
      var init := actions[..|actions| - 1];
      TurnedAway(limits, init) + if TurnsAway(limits, Execute(limits, init), actions[|actions| - 1]) then 1 else 0
  }

  function AdmittedHolders(g: Gate): set<nat> {
    set t | t in g.threads && g.threads[t].Holding? && g.threads[t].allowed
  }

  function PanickedCalls(g: Gate): set<nat> {
    set t | t in g.threads && g.threads[t].Panicked?
  }

  /** The calls that returned false and have a slot. */
  function KeptByNo(g: Gate): set<nat> {
    set t | t in g.threads && g.threads[t].Holding? && !g.threads[t].allowed
  }

  lemma KeptByNoStep(limits: Limits, g: Gate, a: Action)
    requires a.Release? && Possible(g, a) ==> g.threads[a.t].allowed
    ensures |KeptByNo(Next(limits, g, a))| == |KeptByNo(g)| + if TurnsAway(limits, g, a) then 1 else 0
  {
    hide RateLimiter.Checked, RateLimiter.Admits, RateLimiter.Overflows;
    Recount(KeptByNo(g), KeptByNo(Next(limits, g, a)), a.t);
  }

  lemma {:induction false} TurnedAwayPileUp(limits: Limits, actions: seq<Action>)
    requires OnlyAdmittedReleased(limits, actions)
    ensures |KeptByNo(Execute(limits, actions))| == TurnedAway(limits, actions)
  {
    hide Next, Possible, TurnsAway, KeptByNo;
    if actions == [] {
      assert |KeptByNo(OPEN_GATE)| == 0 by { NobodyKept(); }
    } else {
      var n := |actions| - 1;
      var init := actions[..n];
      assert forall i :: 0 <= i < n ==> init[..i] == actions[..i];
      TurnedAwayPileUp(limits, init);
      KeptByNoStep(limits, Execute(limits, init), actions[n]);
    }
  }

  lemma NobodyKept()
    ensures |KeptByNo(OPEN_GATE)| == 0
  {
    assert KeptByNo(OPEN_GATE) == {};
  }

  /** If callers release only what was admitted, a quiet counter is the admitted holders and every call
      that was ever turned away, besides the calls that panicked. */
  lemma QuietCounterRemembersTurnedAway(limits: Limits, actions: seq<Action>)
    requires |actions| < U64 - 1 && OnlyAdmittedReleased(limits, actions)
    requires var g := Execute(limits, actions); forall t :: t in g.threads ==> !MidCall(g.threads[t])
    ensures var g := Execute(limits, actions);
      g.counter == |AdmittedHolders(g)| + |PanickedCalls(g)| + TurnedAway(limits, actions)
  {
    hide Execute, TurnedAway, OnlyAdmittedReleased;
    QuietCounterIsHolders(limits, actions);
    TurnedAwayPileUp(limits, actions);
    ThreeKinds(Execute(limits, actions));
  }

  lemma ThreeKinds(g: Gate)
    ensures |SlotHolders(g)| == |AdmittedHolders(g)| + |PanickedCalls(g)| + |KeptByNo(g)|
  {
    var returned := AdmittedHolders(g) + PanickedCalls(g);
    assert AdmittedHolders(g) !! PanickedCalls(g) && returned !! KeptByNo(g);
    assert |returned| == |AdmittedHolders(g)| + |PanickedCalls(g)|;
    assert SlotHolders(g) == returned + KeptByNo(g);
  }

  lemma {:induction false} TurnedAwayGrows(limits: Limits, actions: seq<Action>, n: nat)
    requires n <= |actions|
    ensures TurnedAway(limits, actions[..n]) <= TurnedAway(limits, actions)
    decreases |actions|
  {
    hide Execute, TurnsAway;
    if n < |actions| {
      var init := actions[..|actions| - 1];
      assert init[..n] == actions[..n];
      TurnedAwayGrows(limits, init, n);
    } else {
      assert actions[..n] == actions;
    }
  }

  /** Once as many calls have been turned away as there are slots, every later call is refused. */
  lemma GateShutsForGood(limits: Limits, before: seq<Action>, n: nat, t: nat, ip: string, others: seq<Action>)
    requires |before| < U64 - 1 && OnlyAdmittedReleased(limits, before)
    requires n <= |before| && TurnedAway(limits, before[..n]) >= limits.maxGlobal
    requires t !in Execute(limits, before).threads && forall a :: a in others ==> a.t != t
    ensures var g' := Execute(limits, before + [FetchAdd(t, ip)] + others + [Compare(t)]);
      t in g'.threads && g'.threads[t].RollingBack?
  {
    hide Execute, TurnedAway, OnlyAdmittedReleased;
    TurnedAwayGrows(limits, before, n);
    TurnedAwayPileUp(limits, before);
    var g := Execute(limits, before);
    assert KeptByNo(g) <= Owners(limits, g);
    Subset(KeptByNo(g), Owners(limits, g));
    RefusedExactlyWhenFull(limits, before, t, ip, others);
    assert |Owners(limits, g)| + |Waiting(limits, g)| >= limits.maxGlobal;
  }

  /** The steps of a call that nothing interrupts. */
  lemma AloneInGate(limits: Limits, g: Gate, t: nat, ip: string, now: nat)
    requires t !in g.threads && g.counter < U64
    ensures var added := Next(limits, Next(limits, g, FetchAdd(t, ip)), Compare(t));
      var counting := g.threads[t := CountingIp(ip, g.counter)];
      Next(limits, Next(limits, added, TakeBack(t)), CountIp(t, now)) ==
        if g.counter >= limits.maxGlobal then g.(threads := g.threads[t := Refused(ip, g.counter)])
        else Counted(limits, Gate((g.counter + 1) % U64, g.perIp, counting, g.log), t, now)
  {
    hide Counted;
    var g1 := Next(limits, g, FetchAdd(t, ip));
    var g2 := Next(limits, g1, Compare(t));
    var counting := CountingIp(ip, g.counter);
    assert g.threads[t := Added(ip, g.counter)][t := counting] == g.threads[t := counting];
    if g.counter >= limits.maxGlobal {
      var g3 := Next(limits, g2, TakeBack(t));
      assert g3.counter == g.counter;
      assert g3.threads == g.threads[t := Refused(ip, g.counter)];
    }
  }

  // ---- the gate as the source has it, for callers that do not overlap ----

  class DdosProtection {
    var connectionsPerIp: RateLimiter.Table
    var globalConnections: nat
    const limits: Limits

    constructor (maxPerIp: Word, maxGlobal: nat, overflowChecks: bool)
      ensures limits == Limits(maxPerIp, maxGlobal, overflowChecks)
      ensures globalConnections == 0 && connectionsPerIp == map[]
    {
      limits := Limits(maxPerIp, maxGlobal, overflowChecks);
      globalConnections, connectionsPerIp := 0, map[];
    }

    /** The call is the steps of one thread t, done without interruption; None stands for its panic. */
    method CheckConnection(ip: string, now: nat, ghost g: Gate, ghost t: nat) returns (allowed: Option<bool>)
      requires globalConnections == g.counter < U64 && connectionsPerIp == g.perIp && t !in g.threads
      modifies this
      ensures var added := Next(limits, Next(limits, g, FetchAdd(t, ip)), Compare(t));
        var g' := Next(limits, Next(limits, added, TakeBack(t)), CountIp(t, now));
        && globalConnections == g'.counter && connectionsPerIp == g'.perIp
        && g'.threads[t] == (if g.counter >= limits.maxGlobal then Refused(ip, g.counter)
                             else match allowed
                               case None => Panicked(ip, g.counter)
                               case Some(ok) => Holding(ip, g.counter, |g.log|, ok))
        && (g.counter >= limits.maxGlobal ==> allowed == Some(false))
        && globalConnections == if g.counter >= limits.maxGlobal then g.counter else (g.counter + 1) % U64
    {
      AloneInGate(limits, g, t, ip, now);
      hide Next;
      var global := globalConnections;
      globalConnections := (globalConnections + 1) % 0x1_0000_0000_0000_0000;
      if global >= limits.maxGlobal {
        globalConnections := (globalConnections + 0xFFFF_FFFF_FFFF_FFFF) % 0x1_0000_0000_0000_0000;
        return Some(false);
      }
      var entry := if ip in connectionsPerIp then connectionsPerIp[ip] else RateLimiter.Entry(0, now);
      if RateLimiter.Seconds(now, entry.windowStart) >= 60 {
        entry := entry.(count := 0);
        entry := entry.(windowStart := now);
      }
      if limits.overflowChecks && entry.count == 0xFFFF_FFFF {
        return None;
      }
      entry := entry.(count := (entry.count + 1) % 0x1_0000_0000);
      connectionsPerIp := connectionsPerIp[ip := entry];
      allowed := Some(entry.count <= limits.maxPerIp);
    }

    method ReleaseConnection()
      modifies this`globalConnections
      ensures globalConnections == (old(globalConnections) + U64 - 1) % U64
      ensures forall g: Gate, t: nat :: Possible(g, Release(t)) && g.counter == old(globalConnections) ==>
        Next(limits, g, Release(t)).counter == globalConnections && Next(limits, g, Release(t)).perIp == g.perIp
    {
      globalConnections := (globalConnections + 0xFFFF_FFFF_FFFF_FFFF) % 0x1_0000_0000_0000_0000;
    }
  }
}
