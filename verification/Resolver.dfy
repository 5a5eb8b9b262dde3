/** The registry of .opt domains. */
module Resolver {
  import opened Text
  import Sorting
  import opened Wrappers

  datatype ResolvedOpt<+C> = ResolvedOpt(
    domain: string, coreFile: C, registeredAt: int, lastResolved: int, resolveCount: nat)

  type Registry<C> = map<string, ResolvedOpt<C>>

  datatype ResolverError = NotFound(domain: string) | AlreadyRegistered(domain: string) | InvalidDomain(domain: string)

  datatype Op<+C> =
    | Register(domain: string, coreFile: C)
    | RegisterOrUpdate(domain: string, coreFile: C)
    | Resolve(domain: string)
    | ResolveMetadata(domain: string)
    | Unregister(domain: string)

  datatype Reply<+C> = Done | Found(coreFile: C) | Metadata(entry: ResolvedOpt<C>) | Refused(error: ResolverError)

  /** An operation and the time the clock showed while it ran. */
  datatype Timed<+C> = Timed(op: Op<C>, now: int)

  type Lowercase = string -> string

  function Normalize(lower: Lowercase, domain: string): string {
    lower(Trim(domain))
  }

  // ---- the operations on values ----

  function Apply<C>(lower: Lowercase, reg: Registry<C>, op: Op<C>, now: int): (Registry<C>, Reply<C>) {
    var domain := Normalize(lower, op.domain);
    match op
    case Register(_, coreFile) =>
      if !EndsWith(domain, ".opt") then (reg, Refused(InvalidDomain(domain)))
      else if domain in reg then (reg, Refused(AlreadyRegistered(domain)))
      else (reg[domain := ResolvedOpt(domain, coreFile, now, now, 0)], Done)
    case RegisterOrUpdate(_, coreFile) =>
      if !EndsWith(domain, ".opt") then (reg, Refused(InvalidDomain(domain)))
      else if domain in reg then (reg[domain := reg[domain].(coreFile := coreFile, lastResolved := now)], Done)
      else (reg[domain := ResolvedOpt(domain, coreFile, now, now, 0)], Done)
    case Resolve(_) =>
      if domain !in reg then (reg, Refused(NotFound(domain)))
      else (reg[domain := Touched(reg[domain], now)], Found(reg[domain].coreFile))
    case ResolveMetadata(_) =>
      if domain !in reg then (reg, Refused(NotFound(domain)))
      else (reg[domain := Touched(reg[domain], now)], Metadata(Touched(reg[domain], now)))
    case Unregister(_) =>
      if domain !in reg then (reg, Refused(NotFound(domain)))
      else (reg - {domain}, Done)
  }

  function Touched<C>(e: ResolvedOpt<C>, now: int): ResolvedOpt<C> {
    e.(lastResolved := now, resolveCount := e.resolveCount + 1)
  }

  function Run<C>(lower: Lowercase, reg: Registry<C>, ops: seq<Timed<C>>): Registry<C> {
    if ops == [] then reg
    else
      var last := ops[|ops| - 1];
      Apply(lower, Run(lower, reg, ops[..|ops| - 1]), last.op, last.now).0
  }

  /** White space around a domain is ignored, and the key is the domain in lower case: an operation on it
      does and says what the one on the bare domain does. */
  lemma SpaceIsIgnored<C>(lower: Lowercase, reg: Registry<C>, op: Op<C>, now: int, before: string, after: string)
    requires IsTrimmed(op.domain) && forall c :: c in before || c in after ==> IsSpace(c)
    ensures Normalize(lower, op.domain) == lower(op.domain)
    ensures Normalize(lower, before + op.domain + after) == lower(op.domain)
    ensures Apply(lower, reg, op.(domain := before + op.domain + after), now) == Apply(lower, reg, op, now)
  {
    hide Trim;
    TrimTakesSpaceOff(before, op.domain, after);
    TrimIdentity(op.domain);
  }

  // ---- the registry as the source has it, behind its lock ----

  class OptResolver<C> {
    var registry: Registry<C>
    const lower: Lowercase

    constructor (lower: Lowercase)
      ensures registry == map[] && this.lower == lower
    {
      registry := map[];
      this.lower := lower;
    }

    constructor FromEntries(lower: Lowercase, entries: Registry<C>)
      ensures registry == entries && this.lower == lower
    {
      registry := entries;
      this.lower := lower;
    }

    method Register(domain: string, coreFile: C, now: int) returns (r: Reply<C>)
      modifies this
      ensures (registry, r) == Apply(lower, old(registry), Op.Register(domain, coreFile), now)
    {
      hide Normalize, EndsWith;
      var key := Normalize(lower, domain);
      if !EndsWith(key, ".opt") {
        return Refused(InvalidDomain(key));
      }
      if key in registry {
        return Refused(AlreadyRegistered(key));
      }
      registry := registry[key := ResolvedOpt(key, coreFile, now, now, 0)];
      r := Done;
    }

    method RegisterOrUpdate(domain: string, coreFile: C, now: int) returns (r: Reply<C>)
      modifies this
      ensures (registry, r) == Apply(lower, old(registry), Op.RegisterOrUpdate(domain, coreFile), now)
    {
      hide Normalize, EndsWith;
      var key := Normalize(lower, domain);
      if !EndsWith(key, ".opt") {
        return Refused(InvalidDomain(key));
      }
      if key in registry {
        var existing := registry[key];
        existing := existing.(coreFile := coreFile);
        existing := existing.(lastResolved := now);
        registry := registry[key := existing];
      } else {
        registry := registry[key := ResolvedOpt(key, coreFile, now, now, 0)];
      }
      r := Done;
    }

    method Resolve(domain: string, now: int) returns (r: Reply<C>)
      modifies this
      ensures (registry, r) == Apply(lower, old(registry), Op.Resolve(domain), now)
    {
      var key := Normalize(lower, domain);
      if key !in registry {
        return Refused(NotFound(key));
      }
      var entry := registry[key];
      entry := entry.(lastResolved := now);
      entry := entry.(resolveCount := entry.resolveCount + 1);
      registry := registry[key := entry];
      r := Found(entry.coreFile);
    }

    method ResolveMetadata(domain: string, now: int) returns (r: Reply<C>)
      modifies this
      ensures (registry, r) == Apply(lower, old(registry), Op.ResolveMetadata(domain), now)
    {
      var key := Normalize(lower, domain);
      if key !in registry {
        return Refused(NotFound(key));
      }
      var entry := registry[key];
      entry := entry.(lastResolved := now);
      entry := entry.(resolveCount := entry.resolveCount + 1);
      registry := registry[key := entry];
      r := Metadata(entry);
    }

    method Unregister(domain: string) returns (r: Reply<C>)
      modifies this
      ensures forall now :: (registry, r) == Apply(lower, old(registry), Op.Unregister(domain), now)
    {
      var key := Normalize(lower, domain);
      if key !in registry {
        return Refused(NotFound(key));
      }
      registry := registry - {key};
      r := Done;
    }

    method Contains(domain: string) returns (b: bool)
      ensures b <==> Normalize(lower, domain) in registry
      ensures IsTrimmed(domain) ==> (b <==> lower(domain) in registry)
    {
      if IsTrimmed(domain) { TrimIdentity(domain); }
      b := Normalize(lower, domain) in registry;
    }

    /** The keys in strictly increasing order. */
    method List() returns (keys: seq<string>)
      ensures forall i, j :: 0 <= i < j < |keys| ==> Sorting.AtMost(keys[i], keys[j]) && keys[i] != keys[j]
      ensures forall k :: k in keys <==> k in registry
      ensures |keys| == |registry|
    {
      keys := [];
      var left := registry.Keys;
      while left != {}
        invariant multiset(keys) + multiset(left) == multiset(registry.Keys)
        decreases left
      {
        var k :| k in left;
        keys := keys + [k];
        left := left - {k};
      }
      ghost var unsorted := keys;
      keys := Sorting.Sort(keys, Sorting.AtMost);
      Sorting.SortKeepsElements(unsorted, Sorting.AtMost);
      Sorting.StringOrder();
      Sorting.SortSorts(unsorted, Sorting.AtMost);
      StrictlySorted(keys, registry.Keys);
    }

    method Count() returns (n: nat)
      ensures n == |registry|
    {
      n := |registry|;
    }
  }

  lemma StrictlySorted(keys: seq<string>, names: set<string>)
    requires multiset(keys) == multiset(names) && Sorting.SortedBy(keys, Sorting.AtMost)
    ensures forall i, j :: 0 <= i < j < |keys| ==> keys[i] != keys[j]
    ensures forall k :: k in keys <==> k in names
    ensures |keys| == |names|
  {
    forall i, j | 0 <= i < j < |keys| ensures keys[i] != keys[j] {
      Sorting.TwoPlaces(keys, i, j);
    }
    forall k ensures k in keys <==> k in names {
      assert k in keys <==> k in multiset(keys);
    }
    assert |multiset(keys)| == |keys|;
  }

  // ---- what every run keeps ----

  ghost predicate WellKept<C>(reg: Registry<C>) {
    forall k :: k in reg ==> EndsWith(k, ".opt") && reg[k].domain == k
  }

  /** From a well kept registry every run leads to a well kept registry. */
  lemma {:induction false} RunsStayWellKept<C>(lower: Lowercase, reg: Registry<C>, ops: seq<Timed<C>>)
    requires WellKept(reg)
    ensures WellKept(Run(lower, reg, ops))
    ensures var reg' := Run(lower, reg, ops); forall k :: k in reg' ==> EndsWith(k, ".opt") && reg'[k].domain == k
  {
    hide Apply;
    if ops != [] {
      var init, last := ops[..|ops| - 1], ops[|ops| - 1];
      RunsStayWellKept(lower, reg, init);
      StepStaysWellKept(lower, Run(lower, reg, init), last.op, last.now);
    }
  }

  lemma StepStaysWellKept<C>(lower: Lowercase, reg: Registry<C>, op: Op<C>, now: int)
    requires WellKept(reg)
    ensures WellKept(Apply(lower, reg, op, now).0)
  {
    hide EndsWith, Normalize;
  }

  /** A refused operation changes nothing, and any operation leaves every other domain alone. */
  lemma OperationsAreLocal<C>(lower: Lowercase, reg: Registry<C>, op: Op<C>, now: int, other: string)
    requires other != Normalize(lower, op.domain)
    ensures var (reg', r) := Apply(lower, reg, op, now);
      && (r.Refused? ==> reg' == reg)
      && (other in reg' <==> other in reg)
      && (other in reg ==> reg'[other] == reg[other])
  {}

  // ---- refinement of a plain map ----

  /** What callers see of a registry: domains and their core files. */
  function Files<C>(reg: Registry<C>): map<string, C> {
    map k | k in reg :: reg[k].coreFile
  }

  /** The operations as a plain map with the normalized domains as keys would have them. */
  function Plain<C>(lower: Lowercase, files: map<string, C>, op: Op<C>): map<string, C> {
    var k := Normalize(lower, op.domain);
    match op
    case Register(_, c) => if EndsWith(k, ".opt") && k !in files then files[k := c] else files
    case RegisterOrUpdate(_, c) => if EndsWith(k, ".opt") then files[k := c] else files
    case Unregister(_) => files - {k}
    case _ => files
  }

  function PlainRun<C>(lower: Lowercase, files: map<string, C>, ops: seq<Timed<C>>): map<string, C> {
    if ops == [] then files else Plain(lower, PlainRun(lower, files, ops[..|ops| - 1]), ops[|ops| - 1].op)
  }

  /** How the plain map would refuse an operation, if at all. */
  function PlainRefusal<C>(lower: Lowercase, files: map<string, C>, op: Op<C>): Option<ResolverError> {
    var k := Normalize(lower, op.domain);
    if op.Register? || op.RegisterOrUpdate? then
      if !EndsWith(k, ".opt") then Some(InvalidDomain(k))
      else if op.Register? && k in files then Some(AlreadyRegistered(k)) else None
    else if k !in files then Some(NotFound(k)) else None
  }

  /** Over every run the registry shows the same files as the plain map, refuses what that refuses, and
      lookups answer from it. */
  lemma {:induction false} RefinesPlainMap<C>(lower: Lowercase, reg: Registry<C>, ops: seq<Timed<C>>,
                                             op: Op<C>, now: int)
    ensures Files(Run(lower, reg, ops)) == PlainRun(lower, Files(reg), ops)
    ensures var files, k := PlainRun(lower, Files(reg), ops), Normalize(lower, op.domain);
      var reply := Apply(lower, Run(lower, reg, ops), op, now).1;
      match PlainRefusal(lower, files, op)
      case Some(e) => reply == Refused(e)
      case None =>
        && !reply.Refused?
        && (op.Resolve? ==> reply == Found(files[k]))
        && (op.ResolveMetadata? ==> reply.Metadata? && reply.entry.coreFile == files[k])
  {
    if ops != [] {
      var init, last := ops[..|ops| - 1], ops[|ops| - 1];
      RefinesPlainMap(lower, reg, init, op, now);
      PlainStep(lower, Run(lower, reg, init), last.op, last.now);
    }
    PlainReply(lower, Run(lower, reg, ops), op, now);
  }

  lemma PlainReply<C>(lower: Lowercase, reg: Registry<C>, op: Op<C>, now: int)
    ensures var files, k := Files(reg), Normalize(lower, op.domain);
      var reply := Apply(lower, reg, op, now).1;
      match PlainRefusal(lower, files, op)
      case Some(e) => reply == Refused(e)
      case None =>
        && !reply.Refused?
        && (op.Resolve? ==> reply == Found(files[k]))
        && (op.ResolveMetadata? ==> reply.Metadata? && reply.entry.coreFile == files[k])
  {
    hide EndsWith, Normalize;
  }

  lemma PlainStep<C>(lower: Lowercase, reg: Registry<C>, op: Op<C>, now: int)
    ensures Files(Apply(lower, reg, op, now).0) == Plain(lower, Files(reg), op)
  {
    hide EndsWith, Normalize;
  }

  // ---- the counters and dates of an entry come from the history ----

  predicate Touches<C>(lower: Lowercase, op: Op<C>, key: string) {
    (op.Resolve? || op.ResolveMetadata?) && Normalize(lower, op.domain) == key
  }

  predicate Enters<C>(lower: Lowercase, op: Op<C>, key: string) {
    (op.Register? || op.RegisterOrUpdate?) && Normalize(lower, op.domain) == key
  }

  /** How many operations of the history look key up. */
  function Lookups<C>(lower: Lowercase, ops: seq<Timed<C>>, key: string): nat {
    if ops == [] then 0
    else Lookups(lower, ops[..|ops| - 1], key) + if Touches(lower, ops[|ops| - 1].op, key) then 1 else 0
  }

  /** The operation sets the last date of the entry of key, if there is one. */
  predicate Renews<C>(lower: Lowercase, op: Op<C>, key: string) {
    Normalize(lower, op.domain) == key
    && (op.Resolve? || op.ResolveMetadata? || (op.RegisterOrUpdate? && EndsWith(key, ".opt")))
  }

  /** The time of the last operation that renews key, and start if there is none. */
  function LastRenewal<C>(lower: Lowercase, start: int, ops: seq<Timed<C>>, key: string): int {
    if ops == [] then start
    else if Renews(lower, ops[|ops| - 1].op, key) then ops[|ops| - 1].now
    else LastRenewal(lower, start, ops[..|ops| - 1], key)
  }

  /** Operation j entered key, which has been there ever since; -1 stands for a key that has been there
      from the start. */
  ghost predicate EnteredAt<C>(lower: Lowercase, reg: Registry<C>, ops: seq<Timed<C>>, key: string, j: int) {
    && -1 <= j < |ops|
    && (j >= 0 ==> Enters(lower, ops[j].op, key) && key !in Run(lower, reg, ops[..j]))
    && forall i :: j < i <= |ops| ==> key in Run(lower, reg, ops[..i])
  }

  /** The entry with which the stay of key in the registry began. */
  function FirstEntry<C>(reg: Registry<C>, ops: seq<Timed<C>>, key: string, j: int): ResolvedOpt<C>
    requires if j < 0 then key in reg else j < |ops| && (ops[j].op.Register? || ops[j].op.RegisterOrUpdate?)
  {
    if j < 0 then reg[key] else ResolvedOpt(key, ops[j].op.coreFile, ops[j].now, ops[j].now, 0)
  }

  lemma HasFirstEntry<C>(lower: Lowercase, reg: Registry<C>, ops: seq<Timed<C>>, key: string, j: int)
    requires EnteredAt(lower, reg, ops, key, j)
    ensures if j < 0 then key in reg else j < |ops| && (ops[j].op.Register? || ops[j].op.RegisterOrUpdate?)
  {
    if j < 0 { assert key in Run(lower, reg, ops[..0]); }
  }

  lemma StillEntered<C>(lower: Lowercase, reg: Registry<C>, ops: seq<Timed<C>>, key: string, j: int)
    requires ops != [] && EnteredAt(lower, reg, ops[..|ops| - 1], key, j) && key in Run(lower, reg, ops)
    ensures EnteredAt(lower, reg, ops, key, j)
  {
    hide Apply, Enters, Run;
    var init := ops[..|ops| - 1];
    assert ops[..|ops|] == ops && (j >= 0 ==> ops[..j] == init[..j]);
    forall i | j < i <= |ops| ensures key in Run(lower, reg, ops[..i]) {
      if i < |ops| { assert ops[..i] == init[..i]; }
    }
  }

  lemma HistorySnoc<C>(lower: Lowercase, ops: seq<Timed<C>>, key: string, j: nat, start: int)
    requires j < |ops|
    ensures Lookups(lower, ops[j..], key)
         == Lookups(lower, ops[j..|ops| - 1], key) + if Touches(lower, ops[|ops| - 1].op, key) then 1 else 0
    ensures LastRenewal(lower, start, ops[j..], key) ==
      if Renews(lower, ops[|ops| - 1].op, key) then ops[|ops| - 1].now
      else LastRenewal(lower, start, ops[j..|ops| - 1], key)
  {
    var since := ops[j..];
    assert since[..|since| - 1] == ops[j..|ops| - 1];
  }

  /** What an entry says of its history since operation j, or since the start. */
  ghost predicate TellsHistory<C>(lower: Lowercase, reg: Registry<C>, ops: seq<Timed<C>>, key: string, j: int)
    requires key in Run(lower, reg, ops) && EnteredAt(lower, reg, ops, key, j)
  {
    HasFirstEntry(lower, reg, ops, key, j);
    var e, first, since := Run(lower, reg, ops)[key], FirstEntry(reg, ops, key, j), ops[j + 1..];
    && e.resolveCount == first.resolveCount + Lookups(lower, since, key)
    && e.registeredAt == first.registeredAt
    && e.lastResolved == LastRenewal(lower, first.lastResolved, since, key)
  }

  /** From any registry on, an entry's count is its first count plus the number of lookups of its domain
      since it was entered, its registration date is the first one, and its last date that of the last
      lookup or update since. */
  lemma {:induction false} EntryTellsItsHistory<C>(lower: Lowercase, reg: Registry<C>, ops: seq<Timed<C>>, key: string)
    returns (j: int)
    requires key in Run(lower, reg, ops)
    ensures EnteredAt(lower, reg, ops, key, j) && TellsHistory(lower, reg, ops, key, j)
  {
    hide Apply, Touches, Renews, EnteredAt;
    if ops == [] {
      j := -1;
      ThereFromStart(lower, reg, key);
    } else {
      var n := |ops| - 1;
      var init, last := ops[..n], ops[n];
      EntryStep(lower, Run(lower, reg, init), last.op, last.now, key);
      if key in Run(lower, reg, init) {
        j := EntryTellsItsHistory(lower, reg, init, key);
        StillEntered(lower, reg, ops, key, j);
        HasFirstEntry(lower, reg, init, key, j);
        InRange(lower, reg, init, key, j);
        HistorySnoc(lower, ops, key, j + 1, FirstEntry(reg, init, key, j).lastResolved);
        assert ops[j + 1..n] == init[j + 1..];
      } else {
        j := n;
        JustEntered(lower, reg, ops, key);
        HasFirstEntry(lower, reg, ops, key, j);
        assert ops[n + 1..] == [];
      }
    }
  }

  lemma InRange<C>(lower: Lowercase, reg: Registry<C>, ops: seq<Timed<C>>, key: string, j: int)
    requires EnteredAt(lower, reg, ops, key, j)
    ensures -1 <= j < |ops|
  {}

  lemma ThereFromStart<C>(lower: Lowercase, reg: Registry<C>, key: string)
    requires key in reg
    ensures EnteredAt(lower, reg, [], key, -1) && TellsHistory(lower, reg, [], key, -1)
  {}

  lemma JustEntered<C>(lower: Lowercase, reg: Registry<C>, ops: seq<Timed<C>>, key: string)
    requires ops != [] && key in Run(lower, reg, ops) && key !in Run(lower, reg, ops[..|ops| - 1])
    requires Enters(lower, ops[|ops| - 1].op, key)
    ensures EnteredAt(lower, reg, ops, key, |ops| - 1)
  {}

  /** How one operation gets an entry to be there. */
  lemma EntryStep<C>(lower: Lowercase, reg: Registry<C>, op: Op<C>, now: int, key: string)
    requires key in Apply(lower, reg, op, now).0
    ensures var e := Apply(lower, reg, op, now).0[key];
      if key in reg then
        e.resolveCount == reg[key].resolveCount + (if Touches(lower, op, key) then 1 else 0)
        && e.registeredAt == reg[key].registeredAt
        && e.lastResolved == (if Renews(lower, op, key) then now else reg[key].lastResolved)
      else Enters(lower, op, key) && e.resolveCount == 0 && e.registeredAt == e.lastResolved == now
  {}

  // ---- snapshots ----

  datatype Snapshot<C> = Snapshot(entries: Registry<C>, createdAt: int)

  function Save<C>(reg: Registry<C>, toJson: Snapshot<C> -> string, now: int): string {
    toJson(Snapshot(reg, now))
  }

  function Load<C>(json: string, fromJson: string -> Option<Snapshot<C>>): Option<Registry<C>> {
    match fromJson(json)
    case None => None
    case Some(s) => Some(s.entries)
  }

  lemma {:induction false} RunAppend<C>(lower: Lowercase, reg: Registry<C>, a: seq<Timed<C>>, b: seq<Timed<C>>)
    ensures Run(lower, reg, a + b) == Run(lower, Run(lower, reg, a), b)
  {
    hide Apply;
    if b == [] {
      assert a + b == a;
    } else {
      assert (a + b)[..|a + b| - 1] == a + b[..|b| - 1];
      RunAppend(lower, reg, a, b[..|b| - 1]);
    }
  }

  /** With a JSON codec that inverts itself, saving and loading between two runs of operations goes
      unnoticed: the registry is that of one run, well kept, and its entries tell the whole history. */
  lemma LoadInvertsSave<C>(lower: Lowercase, reg: Registry<C>, before: seq<Timed<C>>, after: seq<Timed<C>>,
                           toJson: Snapshot<C> -> string, fromJson: string -> Option<Snapshot<C>>,
                           now: int, key: string) returns (j: int)
    requires forall s :: fromJson(toJson(s)) == Some(s)
    requires WellKept(reg)
    ensures var loaded := Load(Save(Run(lower, reg, before), toJson, now), fromJson);
      && loaded.Some?
      && Run(lower, loaded.value, after) == Run(lower, reg, before + after)
      && WellKept(Run(lower, loaded.value, after))
    ensures key in Run(lower, reg, before + after) ==>
      EnteredAt(lower, reg, before + after, key, j) && TellsHistory(lower, reg, before + after, key, j)
  {
    hide Run, WellKept;
    RunAppend(lower, reg, before, after);
    RunsStayWellKept(lower, reg, before + after);
    j := -1;
    if key in Run(lower, reg, before + after) {
      j := EntryTellsItsHistory(lower, reg, before + after, key);
    }
  }
}
