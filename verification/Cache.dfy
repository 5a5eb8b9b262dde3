/** The TTL cache: lazy removal, cleanup, and what threads that overlap see of them. */
module Cache {
  import opened Wrappers
  import opened Text

  const NANOS: int := 1_000_000_000

  datatype CacheEntry<+V> = CacheEntry(value: V, cachedAt: int)

  type Entries<V> = map<string, CacheEntry<V>>

  /** Whole seconds since the entry was cached, rounded towards zero. */
  function Age(now: int, cachedAt: int): int {
    if now >= cachedAt then (now - cachedAt) / NANOS else -((cachedAt - now) / NANOS)
  }

  predicate Fresh<V>(e: CacheEntry<V>, now: int, ttl: int) {
    Age(now, e.cachedAt) < ttl
  }

  /** An entry is fresh while less than the time to live has passed since it was cached. With no time to
      live, it is so only while its date lies far enough ahead of the clock. */
  lemma FreshUntil<V>(e: CacheEntry<V>, now: int, ttl: int)
    ensures ttl > 0 ==> (Fresh(e, now, ttl) <==> now - e.cachedAt < ttl * 1_000_000_000)
    ensures ttl <= 0 ==> (Fresh(e, now, ttl) <==> now - e.cachedAt <= (ttl - 1) * 1_000_000_000)
  {}

  function Lookup<V>(m: Entries<V>, key: string, now: int, ttl: int): Option<CacheEntry<V>> {
    if key in m && Fresh(m[key], now, ttl) then Some(m[key]) else None
  }

  function FreshOnly<V>(m: Entries<V>, now: int, ttl: int): Entries<V> {
    map k | k in m && Fresh(m[k], now, ttl) :: m[k]
  }

  // ---- the cache as the source has it ----

  class RfoCache<V> {
    var inner: Entries<V>
    const ttlSeconds: int

    constructor (ttlSeconds: int)
      ensures this.ttlSeconds == ttlSeconds && inner == map[]
    {
      this.ttlSeconds := ttlSeconds;
      inner := map[];
    }

    method Insert(key: string, entry: CacheEntry<V>)
      modifies this
      ensures inner == old(inner)[key := entry]
      ensures forall now :: inner == Next(State(old(inner), map[]), Step.Insert(key, entry, now), ttlSeconds).inner
    {
      inner := inner[key := entry];
    }

    /** Without another thread in between, an expired entry goes and a fresh one stays. */
    method Get(key: string, now: int) returns (r: Option<CacheEntry<V>>)
      modifies this
      ensures r == Lookup(old(inner), key, now, ttlSeconds)
      ensures inner == if r == None then old(inner) - {key} else old(inner)
      ensures ttlSeconds > 0 ==>
        (r.Some? <==> key in old(inner) && now - old(inner)[key].cachedAt < ttlSeconds * 1_000_000_000)
      ensures r.Some? ==> r.value == old(inner)[key]
      ensures var looked := Next(State(old(inner), map[]), Look(0, key, now), ttlSeconds);
        State(inner, map[]) == Next(looked, Drop(0, now), ttlSeconds)
    {
      if key !in inner {
        return None;
      }
      var entry := inner[key];
      if Age(now, entry.cachedAt) < ttlSeconds {
        r := Some(entry);
      } else {
        inner := inner - {key};
        r := None;
      }
    }

    /** Some fresh entry whose key contains the domain, in whatever order the map is visited. */
    method GetByDomain(domain: string, now: int) returns (r: Option<CacheEntry<V>>)
      ensures r.Some? ==> exists k ::
        k in inner && Occurs(domain, k) && inner[k] == r.value && Fresh(r.value, now, ttlSeconds)
      ensures r == None ==> forall k :: k in inner && Occurs(domain, k) ==> !Fresh(inner[k], now, ttlSeconds)
      ensures ttlSeconds > 0 ==> (r.Some? <==> exists k ::
        k in inner && Occurs(domain, k) && now - inner[k].cachedAt < ttlSeconds * 1_000_000_000)
      ensures ttlSeconds > 0 && r.Some? ==> now - r.value.cachedAt < ttlSeconds * 1_000_000_000
    {
      var left := inner.Keys;
      while left != {}
        invariant left <= inner.Keys
        invariant forall k :: k in inner.Keys - left && Occurs(domain, k) ==> !Fresh(inner[k], now, ttlSeconds)
        decreases left
      {
        var k :| k in left;
        left := left - {k};
        var found := Contains(k, domain);
        if found && Age(now, inner[k].cachedAt) < ttlSeconds {
          return Some(inner[k]);
        }
      }
      r := None;
    }

    method Remove(key: string) returns (r: Option<CacheEntry<V>>)
      modifies this
      ensures r == if key in old(inner) then Some(old(inner)[key]) else None
      ensures inner == old(inner) - {key}
      ensures forall now :: inner == Next(State(old(inner), map[]), Step.Remove(key, now), ttlSeconds).inner
    {
      r := if key in inner then Some(inner[key]) else None;
      inner := inner - {key};
    }

    method CleanupExpired(now: int)
      modifies this
      ensures inner == FreshOnly(old(inner), now, ttlSeconds)
      ensures ttlSeconds > 0 ==> forall k ::
        k in inner <==> k in old(inner) && now - old(inner)[k].cachedAt < ttlSeconds * 1_000_000_000
      ensures forall k :: k in inner ==> k in old(inner) && inner[k] == old(inner)[k]
      ensures inner == Next(State(old(inner), map[]), Cleanup(now), ttlSeconds).inner
    {
      inner := map k | k in inner && Age(now, inner[k].cachedAt) < ttlSeconds :: inner[k];
    }

    method Clear()
      modifies this
      ensures inner == map[]
      ensures forall now :: inner == Next(State(old(inner), map[]), Step.Clear(now), ttlSeconds).inner
    {
      inner := map[];
    }
  }

  // ---- threads that overlap ----

  /** The atomic steps: a get looks, and when it finds an expired entry removes the key in a second step. */
  datatype Step<V> =
    | Insert(key: string, entry: CacheEntry<V>, now: int)
    | Look(thread: nat, key: string, now: int)
    | Drop(thread: nat, now: int)
    | Remove(key: string, now: int)
    | Cleanup(now: int)
    | Clear(now: int)

  /** The cache, and the keys that threads are about to remove. */
  datatype State<V> = State(inner: Entries<V>, pending: map<nat, string>)

  function NoState<V>(): State<V> {
    State(map[], map[])
  }

  function Next<V>(s: State<V>, a: Step<V>, ttl: int): State<V> {
    match a
    case Insert(key, entry, _) => s.(inner := s.inner[key := entry])
    case Look(thread, key, now) =>
      if thread !in s.pending && key in s.inner && !Fresh(s.inner[key], now, ttl)
      then s.(pending := s.pending[thread := key]) else s
    case Drop(thread, _) =>
      if thread !in s.pending then s
      else State(s.inner - {s.pending[thread]}, s.pending - {thread})
    case Remove(key, _) => s.(inner := s.inner - {key})
    case Cleanup(now) => s.(inner := FreshOnly(s.inner, now, ttl))
    case Clear(_) => s.(inner := map[])
  }

  function Execute<V>(steps: seq<Step<V>>, ttl: int): State<V> {
    if steps == [] then NoState()
    else Next(Execute(steps[..|steps| - 1], ttl), steps[|steps| - 1], ttl)
  }

  /** The map after one more step, if nothing is ever evicted. */
  function KeptNext<V>(kept: Entries<V>, a: Step<V>): Entries<V> {
    match a
    case Insert(key, entry, _) => kept[key := entry]
    case Remove(key, _) => kept - {key}
    case Clear(_) => map[]
    case _ => kept
  }

  /** A map that only insert, remove and clear change. */
  function Kept<V>(steps: seq<Step<V>>): Entries<V> {
    if steps == [] then map[] else KeptNext(Kept(steps[..|steps| - 1]), steps[|steps| - 1])
  }

  predicate Chronological<V>(steps: seq<Step<V>>) {
    forall i, j :: 0 <= i < j < |steps| ==> steps[i].now <= steps[j].now
  }

  /** In every run whatever the cache has for a key is the latest insert for it that was not removed. */
  lemma {:induction false} PresentIsLatest<V>(steps: seq<Step<V>>, ttl: int)
    ensures forall k :: k in Execute(steps, ttl).inner ==>
      k in Kept(steps) && Execute(steps, ttl).inner[k] == Kept(steps)[k]
  {
    hide Fresh;
    if steps != [] { PresentIsLatest(steps[..|steps| - 1], ttl); }
  }

  // ---- when eviction can be noticed ----

  /** The removal that a thread is about to make would take away an entry that is fresh. */
  predicate TakesFresh<V>(s: State<V>, a: Step<V>, ttl: int) {
    a.Drop? && a.thread in s.pending && s.pending[a.thread] in s.inner
    && Fresh(s.inner[s.pending[a.thread]], a.now, ttl)
  }

  ghost predicate NoneTakesFresh<V>(steps: seq<Step<V>>, ttl: int) {
    forall i :: 0 <= i < |steps| ==> !TakesFresh(Execute(steps[..i], ttl), steps[i], ttl)
  }

  /** Every key looks the same in both maps, seen through the age limit. */
  ghost predicate SameLookups<V>(m: Entries<V>, n: Entries<V>, now: int, ttl: int) {
    forall key :: Lookup(m, key, now, ttl) == Lookup(n, key, now, ttl)
  }

  /** After each step the cache looks like the map that never evicts. */
  ghost predicate EvictionUnnoticed<V>(steps: seq<Step<V>>, ttl: int) {
    forall i :: 0 < i <= |steps| ==>
      SameLookups(Execute(steps[..i], ttl).inner, Kept(steps[..i]), steps[i - 1].now, ttl)
  }

  /** The cache lacks only entries that have expired. */
  ghost predicate LacksOnlyExpired<V>(m: Entries<V>, kept: Entries<V>, now: int, ttl: int) {
    && (forall k :: k in m ==> k in kept && m[k] == kept[k])
    && (forall k :: k in kept && k !in m ==> !Fresh(kept[k], now, ttl))
  }

  lemma StillExpired<V>(m: Entries<V>, kept: Entries<V>, now: int, later: int, ttl: int)
    requires LacksOnlyExpired(m, kept, now, ttl) && now <= later
    ensures LacksOnlyExpired(m, kept, later, ttl)
  {}

  /** One step keeps the cache right, unless it takes a fresh entry away, which shows at once. */
  lemma StepLacksOnlyExpired<V>(s: State<V>, kept: Entries<V>, a: Step<V>, ttl: int)
    requires LacksOnlyExpired(s.inner, kept, a.now, ttl)
    ensures if TakesFresh(s, a, ttl) then !SameLookups(Next(s, a, ttl).inner, KeptNext(kept, a), a.now, ttl)
            else LacksOnlyExpired(Next(s, a, ttl).inner, KeptNext(kept, a), a.now, ttl)
  {
    if TakesFresh(s, a, ttl) {
      var key := s.pending[a.thread];
      assert Lookup(Next(s, a, ttl).inner, key, a.now, ttl) == None;
    }
  }

  lemma Start<V>(ttl: int)
    ensures Execute<V>([], ttl) == NoState() && Kept<V>([]) == map[]
  {}

  lemma Snoc<V>(steps: seq<Step<V>>, a: Step<V>, ttl: int)
    ensures Execute(steps + [a], ttl) == Next(Execute(steps, ttl), a, ttl)
    ensures Kept(steps + [a]) == KeptNext(Kept(steps), a)
  {}

  lemma PrefixIsFine<V>(steps: seq<Step<V>>, i: nat, ttl: int)
    requires i <= |steps| && Chronological(steps)
    requires forall k :: 0 <= k < i ==> !TakesFresh(Execute(steps[..k], ttl), steps[k], ttl)
    ensures Chronological(steps[..i]) && NoneTakesFresh(steps[..i], ttl)
  {
    hide Execute, TakesFresh;
    assert forall k :: 0 <= k < i ==> steps[..i][..k] == steps[..k];
  }

  lemma {:induction false} RunLacksOnlyExpired<V>(steps: seq<Step<V>>, ttl: int, now: int)
    requires Chronological(steps) && NoneTakesFresh(steps, ttl)
    requires forall a :: a in steps ==> a.now <= now
    ensures LacksOnlyExpired(Execute(steps, ttl).inner, Kept(steps), now, ttl)
  {
    hide LacksOnlyExpired, Next, KeptNext, TakesFresh, Execute, Kept;
    if steps == [] {
      Start<V>(ttl);
      NothingLacks<V>(now, ttl);
    } else {
      var n := |steps| - 1;
      var init, last := steps[..n], steps[n];
      PrefixIsFine(steps, n, ttl);
      RunLacksOnlyExpired(init, ttl, last.now);
      assert steps == init + [last];
      Snoc(init, last, ttl);
      StepLacksOnlyExpired(Execute(init, ttl), Kept(init), last, ttl);
      StillExpired(Execute(steps, ttl).inner, Kept(steps), last.now, now, ttl);
    }
  }

  lemma NothingLacks<V>(now: int, ttl: int)
    ensures LacksOnlyExpired<V>(map[], map[], now, ttl)
  {}

  lemma LackingLooksTheSame<V>(m: Entries<V>, kept: Entries<V>, now: int, ttl: int)
    requires LacksOnlyExpired(m, kept, now, ttl)
    ensures SameLookups(m, kept, now, ttl)
  {}

  /** As long as no removal takes a fresh entry, every look at any later moment answers as the map does
      that never evicts. */
  lemma LooksAgree<V>(steps: seq<Step<V>>, now: int, ttl: int)
    requires Chronological(steps) && NoneTakesFresh(steps, ttl)
    requires forall a :: a in steps ==> a.now <= now
    ensures SameLookups(Execute(steps, ttl).inner, Kept(steps), now, ttl)
  {
    hide LacksOnlyExpired, SameLookups, Execute, Kept;
    RunLacksOnlyExpired(steps, ttl, now);
    LackingLooksTheSame(Execute(steps, ttl).inner, Kept(steps), now, ttl);
  }

  /** Removing expired entries, lazily or by cleanup, goes unnoticed in a run exactly as long as no
      removal takes a fresh entry away. */
  lemma EvictionIsInvisible<V>(steps: seq<Step<V>>, ttl: int)
    requires Chronological(steps)
    ensures EvictionUnnoticed(steps, ttl) <==> NoneTakesFresh(steps, ttl)
  {
    hide Execute, Kept, SameLookups, LacksOnlyExpired, TakesFresh;
    if NoneTakesFresh(steps, ttl) {
      forall i | 0 < i <= |steps|
        ensures SameLookups(Execute(steps[..i], ttl).inner, Kept(steps[..i]), steps[i - 1].now, ttl)
      {
        PrefixIsFine(steps, i, ttl);
        LooksAgree(steps[..i], steps[i - 1].now, ttl);
      }
    } else {
      var i := FirstTaken(steps, ttl);
      PrefixIsFine(steps, i, ttl);
      RunLacksOnlyExpired(steps[..i], ttl, steps[i].now);
      StepLacksOnlyExpired(Execute(steps[..i], ttl), Kept(steps[..i]), steps[i], ttl);
      assert steps[..i + 1] == steps[..i] + [steps[i]];
      Snoc(steps[..i], steps[i], ttl);
      assert !SameLookups(Execute(steps[..i + 1], ttl).inner, Kept(steps[..i + 1]), steps[i + 1 - 1].now, ttl);
    }
  }

  /** The first removal that takes a fresh entry. */
  lemma {:induction false} FirstTaken<V>(steps: seq<Step<V>>, ttl: int) returns (i: nat)
    requires !NoneTakesFresh(steps, ttl)
    ensures i < |steps| && TakesFresh(Execute(steps[..i], ttl), steps[i], ttl)
    ensures forall k :: 0 <= k < i ==> !TakesFresh(Execute(steps[..k], ttl), steps[k], ttl)
  {
    hide Execute, TakesFresh;
    i := 0;
    while !TakesFresh(Execute(steps[..i], ttl), steps[i], ttl)
      invariant i < |steps|
      invariant forall k :: 0 <= k < i ==> !TakesFresh(Execute(steps[..k], ttl), steps[k], ttl)
      decreases |steps| - i
    {
      i := i + 1;
    }
  }

  // ---- what must have happened when a removal takes a fresh entry ----

  /** The look finds an expired entry, which the thread is then about to remove. */
  predicate FindsExpired<V>(s: State<V>, a: Step<V>, ttl: int) {
    a.Look? && a.thread !in s.pending && a.key in s.inner && !Fresh(s.inner[a.key], a.now, ttl)
  }

  /** Look j is the one of the thread's that removal i belongs to. */
  ghost predicate LookOf<V>(steps: seq<Step<V>>, ttl: int, j: int, i: int, thread: nat) {
    && 0 <= j < i <= |steps| && FindsExpired(Execute(steps[..j], ttl), steps[j], ttl) && steps[j].thread == thread
    && forall m :: j < m < i ==> !(steps[m].Drop? && steps[m].thread == thread)
  }

  /** Nothing but an eviction has touched the key since step k inserted it. */
  ghost predicate InsertOf<V>(steps: seq<Step<V>>, k: int, i: int, key: string) {
    && 0 <= k < i <= |steps| && steps[k].Insert? && steps[k].key == key
    && forall m :: k < m < i ==> !Touches(steps[m], key)
  }

  predicate Touches<V>(a: Step<V>, key: string) {
    ((a.Insert? || a.Remove?) && a.key == key) || a.Clear?
  }

  lemma {:induction false} PendingHasLook<V>(steps: seq<Step<V>>, ttl: int, i: nat, thread: nat) returns (j: int)
    requires i <= |steps| && thread in Execute(steps[..i], ttl).pending
    ensures LookOf(steps, ttl, j, i, thread) && steps[j].key == Execute(steps[..i], ttl).pending[thread]
  {
    hide Execute, Fresh;
    if i == 0 {
      assert steps[..0] == [];
      Start<V>(ttl);
      assert false;
    }
    assert steps[..i] == steps[..i - 1] + [steps[i - 1]];
    Snoc(steps[..i - 1], steps[i - 1], ttl);
    if thread in Execute(steps[..i - 1], ttl).pending {
      j := PendingHasLook(steps, ttl, i - 1, thread);
    } else {
      j := i - 1;
    }
  }

  lemma {:induction false} LookMakesPending<V>(steps: seq<Step<V>>, ttl: int, j: int, i: nat, thread: nat)
    requires LookOf(steps, ttl, j, i, thread)
    ensures var s := Execute(steps[..i], ttl); thread in s.pending && s.pending[thread] == steps[j].key
    decreases i
  {
    hide Execute, Fresh;
    assert steps[..i] == steps[..i - 1] + [steps[i - 1]];
    Snoc(steps[..i - 1], steps[i - 1], ttl);
    if j < i - 1 { LookMakesPending(steps, ttl, j, i - 1, thread); }
  }

  lemma {:induction false} KeptHasInsert<V>(steps: seq<Step<V>>, i: nat, key: string) returns (k: int)
    requires i <= |steps| && key in Kept(steps[..i])
    ensures InsertOf(steps, k, i, key) && steps[k].entry == Kept(steps[..i])[key]
  {
    assert i > 0 ==> steps[..i][..i - 1] == steps[..i - 1];
    if steps[i - 1].Insert? && steps[i - 1].key == key {
      k := i - 1;
    } else {
      k := KeptHasInsert(steps, i - 1, key);
    }
  }

  lemma {:induction false} InsertIsKept<V>(steps: seq<Step<V>>, k: int, i: nat, key: string)
    requires InsertOf(steps, k, i, key)
    ensures key in Kept(steps[..i]) && Kept(steps[..i])[key] == steps[k].entry
    decreases i
  {
    assert steps[..i][..i - 1] == steps[..i - 1];
    if k < i - 1 { InsertIsKept(steps, k, i - 1, key); }
  }

  /** Removal i belongs to look j and meets the fresh entry that insert k has put in between. */
  ghost predicate MeetsInsert<V>(steps: seq<Step<V>>, ttl: int, j: int, k: int, i: int) {
    && 0 <= j < k < i < |steps| && steps[i].Drop? && LookOf(steps, ttl, j, i, steps[i].thread)
    && InsertOf(steps, k, i, steps[j].key) && Fresh(steps[k].entry, steps[i].now, ttl)
  }

  lemma FreshBefore<V>(e: CacheEntry<V>, now: int, later: int, ttl: int)
    requires now <= later && Fresh(e, later, ttl)
    ensures Fresh(e, now, ttl)
  {}

  lemma TakenWasInserted<V>(steps: seq<Step<V>>, ttl: int, i: nat) returns (j: int, k: int)
    requires Chronological(steps) && i < |steps| && TakesFresh(Execute(steps[..i], ttl), steps[i], ttl)
    ensures MeetsInsert(steps, ttl, j, k, i)
  {
    hide Execute, Kept, Fresh;
    var s := Execute(steps[..i], ttl);
    PresentIsLatest(steps[..i], ttl);
    j := PendingHasLook(steps, ttl, i, steps[i].thread);
    var key := steps[j].key;
    k := KeptHasInsert(steps, i, key);
    if k < j {
      assert InsertOf(steps, k, j, key);
      InsertIsKept(steps, k, j, key);
      PresentIsLatest(steps[..j], ttl);
      FreshBefore(steps[k].entry, steps[j].now, steps[i].now, ttl);
      assert false;
    }
  }

  lemma MetInsertIsTaken<V>(steps: seq<Step<V>>, ttl: int, j: int, k: int, i: int)
    requires Chronological(steps) && MeetsInsert(steps, ttl, j, k, i) && NoneTakesFresh(steps[..i], ttl)
    ensures TakesFresh(Execute(steps[..i], ttl), steps[i], ttl)
  {
    hide Execute, Kept, Fresh, NoneTakesFresh;
    LooksAgree(steps[..i], steps[i].now, ttl);
    LookMakesPending(steps, ttl, j, i, steps[i].thread);
    InsertIsKept(steps, k, i, steps[j].key);
    assert Lookup(Kept(steps[..i]), steps[j].key, steps[i].now, ttl).Some?;
  }

  lemma InRun<V>(steps: seq<Step<V>>, ttl: int, j: int, k: int, i: int)
    requires MeetsInsert(steps, ttl, j, k, i)
    ensures 0 <= i < |steps|
  {}

  /** A run has a removal that takes a fresh entry if and only if it has one for the key of which there
      was an insert after the thread's look, which is still the latest and fresh. */
  lemma UncontestedRemovalsAreHarmless<V>(steps: seq<Step<V>>, ttl: int)
    requires Chronological(steps)
    ensures NoneTakesFresh(steps, ttl) <==> !(exists j, k, i :: MeetsInsert(steps, ttl, j, k, i))
  {
    hide Execute, TakesFresh, MeetsInsert;
    if !NoneTakesFresh(steps, ttl) {
      var i := FirstTaken(steps, ttl);
      var j, k := TakenWasInserted(steps, ttl, i);
    }
    if j, k, i :| MeetsInsert(steps, ttl, j, k, i) {
      InRun(steps, ttl, j, k, i);
      if NoneTakesFresh(steps[..i], ttl) {
        MetInsertIsTaken(steps, ttl, j, k, i);
      } else {
        var m := FirstTaken(steps[..i], ttl);
        assert steps[..i][..m] == steps[..m];
      }
    }
  }

  /** With an insert in between, a get of an expired entry removes the new one. */
  lemma FreshInsertCanBeLost<V>(before: V, after: V) returns (steps: seq<Step<V>>, now: int)
    ensures Chronological(steps) && forall a :: a in steps ==> a.now <= now
    ensures Lookup(Kept(steps), "u", now, 300).Some? && Lookup(Execute(steps, 300).inner, "u", now, 300) == None
  {
    hide Execute, Kept;
    now := 301 * NANOS;
    var s0: seq<Step<V>> := [];
    var s1 := s0 + [Insert("u", CacheEntry(before, 0), 0)];
    var s2 := s1 + [Look(1, "u", now)];
    var s3 := s2 + [Insert("u", CacheEntry(after, now), now)];
    steps := s3 + [Drop(1, now)];
    Start<V>(300);
    Snoc(s0, Insert("u", CacheEntry(before, 0), 0), 300);
    Snoc(s1, Look(1, "u", now), 300);
    Snoc(s2, Insert("u", CacheEntry(after, now), now), 300);
    Snoc(s3, Drop(1, now), 300);
  }
}
