/** database/src/lib.rs: the state of a `Database` and what its basic operations do to it.

    Keys are paired with their database index.  Of the values only lists are opened up; of the
    others only the estimated size and whether they count as empty matter here.  The clock is
    read through a parameter. */
module Keyspace {
  import opened Machine
  import opened ByteStrings
  import opened Text

  datatype Slot = Slot(db: nat, key: Bytes)

  datatype Value = Nil | List(items: seq<Bytes>) | Other(footprint: nat, empty: bool)

  predicate IsEmpty(v: Value) {
    match v
    case Nil => true
    case List(items) => items == []
    case Other(_, empty) => empty
  }

  function ItemsSize(items: seq<Bytes>): nat {
    if items == [] then 0 else |items[0]| + 32 + ItemsSize(items[1..])
  }

  function EstimateValueSize(v: Value, keySize: nat): nat {
    keySize + 24 +
    match v
    case Nil => 0
    case List(items) => ItemsSize(items)
    case Other(footprint, _) => footprint
  }

  datatype Config = Config(maxmemory: Option<nat>, maxmemoryPolicy: string, maxmemorySamples: nat)

  datatype Keyspace = Keyspace(
    data: map<Slot, Value>,
    expirations: map<Slot, int>,
    lru: map<Slot, int>,
    watched: map<Slot, set<nat>>,
    usedMemory: nat,
    usedMemoryPeak: nat,
    evictedKeys: nat,
    loading: bool
  )

  predicate IsExpired(st: Keyspace, slot: Slot, now: int) {
    !st.loading && slot in st.expirations && st.expirations[slot] <= now
  }

  /** `get`. */
  function Get(st: Keyspace, slot: Slot, now: int): Option<Value> {
    if IsExpired(st, slot, now) || slot !in st.data then None else Some(st.data[slot])
  }

  /** `remove`: an expired key goes without giving its memory back. */
  function Remove(st: Keyspace, slot: Slot, now: int): Keyspace {
    var size := if slot in st.data then EstimateValueSize(st.data[slot], |slot.key|) else 0;
    var counted := slot in st.data && !IsExpired(st, slot, now);
    st.(data := st.data - {slot}, expirations := st.expirations - {slot}, lru := st.lru - {slot},
        usedMemory := if counted && st.usedMemory >= size then st.usedMemory - size else st.usedMemory)
  }

  /** `key_watch`. */
  function KeyWatch(st: Keyspace, slot: Slot, client: nat): Keyspace {
    st.(watched := st.watched[slot := (if slot in st.watched then st.watched[slot] else {}) + {client}])
  }

  predicate KeyWatchVerify(st: Keyspace, slot: Slot, client: nat) {
    slot in st.watched && client in st.watched[slot]
  }

  /** `key_updated`: drops an emptied value, and every watch on the key. */
  function KeyUpdated(st: Keyspace, slot: Slot, now: int): Keyspace {
    var drop := slot in st.data && IsEmpty(st.data[slot]);
    var removed := Remove(st, slot, now);
    st.(data := if drop then removed.data else st.data,
        expirations := if drop then removed.expirations else st.expirations,
        lru := if drop then removed.lru else st.lru,
        usedMemory := if drop then removed.usedMemory else st.usedMemory,
        watched := st.watched - {slot})
  }

  /** The watched keys of a database that hold a value. */
  function WatchedPresent(st: Keyspace, db: nat): set<Slot> {
    set slot | slot in st.watched && slot.db == db && slot in st.data
  }

  /** `clear`: the present watched keys are updated, and the database is emptied. */
  function Clear(st: Keyspace, db: nat): Keyspace {
    st.(data := map slot | slot in st.data && slot.db != db :: st.data[slot],
        expirations := map slot | slot in st.expirations && slot.db != db :: st.expirations[slot],
        watched := st.watched - WatchedPresent(st, db))
  }

  /** `update_lru`. */
  function UpdateLru(st: Keyspace, config: Config, slot: Slot, now: int): Keyspace {
    st.(lru := if Contains(config.maxmemoryPolicy, "lru") then st.lru[slot := now] else st.lru)
  }

  // ----- What these do to single keys ----------------------------------------------

  /** A key shows a value until its deadline, and past it while a dump is loaded. */
  lemma Shows(st: Keyspace, slot: Slot, now: int)
    ensures Get(st, slot, now).Some?
      <==> slot in st.data && (st.loading || slot !in st.expirations || now < st.expirations[slot])
    ensures Get(st, slot, now).Some? ==> Get(st, slot, now).value == st.data[slot]
  {
  }

  /** The two keyspaces agree on everything they hold under a key. */
  ghost predicate SameAt(a: Keyspace, b: Keyspace, slot: Slot) {
    && (slot in a.data <==> slot in b.data) && (slot in a.data ==> a.data[slot] == b.data[slot])
    && (slot in a.expirations <==> slot in b.expirations)
    && (slot in a.expirations ==> a.expirations[slot] == b.expirations[slot])
    && (slot in a.lru <==> slot in b.lru) && (slot in a.lru ==> a.lru[slot] == b.lru[slot])
  }

  /** A key takes its own bytes and 24 more, each element of a list its bytes and 32 more. */
  lemma SizeMeaning(items: seq<Bytes>, x: Bytes, keySize: nat, footprint: nat, empty: bool)
    ensures EstimateValueSize(Nil, keySize) == EstimateValueSize(List([]), keySize) == keySize + 24
    ensures EstimateValueSize(List([x] + items), keySize) == EstimateValueSize(List(items), keySize) + |x| + 32
    ensures EstimateValueSize(Other(footprint, empty), keySize) == keySize + 24 + footprint
    ensures IsEmpty(Nil) && IsEmpty(List([])) && !IsEmpty(List([x] + items))
    ensures IsEmpty(Other(footprint, empty)) <==> empty
  {
    assert ([x] + items)[1..] == items;
  }

  /** Removal forgets the key and nothing else; the memory of a value that still shows is given back. */
  lemma RemoveMeaning(st: Keyspace, slot: Slot, now: int)
    ensures var after := Remove(st, slot, now);
      && slot !in after.data && slot !in after.expirations && slot !in after.lru
      && (forall other | other != slot :: SameAt(after, st, other))
      && after.watched == st.watched && after.loading == st.loading && after.evictedKeys == st.evictedKeys
      && after.usedMemoryPeak == st.usedMemoryPeak
      && (Get(st, slot, now) == None ==> after.usedMemory == st.usedMemory)
      && (Get(st, slot, now).Some? ==>
            var size := EstimateValueSize(st.data[slot], |slot.key|);
            after.usedMemory == if size <= st.usedMemory then st.usedMemory - size else st.usedMemory)
  {
  }

  /** The watch table is a relation between keys and clients, to which `key_watch` adds one pair. */
  lemma KeyWatchMeaning(st: Keyspace, slot: Slot, client: nat, other: Slot, id: nat)
    ensures KeyWatchVerify(st, other, id) <==> other in st.watched && id in st.watched[other]
    ensures var after := KeyWatch(st, slot, client);
      after == st.(watched := after.watched)
      && (KeyWatchVerify(after, other, id) <==> KeyWatchVerify(st, other, id) || (other == slot && id == client))
  {
  }

  /** `key_updated` ends every watch on the key and no other, and removes the key if it is empty. */
  lemma KeyUpdatedMeaning(st: Keyspace, slot: Slot, now: int)
    ensures var after := KeyUpdated(st, slot, now);
      && (forall other, id: nat ::
            KeyWatchVerify(after, other, id) <==> other != slot && KeyWatchVerify(st, other, id))
      && (if slot in st.data && IsEmpty(st.data[slot]) then
            after == Remove(st, slot, now).(watched := after.watched)
          else after == st.(watched := after.watched))
  {
  }

  /** `clear` takes exactly the keys of the named database, with their deadlines, and ends exactly the
      watches on those of them that were present. */
  lemma ClearMeaning(st: Keyspace, db: nat, slot: Slot, id: nat)
    ensures var after := Clear(st, db);
      && (slot.db == db ==> slot !in after.data && slot !in after.expirations)
      && (slot.db != db ==> SameAt(after, st, slot))
      && after == st.(data := after.data, expirations := after.expirations, watched := after.watched)
      && (KeyWatchVerify(after, slot, id)
          <==> KeyWatchVerify(st, slot, id) && !(slot.db == db && slot in st.data))
  {
  }

  // ----- Eviction ------------------------------------------------------------------

  predicate Contains(s: string, part: string) {
    |part| <= |s| && (s[..|part|] == part || (s != "" && Contains(s[1..], part)))
  }

  ghost predicate OccursAt(s: string, part: string, i: nat) {
    i + |part| <= |s| && s[i..i + |part|] == part
  }

  lemma {:induction false} ContainsMeaning(s: string, part: string)
    ensures Contains(s, part) <==> exists i :: OccursAt(s, part, i)
  {
    if |part| <= |s| {
      assert s[0..|part|] == s[..|part|];
      assert Contains(s, part) && s[..|part|] == part ==> OccursAt(s, part, 0);
      if s != "" {
        ContainsMeaning(s[1..], part);
        forall i: nat
          ensures OccursAt(s[1..], part, i) <==> OccursAt(s, part, i + 1)
        {
          assert i + 1 + |part| <= |s| ==> s[1..][i..i + |part|] == s[i + 1..i + 1 + |part|];
        }
        forall i: nat | i > 0 && OccursAt(s, part, i)
          ensures OccursAt(s[1..], part, i - 1)
        {
          assert s[1..][i - 1..i - 1 + |part|] == s[i..i + |part|];
        }
      }
    }
  }

  datatype Policy = VolatileLru | VolatileRandom | VolatileTtl | AllkeysLru | AllkeysRandom | NoEviction

  function PolicyOf(config: Config): Policy {
    var name := ToAsciiLowercase(config.maxmemoryPolicy);
    if name == "volatile-lru" then VolatileLru
    else if name == "volatile-random" then VolatileRandom
    else if name == "volatile-ttl" then VolatileTtl
    else if name == "allkeys-lru" then AllkeysLru
    else if name == "allkeys-random" then AllkeysRandom
    else NoEviction
  }

  predicate IsRandom(policy: Policy) {
    policy.VolatileRandom? || policy.AllkeysRandom?
  }

  predicate Fits(st: Keyspace, config: Config, needed: nat) {
    config.maxmemory.Some? ==> st.usedMemory + needed <= config.maxmemory.value
  }

  /** The policy allows the key to be evicted. */
  predicate Eligible(st: Keyspace, policy: Policy, db: nat, slot: Slot) {
    slot in st.data && slot.db == db &&
    match policy
    case VolatileLru => slot in st.expirations
    case VolatileRandom => slot in st.expirations
    case VolatileTtl => slot in st.expirations
    case AllkeysLru => true
    case AllkeysRandom => true
    case NoEviction => false
  }

  /** The lower the score, the sooner a key goes. */
  function EvictionScore(st: Keyspace, policy: Policy, slot: Slot): int {
    match policy
    case VolatileLru => if slot in st.lru then st.lru[slot] else 0
    case AllkeysLru => if slot in st.lru then st.lru[slot] else 0
    case VolatileTtl => if slot in st.expirations then st.expirations[slot] else I64_MAX
    case _ => 0
  }

  ghost predicate SomeEligible(st: Keyspace, policy: Policy, db: nat) {
    exists slot :: Eligible(st, policy, db, slot)
  }

  /** One eviction and the time at which it happened. */
  datatype Eviction = Eviction(slot: Slot, now: int)

  function Evict(st: Keyspace, e: Eviction): Keyspace {
    var counted := e.slot in st.data && !IsExpired(st, e.slot, e.now);
    Remove(st, e.slot, e.now).(evictedKeys := st.evictedKeys + if counted then 1 else 0)
  }

  /** An eviction is a removal, counted if the key still showed a value. */
  lemma EvictMeaning(st: Keyspace, e: Eviction)
    ensures var after := Evict(st, e);
      && after.evictedKeys == st.evictedKeys + (if Get(st, e.slot, e.now).Some? then 1 else 0)
      && after == Remove(st, e.slot, e.now).(evictedKeys := after.evictedKeys)
  {
  }

  function EvictAll(st: Keyspace, trace: seq<Eviction>): Keyspace {
    if trace == [] then st else Evict(EvictAll(st, trace[..|trace| - 1]), trace[|trace| - 1])
  }

  /** The eviction was needed and takes an eligible key of least score. */
  ghost predicate Justified(st: Keyspace, config: Config, db: nat, needed: nat, e: Eviction) {
    var policy := PolicyOf(config);
    !Fits(st, config, needed) && Eligible(st, policy, db, e.slot) &&
    forall other :: Eligible(st, policy, db, other) ==>
      EvictionScore(st, policy, e.slot) <= EvictionScore(st, policy, other)
  }

  ghost predicate AllJustified(st: Keyspace, config: Config, db: nat, needed: nat, trace: seq<Eviction>) {
    forall i :: 0 <= i < |trace| ==> Justified(EvictAll(st, trace[..i]), config, db, needed, trace[i])
  }

  ghost predicate Evicted(trace: seq<Eviction>, slot: Slot) {
    exists i :: 0 <= i < |trace| && trace[i].slot == slot
  }

  /** Keys that are not evicted keep their value, deadline and access time; evicted keys lose
      all three.  Nothing else but the counters changes. */
  lemma {:induction false} EvictAllKeeps(st: Keyspace, trace: seq<Eviction>, slot: Slot)
    ensures var after := EvictAll(st, trace);
      && after.watched == st.watched && after.loading == st.loading && after.usedMemory <= st.usedMemory
      && (slot in after.data <==> slot in st.data && !Evicted(trace, slot))
      && (slot in after.data ==> after.data[slot] == st.data[slot])
      && (!Evicted(trace, slot) ==>
            (slot in after.expirations <==> slot in st.expirations) && (slot in after.lru <==> slot in st.lru)
            && (slot in st.expirations ==> after.expirations[slot] == st.expirations[slot])
            && (slot in st.lru ==> after.lru[slot] == st.lru[slot]))
      && (Evicted(trace, slot) ==> slot !in after.expirations && slot !in after.lru)
  {
    if trace != [] {
      var n := |trace| - 1;
      EvictAllKeeps(st, trace[..n], slot);
      assert trace == trace[..n] + [trace[n]];
      assert Evicted(trace, slot) <==> Evicted(trace[..n], slot) || trace[n].slot == slot by {
        assert forall i :: 0 <= i < n ==> trace[..n][i] == trace[i];
      }
    }
  }

  /** Evictions leave the others as eligible, and as well placed, as they were. */
  lemma EvictAllEligible(st: Keyspace, trace: seq<Eviction>, policy: Policy, db: nat, slot: Slot)
    ensures var after := EvictAll(st, trace);
      && (Eligible(after, policy, db, slot) <==> Eligible(st, policy, db, slot) && !Evicted(trace, slot))
      && (!Evicted(trace, slot) ==> EvictionScore(after, policy, slot) == EvictionScore(st, policy, slot))
  {
    EvictAllKeeps(st, trace, slot);
  }

  /** Keys that the policy does not offer always survive. */
  lemma IneligibleSurvive(st: Keyspace, config: Config, db: nat, needed: nat, trace: seq<Eviction>, slot: Slot)
    requires AllJustified(st, config, db, needed, trace)
    requires !Eligible(st, PolicyOf(config), db, slot)
    ensures !Evicted(trace, slot)
  {
    forall i | 0 <= i < |trace|
      ensures trace[i].slot != slot
    {
      assert Justified(EvictAll(st, trace[..i]), config, db, needed, trace[i]);
      EvictAllEligible(st, trace[..i], PolicyOf(config), db, trace[i].slot);
    }
  }

  lemma EvictedOnce(st: Keyspace, config: Config, db: nat, needed: nat, trace: seq<Eviction>, i: nat)
    requires AllJustified(st, config, db, needed, trace) && i < |trace|
    ensures Eligible(st, PolicyOf(config), db, trace[i].slot) && !Evicted(trace[..i], trace[i].slot)
  {
    assert Justified(EvictAll(st, trace[..i]), config, db, needed, trace[i]);
    EvictAllEligible(st, trace[..i], PolicyOf(config), db, trace[i].slot);
  }

  /** Under LRU and TTL no surviving eligible key has a lower score than an evicted one. */
  lemma EvictedFirst(st: Keyspace, config: Config, db: nat, needed: nat, trace: seq<Eviction>, i: nat, kept: Slot)
    requires AllJustified(st, config, db, needed, trace)
    requires i < |trace| && !Evicted(trace, kept) && Eligible(st, PolicyOf(config), db, kept)
    ensures EvictionScore(st, PolicyOf(config), trace[i].slot) <= EvictionScore(st, PolicyOf(config), kept)
  {
    var policy, before := PolicyOf(config), EvictAll(st, trace[..i]);
    assert Justified(before, config, db, needed, trace[i]);
    assert !Evicted(trace[..i], kept) by {
      assert forall j :: 0 <= j < i ==> trace[..i][j] == trace[j];
    }
    EvictedOnce(st, config, db, needed, trace, i);
    EvictAllEligible(st, trace[..i], policy, db, trace[i].slot);
    EvictAllEligible(st, trace[..i], policy, db, kept);
  }

  /** The names of the policies, in any case; every other name stands for no eviction. */
  lemma PolicyNames(config: Config)
    ensures var name := ToAsciiLowercase(config.maxmemoryPolicy);
      && (PolicyOf(config) == VolatileLru <==> name == "volatile-lru")
      && (PolicyOf(config) == VolatileRandom <==> name == "volatile-random")
      && (PolicyOf(config) == VolatileTtl <==> name == "volatile-ttl")
      && (PolicyOf(config) == AllkeysLru <==> name == "allkeys-lru")
      && (PolicyOf(config) == AllkeysRandom <==> name == "allkeys-random")
      && (IsRandom(PolicyOf(config)) <==> name == "volatile-random" || name == "allkeys-random")
  {
    assert |"volatile-lru"| == |"volatile-ttl"| == 12 && |"volatile-random"| == 15;
    assert |"allkeys-lru"| == 11 && |"allkeys-random"| == 14;
    assert "volatile-lru"[9] == 'l' && "volatile-ttl"[9] == 't';
  }

  /** The allkeys policies offer every key of the database, the volatile ones those with a deadline. */
  lemma OfferedByName(st: Keyspace, config: Config, db: nat, slot: Slot)
    ensures var name := ToAsciiLowercase(config.maxmemoryPolicy);
      Eligible(st, PolicyOf(config), db, slot)
      <==> slot in st.data && slot.db == db
           && (|| name == "allkeys-lru" || name == "allkeys-random"
               || (slot in st.expirations
                   && (name == "volatile-lru" || name == "volatile-random" || name == "volatile-ttl")))
  {
    PolicyNames(config);
  }

  /** The key was evicted on the way from `before` to `after`. */
  predicate Went(before: Keyspace, after: Keyspace, slot: Slot) {
    slot in before.data && slot !in after.data
  }

  /** Every evicted key had a deadline, and none that stays in the database has an earlier one. */
  ghost predicate EarliestDeadlinesGo(before: Keyspace, after: Keyspace, db: nat) {
    forall gone | Went(before, after, gone) ::
      gone in before.expirations && forall kept | kept in after.data && kept.db == db && kept in before.expirations ::
        before.expirations[gone] <= before.expirations[kept]
  }

  /** No evicted key was accessed later than one that stays, among those with a deadline if only they
      may go; a key without an access time counts as accessed at 0. */
  ghost predicate LeastRecentGo(before: Keyspace, after: Keyspace, db: nat, volatileOnly: bool) {
    forall gone, kept | Went(before, after, gone) && kept in after.data && kept.db == db
                        && (volatileOnly ==> kept in before.expirations) ::
      (if gone in before.lru then before.lru[gone] else 0) <= if kept in before.lru then before.lru[kept] else 0
  }

  ghost predicate KeysWithoutDeadlineStay(before: Keyspace, after: Keyspace) {
    forall slot | slot in before.data && slot !in before.expirations :: slot in after.data
  }

  /** What an eviction by name takes. */
  ghost predicate EvictsByPolicy(before: Keyspace, after: Keyspace, name: string, db: nat) {
    && (forall slot | Went(before, after, slot) :: slot.db == db)
    && (name == "volatile-ttl" ==> EarliestDeadlinesGo(before, after, db))
    && (name == "volatile-lru" ==> LeastRecentGo(before, after, db, true))
    && (name == "allkeys-lru" ==> LeastRecentGo(before, after, db, false))
    && (name == "volatile-ttl" || name == "volatile-lru" || name == "volatile-random" ==>
          KeysWithoutDeadlineStay(before, after))
    && (name == "volatile-ttl" || name == "volatile-lru" || name == "volatile-random" || name == "allkeys-lru"
        || name == "allkeys-random" || after == before)
  }

  /** An evicted key was eligible, and no eligible key that stays has a lower score. */
  ghost predicate LeastScoresGo(before: Keyspace, after: Keyspace, policy: Policy, db: nat) {
    forall gone | Went(before, after, gone) ::
      Eligible(before, policy, db, gone) && forall kept | kept in after.data && Eligible(before, policy, db, kept) ::
        EvictionScore(before, policy, gone) <= EvictionScore(before, policy, kept)
  }

  lemma WentMeansEvicted(st: Keyspace, config: Config, db: nat, needed: nat, trace: seq<Eviction>, slot: Slot)
    requires AllJustified(st, config, db, needed, trace) && Went(st, EvictAll(st, trace), slot)
    ensures Eligible(st, PolicyOf(config), db, slot)
    ensures forall kept | kept in EvictAll(st, trace).data && Eligible(st, PolicyOf(config), db, kept) ::
      EvictionScore(st, PolicyOf(config), slot) <= EvictionScore(st, PolicyOf(config), kept)
  {
    EvictAllKeeps(st, trace, slot);
    var i :| 0 <= i < |trace| && trace[i].slot == slot;
    EvictedOnce(st, config, db, needed, trace, i);
    forall kept | kept in EvictAll(st, trace).data && Eligible(st, PolicyOf(config), db, kept)
      ensures EvictionScore(st, PolicyOf(config), slot) <= EvictionScore(st, PolicyOf(config), kept)
    {
      EvictAllKeeps(st, trace, kept);
      EvictedFirst(st, config, db, needed, trace, i, kept);
    }
  }

  lemma EvictionTakesLeast(st: Keyspace, config: Config, db: nat, needed: nat, trace: seq<Eviction>)
    requires AllJustified(st, config, db, needed, trace)
    ensures LeastScoresGo(st, EvictAll(st, trace), PolicyOf(config), db)
    ensures EvictAll(st, trace).data.Keys <= st.data.Keys
    ensures PolicyOf(config).NoEviction? ==> trace == []
  {
    forall gone | Went(st, EvictAll(st, trace), gone)
      ensures Eligible(st, PolicyOf(config), db, gone)
      ensures forall kept | kept in EvictAll(st, trace).data && Eligible(st, PolicyOf(config), db, kept) ::
        EvictionScore(st, PolicyOf(config), gone) <= EvictionScore(st, PolicyOf(config), kept)
    {
      WentMeansEvicted(st, config, db, needed, trace, gone);
    }
    forall slot | slot in EvictAll(st, trace).data
      ensures slot in st.data
    {
      EvictAllKeeps(st, trace, slot);
    }
    if trace != [] {
      EvictedOnce(st, config, db, needed, trace, 0);
    }
  }

  lemma LeastScoresMeaning(before: Keyspace, after: Keyspace, policy: Policy, db: nat)
    requires LeastScoresGo(before, after, policy, db) && after.data.Keys <= before.data.Keys
    ensures forall slot | Went(before, after, slot) :: slot.db == db
    ensures policy.VolatileTtl? ==> EarliestDeadlinesGo(before, after, db)
    ensures policy.VolatileLru? || policy.AllkeysLru? ==> LeastRecentGo(before, after, db, policy.VolatileLru?)
    ensures policy.VolatileTtl? || policy.VolatileLru? || policy.VolatileRandom? ==>
      KeysWithoutDeadlineStay(before, after)
  {
    forall gone, kept | Went(before, after, gone) && Eligible(before, policy, db, kept) && kept in after.data
      ensures Eligible(before, policy, db, gone)
      ensures EvictionScore(before, policy, gone) <= EvictionScore(before, policy, kept)
    {
    }
    assert forall slot | slot in before.data && slot !in after.data :: Went(before, after, slot);
  }

  /** Which keys go and which stay under each policy. */
  lemma EvictionByName(st: Keyspace, config: Config, db: nat, needed: nat, trace: seq<Eviction>)
    requires AllJustified(st, config, db, needed, trace)
    ensures EvictsByPolicy(st, EvictAll(st, trace), ToAsciiLowercase(config.maxmemoryPolicy), db)
  {
    PolicyNames(config);
    EvictionTakesLeast(st, config, db, needed, trace);
    LeastScoresMeaning(st, EvictAll(st, trace), PolicyOf(config), db);
  }
}
