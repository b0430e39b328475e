/** database/src/lib.rs: the shared database, updated in place. */
module Database {
  import opened Machine
  import opened ByteStrings
  import opened Sequences
  import opened Keyspace
  import opened Text
  import Spec = Keyspace

  datatype Candidate = Candidate(slot: Slot, score: int, size: nat)

  /** `sort_by_key` and `first`: the earliest candidate of least score. */
  method FirstByScore(candidates: seq<Candidate>) returns (best: Candidate)
    requires candidates != []
    ensures best in candidates && forall c | c in candidates :: best.score <= c.score
  {
    best := candidates[0];
    for i := 1 to |candidates|
      invariant best in candidates && forall j :: 0 <= j < i ==> best.score <= candidates[j].score
    {
      if candidates[i].score < best.score { best := candidates[i]; }
    }
  }

  /** `min_by_key` on the size. */
  method FirstBySize(candidates: seq<Candidate>) returns (best: Candidate)
    requires candidates != []
    ensures best in candidates && forall c | c in candidates :: best.size <= c.size
  {
    best := candidates[0];
    for i := 1 to |candidates|
      invariant best in candidates && forall j :: 0 <= j < i ==> best.size <= candidates[j].size
    {
      if candidates[i].size < best.size { best := candidates[i]; }
    }
  }

  /** Under a random policy: the first candidate, or the smallest of some samples in a row if there
      are more candidates than samples. */
  ghost predicate Sampled(candidates: seq<Candidate>, samples: nat, c: Candidate) {
    if |candidates| <= samples then candidates != [] && c == candidates[0]
    else exists start :: 0 <= start < |candidates| - samples && SmallestFrom(candidates, start, samples, c)
  }

  ghost predicate SmallestFrom(candidates: seq<Candidate>, start: nat, samples: nat, c: Candidate)
    requires start + samples <= |candidates|
  {
    var window := candidates[start..start + samples];
    c in window && forall other | other in window :: c.size <= other.size
  }

  /** A random policy that looks at no samples. */
  predicate NoSamples(config: Config) {
    IsRandom(PolicyOf(config)) && config.maxmemorySamples == 0
  }

  /** Under allkeys-random with maxmemory-samples 0 a single key stays although it does not fit. */
  lemma NoSamplesKeepsTheKey(slot: Slot)
    ensures var config := Config(Some(0), "allkeys-random", 0);
      var st := Keyspace(map[slot := Nil], map[], map[], map[], 1, 1, 0, false);
      NoSamples(config) && !Fits(st, config, 0) && SomeEligible(st, PolicyOf(config), slot.db)
  {
    var config := Config(Some(0), "allkeys-random", 0);
    assert ToAsciiLowercase("allkeys-random") == "allkeys-random";
    assert PolicyOf(config) == AllkeysRandom;
    assert Eligible(Keyspace(map[slot := Nil], map[], map[], map[], 1, 1, 0, false), AllkeysRandom, slot.db, slot);
  }

  /** The value that `get_or_create` hands out, and the space it accounts for a new key.  A key
      that does not fit gets its value unaccounted. */
  function Place(st: Keyspace, config: Config, slot: Slot, now: int): Keyspace {
    var size := EstimateValueSize(Nil, |slot.key|);
    var counted := slot !in st.data && Fits(st, config, size);
    var used := if counted then st.usedMemory + size else st.usedMemory;
    st.(data := if slot in st.data then st.data else st.data[slot := Nil],
        lru := if counted || slot in st.data then UpdateLru(st, config, slot, now).lru else st.lru,
        usedMemory := used,
        usedMemoryPeak := if used > st.usedMemoryPeak && counted then used else st.usedMemoryPeak)
  }

  /** The key keeps its value or gets `Nil`, and the others stay as they are.  A new key that fits takes
      its size; the access is noted under a policy with "lru" in it, but for a new key that does not
      fit. */
  lemma PlaceMeaning(st: Keyspace, config: Config, slot: Slot, now: int)
    ensures var after := Place(st, config, slot, now);
      var size := |slot.key| + 24;
      var fits := config.maxmemory.None? || st.usedMemory + size <= config.maxmemory.value;
      && after.data == st.data[slot := if slot in st.data then st.data[slot] else Nil]
      && after.usedMemory == (if slot !in st.data && fits then st.usedMemory + size else st.usedMemory)
      && (slot !in st.data && fits ==> after.usedMemory <= after.usedMemoryPeak)
      && (after.usedMemoryPeak == st.usedMemoryPeak || st.usedMemoryPeak < after.usedMemoryPeak == after.usedMemory)
      && (slot in st.data || !fits ==> after.usedMemoryPeak == st.usedMemoryPeak)
      && after.lru == (if (slot in st.data || fits) && Contains(config.maxmemoryPolicy, "lru") then st.lru[slot := now]
                       else st.lru)
      && after.expirations == st.expirations && after.watched == st.watched && after.evictedKeys == st.evictedKeys
      && after.loading == st.loading
  {
    if slot in st.data {
      assert st.data == st.data[slot := st.data[slot]];
    }
  }

  /** An expired key loses its deadline here, not its value. */
  function DropDeadline(st: Keyspace, slot: Slot, now: int): Keyspace {
    st.(expirations := if IsExpired(st, slot, now) then st.expirations - {slot} else st.expirations)
  }

  /** So a deadline is left exactly when it is still to come, or a dump is loaded. */
  lemma DropDeadlineMeaning(st: Keyspace, slot: Slot, now: int)
    ensures var after := DropDeadline(st, slot, now);
      && after == st.(expirations := after.expirations)
      && (slot in after.expirations <==> slot in st.expirations && (st.loading || now < st.expirations[slot]))
      && (slot in after.expirations ==> after.expirations[slot] == st.expirations[slot])
      && (forall other | other != slot :: SameAt(after, st, other))
  {
  }

  class Database {
    const config: Config
    var data: map<Slot, Value>
    var expirations: map<Slot, int>
    var lru: map<Slot, int>
    var watched: map<Slot, set<nat>>
    var usedMemory: nat
    var usedMemoryPeak: nat
    var evictedKeys: nat
    var loading: bool

    function State(): Keyspace
      reads this
    {
      Keyspace(data, expirations, lru, watched, usedMemory, usedMemoryPeak, evictedKeys, loading)
    }

    constructor (config: Config)
      ensures State() == Keyspace(map[], map[], map[], map[], 0, 0, 0, false) && this.config == config
    {
      this.config := config;
      data, expirations, lru, watched := map[], map[], map[], map[];
      usedMemory, usedMemoryPeak, evictedKeys, loading := 0, 0, 0, false;
    }

    method Remove(slot: Slot, now: int) returns (removed: Option<Value>)
      modifies this
      ensures State() == Spec.Remove(old(State()), slot, now)
      ensures removed == Get(old(State()), slot, now)
    {
      removed := if slot in data && !IsExpired(State(), slot, now) then Some(data[slot]) else None;
      data := data - {slot};
      if removed.Some? {
        var size := EstimateValueSize(removed.value, |slot.key|);
        if usedMemory >= size { usedMemory := usedMemory - size; }
      }
      expirations := expirations - {slot};
      lru := lru - {slot};
    }

    /** The candidates of one round, in whatever order the keys come. */
    method Candidates(db: nat, policy: Policy) returns (candidates: seq<Candidate>)
      ensures forall c | c in candidates ::
                Eligible(State(), policy, db, c.slot) && c.score == EvictionScore(State(), policy, c.slot)
      ensures forall slot | Eligible(State(), policy, db, slot) :: exists c :: c in candidates && c.slot == slot
    {
      ghost var st := State();
      var order := Iterate(set slot | slot in data && slot.db == db);
      candidates := [];
      for i := 0 to |order|
        invariant forall c | c in candidates ::
                    Eligible(st, policy, db, c.slot) && c.score == EvictionScore(st, policy, c.slot)
        invariant forall j | 0 <= j < i && Eligible(st, policy, db, order[j]) ::
                    exists c :: c in candidates && c.slot == order[j]
      {
        var slot := order[i];
        assert slot in Elements(order);
        if Eligible(State(), policy, db, slot) {
          var c := Candidate(slot, EvictionScore(State(), policy, slot), EstimateValueSize(data[slot], |slot.key|));
          ghost var before := candidates;
          candidates := candidates + [c];
          assert forall x :: x in candidates <==> x in before || x == c;
        }
      }
      forall slot | Eligible(st, policy, db, slot)
        ensures exists c :: c in candidates && c.slot == slot
      {
        assert slot in Elements(order);
        var j :| 0 <= j < |order| && order[j] == slot;
      }
    }

    /** The key of one round; with random policies and no samples there is none. */
    method Select(candidates: seq<Candidate>, policy: Policy) returns (chosen: Option<Slot>)
      requires candidates != []
      ensures chosen.None? <==> policy.NoEviction? || (IsRandom(policy) && config.maxmemorySamples == 0)
      ensures chosen.Some? ==> exists c | c in candidates ::
                c.slot == chosen.value
                && (if IsRandom(policy) then Sampled(candidates, config.maxmemorySamples, c)
                    else forall other | other in candidates :: c.score <= other.score)
    {
      if policy.NoEviction? { return None; }
      if !IsRandom(policy) {
        var c := FirstByScore(candidates);
        return Some(c.slot);
      }
      var samples := config.maxmemorySamples;
      if |candidates| > samples {
        var start: nat :| start < |candidates| - samples;
        var window := candidates[start..start + samples];
        if window == [] { return None; }
        var c := FirstBySize(window);
        assert SmallestFrom(candidates, start, samples, c) && Sampled(candidates, samples, c);
        return Some(c.slot);
      }
      return Some(candidates[0].slot);
    }

    /** Removes the chosen key; a value that had expired does not count as evicted. */
    method EvictOne(slot: Slot) returns (ghost e: Eviction)
      modifies this
      ensures e.slot == slot && State() == Evict(old(State()), e)
    {
      var now: int := *;
      e := Eviction(slot, now);
      var removed := Remove(slot, now);
      if removed.Some? { evictedKeys := evictedKeys + 1; }
    }

    /** Evicts as long as the memory does not fit and some key may go.  `trace` records what went
        and when. */
    method EvictKeys(db: nat, needed: nat) returns (ok: bool, ghost trace: seq<Eviction>)
      modifies this
      ensures State() == EvictAll(old(State()), trace)
      ensures AllJustified(old(State()), config, db, needed, trace)
      ensures EvictsByPolicy(old(State()), State(), ToAsciiLowercase(config.maxmemoryPolicy), db)
      ensures ok <==> config.maxmemory.None? || usedMemory + needed <= config.maxmemory.value
      ensures !ok && SomeEligible(State(), PolicyOf(config), db)
        <==> NoSamples(config) && !Fits(old(State()), config, needed)
             && SomeEligible(old(State()), PolicyOf(config), db)
      ensures NoSamples(config) ==> trace == []
    {
      ok, trace := EvictRounds(db, needed);
      EvictionByName(old(State()), config, db, needed, trace);
    }

    /** The loop of `evict_keys`. */
    method EvictRounds(db: nat, needed: nat) returns (ok: bool, ghost trace: seq<Eviction>)
      modifies this
      ensures State() == EvictAll(old(State()), trace)
      ensures AllJustified(old(State()), config, db, needed, trace)
      ensures ok <==> Fits(State(), config, needed)
      ensures !ok && SomeEligible(State(), PolicyOf(config), db)
        <==> NoSamples(config) && !Fits(old(State()), config, needed)
             && SomeEligible(old(State()), PolicyOf(config), db)
      ensures NoSamples(config) ==> trace == []
    {
      trace := [];
      var policy := PolicyOf(config);
      while true
        invariant State() == EvictAll(old(State()), trace)
        invariant AllJustified(old(State()), config, db, needed, trace)
        invariant NoSamples(config) ==> trace == []
        decreases data.Keys
      {
        if Fits(State(), config, needed) { return true, trace; }
        var candidates := Candidates(db, policy);
        if candidates == [] { return false, trace; }
        var chosen := Select(candidates, policy);
        if chosen.None? { return false, trace; }
        ghost var before := State();
        ghost var e := EvictOne(chosen.value);
        assert Justified(before, config, db, needed, e);
        JustifiedNext(old(State()), config, db, needed, trace, e);
        trace := trace + [e];
      }
    }

    /** Afterwards the key has a value: the one it had, even if it had expired, or `Nil`. */
    method GetOrCreate(slot: Slot, now: int) returns (ghost trace: seq<Eviction>)
      modifies this
      ensures var st := DropDeadline(old(State()), slot, now);
        && AllJustified(st, config, slot.db, EstimateValueSize(Nil, |slot.key|), trace)
        && (slot in st.data ==> trace == [])
        && State() == Place(EvictAll(st, trace), config, slot, now)
      ensures slot in data
    {
      trace := [];
      if IsExpired(State(), slot, now) { expirations := expirations - {slot}; }
      ghost var st := State();
      if slot !in data {
        var size := EstimateValueSize(Nil, |slot.key|);
        var ok;
        ok, trace := EvictKeys(slot.db, size);
        EvictAllKeeps(st, trace, slot);
        if !ok {
          data := data[slot := Nil];
          return;
        }
      }
      PlaceEntry(slot, now);
    }

    /** The entry of the hash map, found or made. */
    method PlaceEntry(slot: Slot, now: int)
      requires slot in data || Fits(State(), config, EstimateValueSize(Nil, |slot.key|))
      modifies this
      ensures State() == Place(old(State()), config, slot, now) && slot in data
    {
      if slot in data {
        if Contains(config.maxmemoryPolicy, "lru") { lru := lru[slot := now]; }
      } else {
        usedMemory := usedMemory + EstimateValueSize(Nil, |slot.key|);
        if usedMemory > usedMemoryPeak { usedMemoryPeak := usedMemory; }
        if Contains(config.maxmemoryPolicy, "lru") { lru := lru[slot := now]; }
        data := data[slot := Nil];
      }
    }

    method KeyWatch(slot: Slot, client: nat)
      modifies this
      ensures State() == Spec.KeyWatch(old(State()), slot, client)
    {
      if slot in watched {
        watched := watched[slot := watched[slot] + {client}];
      } else {
        assert {} + {client} == {client};
        watched := watched[slot := {client}];
      }
    }

    method KeyWatchVerify(slot: Slot, client: nat) returns (r: bool)
      ensures r <==> Spec.KeyWatchVerify(State(), slot, client)
    {
      if slot !in watched { return false; }
      return client in watched[slot];
    }

    method KeyUpdated(slot: Slot, now: int)
      modifies this
      ensures State() == Spec.KeyUpdated(old(State()), slot, now)
    {
      if slot in data && IsEmpty(data[slot]) {
        var _ := Remove(slot, now);
      }
      watched := watched - {slot};
    }

    /** Only watched keys that are present count as updated. */
    method Clear(db: nat, now: int)
      modifies this
      ensures State() == Spec.Clear(old(State()), db)
    {
      UpdateWatched(db, now);
      data := map slot | slot in data && slot.db != db :: data[slot];
      expirations := map slot | slot in expirations && slot.db != db :: expirations[slot];
    }

    method UpdateWatched(db: nat, now: int)
      modifies this
      ensures var gone := WatchedPresent(old(State()), db);
        State() == old(State()).(data := old(data) - gone, watched := old(watched) - gone)
    {
      ghost var st := State();
      var keys := Iterate(set slot | slot in watched && slot.db == db);
      for i := 0 to |keys|
        invariant State() == UpdateEach(st, keys[..i], now)
      {
        assert keys[..i + 1][..i] == keys[..i];
        if keys[i] in data {
          data := data - {keys[i]};
          KeyUpdated(keys[i], now);
        }
      }
      assert keys[..|keys|] == keys;
      UpdateEachEffect(st, keys, now);
      UpdateWatchedEffect(st, Elements(keys), db);
    }
  }

  /** The loop of `clear` as a value. */
  function UpdateEach(st: Keyspace, keys: seq<Slot>, now: int): Keyspace {
    if keys == [] then st
    else
      var before, slot := UpdateEach(st, keys[..|keys| - 1], now), keys[|keys| - 1];
      if slot in before.data then Spec.KeyUpdated(before.(data := before.data - {slot}), slot, now) else before
  }

  lemma {:induction false} UpdateEachEffect(st: Keyspace, keys: seq<Slot>, now: int)
    ensures UpdateEach(st, keys, now) == st.(data := st.data - Elements(keys),
                                             watched := st.watched - (Elements(keys) * st.data.Keys))
  {
    if keys == [] {
      assert st.data - {} == st.data && st.watched - {} == st.watched;
    } else {
      var front, slot := keys[..|keys| - 1], keys[|keys| - 1];
      UpdateEachEffect(st, front, now);
      assert Elements(keys) == Elements(front) + {slot};
      var before := UpdateEach(st, front, now);
      if slot in before.data {
        assert before.data - {slot} == st.data - Elements(keys);
        assert before.watched - {slot} == st.watched - (Elements(keys) * st.data.Keys);
      } else {
        assert before.data == st.data - Elements(keys);
        assert before.watched == st.watched - (Elements(keys) * st.data.Keys);
      }
    }
  }

  lemma UpdateWatchedEffect(st: Keyspace, keys: set<Slot>, db: nat)
    requires keys == set slot | slot in st.watched && slot.db == db
    ensures st.data - keys == st.data - WatchedPresent(st, db)
    ensures keys * st.data.Keys == WatchedPresent(st, db)
  {
  }

  lemma JustifiedNext(st: Keyspace, config: Config, db: nat, needed: nat, trace: seq<Eviction>, e: Eviction)
    requires AllJustified(st, config, db, needed, trace)
    requires Justified(EvictAll(st, trace), config, db, needed, e)
    ensures AllJustified(st, config, db, needed, trace + [e])
    ensures EvictAll(st, trace + [e]) == Evict(EvictAll(st, trace), e)
  {
    assert (trace + [e])[..|trace|] == trace;
    assert forall i :: 0 <= i < |trace| ==> (trace + [e])[..i] == trace[..i];
  }

  /** A list that expired at time 0 is not read at time 1, and handed out with its element. */
  lemma ExpiredListIsHandedOut(config: Config, slot: Slot, x: Bytes)
    ensures var st := Keyspace(map[slot := List([x])], map[slot := 0], map[], map[], 0, 0, 0, false);
      Get(st, slot, 1) == None && Place(DropDeadline(st, slot, 1), config, slot, 1).data[slot] == List([x])
  {
  }

  /** The value handed out is what a read would have shown, or `Nil`, exactly when no expired
      value is still stored. */
  lemma ExpiredValueComesBack(st: Keyspace, config: Config, slot: Slot, now: int, trace: seq<Eviction>)
    requires slot in st.data ==> trace == []
    ensures var shown := Get(st, slot, now);
      var after := Place(EvictAll(DropDeadline(st, slot, now), trace), config, slot, now);
      && slot in after.data
      && (after.data[slot] == (if shown.Some? then shown.value else Nil)
          <==> !(slot in st.data && IsExpired(st, slot, now) && st.data[slot] != Nil))
  {
    EvictAllKeeps(DropDeadline(st, slot, now), trace, slot);
  }
}
