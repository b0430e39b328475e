/** database/src/lib.rs: when the LRU score of a key is the time of its latest access. */
module Accesses {
  import opened Text
  import opened Keyspace
  import opened Database
  import Spec = Keyspace

  /** What can happen to a keyspace.  `Rest` stands for every other change; none reaches the access
      times. */
  datatype Action = Get(slot: Slot, now: int) | GetMut(slot: Slot, now: int)
                  | GetOrCreate(slot: Slot, now: int, trace: seq<Eviction>)
                  | Remove(slot: Slot, now: int) | KeyUpdated(slot: Slot, now: int) | Clear(db: nat)
                  | Rest(to: Keyspace)

  /** The state in which `get_or_create` looks for the key. */
  function Found(st: Keyspace, a: Action): Keyspace
    requires a.GetOrCreate?
  {
    EvictAll(DropDeadline(st, a.slot, a.now), a.trace)
  }

  function Act(st: Keyspace, config: Config, a: Action): Keyspace {
    match a
    case Get(_, _) => st
    case GetMut(slot, now) =>
      if IsExpired(st, slot, now) then Spec.Remove(st, slot, now) else UpdateLru(st, config, slot, now)
    case GetOrCreate(slot, now, _) => Place(Found(st, a), config, slot, now)
    case Remove(slot, now) => Spec.Remove(st, slot, now)
    case KeyUpdated(slot, now) => Spec.KeyUpdated(st, slot, now)
    case Clear(db) => Spec.Clear(st, db)
    case Rest(to) => to.(lru := st.lru)
  }

  function RunActs(config: Config, acts: seq<Action>): Keyspace {
    if acts == [] then Keyspace(map[], map[], map[], map[], 0, 0, 0, false)
    else Act(RunActs(config, acts[..|acts| - 1]), config, acts[|acts| - 1])
  }

  /** An access: `get_mut` of a key that has not expired, and `get_or_create`, unless it makes a key
      that does not fit.  Reading with `get` is none. */
  predicate Accesses(st: Keyspace, config: Config, a: Action, slot: Slot) {
    match a
    case GetMut(s, now) => s == slot && !IsExpired(st, slot, now)
    case GetOrCreate(s, _, _) =>
      s == slot && (slot in Found(st, a).data || Fits(Found(st, a), config, EstimateValueSize(Nil, |slot.key|)))
    case _ => false
  }

  /** The key is removed or evicted, which ends the memory of its accesses. */
  ghost predicate Forgets(st: Keyspace, a: Action, slot: Slot) {
    match a
    case GetMut(s, now) => s == slot && IsExpired(st, slot, now)
    case GetOrCreate(_, _, trace) => Evicted(trace, slot)
    case Remove(s, _) => s == slot
    case KeyUpdated(s, _) => s == slot && slot in st.data && IsEmpty(st.data[slot])
    case _ => false
  }

  /** The i-th action accesses the key at `t`, and nothing later accesses or removes it. */
  ghost predicate LatestAt(config: Config, acts: seq<Action>, i: nat, slot: Slot, t: int) {
    && i < |acts| && Accesses(RunActs(config, acts[..i]), config, acts[i], slot) && acts[i].now == t
    && forall j :: i < j < |acts| ==> Ignores(RunActs(config, acts[..j]), config, acts[j], slot)
  }

  ghost predicate Ignores(st: Keyspace, config: Config, a: Action, slot: Slot) {
    !Accesses(st, config, a, slot) && !Forgets(st, a, slot)
  }

  /** The key was last accessed at `t`, and not removed since. */
  ghost predicate LastAccess(config: Config, acts: seq<Action>, slot: Slot, t: int) {
    exists i :: LatestAt(config, acts, i, slot, t)
  }

  predicate Records(config: Config) {
    Contains(config.maxmemoryPolicy, "lru")
  }

  lemma ActRecords(st: Keyspace, config: Config, a: Action, slot: Slot)
    requires Records(config)
    ensures var after := Act(st, config, a);
      if Accesses(st, config, a, slot) then slot in after.lru && after.lru[slot] == a.now
      else if Forgets(st, a, slot) then slot !in after.lru
      else (slot in after.lru <==> slot in st.lru) && (slot in st.lru ==> after.lru[slot] == st.lru[slot])
  {
    if a.GetOrCreate? {
      EvictAllKeeps(DropDeadline(st, a.slot, a.now), a.trace, slot);
    }
  }

  lemma LatestAtNext(config: Config, acts: seq<Action>, a: Action, i: nat, slot: Slot, t: int)
    ensures i < |acts| ==>
      (LatestAt(config, acts + [a], i, slot, t)
       <==> LatestAt(config, acts, i, slot, t) && Ignores(RunActs(config, acts), config, a, slot))
    ensures i == |acts| ==>
      (LatestAt(config, acts + [a], i, slot, t) <==> Accesses(RunActs(config, acts), config, a, slot) && a.now == t)
  {
    var all := acts + [a];
    assert all[..|acts|] == acts && all[|acts|] == a;
    assert forall j :: 0 <= j < |acts| ==> all[j] == acts[j] && all[..j] == acts[..j];
  }

  lemma LastAccessNext(config: Config, acts: seq<Action>, a: Action, slot: Slot, t: int)
    ensures var st := RunActs(config, acts);
      LastAccess(config, acts + [a], slot, t)
      <==> if Accesses(st, config, a, slot) then a.now == t
           else LastAccess(config, acts, slot, t) && !Forgets(st, a, slot)
  {
    LatestAtNext(config, acts, a, |acts|, slot, t);
    forall i: nat | i < |acts|
      ensures LatestAt(config, acts + [a], i, slot, t)
        <==> LatestAt(config, acts, i, slot, t) && Ignores(RunActs(config, acts), config, a, slot)
    {
      LatestAtNext(config, acts, a, i, slot, t);
    }
  }

  /** When access times are kept, each is that of the latest access. */
  lemma {:induction false} TimesAreLatest(config: Config, acts: seq<Action>, slot: Slot, t: int)
    requires Records(config)
    ensures var lru := RunActs(config, acts).lru;
      LastAccess(config, acts, slot, t) <==> slot in lru && lru[slot] == t
  {
    if acts != [] {
      var front, a := acts[..|acts| - 1], acts[|acts| - 1];
      TimesAreLatest(config, front, slot, t);
      assert acts == front + [a];
      LastAccessNext(config, front, a, slot, t);
      ActRecords(RunActs(config, front), config, a, slot);
    }
  }

  /** Otherwise there are none, and all scores are the same. */
  lemma {:induction false} NoTimes(config: Config, acts: seq<Action>)
    requires !Records(config)
    ensures RunActs(config, acts).lru == map[]
  {
    if acts != [] {
      var front, a := acts[..|acts| - 1], acts[|acts| - 1];
      NoTimes(config, front);
      if a.GetOrCreate? {
        forall slot: Slot ensures slot !in Found(RunActs(config, front), a).lru {
          EvictAllKeeps(DropDeadline(RunActs(config, front), a.slot, a.now), a.trace, slot);
        }
      }
    }
  }

  /** Every accessed key has the time of its latest access as its score. */
  ghost predicate ScoresAreAccessTimes(config: Config) {
    forall acts, slot, t :: LastAccess(config, acts, slot, t) ==>
      EvictionScore(RunActs(config, acts), PolicyOf(config), slot) == t
  }

  /** Under the LRU policies that holds exactly when the policy is spelled with a lower-case "lru":
      the name is lowercased where keys are evicted and not where accesses are noted. */
  lemma ScoresNeedLowerCase(config: Config)
    requires PolicyOf(config).VolatileLru? || PolicyOf(config).AllkeysLru?
    ensures ScoresAreAccessTimes(config) <==> Records(config)
  {
    if Records(config) {
      forall acts, slot, t | LastAccess(config, acts, slot, t)
        ensures EvictionScore(RunActs(config, acts), PolicyOf(config), slot) == t
      {
        TimesAreLatest(config, acts, slot, t);
      }
    } else {
      var slot := Slot(0, []);
      OneAccess(config, slot);
      NoTimes(config, [GetMut(slot, 1)]);
      assert EvictionScore(RunActs(config, [GetMut(slot, 1)]), PolicyOf(config), slot) == 0;
    }
  }

  lemma OneAccess(config: Config, slot: Slot)
    ensures LastAccess(config, [GetMut(slot, 1)], slot, 1)
  {
    var acts := [GetMut(slot, 1)];
    assert acts[..0] == [];
    assert LatestAt(config, acts, 0, slot, 1);
  }

  const UPPER_CASE: string := "ALLKEYS-LRU"

  /** With the policy ALLKEYS-LRU every key scores 0, whatever was accessed. */
  lemma UpperCaseScoresNothing(config: Config, acts: seq<Action>, slot: Slot)
    requires config.maxmemoryPolicy == UPPER_CASE
    ensures PolicyOf(config) == AllkeysLru && EvictionScore(RunActs(config, acts), AllkeysLru, slot) == 0
  {
    UpperCasePolicy(config);
    UpperCaseIsNotRecorded(config);
    NoTimes(config, acts);
  }

  lemma UpperCasePolicy(config: Config)
    requires config.maxmemoryPolicy == UPPER_CASE
    ensures PolicyOf(config) == AllkeysLru
  {
    var lower := "allkeys-lru";
    forall i | 0 <= i < 11
      ensures LowerChar(UPPER_CASE[i]) == lower[i]
    {
      assert i in {0, 1, 2, 3, 4, 5, 6, 7, 8, 9, 10};
    }
    assert ToAsciiLowercase(UPPER_CASE) == lower;
  }

  lemma UpperCaseIsNotRecorded(config: Config)
    requires config.maxmemoryPolicy == UPPER_CASE
    ensures !Records(config)
  {
    var name := config.maxmemoryPolicy;
    forall i | 0 <= i < |name|
      ensures name[i] != 'l'
    {
      assert i in {0, 1, 2, 3, 4, 5, 6, 7, 8, 9, 10};
    }
    NoLowerCaseLetter(name);
  }

  lemma {:induction false} NoLowerCaseLetter(s: string)
    requires forall i :: 0 <= i < |s| ==> s[i] != 'l'
    ensures !Contains(s, "lru")
  {
    if |s| >= 3 {
      assert s[..3][0] == s[0];
      NoLowerCaseLetter(s[1..]);
    }
  }
}
