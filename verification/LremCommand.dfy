/** command/src/command.rs: LREM, which passes the sign of its count on as a direction. */
module LremCommand {
  import opened Machine
  import opened ByteStrings
  import opened Sequences
  import opened ListValue
  import opened ListRemoval
  import opened Keyspace
  import opened ListCommands
  import D = Database

  datatype LremReply = Removed(n: nat) | NoKey | NotList

  /** `count.abs() as usize`. */
  function Magnitude(p: Profile, count: I64): Outcome<Usize> {
    match I64Result(p, if count < 0 then 0 - count else count)
    case Done(n) => Done(WrapUsize(n))
    case Panic => Panic
  }

  lemma MagnitudeIsExact(p: Profile, count: I64)
    ensures Magnitude(p, count)
      == if p.Debug? && count == I64_MIN then Panic else Done(if count < 0 then 0 - count else count)
  {
  }

  /** The list after the command: a negative count works from the front. */
  function Performed(p: Profile, s: seq<Bytes>, count: I64, x: Bytes): Outcome<seq<Bytes>> {
    match Magnitude(p, count)
    case Panic => Panic
    case Done(limit) =>
      Done(if count < 0 then RemoveLeft(s, x, Quota(s, limit)) else RemoveRight(s, x, Quota(s, limit)))
  }

  /** What tests/unit/type/list.tcl expects, as Redis documents it: a positive count works from the
      front, a negative one from the tail, and 0 removes all. */
  function Documented(s: seq<Bytes>, count: int, x: Bytes): seq<Bytes> {
    if count == 0 then Without(s, x)
    else if count > 0 then RemoveLeft(s, x, count)
    else RemoveRight(s, x, 0 - count)
  }

  /** The command does what is documented exactly when it does not overflow and the direction makes
      no difference: all occurrences go, or they stand next to one another. */
  lemma LremMeetsDocument(p: Profile, s: seq<Bytes>, count: I64, x: Bytes)
    ensures Performed(p, s, count, x) == Done(Documented(s, count, x))
      <==> !(p.Debug? && count == I64_MIN)
           && (count == 0 || Occurrences(s, x) <= (if count < 0 then 0 - count else count) || Adjacent(s, x))
  {
    MagnitudeIsExact(p, count);
    OccurrencesCount(s, x);
    var n: nat := if count < 0 then 0 - count else count;
    if count == 0 || Occurrences(s, x) <= n {
      AllGone(s, x, Quota(s, n));
      if count != 0 { AllGone(s, x, n); }
    } else {
      EndsAgree(s, x, n);
    }
  }

  /** LREM key 1 x on x y x leaves x y, not y x. */
  lemma LremFromTheWrongEnd(p: Profile, x: Bytes, y: Bytes)
    requires x != y
    ensures Performed(p, [x, y, x], 1, x) == Done([x, y])
    ensures Documented([x, y, x], 1, x) == [y, x]
  {
    var s := [x, y, x];
    assert Reverse(s) == s;
    assert s[1..] == [y, x];
    assert RemoveLeft(s, x, 1) == [y, x];
    assert Reverse([y, x]) == [x, y];
  }

  /** `lrem` of a list value. */
  method RemoveFrom(items: seq<Bytes>, left: bool, limit: Usize, value: Bytes) returns (rest: seq<Bytes>, n: nat)
    ensures var q := Quota(items, limit);
      rest == if left then RemoveLeft(items, value, q) else RemoveRight(items, value, q)
    ensures n == |items| - |rest|
  {
    var list := new ValueList();
    list.list := items;
    n := list.Lrem(left, limit, value);
    rest := list.list;
  }

  /** Writes a list back; `key_updated` drops an empty one. */
  method WriteBack(db: D.Database, slot: Slot, items: seq<Bytes>, now: int)
    modifies db
    ensures db.data == WithItems(old(db.data), slot, items) && db.watched == old(db.watched) - {slot}
  {
    ghost var data := db.data;
    db.data := db.data[slot := List(items)];
    db.KeyUpdated(slot, now);
    assert data[slot := List(items)] - {slot} == data - {slot};
  }

  /** What the command does to a key that a client sees. */
  ghost predicate Removal(p: Profile, before: Data, after: Data, slot: Slot, count: I64, value: Bytes, n: nat) {
    && Performed(p, Items(before, slot), count, value) == Done(Items(after, slot))
    && n == |Items(before, slot)| - |Items(after, slot)|
    && after == WithItems(before, slot, Items(after, slot))
  }

  method LremPresent(db: D.Database, p: Profile, slot: Slot, count: I64, value: Bytes, now: int)
    returns (r: Outcome<LremReply>)
    requires slot in db.data
    modifies db
    ensures r == Panic <==> p.Debug? && count == I64_MIN
    ensures r.Panic? ==> db.data == old(db.data) && db.watched == old(db.watched)
    ensures r.Done? ==> r.value == NotList || r.value.Removed?
    ensures r.Done? ==> (r.value == NotList <==> NotAList(old(db.data), slot)) && db.watched == old(db.watched) - {slot}
    ensures r.Done? && r.value.Removed? ==> Removal(p, old(db.data), db.data, slot, count, value, r.value.n)
    ensures r == Done(NotList) ==>
      db.data == old(db.data) - (if IsEmpty(old(db.data)[slot]) then {slot} else {})
  {
    MagnitudeIsExact(p, count);
    var limit := Magnitude(p, count);
    if limit.Panic? { return Panic; }
    if db.data[slot].Other? {
      db.KeyUpdated(slot, now);
      return Done(NotList);
    }
    if db.data[slot].Nil? {
      WithItemsRead(db.data, slot, []);
      db.KeyUpdated(slot, now);
      return Done(Removed(0));
    }
    var rest, n := RemoveFrom(db.data[slot].items, count < 0, limit.value, value);
    WithItemsRead(db.data, slot, rest);
    WriteBack(db, slot, rest, now);
    return Done(Removed(n));
  }

  /** An absent key, and one that holds no list, count as updated as well. */
  method Lrem(db: D.Database, p: Profile, slot: Slot, count: I64, value: Bytes, now: int)
    returns (r: Outcome<LremReply>)
    modifies db
    ensures var st := old(db.State());
      var present := slot in st.data && !IsExpired(st, slot, now);
      && (r == Panic <==> present && p.Debug? && count == I64_MIN)
      && (r == Done(NoKey) <==> !present)
      && (r == Done(NotList) <==> present && r.Done? && NotAList(st.data, slot))
    ensures r.Panic? ==> db.data == old(db.data) && db.watched == old(db.watched)
    ensures r.Done? ==> db.watched == old(db.watched) - {slot}
    ensures r.Done? && r.value.Removed? ==> Removal(p, old(db.data), db.data, slot, count, value, r.value.n)
    ensures r == Done(NoKey) ==> db.data == old(db.data) - {slot}
    ensures r == Done(NotList) ==>
      db.data == old(db.data) - (if IsEmpty(old(db.data)[slot]) then {slot} else {})
  {
    if IsExpired(db.State(), slot, now) {
      var _ := db.Remove(slot, now);
      db.KeyUpdated(slot, now);
      return Done(NoKey);
    }
    if Contains(db.config.maxmemoryPolicy, "lru") { db.lru := db.lru[slot := now]; }
    if slot !in db.data {
      db.KeyUpdated(slot, now);
      return Done(NoKey);
    }
    r := LremPresent(db, p, slot, count, value, now);
  }
}
