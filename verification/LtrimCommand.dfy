/** command/src/command.rs: LTRIM as a handler, one that may panic inside a transaction. */
module LtrimCommand {
  import opened Machine
  import opened ByteStrings
  import opened DbUtil
  import opened ListValue
  import opened Keyspace
  import opened TransactionSpec
  import opened TransactionRuns
  import D = Database
  import Spec = Keyspace

  /** The command on one key, with the clock and the arguments fixed. */
  function LtrimEffect(p: Profile, config: Config, key: Bytes, start: int, stop: int, now: int, index: nat,
                       st: Keyspace): Effect {
    var slot := Slot(index, key);
    if IsExpired(st, slot, now) then Effect([Write(Spec.Remove(st, slot, now)), Updated(slot, now)], true, Returns)
    else
      var noted := UpdateLru(st, config, slot, now);
      if !(slot in st.data && st.data[slot].List?) then Effect([Write(noted), Updated(slot, now)], true, Returns)
      else
        var items := st.data[slot].items;
        if TrimPanics(p, |items|, start, stop) then
          Effect([Write(noted.(data := st.data[slot := List(Window(items, 0, stop))]))], true, Unwinds)
        else
          var trimmed := noted.(data := st.data[slot := List(Window(items, start, stop))]);
          Effect([Write(trimmed), Updated(slot, now)], true, Returns)
  }

  lemma ApplyOne(st: Keyspace, to: Keyspace)
    ensures ApplyDbOps(st, [Write(to)]) == to.(watched := st.watched)
  {
    assert [Write(to)][1..] == [];
  }

  lemma ApplyTwo(st: Keyspace, to: Keyspace, slot: Slot, now: int)
    ensures ApplyDbOps(st, [Write(to), Updated(slot, now)]) == Spec.KeyUpdated(to.(watched := st.watched), slot, now)
  {
    var written := to.(watched := st.watched);
    assert [Write(to), Updated(slot, now)][1..] == [Updated(slot, now)];
    assert ApplyDbOps(written, [Updated(slot, now)]) == Spec.KeyUpdated(written, slot, now) by {
      assert [Updated(slot, now)][1..] == [];
    }
  }

  /** `ltrim` of a list value. */
  method TrimItems(p: Profile, items: seq<Bytes>, start: I64, stop: I64) returns (ok: bool, rest: seq<Bytes>)
    requires |items| <= I64_MAX
    ensures ok <==> !TrimPanics(p, |items|, start, stop)
    ensures rest == if ok then Window(items, start, stop) else Window(items, 0, stop)
  {
    var list := new ValueList();
    list.list := items;
    var r := list.Ltrim(p, start, stop);
    return r.Done?, list.list;
  }

  /** The command updates the database as the handler says. */
  method Ltrim(db: D.Database, p: Profile, slot: Slot, start: I64, stop: I64, now: int) returns (ending: Ending)
    requires slot in db.data && db.data[slot].List? ==> |db.data[slot].items| <= I64_MAX
    modifies db
    ensures var effect := LtrimEffect(p, db.config, slot.key, start, stop, now, slot.db, old(db.State()));
      db.State() == ApplyDbOps(old(db.State()), effect.ops) && ending == effect.ending
  {
    ghost var st := db.State();
    if IsExpired(db.State(), slot, now) {
      var _ := db.Remove(slot, now);
      db.KeyUpdated(slot, now);
      ApplyTwo(st, Spec.Remove(st, slot, now), slot, now);
      return Returns;
    }
    if Contains(db.config.maxmemoryPolicy, "lru") { db.lru := db.lru[slot := now]; }
    ghost var noted := db.State();
    if slot in db.data && db.data[slot].List? {
      var ok, rest := TrimItems(p, db.data[slot].items, start, stop);
      db.data := db.data[slot := List(rest)];
      ApplyOne(st, db.State());
      ApplyTwo(st, db.State(), slot, now);
      if !ok { return Unwinds; }
    } else {
      ApplyTwo(st, noted, slot, now);
    }
    db.KeyUpdated(slot, now);
    return Returns;
  }

  /** MULTI, LTRIM k 2 0, EXEC on a list of three elements unwinds in both profiles, and leaves one
      element, just as LTRIM does by itself. */
  lemma LtrimUnwindsExec(p: Profile, config: Config, s: Settings, key: Bytes, now: int, db: Keyspace,
                         client: ClientState, a: Bytes, b: Bytes, c: Bytes)
    requires QueueOk(client) && !client.multi && client.auth && client.watchedKeys == {}
    requires client.dbindex < s.databases
    requires var slot := Slot(client.dbindex, key);
      slot in db.data && db.data[slot] == List([a, b, c]) && !IsExpired(db, slot, now)
    requires s.handler(0, client.dbindex, db) == LtrimEffect(p, config, key, 2, 0, now, client.dbindex, db)
    ensures var slot, run := Slot(client.dbindex, key), RunEach(s, [Multi] + [Request.Other(0)] + [Exec], db, client);
      run.responses == [Status, Queued, Crash] && run.db.data == db.data[slot := List([a])]
    ensures RunEach(s, [Request.Other(0)], db, client).responses == [Crash]
  {
    CrossedTrimPanics(p, a, b, c);
    PanicUnwindsExec(s, 0, db, client);
    ApplyOne(db, s.handler(0, client.dbindex, db).ops[0].to);
  }

  /** On a list that a client sees: it keeps its window, and goes when that is empty; a panic leaves it
      cut short, and does not count as an update. */
  lemma LtrimList(p: Profile, config: Config, st: Keyspace, slot: Slot, start: int, stop: int, now: int)
    requires slot in st.data && st.data[slot].List?
    requires st.loading || slot !in st.expirations || now < st.expirations[slot]
    ensures var effect := LtrimEffect(p, config, slot.key, start, stop, now, slot.db, st);
      var after, items := ApplyDbOps(st, effect.ops), st.data[slot].items;
      effect.touches
      && if TrimPanics(p, |items|, start, stop) then
        effect.ending == Unwinds && after.watched == st.watched
        && after.data == st.data[slot := List(Window(items, 0, stop))]
      else
        effect.ending == Returns && after.watched == st.watched - {slot}
        && after.data == if Window(items, start, stop) == [] then st.data - {slot}
                         else st.data[slot := List(Window(items, start, stop))]
  {
    var effect := LtrimEffect(p, config, slot.key, start, stop, now, slot.db, st);
    var items := st.data[slot].items;
    if TrimPanics(p, |items|, start, stop) {
      ApplyOne(st, effect.ops[0].to);
    } else {
      ApplyTwo(st, effect.ops[0].to, slot, now);
      assert st.data[slot := List(Window(items, start, stop))] - {slot} == st.data - {slot};
    }
  }

  /** On anything else it returns and the key counts as updated: an expired key goes, and so does a value
      that counts as empty. */
  lemma LtrimOther(p: Profile, config: Config, st: Keyspace, slot: Slot, start: int, stop: int, now: int)
    requires Get(st, slot, now) == None || !st.data[slot].List?
    ensures var effect := LtrimEffect(p, config, slot.key, start, stop, now, slot.db, st);
      var after := ApplyDbOps(st, effect.ops);
      && effect.touches && effect.ending == Returns && after.watched == st.watched - {slot}
      && after.data == if Get(st, slot, now) == None || IsEmpty(st.data[slot]) then st.data - {slot} else st.data
  {
    var to := if IsExpired(st, slot, now) then Spec.Remove(st, slot, now) else UpdateLru(st, config, slot, now);
    assert LtrimEffect(p, config, slot.key, start, stop, now, slot.db, st)
        == Effect([Write(to), Updated(slot, now)], true, Returns);
    ApplyTwo(st, to, slot, now);
    UpdatedKey(to.(watched := st.watched), slot, now);
  }

  lemma UpdatedKey(st: Keyspace, slot: Slot, now: int)
    ensures var after := Spec.KeyUpdated(st, slot, now);
      && after.watched == st.watched - {slot}
      && after.data == if slot in st.data && IsEmpty(st.data[slot]) then st.data - {slot} else st.data
    ensures slot !in st.data ==> st.data - {slot} == st.data
  {
  }
}
