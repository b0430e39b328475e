/** command/src/command.rs: a client's connection, updated in place beside the shared database. */
module Transactions {
  import opened ByteStrings
  import opened Sequences
  import opened Keyspace
  import opened TransactionSpec
  import D = Database
  import Spec = Keyspace

  /** Carries out what a handler decided. */
  method Apply(db: D.Database, ops: seq<DbOp>)
    modifies db
    ensures db.State() == ApplyDbOps(old(db.State()), ops)
    decreases ops
  {
    if ops == [] { return; }
    match ops[0] {
      case Write(to) =>
        db.data, db.expirations, db.lru := to.data, to.expirations, to.lru;
        db.usedMemory, db.usedMemoryPeak, db.evictedKeys := to.usedMemory, to.usedMemoryPeak, to.evictedKeys;
        db.loading := to.loading;
      case Updated(slot, now) => db.KeyUpdated(slot, now);
      case Flush(index) =>
        var now: int := *;
        db.Clear(index, now);
    }
    Apply(db, ops[1..]);
  }

  class Client {
    const id: nat
    var dbindex: nat
    var auth: bool
    var multi: bool
    var multiCommands: seq<Request>
    var watchedKeys: set<Slot>

    constructor (id: nat)
      ensures State() == NewClient(id) && this.id == id
    {
      this.id := id;
      dbindex, auth, multi, multiCommands, watchedKeys := 0, false, false, [], {};
    }

    function State(): ClientState
      reads this
    {
      ClientState(id, dbindex, auth, multi, multiCommands, watchedKeys)
    }

    /** The first key already panics when there is no such database. */
    method Watch(s: Settings, keys: seq<Bytes>, db: D.Database) returns (r: Response)
      modifies this`watchedKeys, db
      ensures r == if keys == [] then Error else if dbindex >= s.databases then Crash else Status
      ensures r.Status? ==>
        && watchedKeys == old(watchedKeys) + Elements(Slots(dbindex, keys))
        && db.State() == WatchAll(old(db.State()), Slots(dbindex, keys), id)
      ensures !r.Status? ==> watchedKeys == old(watchedKeys) && db.State() == old(db.State())
    {
      if keys == [] { return Error; }
      if dbindex >= s.databases { return Crash; }
      var slots := Slots(dbindex, keys);
      for i := 0 to |keys|
        invariant WatchAll(db.State(), slots[i..], id) == WatchAll(old(db.State()), slots, id)
        invariant watchedKeys == old(watchedKeys) + Elements(slots[..i])
      {
        WatchStep(db.State(), slots, i, id);
        var slot := Slot(dbindex, keys[i]);
        db.KeyWatch(slot, id);
        watchedKeys := watchedKeys + {slot};
      }
      assert slots[..|keys|] == slots;
      return Status;
    }

    /** Drains the watch set, in any order, stopping at the first key that was updated: dropping
        the rest of the drain empties the set all the same. */
    method GenericUnwatch(db: D.Database) returns (verified: bool)
      modifies this`watchedKeys
      ensures watchedKeys == {}
      ensures verified <==> AllVerified(db.State(), old(State()))
    {
      var order := Iterate(watchedKeys);
      watchedKeys := {};
      verified := true;
      for i := 0 to |order|
        invariant watchedKeys == {}
        invariant verified && forall j :: 0 <= j < i ==> KeyWatchVerify(db.State(), order[j], id)
      {
        assert order[i] in Elements(order);
        verified := db.KeyWatchVerify(order[i], id);
        if !verified { break; }
      }
      assert verified ==> forall slot | slot in Elements(order) :: KeyWatchVerify(db.State(), slot, id);
    }

    method Discard(db: D.Database) returns (r: Response)
      modifies this`multi, this`multiCommands, this`watchedKeys
      ensures r == if old(multi) then Status else Error
      ensures State() == if old(multi) then Idle(old(State())) else old(State())
    {
      if !multi { return Error; }
      multi := false;
      multiCommands := [];
      var _ := GenericUnwatch(db);
      return Status;
    }

    method Exec(s: Settings, db: D.Database) returns (r: Response)
      requires auth && QueueOk(State())
      modifies this, db
      ensures var ran := Command(s, Request.Exec, old(db.State()), old(State()));
        db.State() == ran.db && State() == ran.client && r == ran.response
      decreases 1, 0
    {
      if !multi { return Error; }
      multi := false;
      var queue := multiCommands;
      multiCommands := [];
      var verified := GenericUnwatch(db);
      if !verified { return NilReply; }
      r := RunAll(s, queue, db);
    }

    /** The commands of an EXEC; the result of each is unwrapped. */
    method RunAll(s: Settings, queue: seq<Request>, db: D.Database) returns (r: Response)
      requires QueueOk(State()) && !multi && AllQueueable(queue)
      modifies this, db
      ensures var ran := RunQueue(s, queue, old(db.State()), old(State()));
        db.State() == ran.db && State() == ran.client && r == ran.response
      decreases 0, 2
    {
      ghost var whole := RunQueue(s, queue, db.State(), State());
      var replies := [];
      for i := 0 to |queue|
        invariant QueueOk(State()) && !multi
        invariant Follows(whole, RunQueue(s, queue[i..], db.State(), State()), replies)
      {
        FollowsNext(s, queue[i..], db.State(), State(), whole, replies);
        assert queue[i..][0] == queue[i] && queue[i..][1..] == queue[i + 1..];
        var reply := ExecuteCommand(s, queue[i], db);
        if EndsExec(reply) { return Crash; }
        replies := replies + [reply];
      }
      return Array(replies);
    }

    method ExecuteCommand(s: Settings, r: Request, db: D.Database) returns (response: Response)
      requires QueueOk(State())
      modifies this, db
      ensures var ran := Command(s, r, old(db.State()), old(State()));
        db.State() == ran.db && State() == ran.client && response == ran.response
      decreases if r.Exec? then 1 else 0, 1
    {
      if r.Empty? { return NoReply; }
      if r.Unknown? { return Error; }
      if s.requirepass.None? { auth := true; }
      if r.Auth? {
        if r.password.Some? && r.password == s.requirepass {
          auth := true;
          return Status;
        }
        return Error;
      }
      if !auth { return Error; }
      if r.Multi? {
        if multi { return Error; }
        multi := true;
        return Status;
      }
      if r.Discard? {
        response := Discard(db);
        return;
      }
      if r.Exec? {
        response := Exec(s, db);
        return;
      }
      if multi {
        if r.Watch? || r.Unwatch? { return Error; }
        multiCommands := multiCommands + [r];
        return Queued;
      }
      if r.Select? {
        if r.index.None? || r.index.value < 0 || r.index.value > s.databases { return Error; }
        dbindex := r.index.value;
        return Status;
      }
      if r.Watch? {
        response := Watch(s, r.keys, db);
        return;
      }
      if r.Unwatch? {
        if r.extra > 0 { return Error; }
        var _ := GenericUnwatch(db);
        return Status;
      }
      if r.Subscribe? { return if r.channels == 0 then Error else NoReply; }
      if r.Unsubscribe? { return NoReply; }
      var effect := s.handler(r.body, dbindex, db.State());
      if effect.touches && dbindex >= s.databases { return Crash; }
      Apply(db, effect.ops);
      return Answer(effect.ending, r.body);
    }
  }

  lemma WatchStep(st: Keyspace, slots: seq<Slot>, i: nat, client: nat)
    requires i < |slots|
    ensures WatchAll(st, slots[i..], client) == WatchAll(Spec.KeyWatch(st, slots[i], client), slots[i + 1..], client)
    ensures Elements(slots[..i + 1]) == Elements(slots[..i]) + {slots[i]}
  {
    assert slots[i..][0] == slots[i] && slots[i..][1..] == slots[i + 1..];
    assert slots[..i + 1] == slots[..i] + [slots[i]];
  }

  /** `whole` is what is left, after these replies. */
  ghost predicate Follows(whole: Ran, rest: Ran, replies: seq<Response>) {
    && whole.db == rest.db && whole.client == rest.client
    && whole.response == if rest.response.Array? then Array(replies + rest.response.replies) else Crash
  }

  lemma FollowsNext(s: Settings, queue: seq<Request>, db: Keyspace, c: ClientState, whole: Ran, replies: seq<Response>)
    requires queue != [] && QueueOk(c) && !c.multi && AllQueueable(queue)
    requires Follows(whole, RunQueue(s, queue, db, c), replies)
    ensures var first := Command(s, queue[0], db, c);
      if EndsExec(first.response) then whole.db == first.db && whole.client == first.client && whole.response == Crash
      else Follows(whole, RunQueue(s, queue[1..], first.db, first.client), replies + [first.response])
  {
    var first := Command(s, queue[0], db, c);
    if !EndsExec(first.response) {
      var rest := RunQueue(s, queue[1..], first.db, first.client);
      if rest.response.Array? {
        var later := rest.response.replies;
        assert replies + ([first.response] + later) == replies + [first.response] + later;
      }
    }
  }
}
