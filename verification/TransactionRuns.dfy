/** Runs of interleaved clients: EXEC runs its queue exactly when no watched key was updated. */
module TransactionRuns {
  import opened Machine
  import opened ByteStrings
  import opened Keyspace
  import opened TransactionSpec
  import Spec = Keyspace

  // ----- Single commands -----------------------------------------------------------

  lemma {:induction false} WatchAllRegisters(st: Keyspace, slots: seq<Slot>, client: nat)
    ensures var after := WatchAll(st, slots, client);
      && after == st.(watched := after.watched)
      && forall slot: Slot, id: nat :: KeyWatchVerify(after, slot, id)
           <==> KeyWatchVerify(st, slot, id) || (id == client && slot in slots)
    decreases slots
  {
    if slots != [] {
      var next := Spec.KeyWatch(st, slots[0], client);
      WatchAllRegisters(next, slots[1..], client);
      assert forall slot :: slot in slots <==> slot == slots[0] || slot in slots[1..];
    }
  }

  /** WATCH puts every named key of the selected database under watch, on both sides, and changes
      nothing else. */
  lemma WatchRegisters(s: Settings, keys: seq<Bytes>, db: Keyspace, client: ClientState)
    requires QueueOk(client) && client.auth && !client.multi && client.dbindex < s.databases && keys != []
    ensures var ran := Command(s, Watch(keys), db, client);
      && ran.response == Status
      && ran.client == client.(watchedKeys := client.watchedKeys + set k | k in keys :: Slot(client.dbindex, k))
      && ran.db == db.(watched := ran.db.watched)
      && (forall slot: Slot, id: nat :: KeyWatchVerify(ran.db, slot, id)
           <==> KeyWatchVerify(db, slot, id)
                || (id == client.id && slot.db == client.dbindex && slot.key in keys))
      && (forall k | k in keys ::
            var slot := Slot(client.dbindex, k); slot in ran.db.watched && client.id in ran.db.watched[slot])
  {
    var slots := Slots(client.dbindex, keys);
    forall slot
      ensures slot in slots <==> slot.db == client.dbindex && slot.key in keys
    {
      if slot.db == client.dbindex && slot.key in keys {
        var i :| 0 <= i < |keys| && keys[i] == slot.key;
        assert slots[i] == slot;
      }
    }
    assert (set x | x in slots) == set k | k in keys :: Slot(client.dbindex, k) by {
      forall k | k in keys ensures Slot(client.dbindex, k) in slots { }
    }
    WatchAllRegisters(db, slots, client.id);
    var after := WatchAll(db, slots, client.id);
    assert Command(s, Watch(keys), db, client).db == after;
    forall k | k in keys
      ensures KeyWatchVerify(after, Slot(client.dbindex, k), client.id)
    {
    }
  }

  /** The other commands about transactions, by the state of the client. */
  lemma TransactionCommands(s: Settings, db: Keyspace, client: ClientState, keys: seq<Bytes>, extra: nat)
    requires QueueOk(client) && client.auth
    ensures Command(s, Unwatch(extra), db, client)
      == if client.multi || extra > 0 then Ran(db, client, Error) else Ran(db, client.(watchedKeys := {}), Status)
    ensures client.multi ==> Command(s, Watch(keys), db, client) == Ran(db, client, Error)
    ensures Command(s, Watch([]), db, client) == Ran(db, client, Error)
    ensures Command(s, Multi, db, client)
      == if client.multi then Ran(db, client, Error) else Ran(db, client.(multi := true), Status)
    ensures !client.multi ==>
      Command(s, Exec, db, client) == Command(s, Discard, db, client) == Ran(db, client, Error)
    ensures client.multi ==>
      Command(s, Discard, db, client) == Ran(db, client.(multi := false, queue := [], watchedKeys := {}), Status)
  {
  }

  /** Without the password a client is refused everything but AUTH, which grants exactly the
      password; without a password to ask for, every command is let in and AUTH refused. */
  lemma Authentication(s: Settings, r: Request, db: Keyspace, client: ClientState, word: Option<string>)
    requires QueueOk(client)
    ensures s.requirepass.Some? && !client.auth && !r.Auth? && !r.Empty? ==>
      Command(s, r, db, client) == Ran(db, client, Error)
    ensures s.requirepass.Some? ==>
      Command(s, Auth(word), db, client)
        == if word == s.requirepass then Ran(db, client.(auth := true), Status) else Ran(db, client, Error)
    ensures s.requirepass.None? ==> Command(s, Auth(word), db, client) == Ran(db, client.(auth := true), Error)
    ensures s.requirepass.None? && !r.Empty? && !r.Unknown? ==>
      Command(s, r, db, client) == Command(s, r, db, client.(auth := true))
  {
  }

  /** Every other command outside MULTI does what its handler says and ends as it ends; it panics without
      doing anything when it looks into a database that is not there. */
  lemma OtherRuns(s: Settings, body: nat, db: Keyspace, client: ClientState)
    requires QueueOk(client) && client.auth && !client.multi
    ensures var effect := s.handler(body, client.dbindex, db);
      Command(s, Request.Other(body), db, client)
        == if effect.touches && client.dbindex >= s.databases then Ran(db, client, Crash)
           else Ran(ApplyDbOps(db, effect.ops), client,
                    if effect.ending.Blocks? then Waits else if effect.ending.Unwinds? then Crash else Reply(body))
  {
  }

  /** A command about subscriptions gives no reply here, unless it is a SUBSCRIBE to nothing. */
  lemma SubscriptionsReplyElsewhere(s: Settings, channels: nat, db: Keyspace, client: ClientState)
    requires QueueOk(client) && client.auth && !client.multi
    ensures Command(s, Subscribe(channels), db, client) == Ran(db, client, if channels == 0 then Error else NoReply)
    ensures Command(s, Unsubscribe(channels), db, client) == Ran(db, client, NoReply)
    ensures Command(s, Empty, db, client) == Ran(db, client, NoReply)
    ensures Command(s, Unknown, db, client) == Ran(db, client, Error)
  {
  }

  /** SELECT outside MULTI: which index is refused, and what it selects otherwise. */
  lemma SelectSets(s: Settings, index: Option<I64>, db: Keyspace, client: ClientState)
    requires QueueOk(client) && client.auth && !client.multi
    ensures var ran := Command(s, Select(index), db, client);
      if index.Some? && 0 <= index.value <= s.databases then
        ran == Ran(db, client.(dbindex := index.value), Status)
      else ran == Ran(db, client, Error)
  {
  }

  // ----- What a command does to the keyspace ---------------------------------------

  /** The operations that a command carries out; WATCH is not among them. */
  function Executed(s: Settings, r: Request, db: Keyspace, client: ClientState): seq<DbOp>
    requires QueueOk(client)
    decreases if r.Exec? then 1 else 0, 0
  {
    var c := Unlocked(s, client);
    if !c.auth then []
    else if r.Exec? then
      if c.multi && AllVerified(db, c) then QueueExecuted(s, c.queue, db, Idle(c)) else []
    else if r.Other? && !c.multi then
      var effect := s.handler(r.body, c.dbindex, db);
      if effect.touches && c.dbindex >= s.databases then [] else effect.ops
    else []
  }

  function QueueExecuted(s: Settings, queue: seq<Request>, db: Keyspace, client: ClientState): seq<DbOp>
    requires QueueOk(client) && !client.multi && AllQueueable(queue)
    decreases 0, 1 + |queue|
  {
    if queue == [] then []
    else
      var first := Command(s, queue[0], db, client);
      Executed(s, queue[0], db, client)
      + if EndsExec(first.response) then [] else QueueExecuted(s, queue[1..], first.db, first.client)
  }

  lemma {:induction false} ApplyConcat(st: Keyspace, a: seq<DbOp>, b: seq<DbOp>)
    ensures ApplyDbOps(st, a + b) == ApplyDbOps(ApplyDbOps(st, a), b)
    decreases a
  {
    if a == [] {
      assert a + b == b;
    } else {
      ApplyConcat(ApplyDbOp(st, a[0]), a[1..], b);
      assert (a + b)[0] == a[0] && (a + b)[1..] == a[1..] + b;
    }
  }

  lemma {:induction false} CommandExecutes(s: Settings, r: Request, db: Keyspace, client: ClientState)
    requires QueueOk(client) && !r.Watch?
    ensures Command(s, r, db, client).db == ApplyDbOps(db, Executed(s, r, db, client))
    decreases if r.Exec? then 1 else 0, 0
  {
    var c := Unlocked(s, client);
    if r.Exec? && c.auth && c.multi && AllVerified(db, c) {
      QueueExecutes(s, c.queue, db, Idle(c));
    }
  }

  lemma {:induction false} QueueExecutes(s: Settings, queue: seq<Request>, db: Keyspace, client: ClientState)
    requires QueueOk(client) && !client.multi && AllQueueable(queue)
    ensures RunQueue(s, queue, db, client).db == ApplyDbOps(db, QueueExecuted(s, queue, db, client))
    decreases 0, 1 + |queue|
  {
    if queue != [] {
      var first, ops := Command(s, queue[0], db, client), Executed(s, queue[0], db, client);
      CommandExecutes(s, queue[0], db, client);
      if EndsExec(first.response) {
        assert ops + [] == ops;
      } else {
        QueueExecutes(s, queue[1..], first.db, first.client);
        ApplyConcat(db, ops, QueueExecuted(s, queue[1..], first.db, first.client));
      }
    }
  }

  /** `key_updated` is called on the key; emptying a database does so for the keys it holds. */
  predicate OpUpdates(st: Keyspace, op: DbOp, slot: Slot) {
    match op
    case Write(_) => false
    case Updated(s, _) => s == slot
    case Flush(db) => slot.db == db && slot in st.data
  }

  predicate OpsUpdate(st: Keyspace, ops: seq<DbOp>, slot: Slot)
    decreases ops
  {
    ops != [] && (OpUpdates(st, ops[0], slot) || OpsUpdate(ApplyDbOp(st, ops[0]), ops[1..], slot))
  }

  /** Operations end exactly the watches on the keys that they update. */
  lemma {:induction false} OpsEndWatches(st: Keyspace, ops: seq<DbOp>, slot: Slot, id: nat)
    ensures KeyWatchVerify(ApplyDbOps(st, ops), slot, id) <==> KeyWatchVerify(st, slot, id) && !OpsUpdate(st, ops, slot)
    decreases ops
  {
    if ops != [] {
      OpsEndWatches(ApplyDbOp(st, ops[0]), ops[1..], slot, id);
    }
  }

  // ----- Interleaved runs ----------------------------------------------------------

  /** A panic under the lock on the database poisons it for good. */
  datatype World = World(db: Keyspace, clients: map<nat, ClientState>, poisoned: bool)

  /** Clients come, go and send requests in any order; in between the server may expire or evict
      keys on its own.  The settings may differ from one step to the next. */
  datatype Move = Connect(id: nat) | Leave(id: nat) | Send(id: nat, settings: Settings, request: Request)
                | Background(ops: seq<DbOp>)

  predicate ClientsOk(clients: map<nat, ClientState>) {
    forall id | id in clients :: clients[id].id == id && QueueOk(clients[id])
  }

  function Step(w: World, m: Move): World
    requires ClientsOk(w.clients)
  {
    match m
    case Connect(id) => if id in w.clients then w else w.(clients := w.clients[id := NewClient(id)])
    case Leave(id) => w.(clients := w.clients - {id})
    case Send(id, settings, request) =>
      if id !in w.clients then w
      else if w.poisoned then w.(clients := w.clients - {id})
      else
        var ran := Command(settings, request, w.db, w.clients[id]);
        var others := w.clients - {id};
        World(ran.db, if ran.response.Crash? then others else others[id := ran.client], ran.response.Crash?)
    case Background(ops) => if w.poisoned then w else w.(db := ApplyDbOps(w.db, ops))
  }

  ghost predicate Initial(w: World) {
    w.clients == map[] && w.db.watched == map[] && !w.poisoned
  }

  /** In every reachable state a client's queue is empty outside MULTI and holds no command about
      transactions. */
  function Run(start: World, moves: seq<Move>): (w: World)
    requires ClientsOk(start.clients)
    ensures ClientsOk(w.clients)
  {
    if moves == [] then start else Step(Run(start, moves[..|moves| - 1]), moves[|moves| - 1])
  }

  // ----- What a move does to watches -----------------------------------------------

  /** The request of a connected client is carried out. */
  predicate Runs(w: World, m: Move) {
    m.Send? && m.id in w.clients && !w.poisoned && Unlocked(m.settings, w.clients[m.id]).auth
  }

  /** The client `id` sends a WATCH that names the key. */
  predicate Watches(w: World, m: Move, id: nat, slot: Slot) {
    Runs(w, m) && m.id == id && m.request.Watch? && !w.clients[id].multi
    && slot.db == w.clients[id].dbindex < m.settings.databases && slot.key in m.request.keys
  }

  /** The client `id` sends UNWATCH, DISCARD or EXEC where it is answered, or is new. */
  predicate Drains(w: World, m: Move, id: nat) {
    (m == Connect(id) && id !in w.clients)
    || (Runs(w, m) && m.id == id
        && if w.clients[id].multi then m.request.Exec? || m.request.Discard? else m.request == Unwatch(0))
  }

  /** Somebody's command, or the server by itself, updates the key. */
  predicate Updates(w: World, m: Move, slot: Slot)
    requires ClientsOk(w.clients)
  {
    match m
    case Send(id, settings, request) =>
      id in w.clients && !w.poisoned && OpsUpdate(w.db, Executed(settings, request, w.db, w.clients[id]), slot)
    case Background(ops) => !w.poisoned && OpsUpdate(w.db, ops, slot)
    case _ => false
  }

  lemma CommandWatchSet(s: Settings, r: Request, db: Keyspace, client: ClientState)
    requires QueueOk(client)
    ensures var c := Unlocked(s, client);
      var drained := c.auth && if c.multi then r.Exec? || r.Discard? else r == Unwatch(0);
      var added := c.auth && !c.multi && r.Watch? && c.dbindex < s.databases;
      Command(s, r, db, client).client.watchedKeys
        == if drained then {}
           else if added then c.watchedKeys + set k | k in r.keys :: Slot(c.dbindex, k)
           else c.watchedKeys
  {
    var c := Unlocked(s, client);
    if c.auth && !c.multi && r.Watch? && c.dbindex < s.databases {
      if r.keys == [] {
        assert c.watchedKeys + (set k | k in r.keys :: Slot(c.dbindex, k)) == c.watchedKeys;
      } else {
        WatchRegisters(s, r.keys, db, c);
      }
    }
  }

  /** The watch set of a client after a move. */
  lemma StepWatchSet(w: World, m: Move, id: nat, slot: Slot)
    requires ClientsOk(w.clients) && id in Step(w, m).clients
    ensures slot in Step(w, m).clients[id].watchedKeys
      <==> Watches(w, m, id, slot)
           || (id in w.clients && slot in w.clients[id].watchedKeys && !Drains(w, m, id))
  {
    if m.Send? && m.id == id && id in w.clients && !w.poisoned {
      CommandWatchSet(m.settings, m.request, w.db, w.clients[id]);
    }
  }

  /** Whether the database still knows a watch after a move. */
  lemma StepVerify(w: World, m: Move, id: nat, slot: Slot)
    requires ClientsOk(w.clients)
    ensures KeyWatchVerify(Step(w, m).db, slot, id)
      <==> Watches(w, m, id, slot) || (KeyWatchVerify(w.db, slot, id) && !Updates(w, m, slot))
  {
    if m.Send? && m.id in w.clients && !w.poisoned {
      SendVerify(m.settings, m.request, w.db, w.clients[m.id], id, slot);
    } else if m.Background? && !w.poisoned {
      OpsEndWatches(w.db, m.ops, slot, id);
    }
  }

  lemma SendVerify(s: Settings, r: Request, db: Keyspace, client: ClientState, id: nat, slot: Slot)
    requires QueueOk(client)
    ensures var c := Unlocked(s, client);
      var added := c.auth && !c.multi && r.Watch? && slot.db == c.dbindex < s.databases && slot.key in r.keys;
      KeyWatchVerify(Command(s, r, db, client).db, slot, id)
      <==> (added && id == client.id)
           || (KeyWatchVerify(db, slot, id) && !OpsUpdate(db, Executed(s, r, db, client), slot))
  {
    var c := Unlocked(s, client);
    if !r.Watch? {
      CommandExecutes(s, r, db, client);
      OpsEndWatches(db, Executed(s, r, db, client), slot, id);
    } else if c.auth && !c.multi && c.dbindex < s.databases && r.keys != [] {
      WatchRegisters(s, r.keys, db, c);
    }
  }

  // ----- Watches over a run --------------------------------------------------------

  /** The state in which the i-th move is made. */
  function Before(start: World, moves: seq<Move>, i: nat): (w: World)
    requires ClientsOk(start.clients) && i <= |moves|
    ensures ClientsOk(w.clients)
  {
    Run(start, moves[..i])
  }

  /** The i-th move is a WATCH of the key by the client. */
  predicate WatchesAt(start: World, moves: seq<Move>, i: nat, id: nat, slot: Slot)
    requires ClientsOk(start.clients)
  {
    i < |moves| && Watches(Before(start, moves, i), moves[i], id, slot)
  }

  predicate UpdatesAt(start: World, moves: seq<Move>, i: nat, slot: Slot)
    requires ClientsOk(start.clients)
  {
    i < |moves| && Updates(Before(start, moves, i), moves[i], slot)
  }

  predicate DrainsAt(start: World, moves: seq<Move>, i: nat, id: nat)
    requires ClientsOk(start.clients)
  {
    i < |moves| && Drains(Before(start, moves, i), moves[i], id)
  }

  /** The i-th move watched the key and the client has not unwatched since. */
  ghost predicate HeldSince(start: World, moves: seq<Move>, i: nat, id: nat, slot: Slot)
    requires ClientsOk(start.clients)
  {
    WatchesAt(start, moves, i, id, slot) && forall j: nat :: i < j ==> !DrainsAt(start, moves, j, id)
  }

  /** The i-th move watched the key, and the key has not been updated since. */
  ghost predicate QuietSince(start: World, moves: seq<Move>, i: nat, id: nat, slot: Slot)
    requires ClientsOk(start.clients)
  {
    WatchesAt(start, moves, i, id, slot) && forall j: nat :: i < j ==> !UpdatesAt(start, moves, j, slot)
  }

  /** The client watches the key. */
  ghost predicate Watching(start: World, moves: seq<Move>, id: nat, slot: Slot)
    requires ClientsOk(start.clients)
  {
    exists i: nat :: HeldSince(start, moves, i, id, slot)
  }

  /** The client watched the key, and the key has not been updated after that. */
  ghost predicate Current(start: World, moves: seq<Move>, id: nat, slot: Slot)
    requires ClientsOk(start.clients)
  {
    exists i: nat :: QuietSince(start, moves, i, id, slot)
  }

  /** Someone updated the key after the client's latest WATCH of it. */
  ghost predicate UpdatedSinceWatch(start: World, moves: seq<Move>, id: nat, slot: Slot)
    requires ClientsOk(start.clients)
  {
    exists i: nat ::
      UpdatesAt(start, moves, i, slot) && forall j: nat :: i < j ==> !WatchesAt(start, moves, j, id, slot)
  }

  /** Earlier moves are made in the same states when one more move follows. */
  lemma MoreMoves(start: World, moves: seq<Move>, m: Move, i: nat, id: nat, slot: Slot)
    requires ClientsOk(start.clients)
    ensures var more, w := moves + [m], Run(start, moves);
      && (WatchesAt(start, more, i, id, slot)
          <==> WatchesAt(start, moves, i, id, slot) || (i == |moves| && Watches(w, m, id, slot)))
      && (UpdatesAt(start, more, i, slot)
          <==> UpdatesAt(start, moves, i, slot) || (i == |moves| && Updates(w, m, slot)))
      && (DrainsAt(start, more, i, id) <==> DrainsAt(start, moves, i, id) || (i == |moves| && Drains(w, m, id)))
  {
    var more := moves + [m];
    if i < |moves| {
      assert more[..i] == moves[..i] && more[i] == moves[i];
    } else if i == |moves| {
      assert more[..i] == moves && more[i] == m;
    }
  }

  lemma HeldNext(start: World, moves: seq<Move>, m: Move, i: nat, id: nat, slot: Slot)
    requires ClientsOk(start.clients)
    ensures var w := Run(start, moves);
      HeldSince(start, moves + [m], i, id, slot)
      <==> (HeldSince(start, moves, i, id, slot) && !Drains(w, m, id)) || (i == |moves| && Watches(w, m, id, slot))
  {
    MoreMoves(start, moves, m, i, id, slot);
    forall j: nat
      ensures DrainsAt(start, moves + [m], j, id)
        <==> DrainsAt(start, moves, j, id) || (j == |moves| && Drains(Run(start, moves), m, id))
    {
      MoreMoves(start, moves, m, j, id, slot);
    }
    assert !DrainsAt(start, moves, |moves|, id);
  }

  lemma QuietNext(start: World, moves: seq<Move>, m: Move, i: nat, id: nat, slot: Slot)
    requires ClientsOk(start.clients)
    ensures var w := Run(start, moves);
      QuietSince(start, moves + [m], i, id, slot)
      <==> (QuietSince(start, moves, i, id, slot) && !Updates(w, m, slot)) || (i == |moves| && Watches(w, m, id, slot))
  {
    MoreMoves(start, moves, m, i, id, slot);
    forall j: nat
      ensures UpdatesAt(start, moves + [m], j, slot)
        <==> UpdatesAt(start, moves, j, slot) || (j == |moves| && Updates(Run(start, moves), m, slot))
    {
      MoreMoves(start, moves, m, j, id, slot);
    }
    assert !UpdatesAt(start, moves, |moves|, slot);
  }

  lemma WatchingNext(start: World, moves: seq<Move>, m: Move, id: nat, slot: Slot)
    requires ClientsOk(start.clients)
    ensures var w := Run(start, moves);
      Watching(start, moves + [m], id, slot)
      <==> Watches(w, m, id, slot) || (Watching(start, moves, id, slot) && !Drains(w, m, id))
  {
    forall i: nat
      ensures HeldSince(start, moves + [m], i, id, slot)
        <==> (HeldSince(start, moves, i, id, slot) && !Drains(Run(start, moves), m, id))
             || (i == |moves| && Watches(Run(start, moves), m, id, slot))
    {
      HeldNext(start, moves, m, i, id, slot);
    }
    assert HeldSince(start, moves + [m], |moves|, id, slot) || !Watches(Run(start, moves), m, id, slot);
  }

  lemma CurrentNext(start: World, moves: seq<Move>, m: Move, id: nat, slot: Slot)
    requires ClientsOk(start.clients)
    ensures var w := Run(start, moves);
      Current(start, moves + [m], id, slot)
      <==> Watches(w, m, id, slot) || (Current(start, moves, id, slot) && !Updates(w, m, slot))
  {
    forall i: nat
      ensures QuietSince(start, moves + [m], i, id, slot)
        <==> (QuietSince(start, moves, i, id, slot) && !Updates(Run(start, moves), m, slot))
             || (i == |moves| && Watches(Run(start, moves), m, id, slot))
    {
      QuietNext(start, moves, m, i, id, slot);
    }
    assert QuietSince(start, moves + [m], |moves|, id, slot) || !Watches(Run(start, moves), m, id, slot);
  }

  /** After every run, both sides know exactly the watches that the moves made and did not end. */
  lemma {:induction false} WatchesAfterRun(start: World, moves: seq<Move>, id: nat, slot: Slot)
    requires Initial(start)
    ensures var w := Run(start, moves);
      && (id in w.clients ==> (slot in w.clients[id].watchedKeys <==> Watching(start, moves, id, slot)))
      && (KeyWatchVerify(w.db, slot, id) <==> Current(start, moves, id, slot))
  {
    if moves != [] {
      var front, m := moves[..|moves| - 1], moves[|moves| - 1];
      WatchesAfterRun(start, front, id, slot);
      assert moves == front + [m];
      WatchingNext(start, front, m, id, slot);
      CurrentNext(start, front, m, id, slot);
      var w := Run(start, front);
      StepVerify(w, m, id, slot);
      if id in Step(w, m).clients {
        StepWatchSet(w, m, id, slot);
      }
    }
  }

  lemma LatestWatch(start: World, moves: seq<Move>, id: nat, slot: Slot, i: nat) returns (last: nat)
    requires ClientsOk(start.clients) && WatchesAt(start, moves, i, id, slot)
    ensures i <= last && WatchesAt(start, moves, last, id, slot)
    ensures forall j: nat :: last < j ==> !WatchesAt(start, moves, j, id, slot)
  {
    last := i;
    for k := i + 1 to |moves|
      invariant i <= last < k && WatchesAt(start, moves, last, id, slot)
      invariant forall j: nat :: last < j < k ==> !WatchesAt(start, moves, j, id, slot)
    {
      if WatchesAt(start, moves, k, id, slot) { last := k; }
    }
  }

  lemma CurrentIsNotUpdated(start: World, moves: seq<Move>, id: nat, slot: Slot, k: nat)
    requires ClientsOk(start.clients) && QuietSince(start, moves, k, id, slot)
    ensures !UpdatedSinceWatch(start, moves, id, slot)
  {
    WatchIsNoUpdate(Before(start, moves, k), moves[k], id, slot);
    forall u: nat | UpdatesAt(start, moves, u, slot)
      ensures exists j: nat :: u < j && WatchesAt(start, moves, j, id, slot)
    {
      assert u < k;
    }
  }

  lemma NotCurrentIsUpdated(start: World, moves: seq<Move>, id: nat, slot: Slot, i: nat)
    requires ClientsOk(start.clients) && WatchesAt(start, moves, i, id, slot) && !Current(start, moves, id, slot)
    ensures UpdatedSinceWatch(start, moves, id, slot)
  {
    var last := LatestWatch(start, moves, id, slot, i);
    assert !QuietSince(start, moves, last, id, slot);
    var j: nat :| last < j && UpdatesAt(start, moves, j, slot);
  }

  /** For a key under watch, being current means not being updated since the latest WATCH. */
  lemma CurrentMeansNotUpdated(start: World, moves: seq<Move>, id: nat, slot: Slot)
    requires ClientsOk(start.clients) && Watching(start, moves, id, slot)
    ensures Current(start, moves, id, slot) <==> !UpdatedSinceWatch(start, moves, id, slot)
  {
    if Current(start, moves, id, slot) {
      var k: nat :| QuietSince(start, moves, k, id, slot);
      CurrentIsNotUpdated(start, moves, id, slot, k);
    } else {
      var i: nat :| HeldSince(start, moves, i, id, slot);
      NotCurrentIsUpdated(start, moves, id, slot, i);
    }
  }

  lemma WatchIsNoUpdate(w: World, m: Move, id: nat, slot: Slot)
    requires ClientsOk(w.clients) && Watches(w, m, id, slot)
    ensures !Updates(w, m, slot)
  {
  }

  /** Some key that the client watches was updated, by anyone, since the client's latest WATCH of it. */
  ghost predicate Stale(start: World, moves: seq<Move>, id: nat)
    requires ClientsOk(start.clients)
  {
    exists slot :: Watching(start, moves, id, slot) && UpdatedSinceWatch(start, moves, id, slot)
  }

  /** After every run that has not poisoned the database, EXEC answers nil and does nothing if a
      watched key is stale; otherwise it runs the queue. */
  lemma ExecRunsIffNotStale(start: World, moves: seq<Move>, id: nat, settings: Settings)
    requires Initial(start) && id in Run(start, moves).clients && !Run(start, moves).poisoned
    ensures var w := Run(start, moves);
      var c := Unlocked(settings, w.clients[id]);
      var ran := Command(settings, Exec, w.db, w.clients[id]);
      && (ran.response.Error? <==> !c.auth || !c.multi)
      && (ran.response.Error? ==> ran.db == w.db && ran.client == c)
      && (ran.response.NilReply? <==> c.auth && c.multi && Stale(start, moves, id))
      && (ran.response.NilReply? ==>
            ran.db == w.db && ran.client == c.(multi := false, queue := [], watchedKeys := {}))
      && (c.auth && c.multi && !Stale(start, moves, id) ==> ran == RunQueue(settings, c.queue, w.db, Idle(c)))
  {
    var w := Run(start, moves);
    forall slot: Slot
      ensures slot in w.clients[id].watchedKeys <==> Watching(start, moves, id, slot)
      ensures slot in w.clients[id].watchedKeys ==>
        (KeyWatchVerify(w.db, slot, id) <==> !UpdatedSinceWatch(start, moves, id, slot))
    {
      WatchesAfterRun(start, moves, id, slot);
      if Watching(start, moves, id, slot) { CurrentMeansNotUpdated(start, moves, id, slot); }
    }
  }

  // ----- Transactions against plain sequences --------------------------------------

  datatype Series = Series(db: Keyspace, client: ClientState, responses: seq<Response>) {
    function Prefixed(front: seq<Response>): Series {
      this.(responses := front + responses)
    }

    /** What follows does not run after a panic. */
    function Then(next: Series): Series {
      if Unwound() then this else next.Prefixed(responses)
    }

    lemma PrefixedThen(r: Response, next: Series)
      requires !r.Crash?
      ensures Prefixed([r]).Then(next) == Then(next).Prefixed([r])
    {
      assert Prefixed([r]).Unwound() <==> Unwound();
      assert [r] + (responses + next.responses) == ([r] + responses) + next.responses;
    }

    /** The last request panicked. */
    predicate Unwound() {
      responses != [] && responses[|responses| - 1].Crash?
    }
  }

  /** A client's requests one after the other, with nobody in between, up to a panic: after that
      the lock is poisoned. */
  function RunEach(s: Settings, rs: seq<Request>, db: Keyspace, client: ClientState): (r: Series)
    requires QueueOk(client)
    ensures QueueOk(r.client) && |r.responses| <= |rs| && (r.Unwound() || |r.responses| == |rs|)
    ensures forall i :: 0 <= i < |r.responses| - 1 ==> !r.responses[i].Crash?
    decreases rs
  {
    if rs == [] then Series(db, client, [])
    else
      var first := Command(s, rs[0], db, client);
      if first.response.Crash? then Series(first.db, first.client, [Crash])
      else RunEach(s, rs[1..], first.db, first.client).Prefixed([first.response])
  }

  lemma RunOne(s: Settings, r: Request, db: Keyspace, client: ClientState)
    requires QueueOk(client)
    ensures var ran := Command(s, r, db, client);
      RunEach(s, [r], db, client) == Series(ran.db, ran.client, [ran.response])
  {
    var ran := Command(s, r, db, client);
    assert RunEach(s, [], ran.db, ran.client) == Series(ran.db, ran.client, []);
  }

  lemma {:induction false} RunEachConcat(s: Settings, a: seq<Request>, b: seq<Request>, db: Keyspace,
                                         client: ClientState)
    requires QueueOk(client)
    ensures var front := RunEach(s, a, db, client);
      RunEach(s, a + b, db, client) == front.Then(RunEach(s, b, front.db, front.client))
    decreases a
  {
    if a == [] {
      assert a + b == b;
    } else {
      var first := Command(s, a[0], db, client);
      assert (a + b)[0] == a[0] && (a + b)[1..] == a[1..] + b;
      if !first.response.Crash? {
        RunEachConcat(s, a[1..], b, first.db, first.client);
        var front := RunEach(s, a[1..], first.db, first.client);
        front.PrefixedThen(first.response, RunEach(s, b, front.db, front.client));
      }
    }
  }

  function Queueds(n: nat): seq<Response> {
    seq(n, _ => Queued)
  }

  /** Inside MULTI, commands pile up and nothing happens to the database. */
  lemma {:induction false} QueueingChangesNothing(s: Settings, rs: seq<Request>, db: Keyspace, client: ClientState)
    requires QueueOk(client) && client.multi && client.auth && AllQueueable(rs)
    ensures RunEach(s, rs, db, client) == Series(db, client.(queue := client.queue + rs), Queueds(|rs|))
    decreases rs
  {
    if rs == [] {
      assert client.queue + rs == client.queue;
    } else {
      var next := client.(queue := client.queue + [rs[0]]);
      assert Command(s, rs[0], db, client) == Ran(db, next, Queued);
      QueueingChangesNothing(s, rs[1..], db, next);
      assert next.queue + rs[1..] == client.queue + rs;
      assert [Queued] + Queueds(|rs| - 1) == Queueds(|rs|);
    }
  }

  /** Some result is an `Err`. */
  ghost predicate AnyErr(responses: seq<Response>) {
    exists i :: 0 <= i < |responses| && IsErr(responses[i])
  }

  lemma AnyErrHead(first: Response, rest: seq<Response>)
    ensures AnyErr([first] + rest) <==> IsErr(first) || AnyErr(rest)
  {
    var all := [first] + rest;
    assert all[0] == first && forall i :: 0 <= i < |rest| ==> all[i + 1] == rest[i];
    if AnyErr(rest) {
      var i :| 0 <= i < |rest| && IsErr(rest[i]);
      assert IsErr(all[i + 1]);
    }
    forall i | 0 <= i < |all| && IsErr(all[i])
      ensures IsErr(first) || AnyErr(rest)
    {
      if i > 0 { assert IsErr(rest[i - 1]); }
    }
  }

  /** Against the commands run one by one: EXEC unwinds exactly when one of them panics or gives an
      `Err`, and if none gives an `Err` it has their effect, also when it unwinds. */
  lemma {:induction false} QueueIsEach(s: Settings, queue: seq<Request>, db: Keyspace, client: ClientState)
    requires QueueOk(client) && !client.multi && AllQueueable(queue)
    ensures var each := RunEach(s, queue, db, client);
      var ran := RunQueue(s, queue, db, client);
      && (ran.response.Crash? <==> AnyErr(each.responses) || each.Unwound())
      && (!AnyErr(each.responses) ==> ran.db == each.db && ran.client == each.client)
      && (!ran.response.Crash? ==> ran.response == Array(each.responses))
    decreases queue
  {
    if queue != [] {
      var first := Command(s, queue[0], db, client);
      if first.response.Crash? {
        AnyErrHead(Crash, []);
        assert [Crash] + [] == [Crash];
      } else {
        var rest := RunEach(s, queue[1..], first.db, first.client);
        AnyErrHead(first.response, rest.responses);
        QueueIsEach(s, queue[1..], first.db, first.client);
      }
    }
  }

  /** MULTI, then commands, then one last request. */
  lemma MultiThen(s: Settings, rs: seq<Request>, last: Request, db: Keyspace, client: ClientState)
    requires QueueOk(client) && !client.multi && client.auth && AllQueueable(rs)
    ensures QueueOk(client.(multi := true, queue := rs))
    ensures var ran := Command(s, last, db, client.(multi := true, queue := rs));
      RunEach(s, [Multi] + rs + [last], db, client)
        == Series(ran.db, ran.client, [Status] + Queueds(|rs|) + [ran.response])
  {
    var started := client.(multi := true);
    var full := started.(queue := rs);
    RunOne(s, Multi, db, client);
    QueueingChangesNothing(s, rs, db, started);
    assert started.queue + rs == rs;
    RunOne(s, last, db, full);
    RunEachConcat(s, [Multi], rs, db, client);
    RunEachConcat(s, [Multi] + rs, [last], db, client);
  }

  /** MULTI, commands, EXEC: with nothing watched, the transaction has the effect of the commands
      and replies with the list of their replies, as long as none of their results is an `Err`.  It
      unwinds exactly when one of the commands panics or gives an `Err`; it unwinds although the
      commands by themselves would not exactly when none of them panics and one gives an `Err`. */
  lemma TransactionIsSequence(s: Settings, rs: seq<Request>, db: Keyspace, client: ClientState)
    requires QueueOk(client) && !client.multi && client.auth && client.watchedKeys == {} && AllQueueable(rs)
    ensures var whole := RunEach(s, [Multi] + rs + [Exec], db, client);
      var plain := RunEach(s, rs, db, client);
      && |whole.responses| == |rs| + 2 && whole.responses[..|rs| + 1] == [Status] + Queueds(|rs|)
      && (whole.Unwound() <==> AnyErr(plain.responses) || plain.Unwound())
      && (whole.Unwound() && !plain.Unwound() <==> AnyErr(plain.responses) && !plain.Unwound())
      && (!AnyErr(plain.responses) ==> whole.db == plain.db && whole.client == plain.client)
      && (!whole.Unwound() ==> whole.responses[|rs| + 1] == Array(plain.responses))
  {
    MultiThen(s, rs, Exec, db, client);
    var full := client.(multi := true, queue := rs);
    assert Idle(full) == client;
    QueueIsEach(s, rs, db, client);
  }

  /** MULTI, SUBSCRIBE with a channel, EXEC unwinds, although nothing waits. */
  lemma SubscribeUnwindsExec(s: Settings, db: Keyspace, client: ClientState, channels: nat)
    requires QueueOk(client) && !client.multi && client.auth && client.watchedKeys == {} && channels > 0
    ensures RunEach(s, [Multi] + [Subscribe(channels)] + [Exec], db, client)
      == Series(db, client, [Status, Queued, Crash])
    ensures RunEach(s, [Subscribe(channels)], db, client) == Series(db, client, [NoReply])
  {
    var rs := [Subscribe(channels)];
    var full := client.(multi := true, queue := rs);
    RunOne(s, rs[0], db, client);
    MultiThen(s, rs, Exec, db, client);
    assert Idle(full) == client;
    assert RunQueue(s, rs, db, client).response == Crash;
  }

  /** A command that panics unwinds the EXEC that runs it, having done what it does by itself. */
  lemma PanicUnwindsExec(s: Settings, body: nat, db: Keyspace, client: ClientState)
    requires QueueOk(client) && !client.multi && client.auth && client.watchedKeys == {}
    requires client.dbindex < s.databases && s.handler(body, client.dbindex, db).ending.Unwinds?
    ensures var after := ApplyDbOps(db, s.handler(body, client.dbindex, db).ops);
      && RunEach(s, [Multi] + [Request.Other(body)] + [Exec], db, client)
        == Series(after, client, [Status, Queued, Crash])
      && RunEach(s, [Request.Other(body)], db, client) == Series(after, client, [Crash])
  {
    var rs := [Request.Other(body)];
    RunOne(s, rs[0], db, client);
    MultiThen(s, rs, Exec, db, client);
    assert Idle(client.(multi := true, queue := rs)) == client;
    assert RunQueue(s, rs, db, client).response == Crash;
  }

  /** DISCARD forgets the queue and the watches, and leaves the database alone. */
  lemma DiscardIsNothing(s: Settings, rs: seq<Request>, db: Keyspace, client: ClientState)
    requires QueueOk(client) && !client.multi && client.auth && AllQueueable(rs)
    ensures RunEach(s, [Multi] + rs + [Discard], db, client)
      == Series(db, client.(watchedKeys := {}), [Status] + Queueds(|rs|) + [Status])
  {
    MultiThen(s, rs, Discard, db, client);
  }

  // ----- The database that SELECT lets through -------------------------------------

  /** A client never selects beyond the index `databases`. */
  lemma SelectedIndex(s: Settings, r: Request, db: Keyspace, client: ClientState)
    requires QueueOk(client) && client.dbindex <= s.databases
    ensures Command(s, r, db, client).client.dbindex <= s.databases
  {
    if r.Exec? && AllQueueable(client.queue) {
      QueueSelects(s, client.queue, db, Idle(Unlocked(s, client)));
    }
  }

  lemma {:induction false} QueueSelects(s: Settings, queue: seq<Request>, db: Keyspace, client: ClientState)
    requires QueueOk(client) && !client.multi && AllQueueable(queue) && client.dbindex <= s.databases
    ensures RunQueue(s, queue, db, client).client.dbindex <= s.databases
    decreases queue
  {
    if queue != [] {
      var first := Command(s, queue[0], db, client);
      if !EndsExec(first.response) {
        QueueSelects(s, queue[1..], first.db, first.client);
      }
    }
  }

  /** After a SELECT that is answered with OK, a WATCH panics exactly when the index is `databases`,
      and a command that looks into the database panics exactly then or by itself. */
  lemma SelectThenAccess(s: Settings, index: I64, r: Request, db: Keyspace, client: ClientState)
    requires QueueOk(client) && !client.multi && client.auth && 0 <= index <= s.databases
    requires (r.Watch? && r.keys != []) || (r.Other? && s.handler(r.body, index, db).touches)
    ensures var run := RunEach(s, [Select(Some(index)), r], db, client);
      && |run.responses| == 2 && run.responses[0] == Status
      && (run.Unwound() <==> index == s.databases || (r.Other? && s.handler(r.body, index, db).ending.Unwinds?))
      && (index == s.databases ==> run.db == db)
  {
    var selected := client.(dbindex := index);
    RunOne(s, Select(Some(index)), db, client);
    RunOne(s, r, db, selected);
    assert [Select(Some(index)), r] == [Select(Some(index))] + [r];
    RunEachConcat(s, [Select(Some(index))], [r], db, client);
  }

  /** With 16 databases: SELECT 16 and WATCH of a key. */
  lemma SelectSixteenThenWatch(s: Settings, key: Bytes, db: Keyspace, client: ClientState)
    requires QueueOk(client) && !client.multi && client.auth && s.databases == 16
    ensures RunEach(s, [Select(Some(16)), Watch([key])], db, client)
      == Series(db, client.(dbindex := 16), [Status, Crash])
  {
    SelectThenAccess(s, 16, Watch([key]), db, client);
    var selected := client.(dbindex := 16);
    RunOne(s, Watch([key]), db, selected);
    assert [Select(Some(16)), Watch([key])][1..] == [Watch([key])];
  }
}
