/** command/src/command.rs: WATCH, MULTI, EXEC and DISCARD over one shared database, as values.

    What the other commands do is a parameter: from its request, the selected database and the
    keyspace, a handler decides on a list of database operations. */
module TransactionSpec {
  import opened Machine
  import opened ByteStrings
  import opened Keyspace
  import Spec = Keyspace

  // ----- Handlers ------------------------------------------------------------------

  /** `Write` stands for any change that leaves the watches alone: in the whole repository only
      `key_watch`, `key_updated` and `clear` reach them. */
  datatype DbOp = Write(to: Keyspace) | Updated(slot: Slot, now: int) | Flush(db: nat)

  /** A handler returns a reply, returns the error of a blocking command that finds nothing to pop,
      or panics. */
  datatype Ending = Returns | Blocks | Unwinds

  /** What a handler does, up to where it ends.  `touches` is set when it looks into the selected
      database. */
  datatype Effect = Effect(ops: seq<DbOp>, touches: bool, ending: Ending)

  type Handler = (nat, nat, Keyspace) -> Effect

  function ApplyDbOp(st: Keyspace, op: DbOp): Keyspace {
    match op
    case Write(to) => to.(watched := st.watched)
    case Updated(slot, now) => Spec.KeyUpdated(st, slot, now)
    case Flush(db) => Spec.Clear(st, db)
  }

  function ApplyDbOps(st: Keyspace, ops: seq<DbOp>): Keyspace
    decreases ops
  {
    if ops == [] then st else ApplyDbOps(ApplyDbOp(st, ops[0]), ops[1..])
  }

  // ----- Requests and clients ------------------------------------------------------

  /** `Subscribe` stands for SUBSCRIBE and PSUBSCRIBE, `Unsubscribe` for their opposites; `Other`
      is every known command that is not about transactions, authentication, the selected
      database or subscriptions.  `None` arguments fail to parse; a wrong number of arguments
      counts as that too. */
  datatype Request = Multi | Exec | Discard | Watch(keys: seq<Bytes>) | Unwatch(extra: nat)
                   | Auth(password: Option<string>) | Select(index: Option<I64>)
                   | Subscribe(channels: nat) | Unsubscribe(channels: nat) | Other(body: nat) | Unknown | Empty

  /** `Waits` and `NoReply` are the two kinds of `Err`: a blocking command asks to be called again,
      and the commands about subscriptions answer over another channel.  `Crash` is no result at
      all: the command unwinds. */
  datatype Response = Status | Queued | Error | NilReply | Reply(body: nat) | Array(replies: seq<Response>)
                    | Waits | NoReply | Crash

  datatype Settings = Settings(requirepass: Option<string>, databases: nat, handler: Handler)

  datatype ClientState = ClientState(id: nat, dbindex: nat, auth: bool, multi: bool, queue: seq<Request>,
                                     watchedKeys: set<Slot>)

  function NewClient(id: nat): ClientState {
    ClientState(id, 0, false, false, [], {})
  }

  /** What MULTI lets into the queue. */
  predicate Queueable(r: Request) {
    r.Select? || r.Subscribe? || r.Unsubscribe? || r.Other?
  }

  /** The result is an `Err`. */
  predicate IsErr(r: Response) {
    r.Waits? || r.NoReply?
  }

  /** The result ends an EXEC: it cannot be unwrapped, or there is none. */
  predicate EndsExec(r: Response) {
    IsErr(r) || r.Crash?
  }

  function Answer(ending: Ending, body: nat): Response {
    match ending
    case Returns => Reply(body)
    case Blocks => Waits
    case Unwinds => Crash
  }

  predicate AllQueueable(rs: seq<Request>) {
    forall i :: 0 <= i < |rs| ==> Queueable(rs[i])
  }

  /** The queue is empty outside MULTI and holds no command about transactions. */
  predicate QueueOk(c: ClientState) {
    (!c.multi ==> c.queue == []) && AllQueueable(c.queue)
  }

  // ----- Commands ------------------------------------------------------------------

  datatype Ran = Ran(db: Keyspace, client: ClientState, response: Response)

  function WatchAll(st: Keyspace, slots: seq<Slot>, client: nat): Keyspace
    decreases slots
  {
    if slots == [] then st else WatchAll(Spec.KeyWatch(st, slots[0], client), slots[1..], client)
  }

  function Slots(db: nat, keys: seq<Bytes>): seq<Slot> {
    seq(|keys|, i requires 0 <= i < |keys| => Slot(db, keys[i]))
  }

  /** `generic_unwatch`: whether every watched key still knows the client. */
  predicate AllVerified(st: Keyspace, c: ClientState) {
    forall slot | slot in c.watchedKeys :: KeyWatchVerify(st, slot, c.id)
  }

  /** Out of MULTI, with nothing queued and nothing watched. */
  function Idle(c: ClientState): ClientState {
    c.(multi := false, queue := [], watchedKeys := {})
  }

  function Unlocked(s: Settings, c: ClientState): ClientState {
    if s.requirepass.None? then c.(auth := true) else c
  }

  /** A command outside MULTI.  SELECT lets the index `databases` through, at which there is no
      database: looking into it panics. */
  function RunNow(s: Settings, r: Request, db: Keyspace, c: ClientState): (ran: Ran)
    requires !c.multi && c.auth
    requires Queueable(r) || r.Watch? || r.Unwatch?
    ensures ran.client.id == c.id && !ran.client.multi && ran.client.queue == c.queue && ran.client.auth
    ensures Queueable(r) ==> ran.client.watchedKeys == c.watchedKeys
  {
    match r
    case Select(index) =>
      if index.None? || index.value < 0 || index.value > s.databases then Ran(db, c, Error)
      else Ran(db, c.(dbindex := index.value), Status)
    case Watch(keys) =>
      if keys == [] then Ran(db, c, Error)
      else if c.dbindex >= s.databases then Ran(db, c, Crash)
      else
        var slots := Slots(c.dbindex, keys);
        Ran(WatchAll(db, slots, c.id), c.(watchedKeys := c.watchedKeys + set x | x in slots), Status)
    case Unwatch(extra) =>
      if extra > 0 then Ran(db, c, Error)
      else Ran(db, c.(watchedKeys := {}), Status)
    case Subscribe(channels) => Ran(db, c, if channels == 0 then Error else NoReply)
    case Unsubscribe(_) => Ran(db, c, NoReply)
    case Other(body) =>
      var effect := s.handler(body, c.dbindex, db);
      if effect.touches && c.dbindex >= s.databases then Ran(db, c, Crash)
      else Ran(ApplyDbOps(db, effect.ops), c, Answer(effect.ending, body))
  }

  /** One command, as `command` and `execute_command` run it. */
  function Command(s: Settings, r: Request, db: Keyspace, client: ClientState): (ran: Ran)
    requires QueueOk(client)
    ensures QueueOk(ran.client) && ran.client.id == client.id
    ensures Queueable(r) && !client.multi ==>
      !ran.client.multi && ran.client.watchedKeys == client.watchedKeys && !ran.response.Array?
    decreases if r.Exec? then 1 else 0, 0
  {
    var c := Unlocked(s, client);
    if r.Empty? then Ran(db, client, NoReply)
    else if r.Unknown? then Ran(db, client, Error)
    else if r.Auth? then
      var granted := r.password.Some? && r.password == s.requirepass;
      Ran(db, if granted then c.(auth := true) else c, if granted then Status else Error)
    else if !c.auth then Ran(db, c, Error)
    else if r.Multi? then
      if c.multi then Ran(db, c, Error) else Ran(db, c.(multi := true), Status)
    else if r.Discard? then
      if c.multi then Ran(db, Idle(c), Status) else Ran(db, c, Error)
    else if r.Exec? then
      if !c.multi then Ran(db, c, Error)
      else if !AllVerified(db, c) then Ran(db, Idle(c), NilReply)
      else RunQueue(s, c.queue, db, Idle(c))
    else if c.multi then
      if r.Watch? || r.Unwatch? then Ran(db, c, Error)
      else Ran(db, c.(queue := c.queue + [r]), Queued)
    else RunNow(s, r, db, c)
  }

  /** The queue of an EXEC: each command runs as if it had just come in.  EXEC unwraps the
      results, so the first `Err` unwinds it, as does a command that panics. */
  function RunQueue(s: Settings, queue: seq<Request>, db: Keyspace, client: ClientState): (r: Ran)
    requires QueueOk(client) && !client.multi
    requires AllQueueable(queue)
    ensures QueueOk(r.client) && r.client.id == client.id && !r.client.multi
    ensures r.client.watchedKeys == client.watchedKeys
    ensures r.response.Crash? || (r.response.Array? && |r.response.replies| == |queue|)
    decreases 0, 1 + |queue|
  {
    if queue == [] then Ran(db, client, Array([]))
    else
      var first := Command(s, queue[0], db, client);
      if EndsExec(first.response) then first.(response := Crash)
      else
        var rest := RunQueue(s, queue[1..], first.db, first.client);
        var response := if rest.response.Array? then Array([first.response] + rest.response.replies) else Crash;
        Ran(rest.db, rest.client, response)
  }
}
