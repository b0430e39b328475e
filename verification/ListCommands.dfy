/** command/src/command.rs: RPOPLPUSH, the command that moves an element between lists. */
module ListCommands {
  import opened Machine
  import opened ByteStrings
  import opened Keyspace
  import opened Text
  import opened Database
  import Spec = Keyspace

  type Data = map<Slot, Value>

  /** `Refused` is the error of a push that comes after the pop. */
  datatype Reply = Popped(el: Bytes) | Missing | WrongType | Refused

  predicate NotAList(data: Data, slot: Slot) {
    slot in data && data[slot].Other?
  }

  /** The elements stored under a key; none when there is no list. */
  function Items(data: Data, slot: Slot): seq<Bytes> {
    if slot in data && data[slot].List? then data[slot].items else []
  }

  /** The elements that a client sees. */
  function Seen(st: Keyspace, slot: Slot, now: int): seq<Bytes> {
    if IsExpired(st, slot, now) then [] else Items(st.data, slot)
  }

  // ----- The move itself -----------------------------------------------------------

  /** `data` with other elements under a key, which goes when there are none. */
  function WithItems(data: Data, slot: Slot, items: seq<Bytes>): Data {
    if items == [] then data - {slot} else data[slot := List(items)]
  }

  lemma WithItemsRead(data: Data, slot: Slot, items: seq<Bytes>)
    ensures Items(WithItems(data, slot, items), slot) == items
    ensures forall other | other != slot ::
              (other in WithItems(data, slot, items) <==> other in data)
              && (other in data ==> WithItems(data, slot, items)[other] == data[other])
  {
  }

  /** The last element of one list becomes the first of the other. */
  function MoveLast(data: Data, source: Slot, destination: Slot): Data
    requires Items(data, source) != []
  {
    var items := Items(data, source);
    var front, el := items[..|items| - 1], items[|items| - 1];
    if source == destination then WithItems(data, source, [el] + front)
    else WithItems(WithItems(data, source, front), destination, [el] + Items(data, destination))
  }

  /** No stored element is lost or made, the others keep their order, and no other key is touched. */
  lemma MoveConserves(data: Data, source: Slot, destination: Slot)
    requires Items(data, source) != []
    ensures var after := MoveLast(data, source, destination);
      && (source != destination ==>
            multiset(Items(after, source)) + multiset(Items(after, destination))
              == multiset(Items(data, source)) + multiset(Items(data, destination)))
      && (source == destination ==> multiset(Items(after, source)) == multiset(Items(data, source)))
      && Items(after, destination) != []
      && Items(after, destination)[0] == Items(data, source)[|Items(data, source)| - 1]
      && (source != destination ==>
            Items(after, destination)[1..] == Items(data, destination)
            && Items(after, source) == Items(data, source)[..|Items(data, source)| - 1])
      && (source == destination ==> Items(after, source)[1..] == Items(data, source)[..|Items(data, source)| - 1])
      && (forall slot | slot != source && slot != destination ::
            (slot in after <==> slot in data) && (slot in data ==> after[slot] == data[slot]))
  {
    var items := Items(data, source);
    var front, el := items[..|items| - 1], items[|items| - 1];
    assert items == front + [el];
    if source == destination {
      WithItemsRead(data, source, [el] + front);
    } else {
      WithItemsRead(data, source, front);
      WithItemsRead(WithItems(data, source, front), destination, [el] + Items(data, destination));
      assert Items(WithItems(data, source, front), destination) == Items(data, destination);
    }
  }

  // ----- The command ---------------------------------------------------------------

  /** `pop`. */
  function PopLast(st: Keyspace, slot: Slot): Keyspace
    requires Items(st.data, slot) != []
  {
    var items := Items(st.data, slot);
    st.(data := st.data[slot := List(items[..|items| - 1])])
  }

  /** `get_or_create`, after which the key has a value. */
  function Placed(st: Keyspace, config: Config, slot: Slot, now: int, trace: seq<Eviction>): Keyspace {
    Place(EvictAll(DropDeadline(st, slot, now), trace), config, slot, now)
  }

  /** `push` on the left; a list is made where there was nothing. */
  function PushFirst(st: Keyspace, slot: Slot, el: Bytes): Keyspace {
    st.(data := st.data[slot := List([el] + Items(st.data, slot))])
  }

  ghost predicate Evictions(st: Keyspace, config: Config, slot: Slot, now: int, trace: seq<Eviction>) {
    && AllJustified(DropDeadline(st, slot, now), config, slot.db, EstimateValueSize(Nil, |slot.key|), trace)
    && (slot in st.data ==> trace == [])
  }

  method PushFront(db: Database, slot: Slot, el: Bytes, now: int) returns (ok: bool, ghost trace: seq<Eviction>)
    modifies db
    ensures Evictions(old(db.State()), db.config, slot, now, trace)
    ensures ok <==> !NotAList(old(db.data), slot)
    ensures var placed := Placed(old(db.State()), db.config, slot, now, trace);
      db.State() == if ok then PushFirst(placed, slot, el) else placed
  {
    ghost var st := db.State();
    trace := db.GetOrCreate(slot, now);
    EvictAllKeeps(DropDeadline(st, slot, now), trace, slot);
    if db.data[slot].Other? { return false, trace; }
    db.data := db.data[slot := List([el] + Items(db.data, slot))];
    return true, trace;
  }

  /** The state after a move. */
  function Moved(st: Keyspace, config: Config, source: Slot, destination: Slot, now: int, trace: seq<Eviction>)
    : Keyspace
    requires Items(st.data, source) != []
  {
    var el := Items(st.data, source)[|Items(st.data, source)| - 1];
    var popped := PopLast(UpdateLru(st, config, source, now), source);
    var pushed := PushFirst(Placed(popped, config, destination, now, trace), destination, el);
    Spec.KeyUpdated(Spec.KeyUpdated(pushed, source, now), destination, now)
  }

  /** `get_mut` and `pop` on the source. */
  method TakeLast(db: Database, source: Slot, now: int) returns (r: Reply)
    modifies db
    ensures var st := old(db.State());
      var expired := IsExpired(st, source, now);
      && (r == WrongType <==> !expired && NotAList(st.data, source))
      && (r == Missing <==> r != WrongType && Seen(st, source, now) == [])
      && (!r.Missing? && !r.WrongType? ==>
            r == Popped(Items(st.data, source)[|Items(st.data, source)| - 1])
            && db.State() == PopLast(UpdateLru(st, db.config, source, now), source))
      && (r.Missing? || r.WrongType? ==>
            db.State() == if expired then Spec.Remove(st, source, now) else UpdateLru(st, db.config, source, now))
  {
    if IsExpired(db.State(), source, now) {
      var _ := db.Remove(source, now);
      return Missing;
    }
    if Contains(db.config.maxmemoryPolicy, "lru") { db.lru := db.lru[source := now]; }
    if NotAList(db.data, source) { return WrongType; }
    var items := Items(db.data, source);
    if items == [] { return Missing; }
    db.data := db.data[source := List(items[..|items| - 1])];
    return Popped(items[|items| - 1]);
  }

  method GenericRpoplpush(db: Database, source: Slot, destination: Slot, now: int)
    returns (r: Reply, ghost trace: seq<Eviction>)
    modifies db
    ensures var st := old(db.State());
      var blocked := !IsExpired(st, destination, now) && NotAList(st.data, destination);
      && (r == WrongType <==> blocked || (!IsExpired(st, source, now) && NotAList(st.data, source)))
      && (r == Missing <==> r != WrongType && Seen(st, source, now) == [])
      && (r == Refused <==> PushIsRefused(st, source, destination, now))
      && (r.Popped? ==> r.el == Items(st.data, source)[|Items(st.data, source)| - 1])
    ensures r.Missing? || r.WrongType? ==>
      && trace == [] && db.watched == old(db.watched)
      && db.data == old(db.data) - (if r.Missing? && IsExpired(old(db.State()), source, now) then {source} else {})
    ensures r.Popped? || r.Refused? ==>
      Items(old(db.data), source) != []
      && Evictions(PopLast(UpdateLru(old(db.State()), db.config, source, now), source),
                   db.config, destination, now, trace)
    ensures r.Popped? ==> db.State() == Moved(old(db.State()), db.config, source, destination, now, trace)
    ensures r.Refused? ==> db.data == PopLast(old(db.State()), source).data && db.watched == old(db.watched)
  {
    trace := [];
    if !IsExpired(db.State(), destination, now) && NotAList(db.data, destination) { return WrongType, []; }
    r := TakeLast(db, source, now);
    if !r.Popped? { return r, []; }
    var ok;
    ok, trace := PushFront(db, destination, r.el, now);
    if !ok { return Refused, trace; }
    db.KeyUpdated(source, now);
    db.KeyUpdated(destination, now);
  }

  /** The element is popped and then lost: the destination has expired and holds no list. */
  predicate PushIsRefused(st: Keyspace, source: Slot, destination: Slot, now: int) {
    Seen(st, source, now) != [] && IsExpired(st, destination, now) && NotAList(st.data, destination)
  }

  lemma ElementIsLost(source: Slot, destination: Slot, x: Bytes)
    requires source != destination
    ensures var data := map[source := List([x]), destination := Value.Other(0, false)];
      PushIsRefused(Keyspace(data, map[destination := 0], map[], map[], 0, 0, 0, false), source, destination, 1)
  {
  }

  // ----- What the command keeps ----------------------------------------------------

  function Gone(trace: seq<Eviction>): set<Slot> {
    set i | 0 <= i < |trace| :: trace[i].slot
  }

  lemma EvictedData(st: Keyspace, trace: seq<Eviction>)
    ensures var after := EvictAll(st, trace);
      && after.data == st.data - Gone(trace) && after.expirations == st.expirations - Gone(trace)
      && after.watched == st.watched && after.loading == st.loading
  {
    var after := EvictAll(st, trace);
    EvictAllKeeps(st, trace, Slot(0, []));
    forall slot: Slot
      ensures slot in after.data <==> slot in st.data && slot !in Gone(trace)
      ensures slot in after.data ==> after.data[slot] == st.data[slot]
      ensures slot in after.expirations <==> slot in st.expirations && slot !in Gone(trace)
      ensures slot in after.expirations ==> after.expirations[slot] == st.expirations[slot]
    {
      EvictAllKeeps(st, trace, slot);
      assert Evicted(trace, slot) <==> slot in Gone(trace);
    }
  }

  lemma NeverEvictsAbsent(st: Keyspace, config: Config, slot: Slot, needed: nat, trace: seq<Eviction>)
    requires AllJustified(st, config, slot.db, needed, trace) && (slot in st.data ==> trace == [])
    ensures slot !in Gone(trace) && (config.maxmemory.None? ==> trace == [])
  {
    if trace != [] {
      IneligibleSurvive(st, config, slot.db, needed, trace, slot);
      assert Justified(EvictAll(st, trace[..0]), config, slot.db, needed, trace[0]);
    }
  }

  lemma PlaceFields(st: Keyspace, config: Config, slot: Slot, now: int)
    ensures var after := Place(st, config, slot, now);
      && after.data == (if slot in st.data then st.data else st.data[slot := Nil])
      && after.watched == st.watched && after.loading == st.loading && after.expirations == st.expirations
  {
  }

  lemma FoundOrMade(data: Data, gone: set<Slot>, slot: Slot)
    requires slot !in gone
    ensures var kept := data - gone;
      (if slot in kept then kept else kept[slot := Nil]) == kept[slot := if slot in data then data[slot] else Nil]
  {
    var kept := data - gone;
    if slot in kept {
      assert kept == kept[slot := data[slot]];
    }
  }

  /** The destination gets a value and is not expired; the evicted keys are gone. */
  lemma PlacedData(st: Keyspace, config: Config, slot: Slot, now: int, trace: seq<Eviction>)
    requires Evictions(st, config, slot, now, trace)
    ensures slot !in Gone(trace) && (config.maxmemory.None? ==> trace == [])
    ensures var after := Placed(st, config, slot, now, trace);
      && after.data == (st.data - Gone(trace))[slot := if slot in st.data then st.data[slot] else Nil]
      && after.watched == st.watched && after.loading == st.loading
      && after.expirations == DropDeadline(st, slot, now).expirations - Gone(trace)
  {
    var dropped := DropDeadline(st, slot, now);
    NeverEvictsAbsent(dropped, config, slot, EstimateValueSize(Nil, |slot.key|), trace);
    EvictedData(dropped, trace);
    PlaceFields(EvictAll(dropped, trace), config, slot, now);
    FoundOrMade(st.data, Gone(trace), slot);
  }

  lemma UpdatedData(st: Keyspace, slot: Slot, now: int)
    ensures var after := Spec.KeyUpdated(st, slot, now);
      var drop := if slot in st.data && IsEmpty(st.data[slot]) then {slot} else {};
      && after.data == st.data - drop && after.expirations == st.expirations - drop
      && after.watched == st.watched - {slot} && after.loading == st.loading
  {
  }

  /** Of the two `key_updated`, only the one on an emptied source drops anything. */
  lemma UpdatedTwice(pushed: Keyspace, source: Slot, destination: Slot, now: int)
    requires destination in pushed.data && !IsEmpty(pushed.data[destination])
    ensures var after := Spec.KeyUpdated(Spec.KeyUpdated(pushed, source, now), destination, now);
      var drop := if source in pushed.data && IsEmpty(pushed.data[source]) then {source} else {};
      && after.data == pushed.data - drop && after.expirations == pushed.expirations - drop
      && after.watched == pushed.watched - {source} - {destination} && after.loading == pushed.loading
  {
    var once := Spec.KeyUpdated(pushed, source, now);
    UpdatedData(pushed, source, now);
    UpdatedData(once, destination, now);
    assert once.data - {} == once.data && once.expirations - {} == once.expirations;
  }

  /** The lists of source and destination after the pop and the push. */
  function Shifted(data: Data, source: Slot, destination: Slot): Data
    requires Items(data, source) != []
  {
    var items := Items(data, source);
    var popped := data[source := List(items[..|items| - 1])];
    popped[destination := List([items[|items| - 1]] + Items(popped, destination))]
  }

  lemma ShiftedThenDropped(data: Data, source: Slot, destination: Slot, gone: set<Slot>)
    requires Items(data, source) != [] && destination !in gone
    ensures var pushed := Shifted(data, source, destination) - gone;
      var drop := if source in pushed && IsEmpty(pushed[source]) then {source} else {};
      pushed - drop == MoveLast(data, source, destination) - gone
  {
    var items := Items(data, source);
    if source == destination {
      assert Shifted(data, source, destination) == MoveLast(data, source, destination);
    } else if |items| == 1 {
      assert Shifted(data, source, destination) - {source} == MoveLast(data, source, destination);
    } else {
      assert Shifted(data, source, destination) == MoveLast(data, source, destination);
    }
  }

  lemma PushedData(data: Data, source: Slot, destination: Slot, gone: set<Slot>, placed: Data)
    requires Items(data, source) != [] && destination !in gone
    requires var popped := data[source := List(Items(data, source)[..|Items(data, source)| - 1])];
      placed == (popped - gone)[destination := if destination in popped then popped[destination] else Nil]
    ensures var el := Items(data, source)[|Items(data, source)| - 1];
      placed[destination := List([el] + Items(placed, destination))] == Shifted(data, source, destination) - gone
  {
    var popped := data[source := List(Items(data, source)[..|Items(data, source)| - 1])];
    assert Items(placed, destination) == Items(popped, destination);
  }

  /** A move is `MoveLast` on the stored lists, less the keys evicted to make room. */
  lemma MovedData(st: Keyspace, config: Config, source: Slot, destination: Slot, now: int, trace: seq<Eviction>)
    requires Items(st.data, source) != []
    requires Evictions(PopLast(UpdateLru(st, config, source, now), source), config, destination, now, trace)
    ensures destination !in Gone(trace) && (config.maxmemory.None? ==> trace == [])
    ensures var after := Moved(st, config, source, destination, now, trace);
      && after.data == MoveLast(st.data, source, destination) - Gone(trace)
      && after.watched == st.watched - {source} - {destination}
      && !IsExpired(after, destination, now) && (IsExpired(after, source, now) ==> IsExpired(st, source, now))
  {
    var popped := PopLast(UpdateLru(st, config, source, now), source);
    var el := Items(st.data, source)[|Items(st.data, source)| - 1];
    PlacedData(popped, config, destination, now, trace);
    var placed := Placed(popped, config, destination, now, trace);
    PushedData(st.data, source, destination, Gone(trace), placed.data);
    UpdatedTwice(PushFirst(placed, destination, el), source, destination, now);
    ShiftedThenDropped(st.data, source, destination, Gone(trace));
  }

  lemma SeenAfter(st: Keyspace, config: Config, source: Slot, destination: Slot, now: int, trace: seq<Eviction>)
    requires Seen(st, source, now) != []
    requires Evictions(PopLast(UpdateLru(st, config, source, now), source), config, destination, now, trace)
    ensures var after := Moved(st, config, source, destination, now, trace);
      var moved := MoveLast(st.data, source, destination);
      && Seen(after, destination, now) == Items(moved, destination)
      && Seen(after, source, now) == if source in Gone(trace) then [] else Items(moved, source)
  {
    MovedData(st, config, source, destination, now, trace);
  }

  lemma MoreThanBefore(s: multiset<Bytes>, items: seq<Bytes>)
    requires items != []
    ensures s + multiset(items) != s
  {
    assert items[0] in multiset(items);
    assert (s + multiset(items))[items[0]] != s[items[0]];
  }

  /** Leaving out what goes from one side and what was hidden on the other. */
  lemma Balance(s: seq<Bytes>, d: seq<Bytes>, rest: seq<Bytes>, pushed: seq<Bytes>, gone: bool, hidden: bool)
    requires multiset(rest) + multiset(pushed) == multiset(s) + multiset(d)
    requires gone && hidden ==> d == []
    ensures multiset(if gone then [] else rest) + multiset(pushed) == multiset(s) + multiset(if hidden then [] else d)
       <==> !(hidden && d != []) && !(gone && rest != [])
  {
    if d != [] { MoreThanBefore(multiset(s), d); }
    if rest != [] {
      MoreThanBefore(multiset(pushed), rest);
      assert multiset(rest) + multiset(pushed) == multiset(pushed) + multiset(rest);
    }
    var none: seq<Bytes> := [];
    assert multiset(none) + multiset(pushed) == multiset(pushed);
    assert multiset(s) + multiset(none) == multiset(s);
    if gone && hidden { assert multiset(d) == multiset(none); }
  }

  /** What clients see is conserved exactly when no expired elements of the destination come back,
      and the source, if it is evicted to make room, had no other element. */
  lemma SeenConserved(st: Keyspace, config: Config, source: Slot, destination: Slot, now: int, trace: seq<Eviction>)
    requires Seen(st, source, now) != [] && source != destination
    requires Evictions(PopLast(UpdateLru(st, config, source, now), source), config, destination, now, trace)
    ensures var after := Moved(st, config, source, destination, now, trace);
      multiset(Seen(after, source, now)) + multiset(Seen(after, destination, now))
        == multiset(Seen(st, source, now)) + multiset(Seen(st, destination, now))
      <==> !(IsExpired(st, destination, now) && Items(st.data, destination) != [])
           && !(source in Gone(trace) && |Items(st.data, source)| > 1)
  {
    SeenAfter(st, config, source, destination, now, trace);
    MoveConserves(st.data, source, destination);
    var moved := MoveLast(st.data, source, destination);
    assert |Items(moved, source)| == |Items(st.data, source)| - 1 by {
      WithItemsRead(st.data, source, Items(moved, source));
    }
    assert Items(st.data, destination) != [] ==> Gone(trace) == {};
    Balance(Items(st.data, source), Items(st.data, destination), Items(moved, source), Items(moved, destination),
            source in Gone(trace), IsExpired(st, destination, now));
  }

  /** Without a memory limit nothing is evicted, so a caller can tell beforehand. */
  lemma SeenConservedUnlimited(st: Keyspace, config: Config, source: Slot, destination: Slot, now: int,
                               trace: seq<Eviction>)
    requires Seen(st, source, now) != [] && source != destination && config.maxmemory.None?
    requires Evictions(PopLast(UpdateLru(st, config, source, now), source), config, destination, now, trace)
    ensures var after := Moved(st, config, source, destination, now, trace);
      multiset(Seen(after, source, now)) + multiset(Seen(after, destination, now))
        == multiset(Seen(st, source, now)) + multiset(Seen(st, destination, now))
      <==> !(IsExpired(st, destination, now) && Items(st.data, destination) != [])
  {
    MovedData(st, config, source, destination, now, trace);
    SeenConserved(st, config, source, destination, now, trace);
  }

  /** The source stays when the destination is there, or the memory fits, or the policy does not offer
      the source: all things that a caller can look up. */
  predicate SourceIsSafe(st: Keyspace, config: Config, source: Slot, destination: Slot) {
    || destination in st.data
    || Fits(st, config, EstimateValueSize(Nil, |destination.key|))
    || !Eligible(st, PolicyOf(config), destination.db, source)
  }

  lemma SafeSourceStays(st: Keyspace, config: Config, source: Slot, destination: Slot, now: int, trace: seq<Eviction>)
    requires Items(st.data, source) != [] && source != destination && SourceIsSafe(st, config, source, destination)
    requires Evictions(PopLast(UpdateLru(st, config, source, now), source), config, destination, now, trace)
    ensures source !in Gone(trace)
  {
    var popped := PopLast(UpdateLru(st, config, source, now), source);
    var dropped := DropDeadline(popped, destination, now);
    var needed := EstimateValueSize(Nil, |destination.key|);
    assert trace == [] || !Fits(dropped, config, needed) by {
      if trace != [] {
        assert Justified(EvictAll(dropped, trace[..0]), config, destination.db, needed, trace[0]);
      }
    }
    if destination !in st.data && !Eligible(st, PolicyOf(config), destination.db, source) {
      assert !Eligible(dropped, PolicyOf(config), destination.db, source);
      IneligibleSurvive(dropped, config, destination.db, needed, trace, source);
      assert Evicted(trace, source) <==> source in Gone(trace);
    }
  }

  /** So a caller can tell beforehand. */
  lemma SeenConservedBeforehand(st: Keyspace, config: Config, source: Slot, destination: Slot, now: int,
                                trace: seq<Eviction>)
    requires Seen(st, source, now) != [] && source != destination && SourceIsSafe(st, config, source, destination)
    requires Evictions(PopLast(UpdateLru(st, config, source, now), source), config, destination, now, trace)
    ensures var after := Moved(st, config, source, destination, now, trace);
      multiset(Seen(after, source, now)) + multiset(Seen(after, destination, now))
        == multiset(Seen(st, source, now)) + multiset(Seen(st, destination, now))
      <==> !(IsExpired(st, destination, now) && Items(st.data, destination) != [])
  {
    SafeSourceStays(st, config, source, destination, now, trace);
    SeenConserved(st, config, source, destination, now, trace);
  }

  /** RPOPLPUSH from [x, y] to a new key, under allkeys-random with maxmemory 0, may evict the
      source: then x is lost. */
  lemma SourceCanBeEvicted(source: Slot, destination: Slot, x: Bytes, y: Bytes)
    requires source != destination && source.db == destination.db
    ensures var config := Config(Some(0), "allkeys-random", 5);
      var st := Keyspace(map[source := List([x, y])], map[], map[], map[], 100, 100, 0, false);
      var trace := [Eviction(source, 1)];
      && Evictions(PopLast(UpdateLru(st, config, source, 1), source), config, destination, 1, trace)
      && Seen(Moved(st, config, source, destination, 1, trace), source, 1) == []
      && Seen(Moved(st, config, source, destination, 1, trace), destination, 1) == [y]
  {
    var config := Config(Some(0), "allkeys-random", 5);
    var st := Keyspace(map[source := List([x, y])], map[], map[], map[], 100, 100, 0, false);
    var trace := [Eviction(source, 1)];
    AllkeysRandomPolicy(config);
    var popped := PopLast(UpdateLru(st, config, source, 1), source);
    var dropped := DropDeadline(popped, destination, 1);
    var needed := EstimateValueSize(Nil, |destination.key|);
    assert trace[..0] == [] && EvictAll(dropped, []) == dropped;
    assert dropped.data.Keys == {source};
    assert Justified(dropped, config, destination.db, needed, trace[0]);
    assert AllJustified(dropped, config, destination.db, needed, trace);
    SeenAfter(st, config, source, destination, 1, trace);
  }

  lemma AllkeysRandomPolicy(config: Config)
    requires config.maxmemoryPolicy == "allkeys-random"
    ensures PolicyOf(config) == AllkeysRandom
  {
    assert ToAsciiLowercase("allkeys-random") == "allkeys-random";
  }

  /** RPOPLPUSH from [x] onto a list [y] that expired brings y back. */
  lemma ExpiredElementsComeBack(config: Config, source: Slot, destination: Slot, x: Bytes, y: Bytes)
    requires source != destination
    ensures var data := map[source := List([x]), destination := List([y])];
      var st := Keyspace(data, map[destination := 0], map[], map[], 0, 0, 0, false);
      Seen(st, destination, 1) == [] && Seen(Moved(st, config, source, destination, 1, []), destination, 1) == [x, y]
  {
    var data := map[source := List([x]), destination := List([y])];
    var st := Keyspace(data, map[destination := 0], map[], map[], 0, 0, 0, false);
    SeenAfter(st, config, source, destination, 1, []);
  }

  /** A list rotated onto itself keeps its elements. */
  lemma RotationConserved(st: Keyspace, config: Config, slot: Slot, now: int, trace: seq<Eviction>)
    requires Seen(st, slot, now) != []
    requires Evictions(PopLast(UpdateLru(st, config, slot, now), slot), config, slot, now, trace)
    ensures multiset(Seen(Moved(st, config, slot, slot, now, trace), slot, now)) == multiset(Seen(st, slot, now))
  {
    MovedData(st, config, slot, slot, now, trace);
    SeenAfter(st, config, slot, slot, now, trace);
    MoveConserves(st.data, slot, slot);
  }
}
