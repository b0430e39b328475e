/** src/qdrant_api.rs: collections of points with arbitrary ids over the vector index. */
module QdrantCollection {
  import opened Machine
  import opened Sequences
  import opened Text
  import opened VectorIndex

  datatype PointId = Int(u: nat) | Str(s: string)

  /** The payload of a point. */
  datatype Json = Null | Bool(b: bool) | Number(n: Numeral) | String(text: string) | Array(items: seq<Json>)
                | Object(fields: map<string, Json>)

  /** serde_json tells integers from floats. */
  datatype Numeral = Whole(i: int) | Float(r: real)

  datatype StoredPoint = StoredPoint(vector: Vector, payload: Json)

  datatype VectorMetric = Cosine | Euclidean | InnerProduct

  // ----- Distance names ------------------------------------------------------------

  function DistanceName(distance: VectorMetric): string {
    match distance
    case Cosine => "Cosine"
    case Euclidean => "Euclid"
    case InnerProduct => "Dot"
  }

  function ParseDistance(s: string): VectorMetric {
    var name := ToAsciiLowercase(s);
    if name == "euclid" || name == "euclidean" || name == "l2" then Euclidean
    else if name == "dot" || name == "innerproduct" || name == "ip" then InnerProduct
    else Cosine
  }

  /** The name written to disk reads back as the same metric. */
  lemma DistanceRoundTrip(distance: VectorMetric)
    ensures ParseDistance(DistanceName(distance)) == distance
  {
    assert ToAsciiLowercase("Euclid") == "euclid";
    assert ToAsciiLowercase("Dot") == "dot";
    assert ToAsciiLowercase("Cosine") == "cosine";
  }

  /** Which names ask for which metric, in any case; every other name asks for the cosine distance. */
  lemma DistanceNames(name: string)
    ensures [DistanceName(Cosine), DistanceName(Euclidean), DistanceName(InnerProduct)] == ["Cosine", "Euclid", "Dot"]
    ensures var lower := ToAsciiLowercase(name);
      && (ParseDistance(name) == Euclidean <==> lower in {"euclid", "euclidean", "l2"})
      && (ParseDistance(name) == InnerProduct <==> lower in {"dot", "innerproduct", "ip"})
  {
    var lower := ToAsciiLowercase(name);
    if lower in {"dot", "innerproduct", "ip"} {
      assert "dot"[0] == 'd' && "innerproduct"[0] == 'i' && "ip"[0] == 'i';
      assert "euclid"[0] == 'e' && "euclidean"[0] == 'e' && "l2"[0] == 'l';
    }
  }

  function ScoreFromDistance(kind: VectorMetric, distance: real): real {
    match kind
    case Euclidean => distance
    case _ => 1.0 - distance
  }

  /** Similarities fall and distances grow as a match gets worse. */
  predicate AtLeastAsGood(kind: VectorMetric, a: real, b: real) {
    if kind.Euclidean? then a <= b else a >= b
  }

  // ----- Filters -------------------------------------------------------------------

  /** The condition type and when a payload meets a condition are left open. */
  datatype Filter<C> = Filter(must: Option<seq<C>>, should: Option<seq<C>>, mustNot: Option<seq<C>>)

  predicate PassesFilter<C>(payload: Json, filter: Filter<C>, matches: (Json, C) -> bool) {
    (filter.must.Some? ==>
      forall i | 0 <= i < |filter.must.value| :: matches(payload, filter.must.value[i])) &&
    (filter.mustNot.Some? ==>
      forall i | 0 <= i < |filter.mustNot.value| :: !matches(payload, filter.mustNot.value[i])) &&
    (filter.should.Some? && filter.should.value != [] ==>
      exists i | 0 <= i < |filter.should.value| :: matches(payload, filter.should.value[i]))
  }

  /** A payload is turned away by a `must` condition that it fails, a `must_not` condition that it meets,
      or a list of `should` conditions all of which it fails, and by nothing else. */
  lemma FilterMeaning<C>(payload: Json, filter: Filter<C>, matches: (Json, C) -> bool)
    ensures !PassesFilter(payload, filter, matches)
      <==> || (filter.must.Some? && exists c | c in filter.must.value :: !matches(payload, c))
           || (filter.mustNot.Some? && exists c | c in filter.mustNot.value :: matches(payload, c))
           || (filter.should.Some? && filter.should.value != []
               && forall c | c in filter.should.value :: !matches(payload, c))
    ensures !HasFilter(filter) <==> filter == Filter(None, None, None)
  {
  }

  predicate HasFilter<C>(filter: Filter<C>) {
    filter.must.Some? || filter.should.Some? || filter.mustNot.Some?
  }

  // ----- Histories -----------------------------------------------------------------

  type Points = map<PointId, StoredPoint>

  datatype Op = Upsert(id: PointId, vector: Vector, payload: Json) | Delete(id: PointId)

  /** An operation that changes the point `id`: upserts of a wrong dimension do not. */
  predicate Affects(op: Op, id: PointId, dimension: nat) {
    op.id == id && (op.Upsert? ==> |op.vector| == dimension)
  }

  function ApplyOp(points: Points, op: Op, dimension: nat): Points {
    match op
    case Upsert(id, vector, payload) =>
      if |vector| == dimension then points[id := StoredPoint(vector, payload)] else points
    case Delete(id) => points - {id}
  }

  function ApplyOps(points: Points, ops: seq<Op>, dimension: nat): Points {
    if ops == [] then points
    else ApplyOp(ApplyOps(points, ops[..|ops| - 1], dimension), ops[|ops| - 1], dimension)
  }

  /** `i` is the latest operation that changes the point. */
  ghost predicate Latest(ops: seq<Op>, id: PointId, dimension: nat, i: nat) {
    i < |ops| && Affects(ops[i], id, dimension) &&
    forall j :: i < j < |ops| ==> !Affects(ops[j], id, dimension)
  }

  ghost predicate Unaffected(ops: seq<Op>, id: PointId, dimension: nat) {
    forall i :: 0 <= i < |ops| ==> !Affects(ops[i], id, dimension)
  }

  lemma {:induction false} UnaffectedStays(points: Points, ops: seq<Op>, dimension: nat, id: PointId)
    requires Unaffected(ops, id, dimension)
    ensures var after := ApplyOps(points, ops, dimension);
      if id in points then id in after && after[id] == points[id] else id !in after
  {
    if ops != [] {
      var n := |ops| - 1;
      assert forall i :: 0 <= i < n ==> ops[..n][i] == ops[i];
      UnaffectedStays(points, ops[..n], dimension, id);
      assert !Affects(ops[n], id, dimension);
    }
  }

  /** After any history a point is as its latest upsert left it, or gone if that was a delete. */
  lemma {:induction false} LatestDecides(points: Points, ops: seq<Op>, dimension: nat, id: PointId, i: nat)
    requires Latest(ops, id, dimension, i)
    ensures var after := ApplyOps(points, ops, dimension);
      if ops[i].Delete? then id !in after
      else id in after && after[id] == StoredPoint(ops[i].vector, ops[i].payload)
  {
    var n := |ops| - 1;
    if i < n {
      assert !Affects(ops[n], id, dimension);
      assert ops[..n][i] == ops[i];
      LatestDecides(points, ops[..n], dimension, id, i);
    }
  }

  // ----- Snapshots -----------------------------------------------------------------

  datatype PersistedPoint = PersistedPoint(id: PointId, vector: Vector, payload: Json)

  datatype Persisted = Persisted(dimension: nat, distance: string, points: seq<PersistedPoint>)

  function Saved(id: PointId, point: StoredPoint): PersistedPoint {
    PersistedPoint(id, point.vector, point.payload)
  }

  /** The upserts that rebuild a snapshot. */
  function Rebuild(points: seq<PersistedPoint>): seq<Op> {
    seq(|points|, i requires 0 <= i < |points| => Upsert(points[i].id, points[i].vector, points[i].payload))
  }

  /** `snapshot` lists every point and nothing else, in some order. */
  ghost predicate Snapshots(snapshot: seq<PersistedPoint>, points: Points) {
    (forall i :: 0 <= i < |snapshot| ==>
      snapshot[i].id in points && points[snapshot[i].id] == StoredPoint(snapshot[i].vector, snapshot[i].payload)) &&
    (forall id | id in points :: exists i :: 0 <= i < |snapshot| && snapshot[i].id == id)
  }

  /** Rebuilding gives the points back, whatever the order; none is dropped. */
  lemma SnapshotRoundTrip(snapshot: seq<PersistedPoint>, points: Points, dimension: nat)
    requires Snapshots(snapshot, points)
    requires forall id | id in points :: |points[id].vector| == dimension
    ensures ApplyOps(map[], Rebuild(snapshot), dimension) == points
  {
    var ops := Rebuild(snapshot);
    var after := ApplyOps(map[], ops, dimension);
    forall id: PointId
      ensures id in after <==> id in points
      ensures id in points ==> after[id] == points[id]
    {
      if id in points {
        var i :| 0 <= i < |snapshot| && snapshot[i].id == id;
        assert Affects(ops[i], id, dimension);
        var l := LastAffecting(ops, dimension, id);
        LatestDecides(map[], ops, dimension, id, l);
        assert snapshot[l].id == id;
      } else {
        UnaffectedStays(map[], ops, dimension, id);
      }
    }
  }

  lemma {:induction false} LastAffecting(ops: seq<Op>, dimension: nat, id: PointId) returns (l: nat)
    requires exists i :: 0 <= i < |ops| && Affects(ops[i], id, dimension)
    ensures Latest(ops, id, dimension, l)
  {
    var n := |ops| - 1;
    if Affects(ops[n], id, dimension) {
      l := n;
    } else {
      var i :| 0 <= i < |ops| && Affects(ops[i], id, dimension);
      assert ops[..n][i] == ops[i];
      l := LastAffecting(ops[..n], dimension, id);
    }
  }

  // ----- Answers -------------------------------------------------------------------

  datatype Row = Row(id: PointId, score: real, payload: Json)

  /** The hit leads to a stored point that passes the filter. */
  predicate Passing(h: Hit, uidToId: map<nat, PointId>, points: Points, passes: Json -> bool) {
    h.docId in uidToId && uidToId[h.docId] in points && passes(points[uidToId[h.docId]].payload)
  }

  function RowOf(h: Hit, uidToId: map<nat, PointId>, points: Points, kind: VectorMetric): Row
    requires h.docId in uidToId && uidToId[h.docId] in points
  {
    Row(uidToId[h.docId], ScoreFromDistance(kind, h.distance), points[uidToId[h.docId]].payload)
  }

  /** The rows that the query loop would produce without its limit. */
  function Survivors(hits: seq<Hit>, uidToId: map<nat, PointId>, points: Points, passes: Json -> bool,
                        kind: VectorMetric): seq<Row>
  {
    if hits == [] then []
    else
      var h := hits[|hits| - 1];
      Survivors(hits[..|hits| - 1], uidToId, points, passes, kind) +
      if Passing(h, uidToId, points, passes) then [RowOf(h, uidToId, points, kind)] else []
  }

  /** The row comes from a passing hit. */
  ghost predicate Explained(row: Row, hits: seq<Hit>, uidToId: map<nat, PointId>, points: Points,
                               passes: Json -> bool, kind: VectorMetric)
  {
    exists h :: h in hits && Passing(h, uidToId, points, passes) && row == RowOf(h, uidToId, points, kind)
  }

  lemma {:induction false} SurvivorExplained(hits: seq<Hit>, uidToId: map<nat, PointId>, points: Points,
                                                passes: Json -> bool, kind: VectorMetric, i: nat)
    requires i < |Survivors(hits, uidToId, points, passes, kind)|
    ensures Explained(Survivors(hits, uidToId, points, passes, kind)[i], hits, uidToId, points, passes, kind)
  {
    var front, last := hits[..|hits| - 1], hits[|hits| - 1];
    assert hits == front + [last];
    if i < |Survivors(front, uidToId, points, passes, kind)| {
      SurvivorExplained(front, uidToId, points, passes, kind, i);
    }
  }

  lemma {:induction false} PassingSurvives(hits: seq<Hit>, uidToId: map<nat, PointId>, points: Points,
                                              passes: Json -> bool, kind: VectorMetric, h: Hit)
    requires h in hits && Passing(h, uidToId, points, passes)
    ensures RowOf(h, uidToId, points, kind) in Survivors(hits, uidToId, points, passes, kind)
  {
    var front, last := hits[..|hits| - 1], hits[|hits| - 1];
    assert hits == front + [last];
    if h != last {
      PassingSurvives(front, uidToId, points, passes, kind, h);
    }
  }

  /** One row per point, best first. */
  ghost predicate Ranked(rows: seq<Row>, kind: VectorMetric) {
    forall i, j :: 0 <= i < j < |rows| ==>
      rows[i].id != rows[j].id && AtLeastAsGood(kind, rows[i].score, rows[j].score)
  }

  lemma {:induction false} SurvivorOrder(hits: seq<Hit>, uidToId: map<nat, PointId>, idToUid: map<PointId, nat>,
                                            points: Points, passes: Json -> bool, kind: VectorMetric)
    requires Ascending(hits) && DistinctDocs(hits) && Inverse(idToUid, uidToId)
    ensures Ranked(Survivors(hits, uidToId, points, passes, kind), kind)
  {
    if hits != [] {
      var front, last := hits[..|hits| - 1], hits[|hits| - 1];
      SurvivorOrder(front, uidToId, idToUid, points, passes, kind);
      if Passing(last, uidToId, points, passes) {
        var before := Survivors(front, uidToId, points, passes, kind);
        forall i | 0 <= i < |before|
          ensures before[i].id != uidToId[last.docId]
          ensures AtLeastAsGood(kind, before[i].score, ScoreFromDistance(kind, last.distance))
        {
          SurvivorExplained(front, uidToId, points, passes, kind, i);
          var h :| h in front && Passing(h, uidToId, points, passes) && before[i] == RowOf(h, uidToId, points, kind);
          var k :| 0 <= k < |front| && front[k] == h;
          assert hits[k] == h && hits[|front|] == last;
        }
      }
    }
  }

  lemma {:induction false} InverseSize<K, V>(there: map<K, V>, back: map<V, K>)
    requires Inverse(there, back)
    ensures |there| == |back|
  {
    if there == map[] {
      assert back.Keys == {};
    } else {
      var k :| k in there;
      InverseUpdates(there, back, k, there[k]);
      InverseSize(there - {k}, back - {there[k]});
    }
  }

  // ----- The collection as a value -------------------------------------------------

  datatype CollectionState = CollectionState(
    index: IndexState,
    dimension: nat,
    points: Points,
    idToUid: map<PointId, nat>,
    uidToId: map<nat, PointId>,
    nextUid: nat
  )
  {
    /** The graph node of a point. */
    function NodeOf(id: PointId): nat
      requires id in idToUid && idToUid[id] in index.docIdMap
    {
      index.docIdMap[idToUid[id]]
    }

    /** Every point leads, over its uid and internal id, to a graph node with its vector, and
        the maps hold nothing else. */
    ghost predicate Linked() {
      Sound(index) && index.dimension == dimension &&
      Numbered(points, idToUid, uidToId, index.docIdMap, nextUid) &&
      Chained(points, idToUid, index.docIdMap, index.graph)
    }
  }

  /** Points and the documents of the index correspond one to one over uids below `nextUid`. */
  ghost predicate Numbered(points: Points, idToUid: map<PointId, nat>, uidToId: map<nat, PointId>,
                           docIdMap: map<nat, nat>, nextUid: nat)
  {
    Inverse(idToUid, uidToId) && idToUid.Keys == points.Keys && uidToId.Keys == docIdMap.Keys &&
    (forall u | u in uidToId :: u < nextUid)
  }

  ghost predicate Chained(points: Points, idToUid: map<PointId, nat>, docIdMap: map<nat, nat>,
                          graph: map<nat, Vector>)
  {
    forall id | id in points ::
      id in idToUid && idToUid[id] in docIdMap && docIdMap[idToUid[id]] in graph
      && graph[docIdMap[idToUid[id]]] == points[id].vector
  }

  lemma NumberedDelete(points: Points, idToUid: map<PointId, nat>, uidToId: map<nat, PointId>,
                       docIdMap: map<nat, nat>, nextUid: nat, id: PointId)
    requires Numbered(points, idToUid, uidToId, docIdMap, nextUid)
    ensures id in points <==> id in idToUid
    ensures id in points ==>
              idToUid[id] in docIdMap
              && Numbered(points - {id}, idToUid - {id}, uidToId - {idToUid[id]}, docIdMap - {idToUid[id]}, nextUid)
  {
    InverseUpdates(idToUid, uidToId, id, 0);
  }

  lemma NumberedInsert(points: Points, idToUid: map<PointId, nat>, uidToId: map<nat, PointId>,
                       docIdMap: map<nat, nat>, nextUid: nat, id: PointId, point: StoredPoint, node: nat)
    requires Numbered(points, idToUid, uidToId, docIdMap, nextUid) && id !in points
    ensures id !in idToUid && nextUid !in docIdMap
    ensures Numbered(points[id := point], idToUid[id := nextUid], uidToId[nextUid := id],
                     docIdMap[nextUid := node], nextUid + 1)
  {
    InverseUpdates(idToUid, uidToId, id, nextUid);
  }

  lemma ChainedDelete(points: Points, idToUid: map<PointId, nat>, uidToId: map<nat, PointId>,
                      docIdMap: map<nat, nat>, graph: map<nat, Vector>, id: PointId)
    requires Inverse(idToUid, uidToId) && id in points && Chained(points, idToUid, docIdMap, graph)
    ensures Chained(points - {id}, idToUid - {id}, docIdMap - {idToUid[id]}, graph)
  {
    forall other | other in points && other != id
      ensures idToUid[other] != idToUid[id]
    {
      assert uidToId[idToUid[other]] == other && uidToId[idToUid[id]] == id;
    }
  }

  lemma ChainedInsert(points: Points, idToUid: map<PointId, nat>, docIdMap: map<nat, nat>, graph: map<nat, Vector>,
                      id: PointId, uid: nat, point: StoredPoint, node: nat)
    requires Chained(points, idToUid, docIdMap, graph)
    requires id !in points && uid !in docIdMap && node !in graph
    ensures Chained(points[id := point], idToUid[id := uid], docIdMap[uid := node], graph[node := point.vector])
  {
    forall other | other in points && other != id
      ensures idToUid[other] != uid && docIdMap[idToUid[other]] != node
    {
    }
  }

  function NewCollection(dimension: nat): CollectionState {
    CollectionState(IndexState(dimension, map[], 0, map[], map[], 0), dimension, map[], map[], map[], 0)
  }

  /** Takes a point's uid, if it has one, out of the index and out of the reverse map. */
  function DropMapping(c: CollectionState, id: PointId): CollectionState {
    if id !in c.idToUid then c
    else
      var uid := c.idToUid[id];
      var r := RemoveFrom(c.index, uid);
      c.(index := if r.Ok? then r.value else c.index, uidToId := c.uidToId - {uid})
  }

  function UpsertPoint(c: CollectionState, id: PointId, vector: Vector, payload: Json): (CollectionState, Result<()>) {
    if |vector| != c.dimension then (c, Err)
    else
      var dropped := DropMapping(c, id);
      var uid := c.nextUid;
      match AddTo(dropped.index, uid, vector)
      case Err => (dropped.(nextUid := uid + 1), Err)
      case Ok(index) =>
        (CollectionState(index, c.dimension, c.points[id := StoredPoint(vector, payload)],
                         c.idToUid[id := uid], dropped.uidToId[uid := id], uid + 1), Ok(()))
  }

  function DeletePoint(c: CollectionState, id: PointId): CollectionState {
    DropMapping(c, id).(idToUid := c.idToUid - {id}, points := c.points - {id})
  }

  /** The index counts the points, and exactly their nodes are mapped. */
  lemma IndexHoldsPoints(c: CollectionState)
    requires c.Linked()
    ensures c.index.count == |c.points|
    ensures forall n :: n in c.index.idToDoc <==> exists id | id in c.points :: c.NodeOf(id) == n
    ensures forall id | id in c.points :: |c.points[id].vector| == c.dimension
  {
    InverseSize(c.idToUid, c.uidToId);
    assert |c.points| == |c.points.Keys| == |c.idToUid.Keys| == |c.idToUid|;
    assert |c.index.docIdMap| == |c.index.docIdMap.Keys| == |c.uidToId.Keys| == |c.uidToId|;
    forall n | n in c.index.idToDoc
      ensures exists id | id in c.points :: c.NodeOf(id) == n
    {
      assert c.NodeOf(c.uidToId[c.index.idToDoc[n]]) == n;
    }
  }

  /** A deleted point's node stays in the graph and is never mapped again. */
  lemma DeleteKeepsLinks(c: CollectionState, id: PointId)
    requires c.Linked()
    ensures var d := DeletePoint(c, id);
      d.Linked() && d.points == c.points - {id} && d.index.graph == c.index.graph
      && NodesRetire(c.index.graph, c.index.idToDoc, d.index.graph, d.index.idToDoc)
      && (id in c.points ==> c.NodeOf(id) !in d.index.idToDoc)
  {
    NumberedDelete(c.points, c.idToUid, c.uidToId, c.index.docIdMap, c.nextUid, id);
    if id in c.points {
      ChainedDelete(c.points, c.idToUid, c.uidToId, c.index.docIdMap, c.index.graph, id);
      RemoveSound(c.index, c.idToUid[id]);
    } else {
      assert c.points - {id} == c.points && c.idToUid - {id} == c.idToUid;
    }
  }

  lemma Overwrite<K, V>(m: map<K, V>, k: K, v: V)
    ensures (m - {k})[k := v] == m[k := v]
  {
  }

  /** Once the dimension is right an upsert cannot fail, because its uid was never used; it
      replaces the point and retires the node that the point had. */
  lemma UpsertKeepsLinks(c: CollectionState, id: PointId, vector: Vector, payload: Json)
    requires c.Linked()
    ensures var (u, r) := UpsertPoint(c, id, vector, payload);
      && u.Linked()
      && (r.Ok? <==> |vector| == c.dimension)
      && u.points == (if r.Ok? then c.points[id := StoredPoint(vector, payload)] else c.points)
      && NodesRetire(c.index.graph, c.index.idToDoc, u.index.graph, u.index.idToDoc)
      && (r.Ok? && id in c.points ==> c.NodeOf(id) !in u.index.idToDoc)
  {
    if |vector| == c.dimension {
      var d := DeletePoint(c, id);
      DeleteKeepsLinks(c, id);
      Overwrite(c.points, id, StoredPoint(vector, payload));
      UpsertIsDeleteThenInsert(c, id, vector, payload);
      InsertKeepsLinks(d, id, vector, payload);
    }
  }

  lemma UpsertIsDeleteThenInsert(c: CollectionState, id: PointId, vector: Vector, payload: Json)
    requires |vector| == c.dimension && c.idToUid.Keys == c.points.Keys
    ensures UpsertPoint(c, id, vector, payload).1 == UpsertPoint(DeletePoint(c, id), id, vector, payload).1
    ensures UpsertPoint(c, id, vector, payload).1.Ok? ==>
              UpsertPoint(c, id, vector, payload).0 == UpsertPoint(DeletePoint(c, id), id, vector, payload).0
  {
    Overwrite(c.points, id, StoredPoint(vector, payload));
    Overwrite(c.idToUid, id, c.nextUid);
  }

  lemma InsertKeepsLinks(c: CollectionState, id: PointId, vector: Vector, payload: Json)
    requires c.Linked() && id !in c.points && |vector| == c.dimension
    ensures var (u, r) := UpsertPoint(c, id, vector, payload);
      u.Linked() && r.Ok? && u.points == c.points[id := StoredPoint(vector, payload)]
      && NodesRetire(c.index.graph, c.index.idToDoc, u.index.graph, u.index.idToDoc)
  {
    var point := StoredPoint(vector, payload);
    AddSound(c.index, c.nextUid, vector);
    NumberedInsert(c.points, c.idToUid, c.uidToId, c.index.docIdMap, c.nextUid, id, point, c.index.nextId);
    ChainedInsert(c.points, c.idToUid, c.index.docIdMap, c.index.graph, id, c.nextUid, point, c.index.nextId);
  }

  // ----- Histories of a collection -------------------------------------------------

  function Step(c: CollectionState, op: Op): CollectionState {
    match op
    case Upsert(id, vector, payload) => UpsertPoint(c, id, vector, payload).0
    case Delete(id) => DeletePoint(c, id)
  }

  function Run(c: CollectionState, ops: seq<Op>): CollectionState {
    if ops == [] then c else Step(Run(c, ops[..|ops| - 1]), ops[|ops| - 1])
  }

  /** After any run of upserts and deletes the chain is intact and the points are the ones
      that the run leaves; no node loses its vector, and retired nodes stay retired. */
  lemma {:induction false} RunKeepsLinks(c: CollectionState, ops: seq<Op>)
    requires c.Linked()
    ensures var after := Run(c, ops);
      && after.Linked() && after.dimension == c.dimension
      && after.points == ApplyOps(c.points, ops, c.dimension)
      && NodesRetire(c.index.graph, c.index.idToDoc, after.index.graph, after.index.idToDoc)
  {
    if ops != [] {
      var n := |ops| - 1;
      RunKeepsLinks(c, ops[..n]);
      StepKeepsLinks(Run(c, ops[..n]), ops[n]);
    }
  }

  lemma StepKeepsLinks(c: CollectionState, op: Op)
    requires c.Linked()
    ensures var after := Step(c, op);
      && after.Linked() && after.dimension == c.dimension
      && after.points == ApplyOp(c.points, op, c.dimension)
      && NodesRetire(c.index.graph, c.index.idToDoc, after.index.graph, after.index.idToDoc)
  {
    match op
    case Upsert(id, vector, payload) => UpsertKeepsLinks(c, id, vector, payload);
    case Delete(id) => DeleteKeepsLinks(c, id);
  }

  lemma NewIsLinked(dimension: nat)
    ensures NewCollection(dimension).Linked()
  {
    assert |NewCollection(dimension).index.docIdMap| == 0;
  }

  // ----- What a query answers ------------------------------------------------------

  /** A limit of 0 still lets one row through. */
  function RowLimit(limit: nat): nat {
    if limit == 0 then 1 else limit
  }

  ghost predicate Eligible(c: CollectionState, id: PointId, passes: Json -> bool, neighbours: seq<Neighbour>)
    requires c.Linked()
  {
    id in c.points && passes(c.points[id].payload) && Offered(neighbours, c.NodeOf(id))
  }

  /** The row of a point: the score is that of the vector it has now. */
  function PointRow(c: CollectionState, id: PointId, kind: VectorMetric, query: Vector, metric: Metric): Row
    requires id in c.points
  {
    Row(id, ScoreFromDistance(kind, metric(query, c.points[id].vector)), c.points[id].payload)
  }

  /** The rows are the best eligible points, one row each, best first, as many as allowed. */
  ghost predicate BestRows(rows: seq<Row>, c: CollectionState, kind: VectorMetric, query: Vector, limit: nat,
                           passes: Json -> bool, neighbours: seq<Neighbour>, metric: Metric)
    requires c.Linked()
  {
    Ranked(rows, kind) && |rows| <= RowLimit(limit) &&
    (forall i :: 0 <= i < |rows| ==>
      Eligible(c, rows[i].id, passes, neighbours) && rows[i] == PointRow(c, rows[i].id, kind, query, metric)) &&
    (forall id | Eligible(c, id, passes, neighbours) ::
      PointRow(c, id, kind, query, metric) in rows ||
      (|rows| == RowLimit(limit) &&
       forall i :: 0 <= i < |rows| ==> AtLeastAsGood(kind, rows[i].score, PointRow(c, id, kind, query, metric).score)))
  }

  /** Every survivor is an eligible point with its current score, and every eligible point
      survives. */
  lemma SurvivorsAreEligible(hits: seq<Hit>, c: CollectionState, kind: VectorMetric, query: Vector,
                             passes: Json -> bool, neighbours: seq<Neighbour>, metric: Metric)
    requires c.Linked() && Answers(hits, c.index, neighbours, query, metric)
    ensures var rows := Survivors(hits, c.uidToId, c.points, passes, kind);
      && (forall i :: 0 <= i < |rows| ==>
            Eligible(c, rows[i].id, passes, neighbours) && rows[i] == PointRow(c, rows[i].id, kind, query, metric))
      && (forall id | Eligible(c, id, passes, neighbours) :: PointRow(c, id, kind, query, metric) in rows)
  {
    var rows := Survivors(hits, c.uidToId, c.points, passes, kind);
    forall i | 0 <= i < |rows|
      ensures Eligible(c, rows[i].id, passes, neighbours) && rows[i] == PointRow(c, rows[i].id, kind, query, metric)
    {
      SurvivorExplained(hits, c.uidToId, c.points, passes, kind, i);
      var h :| h in hits && Passing(h, c.uidToId, c.points, passes) && rows[i] == RowOf(h, c.uidToId, c.points, kind);
      assert c.NodeOf(rows[i].id) == c.index.docIdMap[h.docId];
    }
    forall id | Eligible(c, id, passes, neighbours)
      ensures PointRow(c, id, kind, query, metric) in rows
    {
      var h :| h in hits && h.docId == c.idToUid[id];
      assert c.NodeOf(id) == c.index.docIdMap[h.docId];
      PassingSurvives(hits, c.uidToId, c.points, passes, kind, h);
    }
  }

  lemma FirstRowsAreBest(hits: seq<Hit>, c: CollectionState, kind: VectorMetric, query: Vector, limit: nat,
                         passes: Json -> bool, neighbours: seq<Neighbour>, metric: Metric)
    requires c.Linked() && Answers(hits, c.index, neighbours, query, metric)
    ensures BestRows(Take(Survivors(hits, c.uidToId, c.points, passes, kind), RowLimit(limit)),
                     c, kind, query, limit, passes, neighbours, metric)
  {
    var all := Survivors(hits, c.uidToId, c.points, passes, kind);
    var rows := Take(all, RowLimit(limit));
    SurvivorsAreEligible(hits, c, kind, query, passes, neighbours, metric);
    SurvivorOrder(hits, c.uidToId, c.idToUid, c.points, passes, kind);
    forall id | Eligible(c, id, passes, neighbours) && PointRow(c, id, kind, query, metric) !in rows
      ensures |rows| == RowLimit(limit)
      ensures forall i :: 0 <= i < |rows| ==>
                AtLeastAsGood(kind, rows[i].score, PointRow(c, id, kind, query, metric).score)
    {
      LeftOutIsWorse(all, RowLimit(limit), kind, PointRow(c, id, kind, query, metric));
    }
  }

  lemma LeftOutIsWorse(all: seq<Row>, n: nat, kind: VectorMetric, row: Row)
    requires Ranked(all, kind) && row in all && row !in Take(all, n)
    ensures n < |all| && forall i :: 0 <= i < n ==> AtLeastAsGood(kind, all[i].score, row.score)
  {
    var j :| 0 <= j < |all| && all[j] == row;
    assert forall k :: 0 <= k < |Take(all, n)| ==> Take(all, n)[k] == all[k];
  }

  /** At most `limit` rows, though one for a limit of 0; no point twice, and none before a nearer one. */
  ghost predicate NearestFirst(rows: seq<Row>, points: Points, q: Vector, limit: nat, metric: Metric) {
    |rows| <= (if limit == 0 then 1 else limit) &&
    forall i, j :: 0 <= i < j < |rows| ==>
      rows[i].id != rows[j].id && rows[i].id in points && rows[j].id in points
      && metric(q, points[rows[i].id].vector) <= metric(q, points[rows[j].id].vector)
  }

  /** Each row is an offered point with its payload and score, and the payload meets every `must`
      condition, no `must_not` condition, and one of the `should` conditions if there are any. */
  ghost predicate NoneUnwanted<C>(rows: seq<Row>, c: CollectionState, kind: VectorMetric, q: Vector, filter: Filter<C>,
                                  matches: (Json, C) -> bool, neighbours: seq<Neighbour>, metric: Metric)
    requires c.Linked()
  {
    forall i :: 0 <= i < |rows| ==>
      && rows[i].id in c.points && rows[i].payload == c.points[rows[i].id].payload
      && (exists n :: n in neighbours && n.dId == c.NodeOf(rows[i].id))
      && rows[i].score == (if kind.Euclidean? then metric(q, c.points[rows[i].id].vector)
                           else 1.0 - metric(q, c.points[rows[i].id].vector))
      && (filter.must.None? || forall k | k in filter.must.value :: matches(rows[i].payload, k))
      && (filter.mustNot.None? || forall k | k in filter.mustNot.value :: !matches(rows[i].payload, k))
      && (filter.should.None? || filter.should.value == []
          || exists k | k in filter.should.value :: matches(rows[i].payload, k))
  }

  /** Each offered point like that has a row, or the limit is used up by rows at least as near. */
  ghost predicate NoneMissed<C>(rows: seq<Row>, c: CollectionState, q: Vector, limit: nat, filter: Filter<C>,
                                matches: (Json, C) -> bool, neighbours: seq<Neighbour>, metric: Metric)
    requires c.Linked()
  {
    forall id | id in c.points && (exists n :: n in neighbours && n.dId == c.NodeOf(id))
                && (filter.must.None? || forall k | k in filter.must.value :: matches(c.points[id].payload, k))
                && (filter.mustNot.None? || forall k | k in filter.mustNot.value :: !matches(c.points[id].payload, k))
                && (filter.should.None? || filter.should.value == []
                    || exists k | k in filter.should.value :: matches(c.points[id].payload, k)) ::
      HasRowOrIsBeaten(rows, c.points, q, limit, id, metric)
  }

  ghost predicate HasRowOrIsBeaten(rows: seq<Row>, points: Points, q: Vector, limit: nat, id: PointId, metric: Metric)
    requires id in points
  {
    || (exists i :: 0 <= i < |rows| && rows[i].id == id)
    || (|rows| == (if limit == 0 then 1 else limit)
        && forall i :: 0 <= i < |rows| ==>
             rows[i].id in points && metric(q, points[rows[i].id].vector) <= metric(q, points[id].vector))
  }

  lemma RowsAreNearest(rows: seq<Row>, c: CollectionState, kind: VectorMetric, q: Vector, limit: nat,
                       passes: Json -> bool, neighbours: seq<Neighbour>, metric: Metric)
    requires c.Linked() && BestRows(rows, c, kind, q, limit, passes, neighbours, metric)
    ensures NearestFirst(rows, c.points, q, limit, metric)
  {
    forall i | 0 <= i < |rows|
      ensures rows[i].id in c.points && rows[i] == PointRow(c, rows[i].id, kind, q, metric)
    {
      assert Eligible(c, rows[i].id, passes, neighbours);
    }
  }

  lemma RowsAreWanted<C>(rows: seq<Row>, c: CollectionState, kind: VectorMetric, q: Vector, limit: nat,
                         filter: Filter<C>, matches: (Json, C) -> bool, neighbours: seq<Neighbour>, metric: Metric)
    requires c.Linked()
    requires BestRows(rows, c, kind, q, limit, payload => PassesFilter(payload, filter, matches), neighbours, metric)
    ensures NoneUnwanted(rows, c, kind, q, filter, matches, neighbours, metric)
  {
    forall i | 0 <= i < |rows|
      ensures Eligible(c, rows[i].id, payload => PassesFilter(payload, filter, matches), neighbours)
      ensures PassesFilter(rows[i].payload, filter, matches) && rows[i] == PointRow(c, rows[i].id, kind, q, metric)
    {
      FilterMeaning(rows[i].payload, filter, matches);
    }
  }

  lemma WantedHaveRows<C>(rows: seq<Row>, c: CollectionState, kind: VectorMetric, q: Vector, limit: nat,
                          filter: Filter<C>, matches: (Json, C) -> bool, neighbours: seq<Neighbour>, metric: Metric)
    requires c.Linked()
    requires BestRows(rows, c, kind, q, limit, payload => PassesFilter(payload, filter, matches), neighbours, metric)
    ensures NoneMissed(rows, c, q, limit, filter, matches, neighbours, metric)
  {
    forall id | id in c.points && PassesFilter(c.points[id].payload, filter, matches)
                && Offered(neighbours, c.NodeOf(id))
      ensures HasRowOrIsBeaten(rows, c.points, q, limit, id, metric)
    {
      PointHasRow(rows, c, kind, q, limit, payload => PassesFilter(payload, filter, matches), neighbours, metric, id);
    }
    forall payload: Json ensures PassesFilter(payload, filter, matches) <==>
      && (filter.must.None? || forall k | k in filter.must.value :: matches(payload, k))
      && (filter.mustNot.None? || forall k | k in filter.mustNot.value :: !matches(payload, k))
      && (filter.should.None? || filter.should.value == []
          || exists k | k in filter.should.value :: matches(payload, k))
    {
      FilterMeaning(payload, filter, matches);
    }
  }

  lemma PointHasRow(rows: seq<Row>, c: CollectionState, kind: VectorMetric, q: Vector, limit: nat,
                    passes: Json -> bool, neighbours: seq<Neighbour>, metric: Metric, id: PointId)
    requires c.Linked() && BestRows(rows, c, kind, q, limit, passes, neighbours, metric)
    requires Eligible(c, id, passes, neighbours)
    ensures HasRowOrIsBeaten(rows, c.points, q, limit, id, metric)
  {
    forall i | 0 <= i < |rows|
      ensures rows[i].id in c.points && rows[i] == PointRow(c, rows[i].id, kind, q, metric)
    {
      assert Eligible(c, rows[i].id, passes, neighbours);
    }
  }

  /** So the limit is kept exactly when it is at least 1 or nothing is eligible. */
  lemma LimitKept(rows: seq<Row>, c: CollectionState, kind: VectorMetric, query: Vector, limit: nat,
                  passes: Json -> bool, neighbours: seq<Neighbour>, metric: Metric)
    requires c.Linked() && BestRows(rows, c, kind, query, limit, passes, neighbours, metric)
    ensures |rows| <= limit <==> limit >= 1 || forall id :: !Eligible(c, id, passes, neighbours)
  {
    if limit == 0 && |rows| > 0 {
      assert Eligible(c, rows[0].id, passes, neighbours);
    }
  }

  // ----- The collection ------------------------------------------------------------

  /** How many neighbours are asked for: more than `limit` when some may not pass the filter. */
  function FetchK(p: Profile, limit: Usize, hasFilter: bool): Outcome<Usize> {
    if !hasFilter then Done(limit)
    else
      match UsizeResult(p, 4 * limit)
      case Panic => Panic
      case Done(a) =>
        match UsizeResult(p, limit + 16)
        case Panic => Panic
        case Done(b) => Done(if a > b then a else b)
  }

  /** The limits for which the numbers derived from them leave usize, the second kind only for a
      query of the right dimension. */
  predicate QueryOverflows(limit: Usize, hasFilter: bool, fits: bool) {
    (hasFilter && limit >= 0x4000_0000_0000_0000) ||
    (fits && limit >= if hasFilter then 0x2000_0000_0000_0000 else 0x8000_0000_0000_0000)
  }

  /** With a filter, 16 neighbours more than the limit up to a limit of 5, and from 6 on four times it. */
  lemma FetchMeaning(p: Profile, limit: Usize)
    requires limit < 0x4000_0000_0000_0000
    ensures FetchK(p, limit, true) == Done(if limit <= 5 then limit + 16 else 4 * limit)
    ensures FetchK(p, limit, false) == Done(limit)
  {
  }

  /** A limit of 2^62 with a filter, and one of 2^63 without. */
  lemma HugeLimitsPanic()
    ensures FetchK(Debug, 0x4000_0000_0000_0000, true) == Panic
    ensures FetchK(Debug, 0x8000_0000_0000_0000, false) == Done(0x8000_0000_0000_0000)
    ensures CandidateListSize(Debug, 0x8000_0000_0000_0000, None) == Panic
  {
  }

  /** A query with limit 0 on a collection of one point returns it. */
  lemma LimitZeroReturnsOne(id: PointId, point: StoredPoint, distance: real, kind: VectorMetric)
    ensures var hits, uidToId, points := [Hit(0, distance)], map[0 := id], map[id := point];
      |Take(Survivors(hits, uidToId, points, _ => true, kind), RowLimit(0))| == 1
  {
    var hits := [Hit(0, distance)];
    assert hits[..0] == [];
    assert Survivors(hits[..0], map[0 := id], map[id := point], _ => true, kind) == [];
  }

  class Collection {
    const index: HnswVectorIndex
    const dimension: nat
    const distance: VectorMetric
    var points: Points
    var idToUid: map<PointId, nat>
    var uidToId: map<nat, PointId>
    var nextUid: nat

    function State(): CollectionState
      reads this, index
    {
      CollectionState(index.State(), dimension, points, idToUid, uidToId, nextUid)
    }

    constructor (dimension: nat, distance: VectorMetric)
      ensures State() == NewCollection(dimension) && this.distance == distance && fresh(index)
    {
      this.dimension, this.distance := dimension, distance;
      index := new HnswVectorIndex(dimension);
      points, idToUid, uidToId, nextUid := map[], map[], map[], 0;
    }

    /** The first step of an upsert. */
    method DropOldMapping(id: PointId)
      modifies this, index
      ensures State() == DropMapping(old(State()), id)
    {
      if id in idToUid {
        var oldUid := idToUid[id];
        var _ := index.Remove(oldUid);
        uidToId := uidToId - {oldUid};
      }
    }

    method Upsert(id: PointId, vector: Vector, payload: Json) returns (r: Result<()>)
      modifies this, index
      ensures (State(), r) == UpsertPoint(old(State()), id, vector, payload)
    {
      if |vector| != dimension { return Err; }
      DropOldMapping(id);
      var uid := nextUid;
      nextUid := nextUid + 1;
      r := index.Add(uid, vector);
      if r.Ok? {
        idToUid := idToUid[id := uid];
        uidToId := uidToId[uid := id];
        points := points[id := StoredPoint(vector, payload)];
      }
    }

    method DeleteById(id: PointId)
      modifies this, index
      ensures State() == DeletePoint(old(State()), id)
    {
      if id in idToUid {
        var uid := idToUid[id];
        idToUid := idToUid - {id};
        var _ := index.Remove(uid);
        uidToId := uidToId - {uid};
      }
      points := points - {id};
    }

    /** Stops at the first point of a wrong dimension; the ones before it stay. */
    method UpsertPoints(batch: seq<PersistedPoint>) returns (r: Result<()>)
      requires State().Linked()
      modifies this, index
      ensures var n := GoodPrefix(batch, dimension);
        State() == Run(old(State()), Rebuild(batch[..n])) && r == if n == |batch| then Ok(()) else Err
    {
      ghost var start := State();
      GoodPrefixMeaning(batch, dimension);
      for i := 0 to |batch|
        invariant i <= GoodPrefix(batch, dimension)
        invariant State() == Run(start, Rebuild(batch[..i]))
      {
        RebuildStep(start, batch, i);
        r := Upsert(batch[i].id, batch[i].vector, batch[i].payload);
        if r.Err? { return Err; }
      }
      return Ok(());
    }

    method DeletePoints(passes: Json -> bool)
      requires State().Linked()
      modifies this, index
      ensures exists ids ::
                Enumerates(ids, PassingIds(old(points), passes)) && State() == Run(old(State()), Deletes(ids))
    {
      var order := Iterate(PassingIds(points, passes));
      for i := 0 to |order|
        invariant State() == Run(old(State()), Deletes(order[..i]))
      {
        DeleteById(order[i]);
        assert Deletes(order[..i + 1])[..i] == Deletes(order[..i]);
      }
      assert order[..|order|] == order;
    }

    method ToPersisted() returns (p: Persisted)
      ensures p.dimension == dimension && p.distance == DistanceName(distance)
      ensures Snapshots(p.points, points) && |p.points| == |points.Keys|
    {
      var order := Iterate(points.Keys);
      EnumerationSize(order, points.Keys);
      var listed: seq<PersistedPoint> := [];
      for i := 0 to |order|
        invariant |listed| == i
        invariant forall j :: 0 <= j < i ==> order[j] in points && listed[j] == Saved(order[j], points[order[j]])
      {
        assert order[i] in Elements(order);
        listed := listed + [Saved(order[i], points[order[i]])];
      }
      forall id | id in points
        ensures exists i :: 0 <= i < |listed| && listed[i].id == id
      {
        assert id in Elements(order);
        var i :| 0 <= i < |order| && order[i] == id;
        assert listed[i].id == id;
      }
      return Persisted(dimension, DistanceName(distance), listed);
    }

    constructor FromPersisted(p: Persisted)
      ensures State() == Run(NewCollection(p.dimension), Rebuild(p.points)) && fresh(index)
      ensures distance == ParseDistance(p.distance)
    {
      dimension, distance := p.dimension, ParseDistance(p.distance);
      index := new HnswVectorIndex(p.dimension);
      points, idToUid, uidToId, nextUid := map[], map[], map[], 0;
      new;
      for i := 0 to |p.points|
        invariant fresh(index) && State() == Run(NewCollection(p.dimension), Rebuild(p.points[..i]))
      {
        var pt := p.points[i];
        var _ := Upsert(pt.id, pt.vector, pt.payload);
        assert Rebuild(p.points[..i + 1])[..i] == Rebuild(p.points[..i]);
      }
      assert p.points[..|p.points|] == p.points;
    }

    /** A panic here happens under the lock on the collections. */
    method QueryPoints<C>(p: Profile, query: Option<Vector>, limit: Usize, filter: Filter<C>,
                          matches: (Json, C) -> bool, neighbours: seq<Neighbour>, ghost metric: Metric)
      returns (r: Outcome<Result<seq<Row>>>)
      requires State().Linked()
      requires query.Some? ==> FromGraph(neighbours, index.graph, query.value, metric)
      ensures r.Panic? <==>
        p.Debug? && query.Some? && QueryOverflows(limit, HasFilter(filter), |query.value| == dimension)
      ensures r.Done? ==> (r.value.Ok? <==> query.Some? && |query.value| == dimension)
      ensures r.Done? && r.value.Ok? ==>
        && BestRows(r.value.value, State(), distance, query.value, limit,
                    payload => PassesFilter(payload, filter, matches), neighbours, metric)
        && NearestFirst(r.value.value, points, query.value, limit, metric)
        && NoneUnwanted(r.value.value, State(), distance, query.value, filter, matches, neighbours, metric)
        && NoneMissed(r.value.value, State(), query.value, limit, filter, matches, neighbours, metric)
    {
      if query.None? { return Done(Err); }
      var fetch := FetchK(p, limit, HasFilter(filter));
      if fetch.Panic? { return Panic; }
      var k := if fetch.value > 1 then fetch.value else 1;
      var found := index.Search(p, query.value, k, None, neighbours, metric);
      if found.Panic? { return Panic; }
      if found.value.Err? { return Done(Err); }
      ghost var passes := payload => PassesFilter(payload, filter, matches);
      FirstRowsAreBest(found.value.value, State(), distance, query.value, limit, passes, neighbours, metric);
      var rows := CollectRows(found.value.value, limit, filter, matches);
      RowsAreNearest(rows, State(), distance, query.value, limit, passes, neighbours, metric);
      RowsAreWanted(rows, State(), distance, query.value, limit, filter, matches, neighbours, metric);
      WantedHaveRows(rows, State(), distance, query.value, limit, filter, matches, neighbours, metric);
      return Done(Ok(rows));
    }

    /** The loop of `query_points`. */
    method CollectRows<C>(hits: seq<Hit>, limit: nat, filter: Filter<C>, matches: (Json, C) -> bool)
      returns (rows: seq<Row>)
      ensures var passes := payload => PassesFilter(payload, filter, matches);
        rows == Take(Survivors(hits, uidToId, points, passes, distance), RowLimit(limit))
    {
      ghost var passes := payload => PassesFilter(payload, filter, matches);
      rows := [];
      for i := 0 to |hits|
        invariant |rows| < RowLimit(limit)
        invariant rows == Survivors(hits[..i], uidToId, points, passes, distance)
      {
        var h := hits[i];
        assert hits[..i + 1][..i] == hits[..i];
        if h.docId !in uidToId { continue; }
        var id := uidToId[h.docId];
        if id !in points { continue; }
        if HasFilter(filter) && !PassesFilter(points[id].payload, filter, matches) { continue; }
        rows := rows + [Row(id, ScoreFromDistance(distance, h.distance), points[id].payload)];
        if |rows| >= limit {
          SurvivorsPrefix(hits, i + 1, uidToId, points, passes, distance);
          return;
        }
      }
      assert hits[..|hits|] == hits;
    }
  }

  // ----- Batches -------------------------------------------------------------------

  /** How many points of a batch precede the first one of a wrong dimension. */
  function GoodPrefix(batch: seq<PersistedPoint>, dimension: nat): (n: nat)
    ensures n <= |batch|
  {
    if batch == [] || |batch[0].vector| != dimension then 0 else 1 + GoodPrefix(batch[1..], dimension)
  }

  lemma {:induction false} GoodPrefixMeaning(batch: seq<PersistedPoint>, dimension: nat)
    ensures var n := GoodPrefix(batch, dimension);
      n <= |batch| && (forall j :: 0 <= j < n ==> |batch[j].vector| == dimension)
      && (n < |batch| ==> |batch[n].vector| != dimension)
  {
    if batch != [] && |batch[0].vector| == dimension {
      GoodPrefixMeaning(batch[1..], dimension);
    }
  }

  lemma RebuildStep(c: CollectionState, batch: seq<PersistedPoint>, i: nat)
    requires c.Linked() && i < |batch|
    ensures var before, pt := Run(c, Rebuild(batch[..i])), batch[i];
      && Run(c, Rebuild(batch[..i + 1])) == UpsertPoint(before, pt.id, pt.vector, pt.payload).0
      && (UpsertPoint(before, pt.id, pt.vector, pt.payload).1.Ok? <==> |pt.vector| == c.dimension)
      && (|pt.vector| != c.dimension ==> UpsertPoint(before, pt.id, pt.vector, pt.payload).0 == before)
  {
    assert Rebuild(batch[..i + 1])[..i] == Rebuild(batch[..i]);
    RunKeepsLinks(c, Rebuild(batch[..i]));
    UpsertKeepsLinks(Run(c, Rebuild(batch[..i])), batch[i].id, batch[i].vector, batch[i].payload);
  }

  function PassingIds(points: Points, passes: Json -> bool): set<PointId> {
    set id | id in points && passes(points[id].payload)
  }

  function Deletes(ids: seq<PointId>): seq<Op> {
    seq(|ids|, i requires 0 <= i < |ids| => Delete(ids[i]))
  }

  lemma {:induction false} DeletesRemove(points: Points, ids: seq<PointId>, dimension: nat)
    ensures ApplyOps(points, Deletes(ids), dimension) == points - Elements(ids)
  {
    if ids != [] {
      var n := |ids| - 1;
      DeletesRemove(points, ids[..n], dimension);
      assert Deletes(ids)[..n] == Deletes(ids[..n]);
      assert Elements(ids) == Elements(ids[..n]) + {ids[n]};
    }
  }

  /** Deleting by filter removes exactly the points that pass it, in whatever order. */
  lemma DeleteByFilter(c: CollectionState, passes: Json -> bool, ids: seq<PointId>)
    requires c.Linked() && Enumerates(ids, PassingIds(c.points, passes))
    ensures var after := Run(c, Deletes(ids));
      after.Linked() && after.points == map id | id in c.points && !passes(c.points[id].payload) :: c.points[id]
  {
    RunKeepsLinks(c, Deletes(ids));
    DeletesRemove(c.points, ids, c.dimension);
  }

  /** Loading what was saved gives the same dimension, metric and points. */
  lemma ReloadRestores(c: CollectionState, kind: VectorMetric, p: Persisted)
    requires c.Linked() && Snapshots(p.points, c.points)
    requires p.dimension == c.dimension && p.distance == DistanceName(kind)
    ensures var loaded := Run(NewCollection(p.dimension), Rebuild(p.points));
      loaded.Linked() && loaded.dimension == c.dimension && loaded.points == c.points
      && ParseDistance(p.distance) == kind
  {
    NewIsLinked(p.dimension);
    RunKeepsLinks(NewCollection(p.dimension), Rebuild(p.points));
    IndexHoldsPoints(c);
    SnapshotRoundTrip(p.points, c.points, c.dimension);
    DistanceRoundTrip(kind);
  }

  lemma {:induction false} SurvivorsPrefix(hits: seq<Hit>, n: nat, uidToId: map<nat, PointId>, points: Points,
                                           passes: Json -> bool, kind: VectorMetric)
    requires n <= |hits|
    ensures Survivors(hits[..n], uidToId, points, passes, kind) <= Survivors(hits, uidToId, points, passes, kind)
  {
    if n < |hits| {
      var front := hits[..|hits| - 1];
      assert front[..n] == hits[..n];
      SurvivorsPrefix(front, n, uidToId, points, passes, kind);
    } else {
      assert hits[..n] == hits;
    }
  }
}
