/** database/src/vector_index.rs: document ids over an append-only vector graph.

    The graph is an external crate.  It stands here as a map from internal ids to the vectors
    inserted under them; what a search of it returns is a parameter, about which `FromGraph`
    is all that is assumed. */
module VectorIndex {
  import opened Machine
  import opened Sequences

  type Vector = seq<real>

  /** The distance that the graph measures.  The source always builds it with the cosine distance,
      also for a collection that asks for another one. */
  type Metric = (Vector, Vector) -> real

  /** One neighbour as the graph reports it. */
  datatype Neighbour = Neighbour(dId: nat, distance: real)

  datatype Hit = Hit(docId: nat, distance: real)

  datatype Result<+T> = Ok(value: T) | Err

  /** Distinct inserted nodes with their true distances; nothing says how close they are. */
  ghost predicate FromGraph(neighbours: seq<Neighbour>, graph: map<nat, Vector>, query: Vector, metric: Metric) {
    (forall i :: 0 <= i < |neighbours| ==>
      neighbours[i].dId in graph && neighbours[i].distance == metric(query, graph[neighbours[i].dId])) &&
    (forall i, j :: 0 <= i < j < |neighbours| ==> neighbours[i].dId != neighbours[j].dId)
  }

  ghost predicate Inverse<K, V>(there: map<K, V>, back: map<V, K>) {
    (forall k {:trigger there[k]} | k in there :: there[k] in back && back[there[k]] == k) &&
    (forall v {:trigger back[v]} | v in back :: back[v] in there && there[back[v]] == v)
  }

  lemma InverseUpdates<K, V>(there: map<K, V>, back: map<V, K>, k: K, v: V)
    requires Inverse(there, back)
    ensures k in there ==> Inverse(there - {k}, back - {there[k]})
    ensures k !in there && v !in back ==> Inverse(there[k := v], back[v := k])
  {
  }

  /** From one state to a later one: no node is dropped from the graph or changes its vector,
      and a node without a mapping never gets one again. */
  ghost predicate NodesRetire(graph: map<nat, Vector>, idToDoc: map<nat, nat>,
                              graph': map<nat, Vector>, idToDoc': map<nat, nat>)
  {
    forall n | n in graph ::
      n in graph' && graph'[n] == graph[n] && (n !in idToDoc ==> n !in idToDoc')
  }

  /** The documents behind the neighbours; nodes without a mapping are passed over. */
  function LiveHits(neighbours: seq<Neighbour>, idToDoc: map<nat, nat>): seq<Hit> {
    if neighbours == [] then []
    else
      var n := neighbours[0];
      (if n.dId in idToDoc then [Hit(idToDoc[n.dId], n.distance)] else []) + LiveHits(neighbours[1..], idToDoc)
  }

  /** `sort_by` is stable: an element goes behind the ones at the same distance. */
  function InsertHit(sorted: seq<Hit>, h: Hit): seq<Hit> {
    if sorted == [] || h.distance < sorted[0].distance then [h] + sorted
    else [sorted[0]] + InsertHit(sorted[1..], h)
  }

  function SortByDistance(hits: seq<Hit>): seq<Hit> {
    if hits == [] then [] else InsertHit(SortByDistance(hits[..|hits| - 1]), hits[|hits| - 1])
  }

  ghost predicate Ascending(hits: seq<Hit>) {
    forall i, j :: 0 <= i < j < |hits| ==> hits[i].distance <= hits[j].distance
  }

  ghost predicate DistinctDocs(hits: seq<Hit>) {
    forall i, j :: 0 <= i < j < |hits| ==> hits[i].docId != hits[j].docId
  }

  lemma {:induction false} InsertHitElements(sorted: seq<Hit>, h: Hit)
    ensures Elements(InsertHit(sorted, h)) == Elements(sorted) + {h}
  {
    if sorted == [] || h.distance < sorted[0].distance {
      HeadElements([h] + sorted);
    } else {
      InsertHitElements(sorted[1..], h);
      HeadElements(sorted);
      HeadElements([sorted[0]] + InsertHit(sorted[1..], h));
    }
  }

  lemma InsertedHit(sorted: seq<Hit>, h: Hit, i: nat)
    requires i < |InsertHit(sorted, h)|
    ensures InsertHit(sorted, h)[i] == h || InsertHit(sorted, h)[i] in sorted
  {
    InsertHitElements(sorted, h);
    assert InsertHit(sorted, h)[i] in Elements(InsertHit(sorted, h));
  }

  lemma {:induction false} InsertHitAscending(sorted: seq<Hit>, h: Hit)
    requires Ascending(sorted)
    ensures Ascending(InsertHit(sorted, h))
  {
    if sorted != [] && h.distance >= sorted[0].distance {
      var tail := sorted[1..];
      InsertHitAscending(tail, h);
      forall i | 0 <= i < |InsertHit(tail, h)|
        ensures sorted[0].distance <= InsertHit(tail, h)[i].distance
      {
        InsertedHit(tail, h, i);
      }
    }
  }

  lemma {:induction false} InsertHitDistinct(sorted: seq<Hit>, h: Hit)
    requires DistinctDocs(sorted) && forall x | x in sorted :: x.docId != h.docId
    ensures DistinctDocs(InsertHit(sorted, h))
  {
    if sorted != [] && h.distance >= sorted[0].distance {
      var tail := sorted[1..];
      InsertHitDistinct(tail, h);
      forall i | 0 <= i < |InsertHit(tail, h)|
        ensures sorted[0].docId != InsertHit(tail, h)[i].docId
      {
        InsertedHit(tail, h, i);
      }
    }
  }

  /** Sorting keeps the hits, one per document, and orders them by distance. */
  lemma {:induction false} SortKeeps(hits: seq<Hit>)
    ensures Ascending(SortByDistance(hits)) && Elements(SortByDistance(hits)) == Elements(hits)
    ensures DistinctDocs(hits) ==> DistinctDocs(SortByDistance(hits))
  {
    if hits != [] {
      var front, last := hits[..|hits| - 1], hits[|hits| - 1];
      SortKeeps(front);
      assert hits == front + [last];
      assert Elements(hits) == Elements(front) + {last};
      InsertHitElements(SortByDistance(front), last);
      InsertHitAscending(SortByDistance(front), last);
      forall x | x in SortByDistance(front)
        ensures x in front
      {
        assert x in Elements(SortByDistance(front));
      }
      if DistinctDocs(hits) {
        assert forall x | x in SortByDistance(front) :: x.docId != last.docId;
        InsertHitDistinct(SortByDistance(front), last);
      }
    }
  }

  lemma {:induction false} LiveHitsMeaning(neighbours: seq<Neighbour>, idToDoc: map<nat, nat>)
    ensures forall h | h in LiveHits(neighbours, idToDoc) ::
              exists n :: n in neighbours && n.dId in idToDoc && h == Hit(idToDoc[n.dId], n.distance)
    ensures forall n | n in neighbours && n.dId in idToDoc ::
              Hit(idToDoc[n.dId], n.distance) in LiveHits(neighbours, idToDoc)
  {
    if neighbours != [] {
      LiveHitsMeaning(neighbours[1..], idToDoc);
      assert neighbours == [neighbours[0]] + neighbours[1..];
    }
  }

  lemma {:induction false} LiveHitsDistinct(neighbours: seq<Neighbour>, idToDoc: map<nat, nat>, docIdMap: map<nat, nat>)
    requires Inverse(docIdMap, idToDoc)
    requires forall i, j :: 0 <= i < j < |neighbours| ==> neighbours[i].dId != neighbours[j].dId
    ensures DistinctDocs(LiveHits(neighbours, idToDoc))
  {
    if neighbours != [] {
      var first, rest := neighbours[0], LiveHits(neighbours[1..], idToDoc);
      LiveHitsDistinct(neighbours[1..], idToDoc, docIdMap);
      LiveHitsMeaning(neighbours[1..], idToDoc);
      if first.dId in idToDoc {
        forall h | h in rest
          ensures h.docId != idToDoc[first.dId]
        {
          var n :| n in neighbours[1..] && n.dId in idToDoc && h == Hit(idToDoc[n.dId], n.distance);
          assert n.dId != first.dId;
        }
      }
    }
  }

  // ----- The index as a value ------------------------------------------------------

  datatype IndexState = IndexState(dimension: nat, graph: map<nat, Vector>, count: nat,
                                   docIdMap: map<nat, nat>, idToDoc: map<nat, nat>, nextId: nat)

  /** Documents and mapped nodes correspond one to one and are counted; the graph holds every
      node ever added. */
  ghost predicate Sound(ix: IndexState) {
    Inverse(ix.docIdMap, ix.idToDoc) && ix.count == |ix.docIdMap| && ix.idToDoc.Keys <= ix.graph.Keys &&
    (forall n: nat :: n in ix.graph <==> n < ix.nextId) &&
    (forall n | n in ix.graph :: |ix.graph[n]| == ix.dimension)
  }

  function AddTo(ix: IndexState, docId: nat, vector: Vector): Result<IndexState> {
    if |vector| != ix.dimension || docId in ix.docIdMap then Err
    else Ok(ix.(nextId := ix.nextId + 1, graph := ix.graph[ix.nextId := vector],
                docIdMap := ix.docIdMap[docId := ix.nextId], idToDoc := ix.idToDoc[ix.nextId := docId],
                count := ix.count + 1))
  }

  function RemoveFrom(ix: IndexState, docId: nat): Result<IndexState> {
    if docId !in ix.docIdMap then Err
    else Ok(ix.(docIdMap := ix.docIdMap - {docId}, idToDoc := ix.idToDoc - {ix.docIdMap[docId]},
                count := SaturatingSub(ix.count, 1)))
  }

  /** A new document gets a node that the graph never had. */
  lemma AddSound(ix: IndexState, docId: nat, vector: Vector)
    requires Sound(ix)
    ensures var r := AddTo(ix, docId, vector);
      r.Ok? ==> Sound(r.value) && ix.nextId !in ix.graph
                && NodesRetire(ix.graph, ix.idToDoc, r.value.graph, r.value.idToDoc)
  {
    InverseUpdates(ix.docIdMap, ix.idToDoc, docId, ix.nextId);
  }

  /** Removing a document leaves its node in the graph, without a mapping for good. */
  lemma RemoveSound(ix: IndexState, docId: nat)
    requires Sound(ix)
    ensures var r := RemoveFrom(ix, docId);
      r.Ok? ==> Sound(r.value) && r.value.graph == ix.graph && ix.docIdMap[docId] !in r.value.idToDoc
                && NodesRetire(ix.graph, ix.idToDoc, r.value.graph, r.value.idToDoc)
  {
    InverseUpdates(ix.docIdMap, ix.idToDoc, docId, 0);
  }

  /** A search gives live documents only, each at most once and with the distance of the vector
      it has now, nearest first; it misses none whose node the graph offered. */
  ghost predicate Answers(hits: seq<Hit>, ix: IndexState, neighbours: seq<Neighbour>, query: Vector, metric: Metric) {
    Ascending(hits) && DistinctDocs(hits) &&
    (forall h | h in hits :: h.docId in ix.docIdMap && ix.docIdMap[h.docId] in ix.graph
                             && h.distance == metric(query, ix.graph[ix.docIdMap[h.docId]])) &&
    (forall d | d in ix.docIdMap :: (exists h :: h in hits && h.docId == d) <==> Offered(neighbours, ix.docIdMap[d]))
  }

  ghost predicate Offered(neighbours: seq<Neighbour>, node: nat) {
    exists n :: n in neighbours && n.dId == node
  }

  lemma SearchAnswers(ix: IndexState, neighbours: seq<Neighbour>, query: Vector, metric: Metric)
    requires Sound(ix) && FromGraph(neighbours, ix.graph, query, metric)
    ensures Answers(SortByDistance(LiveHits(neighbours, ix.idToDoc)), ix, neighbours, query, metric)
  {
    var hits := LiveHits(neighbours, ix.idToDoc);
    var sorted := SortByDistance(hits);
    LiveHitsMeaning(neighbours, ix.idToDoc);
    LiveHitsDistinct(neighbours, ix.idToDoc, ix.docIdMap);
    SortKeeps(hits);
    assert forall h :: h in sorted <==> h in Elements(sorted);
    assert forall h :: h in hits <==> h in Elements(hits);
    forall d | d in ix.docIdMap
      ensures (exists h :: h in sorted && h.docId == d) <==> Offered(neighbours, ix.docIdMap[d])
    {
      if h :| h in sorted && h.docId == d {
        var n :| n in neighbours && n.dId in ix.idToDoc && h == Hit(ix.idToDoc[n.dId], n.distance);
      }
      if n :| n in neighbours && n.dId == ix.docIdMap[d] {
        assert Hit(ix.idToDoc[n.dId], n.distance) in hits;
      }
    }
  }

  /** `ef_search.unwrap_or(k.max(10) * 2)`, whose argument is computed in any case. */
  function CandidateListSize(p: Profile, k: Usize, efSearch: Option<Usize>): Outcome<Usize> {
    match UsizeResult(p, 2 * (if k > 10 then k else 10))
    case Panic => Panic
    case Done(size) => Done(if efSearch.Some? then efSearch.value else size)
  }

  /** Twice as many candidates as neighbours asked for, and at least 20, unless the caller says how many. */
  lemma CandidateListMeaning(p: Profile, k: Usize, size: Usize)
    requires k < 0x8000_0000_0000_0000
    ensures CandidateListSize(p, k, None) == Done(if k <= 10 then 20 else 2 * k)
    ensures CandidateListSize(p, k, Some(size)) == Done(size)
  {
  }

  class HnswVectorIndex {
    const dimension: nat
    var graph: map<nat, Vector>
    var count: nat
    var docIdMap: map<nat, nat>
    var idToDoc: map<nat, nat>
    var nextId: nat

    function State(): IndexState
      reads this
    {
      IndexState(dimension, graph, count, docIdMap, idToDoc, nextId)
    }

    constructor (dimension: nat)
      ensures State() == IndexState(dimension, map[], 0, map[], map[], 0)
    {
      this.dimension := dimension;
      graph, count, docIdMap, idToDoc, nextId := map[], 0, map[], map[], 0;
    }

    method Add(docId: nat, vector: Vector) returns (r: Result<()>)
      modifies this
      ensures var after := AddTo(old(State()), docId, vector);
        if after.Ok? then r == Ok(()) && State() == after.value else r == Err && State() == old(State())
    {
      if |vector| != dimension { return Err; }
      if docId in docIdMap { return Err; }
      var internalId := nextId;
      nextId := nextId + 1;
      graph := graph[internalId := vector];
      docIdMap := docIdMap[docId := internalId];
      idToDoc := idToDoc[internalId := docId];
      count := count + 1;
      return Ok(());
    }

    method Remove(docId: nat) returns (r: Result<()>)
      modifies this
      ensures var after := RemoveFrom(old(State()), docId);
        if after.Ok? then r == Ok(()) && State() == after.value else r == Err && State() == old(State())
    {
      if docId !in docIdMap { return Err; }
      var internalId := docIdMap[docId];
      docIdMap := docIdMap - {docId};
      idToDoc := idToDoc - {internalId};
      count := SaturatingSub(count, 1);
      return Ok(());
    }

    /** `k` and the size of the candidate list only choose which neighbours the graph offers. */
    method Search(p: Profile, query: Vector, k: Usize, efSearch: Option<Usize>, neighbours: seq<Neighbour>,
                  ghost metric: Metric)
      returns (r: Outcome<Result<seq<Hit>>>)
      requires Sound(State()) && FromGraph(neighbours, graph, query, metric)
      ensures r.Panic? <==> p.Debug? && |query| == dimension && k >= 0x8000_0000_0000_0000
      ensures r.Done? ==> (r.value.Ok? <==> |query| == dimension)
      ensures r.Done? && r.value.Ok? ==> Answers(r.value.value, State(), neighbours, query, metric)
    {
      if |query| != dimension { return Done(Err); }
      var ef := CandidateListSize(p, k, efSearch);
      if ef.Panic? { return Panic; }
      SearchAnswers(State(), neighbours, query, metric);
      return Done(Ok(SortByDistance(LiveHits(neighbours, idToDoc))));
    }
  }
}
