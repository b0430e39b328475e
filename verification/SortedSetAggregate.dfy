/** database/src/zset.rs: how ZUNIONSTORE and ZINTERSTORE combine the scores of a member. */
module SortedSetAggregate {
  import opened Machine
  import opened ByteStrings
  import opened Scores

  type ScoreMap = map<Bytes, Score>

  datatype Aggregate = Sum | Min | Max

  function Lookup(hmap: ScoreMap, k: Bytes): Option<Score> {
    if k in hmap then Some(hmap[k]) else None
  }

  function Weight(weights: Option<seq<Score>>, i: nat): Score
    requires weights.Some? ==> i < |weights.value|
  {
    match weights
    case Some(ws) => ws[i]
    case None => Finite(1.0)
  }

  function ZeroOnNan(s: Score): Score {
    if s == NaN then Finite(0.0) else s
  }

  /** What one more weighted score does to the score a member has so far. */
  function UnionStep(aggregate: Aggregate, current: Option<Score>, x: Score): Option<Score> {
    match aggregate
    case Sum => Some(ZeroOnNan(if current.Some? then Add(x, current.value) else x))
    case Max => if Lt(if current.Some? then current.value else NegInf, x) then Some(x) else current
    case Min => if Lt(x, if current.Some? then current.value else PosInf) then Some(x) else current
  }

  /** The weighted scores of `k`, in input order. */
  function Weighted(zsets: seq<ScoreMap>, weights: Option<seq<Score>>, k: Bytes): seq<Score>
    requires weights.Some? ==> |weights.value| >= |zsets|
  {
    if zsets == [] then []
    else
      var n := |zsets| - 1;
      Weighted(zsets[..n], weights, k) + if k in zsets[n] then [Mul(Weight(weights, n), zsets[n][k])] else []
  }

  function UnionFold(aggregate: Aggregate, start: Option<Score>, xs: seq<Score>): Option<Score> {
    if xs == [] then start
    else UnionStep(aggregate, UnionFold(aggregate, start, xs[..|xs| - 1]), xs[|xs| - 1])
  }

  function InterStep(aggregate: Aggregate, score: Score, x: Score): Score {
    match aggregate
    case Sum => Add(score, x)
    case Min => if Lt(x, score) then x else score
    case Max => if Lt(score, x) then x else score
  }

  function InterFold(aggregate: Aggregate, xs: seq<Score>): Score
    requires xs != []
  {
    if |xs| == 1 then xs[0]
    else InterStep(aggregate, InterFold(aggregate, xs[..|xs| - 1]), xs[|xs| - 1])
  }

  lemma {:induction false} WeightedMember(zsets: seq<ScoreMap>, weights: Option<seq<Score>>, k: Bytes)
    requires weights.Some? ==> |weights.value| >= |zsets|
    ensures |Weighted(zsets, weights, k)| <= |zsets|
    ensures Weighted(zsets, weights, k) != [] <==> exists i :: 0 <= i < |zsets| && k in zsets[i]
    ensures |Weighted(zsets, weights, k)| == |zsets| <==> InAll(zsets, k)
  {
    if zsets != [] {
      var n := |zsets| - 1;
      WeightedMember(zsets[..n], weights, k);
      assert forall i :: 0 <= i < n ==> zsets[..n][i] == zsets[i];
    }
  }

  lemma {:induction false} WeightedInAll(zsets: seq<ScoreMap>, weights: Option<seq<Score>>, k: Bytes, i: nat)
    requires weights.Some? ==> |weights.value| >= |zsets|
    requires InAll(zsets, k) && i < |zsets|
    ensures |Weighted(zsets, weights, k)| == |zsets|
    ensures Weighted(zsets, weights, k)[i] == Mul(Weight(weights, i), zsets[i][k])
  {
    WeightedMember(zsets, weights, k);
    var n := |zsets| - 1;
    WeightedMember(zsets[..n], weights, k);
    if i < n {
      WeightedInAll(zsets[..n], weights, k, i);
    }
  }

  /** Taking one more operand into account. */
  lemma UnionFoldStep(zsets: seq<ScoreMap>, weights: Option<seq<Score>>, aggregate: Aggregate, start: Option<Score>,
                      k: Bytes, i: nat)
    requires weights.Some? ==> |weights.value| >= |zsets|
    requires i < |zsets|
    ensures var before := UnionFold(aggregate, start, Weighted(zsets[..i], weights, k));
      UnionFold(aggregate, start, Weighted(zsets[..i + 1], weights, k))
        == if k in zsets[i] then UnionStep(aggregate, before, Mul(Weight(weights, i), zsets[i][k])) else before
  {
    assert zsets[..i + 1][..i] == zsets[..i];
    var xs := Weighted(zsets[..i], weights, k);
    if k in zsets[i] {
      assert (xs + [Mul(Weight(weights, i), zsets[i][k])])[..|xs|] == xs;
    } else {
      assert Weighted(zsets[..i + 1], weights, k) == xs;
    }
  }

  predicate InAll(zsets: seq<ScoreMap>, k: Bytes) {
    forall i :: 0 <= i < |zsets| ==> k in zsets[i]
  }

  /** The score that ZINTERSTORE stores. */
  function InterScore(zsets: seq<ScoreMap>, weights: Option<seq<Score>>, aggregate: Aggregate, k: Bytes): Score
    requires weights.Some? ==> |weights.value| >= |zsets|
    requires zsets != [] && InAll(zsets, k)
  {
    WeightedMember(zsets, weights, k);
    ZeroOnNan(InterFold(aggregate, Weighted(zsets, weights, k)))
  }

  ghost predicate AllFinite(xs: seq<Score>) {
    forall i :: 0 <= i < |xs| ==> xs[i].Finite?
  }

  function RealSum(xs: seq<Score>): real
    requires AllFinite(xs)
  {
    if xs == [] then 0.0 else RealSum(xs[..|xs| - 1]) + xs[|xs| - 1].r
  }

  ghost predicate Greatest(xs: seq<Score>, s: Score) {
    s in xs && forall x | x in xs :: !Lt(s, x)
  }

  ghost predicate Least(xs: seq<Score>, s: Score) {
    s in xs && forall x | x in xs :: !Lt(x, s)
  }

  /** SUM keeps every member of the union. */
  lemma {:induction false} UnionSum(xs: seq<Score>)
    ensures UnionFold(Sum, None, xs).Some? <==> xs != []
    ensures AllFinite(xs) && xs != [] ==> UnionFold(Sum, None, xs) == Some(Finite(RealSum(xs)))
  {
    if xs != [] {
      UnionSum(xs[..|xs| - 1]);
      if AllFinite(xs) && |xs| == 1 {
        assert xs[..0] == [];
      }
    }
  }

  /** MAX takes the greatest score; a member is dropped exactly when no weighted score of it
      is above minus infinity. */
  lemma {:induction false} UnionMax(xs: seq<Score>)
    ensures var r := UnionFold(Max, None, xs);
      && (r.Some? <==> exists x | x in xs :: Lt(NegInf, x))
      && (r.Some? ==> Lt(NegInf, r.value) && Greatest(xs, r.value))
  {
    if xs != [] {
      var front, x := xs[..|xs| - 1], xs[|xs| - 1];
      UnionMax(front);
      assert xs == front + [x];
    }
  }

  /** MIN takes the least score; a member is dropped exactly when no weighted score of it is
      below infinity. */
  lemma {:induction false} UnionMin(xs: seq<Score>)
    ensures var r := UnionFold(Min, None, xs);
      && (r.Some? <==> exists x | x in xs :: Lt(x, PosInf))
      && (r.Some? ==> Lt(r.value, PosInf) && Least(xs, r.value))
  {
    if xs != [] {
      var front, x := xs[..|xs| - 1], xs[|xs| - 1];
      UnionMin(front);
      assert xs == front + [x];
    }
  }

  /** Which members of the union ZUNIONSTORE keeps. */
  lemma UnionKeeps(aggregate: Aggregate, xs: seq<Score>)
    ensures UnionFold(aggregate, None, xs).Some?
       <==> xs != []
            && !(aggregate.Max? && forall x | x in xs :: x == NegInf || x == NaN)
            && !(aggregate.Min? && forall x | x in xs :: x == PosInf || x == NaN)
  {
    UnionSum(xs);
    UnionMax(xs);
    UnionMin(xs);
    assert xs != [] ==> xs[0] in xs;
  }

  /** ZUNIONSTORE d 1 k AGGREGATE MAX drops a member that scores -inf, and MIN one that scores +inf. */
  lemma InfinitiesAreDropped()
    ensures UnionFold(Max, None, [NegInf]) == None && UnionFold(Min, None, [PosInf]) == None
  {
    assert [NegInf][..0] == [] && [PosInf][..0] == [];
  }

  /** On finite weighted scores both operations aggregate alike. */
  lemma {:induction false} UnionAgreesWithInter(aggregate: Aggregate, xs: seq<Score>)
    requires AllFinite(xs) && xs != []
    ensures InterFold(aggregate, xs).Finite?
    ensures UnionFold(aggregate, None, xs) == Some(InterFold(aggregate, xs))
  {
    var front, x := xs[..|xs| - 1], xs[|xs| - 1];
    if front == [] {
      assert UnionFold(aggregate, None, front) == None;
    } else {
      UnionAgreesWithInter(aggregate, front);
    }
  }

  // ----- On finite scores, in real numbers -----------------------------------------

  ghost predicate FiniteInputs(zsets: seq<ScoreMap>, weights: Option<seq<Score>>) {
    && (forall i, k | 0 <= i < |zsets| && k in zsets[i] :: zsets[i][k].Finite?)
    && (weights.Some? ==> |weights.value| >= |zsets| && AllFinite(weights.value))
  }

  /** What operand `i` contributes: the score of `k`, times the weight with the same number if there are
      weights. */
  function Share(zsets: seq<ScoreMap>, weights: Option<seq<Score>>, k: Bytes, i: nat): real
    requires FiniteInputs(zsets, weights) && i < |zsets| && k in zsets[i]
  {
    if weights.Some? then weights.value[i].r * zsets[i][k].r else zsets[i][k].r
  }

  function SumOfShares(zsets: seq<ScoreMap>, weights: Option<seq<Score>>, k: Bytes, n: nat): real
    requires FiniteInputs(zsets, weights) && n <= |zsets|
  {
    if n == 0 then 0.0
    else SumOfShares(zsets, weights, k, n - 1) + if k in zsets[n - 1] then Share(zsets, weights, k, n - 1) else 0.0
  }

  /** `s` is the sum, the greatest or the least of what the operands contribute that hold `k`. */
  ghost predicate Aggregates(aggregate: Aggregate, zsets: seq<ScoreMap>, weights: Option<seq<Score>>, k: Bytes,
                             s: Score)
    requires FiniteInputs(zsets, weights)
  {
    s.Finite? &&
    match aggregate
    case Sum => s.r == SumOfShares(zsets, weights, k, |zsets|)
    case Max =>
      && (exists i: nat :: i < |zsets| && k in zsets[i] && s.r == Share(zsets, weights, k, i))
      && (forall i: nat :: i < |zsets| && k in zsets[i] ==> Share(zsets, weights, k, i) <= s.r)
    case Min =>
      && (exists i: nat :: i < |zsets| && k in zsets[i] && s.r == Share(zsets, weights, k, i))
      && (forall i: nat :: i < |zsets| && k in zsets[i] ==> s.r <= Share(zsets, weights, k, i))
  }

  ghost predicate IsShare(x: Score, zsets: seq<ScoreMap>, weights: Option<seq<Score>>, k: Bytes, n: nat)
    requires FiniteInputs(zsets, weights) && n <= |zsets|
  {
    exists i: nat :: i < n && k in zsets[i] && x == Finite(Share(zsets, weights, k, i))
  }

  /** `xs` are the contributions of the first `n` operands. */
  ghost predicate AreShares(xs: seq<Score>, zsets: seq<ScoreMap>, weights: Option<seq<Score>>, k: Bytes, n: nat)
    requires FiniteInputs(zsets, weights) && n <= |zsets|
  {
    && AllFinite(xs) && RealSum(xs) == SumOfShares(zsets, weights, k, n)
    && (forall x | x in xs :: IsShare(x, zsets, weights, k, n))
    && (forall i: nat :: i < n && k in zsets[i] ==> Finite(Share(zsets, weights, k, i)) in xs)
  }

  lemma {:induction false} WeightedAreShares(zsets: seq<ScoreMap>, weights: Option<seq<Score>>, k: Bytes, n: nat)
    requires FiniteInputs(zsets, weights) && n <= |zsets|
    ensures AreShares(Weighted(zsets[..n], weights, k), zsets, weights, k, n)
  {
    if n > 0 {
      WeightedAreShares(zsets, weights, k, n - 1);
      WeightedNext(zsets, weights, k, n - 1);
      SharesNext(Weighted(zsets[..n - 1], weights, k), zsets, weights, k, n - 1);
    }
  }

  lemma WeightedNext(zsets: seq<ScoreMap>, weights: Option<seq<Score>>, k: Bytes, n: nat)
    requires FiniteInputs(zsets, weights) && n < |zsets|
    ensures Weighted(zsets[..n + 1], weights, k)
      == Weighted(zsets[..n], weights, k) + if k in zsets[n] then [Finite(Share(zsets, weights, k, n))] else []
  {
    assert zsets[..n + 1][..n] == zsets[..n];
    if k in zsets[n] {
      ShareIsProduct(zsets, weights, k, n);
    }
  }

  lemma SharesNext(xs: seq<Score>, zsets: seq<ScoreMap>, weights: Option<seq<Score>>, k: Bytes, n: nat)
    requires FiniteInputs(zsets, weights) && n < |zsets| && AreShares(xs, zsets, weights, k, n)
    ensures AreShares(xs + if k in zsets[n] then [Finite(Share(zsets, weights, k, n))] else [],
                      zsets, weights, k, n + 1)
  {
    forall x | x in xs
      ensures IsShare(x, zsets, weights, k, n + 1)
    {
      assert IsShare(x, zsets, weights, k, n);
    }
    if k in zsets[n] {
      var x := Finite(Share(zsets, weights, k, n));
      assert (xs + [x])[..|xs|] == xs;
      assert IsShare(x, zsets, weights, k, n + 1);
    } else {
      assert xs + [] == xs;
    }
  }

  lemma ShareIsProduct(zsets: seq<ScoreMap>, weights: Option<seq<Score>>, k: Bytes, i: nat)
    requires FiniteInputs(zsets, weights) && i < |zsets| && k in zsets[i]
    ensures Mul(Weight(weights, i), zsets[i][k]) == Finite(Share(zsets, weights, k, i))
  {
  }

  lemma ExtremeOfShares(aggregate: Aggregate, xs: seq<Score>, zsets: seq<ScoreMap>, weights: Option<seq<Score>>,
                        k: Bytes, s: Score)
    requires FiniteInputs(zsets, weights) && AreShares(xs, zsets, weights, k, |zsets|)
    requires (aggregate.Max? && Greatest(xs, s)) || (aggregate.Min? && Least(xs, s))
    ensures Aggregates(aggregate, zsets, weights, k, s)
  {
    forall i: nat | i < |zsets| && k in zsets[i]
      ensures Finite(Share(zsets, weights, k, i)) in xs
    {
    }
    assert IsShare(s, zsets, weights, k, |zsets|);
  }

  /** ZUNIONSTORE of finite scores into a new set keeps the members of all operands, and each gets the
      sum, the greatest or the least of its contributions. */
  lemma UnionOfFinite(zsets: seq<ScoreMap>, weights: Option<seq<Score>>, aggregate: Aggregate, k: Bytes)
    requires FiniteInputs(zsets, weights)
    ensures var r := UnionFold(aggregate, None, Weighted(zsets, weights, k));
      && (r.Some? <==> exists i: nat :: i < |zsets| && k in zsets[i])
      && (r.Some? ==> Aggregates(aggregate, zsets, weights, k, r.value))
  {
    var xs := Weighted(zsets, weights, k);
    assert zsets[..|zsets|] == zsets;
    WeightedAreShares(zsets, weights, k, |zsets|);
    WeightedMember(zsets, weights, k);
    FoldOfFinite(aggregate, xs);
    if xs != [] && !aggregate.Sum? {
      ExtremeOfShares(aggregate, xs, zsets, weights, k, UnionFold(aggregate, None, xs).value);
    }
  }

  lemma FoldOfFinite(aggregate: Aggregate, xs: seq<Score>)
    requires AllFinite(xs)
    ensures var r := UnionFold(aggregate, None, xs);
      && (r.Some? <==> xs != [])
      && (r.Some? && aggregate.Sum? ==> r.value == Finite(RealSum(xs)))
      && (r.Some? && aggregate.Max? ==> Greatest(xs, r.value))
      && (r.Some? && aggregate.Min? ==> Least(xs, r.value))
  {
    UnionSum(xs);
    UnionMax(xs);
    UnionMin(xs);
    assert xs != [] ==> xs[0] in xs;
  }

  /** ZINTERSTORE gives the members that all operands hold the same scores. */
  lemma InterOfFinite(zsets: seq<ScoreMap>, weights: Option<seq<Score>>, aggregate: Aggregate, k: Bytes)
    requires FiniteInputs(zsets, weights) && zsets != [] && InAll(zsets, k)
    ensures Aggregates(aggregate, zsets, weights, k, InterScore(zsets, weights, aggregate, k))
  {
    WeightedFinite(zsets, weights, k);
    UnionAgreesWithInter(aggregate, Weighted(zsets, weights, k));
    assert k in zsets[0];
    UnionOfFinite(zsets, weights, aggregate, k);
  }

  lemma WeightedFinite(zsets: seq<ScoreMap>, weights: Option<seq<Score>>, k: Bytes)
    requires FiniteInputs(zsets, weights) && zsets != [] && InAll(zsets, k)
    ensures AllFinite(Weighted(zsets, weights, k)) && Weighted(zsets, weights, k) != []
  {
    assert zsets[..|zsets|] == zsets;
    WeightedAreShares(zsets, weights, k, |zsets|);
    WeightedMember(zsets, weights, k);
  }

  /** The new set in full. */
  lemma UnionIntoEmpty(hmap: ScoreMap, zsets: seq<ScoreMap>, weights: Option<seq<Score>>, aggregate: Aggregate)
    requires FiniteInputs(zsets, weights)
    requires forall k :: Lookup(hmap, k) == UnionFold(aggregate, None, Weighted(zsets, weights, k))
    ensures forall k :: k in hmap <==> exists i: nat :: i < |zsets| && k in zsets[i]
    ensures forall k | k in hmap :: Aggregates(aggregate, zsets, weights, k, hmap[k])
  {
    forall k: Bytes
      ensures k in hmap <==> exists i: nat :: i < |zsets| && k in zsets[i]
      ensures k in hmap ==> Aggregates(aggregate, zsets, weights, k, hmap[k])
    {
      UnionOfFinite(zsets, weights, aggregate, k);
      assert Lookup(hmap, k) == UnionFold(aggregate, None, Weighted(zsets, weights, k));
    }
  }

  lemma InterIntoEmpty(hmap: ScoreMap, zsets: seq<ScoreMap>, weights: Option<seq<Score>>, aggregate: Aggregate)
    requires FiniteInputs(zsets, weights)
    requires forall k :: Lookup(hmap, k) == if zsets != [] && InAll(zsets, k)
                                            then Some(InterScore(zsets, weights, aggregate, k)) else None
    ensures forall k :: k in hmap <==> zsets != [] && forall i: nat :: i < |zsets| ==> k in zsets[i]
    ensures forall k | k in hmap :: Aggregates(aggregate, zsets, weights, k, hmap[k])
  {
    forall k: Bytes
      ensures k in hmap <==> zsets != [] && forall i: nat :: i < |zsets| ==> k in zsets[i]
      ensures k in hmap ==> Aggregates(aggregate, zsets, weights, k, hmap[k])
    {
      assert k in hmap <==> Lookup(hmap, k).Some?;
      if k in hmap {
        InterOfFinite(zsets, weights, aggregate, k);
      }
    }
  }

  /** Both commands store a sum of opposite infinities as 0. */
  lemma OppositeInfinities(k: Bytes)
    ensures UnionFold(Sum, None, [PosInf, NegInf]) == Some(Finite(0.0))
    ensures InterScore([map[k := PosInf], map[k := NegInf]], None, Sum, k) == Finite(0.0)
  {
    assert [PosInf, NegInf][..1] == [PosInf] && [PosInf][..0] == [];
    var zsets := [map[k := PosInf], map[k := NegInf]];
    WeightedInAll(zsets, None, k, 0);
    WeightedInAll(zsets, None, k, 1);
    assert Weighted(zsets, None, k) == [PosInf, NegInf];
  }
}
