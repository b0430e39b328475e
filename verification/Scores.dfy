/** Sorted-set scores: f64 with its infinities and NaN; the finite part is exact. */
module Scores {

  datatype Score = NaN | NegInf | Finite(r: real) | PosInf

  predicate Lt(a: Score, b: Score) {
    match (a, b)
    case (NaN, _) => false
    case (_, NaN) => false
    case (NegInf, _) => b != NegInf
    case (Finite(x), Finite(y)) => x < y
    case (Finite(_), _) => b == PosInf
    case (PosInf, _) => false
  }

  function Add(a: Score, b: Score): Score {
    match (a, b)
    case (Finite(x), Finite(y)) => Finite(x + y)
    case (NaN, _) => NaN
    case (_, NaN) => NaN
    case (Finite(_), _) => b
    case (_, Finite(_)) => a
    case (_, _) => if a == b then a else NaN
  }

  /** The infinity with the sign of a product, NaN for zero times infinity. */
  function Infinite(a: real, positive: bool): Score {
    if a == 0.0 then NaN
    else if (a > 0.0) == positive then PosInf
    else NegInf
  }

  function Mul(a: Score, b: Score): Score {
    match (a, b)
    case (Finite(x), Finite(y)) => Finite(x * y)
    case (NaN, _) => NaN
    case (_, NaN) => NaN
    case (Finite(x), _) => Infinite(x, b == PosInf)
    case (_, Finite(y)) => Infinite(y, a == PosInf)
    case (_, _) => if a == b then PosInf else NegInf
  }

  /** NaN compares with nothing; the infinities stand at the ends. */
  lemma LtMeaning(a: Score, b: Score)
    ensures Lt(a, b)
      <==> a != NaN && b != NaN && a != b && (a == NegInf || b == PosInf || (a.Finite? && b.Finite? && a.r < b.r))
  {
  }

  /** A sum is NaN with a NaN or with opposite infinities; an infinity outweighs every number. */
  lemma AddMeaning(a: Score, b: Score)
    ensures Add(a, b) == NaN <==> a == NaN || b == NaN || {a, b} == {NegInf, PosInf}
    ensures Add(a, b) == PosInf <==> (a == PosInf || b == PosInf) && NaN !in {a, b} && NegInf !in {a, b}
    ensures Add(a, b) == NegInf <==> (a == NegInf || b == NegInf) && NaN !in {a, b} && PosInf !in {a, b}
    ensures a.Finite? && b.Finite? ==> Add(a, b) == Finite(a.r + b.r)
  {
    if {a, b} == {NegInf, PosInf} {
      assert NegInf in {a, b} && PosInf in {a, b};
    }
  }

  predicate Positive(a: Score) {
    a == PosInf || (a.Finite? && a.r > 0.0)
  }

  /** A product is NaN with a NaN or of zero and an infinity; otherwise an infinity stays one, with the
      sign of the product. */
  lemma MulMeaning(a: Score, b: Score)
    ensures a.Finite? && b.Finite? ==> Mul(a, b) == Finite(a.r * b.r)
    ensures !(a.Finite? && b.Finite?) ==>
      Mul(a, b) == if NaN in {a, b} || Finite(0.0) in {a, b} then NaN
                   else if Positive(a) == Positive(b) then PosInf
                   else NegInf
  {
  }
}
