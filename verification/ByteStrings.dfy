/** Byte strings, and the lexicographic order that Rust gives `Vec<u8>`. */
module ByteStrings {

  type Byte = bv8
  type Bytes = seq<Byte>

  datatype Ordering = Less | Equal | Greater

  function Flip(o: Ordering): Ordering {
    match o
    case Less => Greater
    case Equal => Equal
    case Greater => Less
  }

  function Compare(a: Bytes, b: Bytes): Ordering {
    if a == [] then (if b == [] then Equal else Less)
    else if b == [] then Greater
    else if a[0] < b[0] then Less
    else if a[0] > b[0] then Greater
    else Compare(a[1..], b[1..])
  }

  lemma {:induction false} CompareFlip(a: Bytes, b: Bytes)
    ensures Compare(b, a) == Flip(Compare(a, b))
  {
    if a != [] && b != [] && a[0] == b[0] {
      CompareFlip(a[1..], b[1..]);
    }
  }

  lemma {:induction false} CompareEqual(a: Bytes, b: Bytes)
    ensures Compare(a, b) == Equal <==> a == b
  {
    if a != [] && b != [] && a[0] == b[0] {
      CompareEqual(a[1..], b[1..]);
      assert a == [a[0]] + a[1..] && b == [b[0]] + b[1..];
    }
  }

  lemma {:induction false} CompareTransitive(a: Bytes, b: Bytes, c: Bytes)
    requires Compare(a, b) == Less && Compare(b, c) == Less
    ensures Compare(a, c) == Less
  {
    if a != [] && a[0] == b[0] && b[0] == c[0] {
      CompareTransitive(a[1..], b[1..], c[1..]);
    }
  }

  /** `a` comes before `b`: they agree up to `p`, where `a` ends or has the smaller byte. */
  ghost predicate BelowAt(a: Bytes, b: Bytes, p: nat) {
    p <= |a| && p < |b| && a[..p] == b[..p] && (p == |a| || a[p] < b[p])
  }

  ghost predicate Below(a: Bytes, b: Bytes) {
    exists p: nat :: BelowAt(a, b, p)
  }

  /** The order is the lexicographic one. */
  lemma CompareMeaning(a: Bytes, b: Bytes)
    ensures Compare(a, b) == Less <==> Below(a, b)
    ensures Compare(a, b) == Equal <==> a == b
    ensures Compare(a, b) == Greater <==> Below(b, a)
  {
    CompareEqual(a, b);
    LessIsBelow(a, b);
    LessIsBelow(b, a);
    CompareFlip(a, b);
  }

  lemma LessIsBelow(a: Bytes, b: Bytes)
    ensures Compare(a, b) == Less <==> Below(a, b)
  {
    if Compare(a, b) == Less {
      var p := FirstDifference(a, b);
    }
    forall p: nat | BelowAt(a, b, p)
      ensures Compare(a, b) == Less
    {
      BelowIsLess(a, b, p);
    }
  }

  lemma {:induction false} FirstDifference(a: Bytes, b: Bytes) returns (p: nat)
    requires Compare(a, b) == Less
    ensures BelowAt(a, b, p)
  {
    p := 0;
    if a != [] && a[0] == b[0] {
      var q := FirstDifference(a[1..], b[1..]);
      p := q + 1;
      assert a[..p] == [a[0]] + a[1..][..q] && b[..p] == [b[0]] + b[1..][..q];
    }
  }

  lemma {:induction false} BelowIsLess(a: Bytes, b: Bytes, p: nat)
    requires BelowAt(a, b, p)
    ensures Compare(a, b) == Less
  {
    if p > 0 {
      assert a[0] == a[..p][0] && b[0] == b[..p][0];
      assert a[1..][..p - 1] == a[..p][1..] && b[1..][..p - 1] == b[..p][1..];
      BelowIsLess(a[1..], b[1..], p - 1);
    }
  }
}
