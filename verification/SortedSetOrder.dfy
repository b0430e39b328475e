/** database/src/zset.rs: the order of sorted-set members, and the ordered skip list, which is
    an external crate and stands here as a sequence kept in that order. */
module SortedSetOrder {
  import opened ByteStrings
  import opened Sequences
  import opened Scores

  datatype Member = Member(f: Score, s: Bytes, upper: bool)

  datatype Bound<T> = Included(v: T) | Excluded(v: T) | Unbounded

  function PartialCmp(a: Member, b: Member): Ordering {
    if Lt(a.f, b.f) then Less
    else if Lt(b.f, a.f) then Greater
    else if b.upper then Less
    else if a.upper then Greater
    else Compare(a.s, b.s)
  }

  /** Members that can be stored; the others only serve as ends of a range. */
  predicate Plain(m: Member) {
    !m.upper && m.f != NaN
  }

  /** On stored members the comparison is a strict total order; a boundary may stand on one
      side. */
  lemma CmpFlip(a: Member, b: Member)
    requires !(a.upper && b.upper)
    ensures PartialCmp(b, a) == Flip(PartialCmp(a, b))
  {
    CompareFlip(a.s, b.s);
  }

  lemma CmpEqual(a: Member, b: Member)
    requires Plain(a) && Plain(b)
    ensures PartialCmp(a, b) == Equal <==> a == b
  {
    CompareEqual(a.s, b.s);
  }

  lemma CmpTransitive(a: Member, b: Member, c: Member)
    requires Plain(a) && Plain(b) && Plain(c)
    requires PartialCmp(a, b) == Less && PartialCmp(b, c) == Less
    ensures PartialCmp(a, c) == Less
  {
    if a.f == b.f == c.f {
      CompareTransitive(a.s, b.s, c.s);
    }
  }

  /** Members are ordered by score, and by their bytes where scores are equal. */
  lemma CmpMeaning(a: Member, b: Member)
    requires Plain(a) && Plain(b)
    ensures PartialCmp(a, b) == Less <==> Lt(a.f, b.f) || (a.f == b.f && Below(a.s, b.s))
    ensures PartialCmp(a, b) == Greater <==> Lt(b.f, a.f) || (a.f == b.f && Below(b.s, a.s))
  {
    LtMeaning(a.f, b.f);
    LtMeaning(b.f, a.f);
    CompareMeaning(a.s, b.s);
  }

  ghost predicate Sorted(list: seq<Member>) {
    (forall i :: 0 <= i < |list| ==> Plain(list[i])) &&
    (forall i, j :: 0 <= i < j < |list| ==> PartialCmp(list[i], list[j]) == Less)
  }

  lemma SortedDistinct(list: seq<Member>)
    requires Sorted(list)
    ensures Distinct(list)
  {
    forall i, j | 0 <= i < j < |list|
      ensures list[i] != list[j]
    {
      CmpEqual(list[i], list[j]);
    }
  }

  /** A sorted list is determined by its members. */
  lemma {:induction false} SortedUnique(a: seq<Member>, b: seq<Member>)
    requires Sorted(a) && Sorted(b) && Elements(a) == Elements(b)
    ensures a == b
  {
    NoElements(a);
    NoElements(b);
    if a != [] {
      assert a[0] in Elements(b) && b[0] in Elements(a) by {
        assert a[0] in Elements(a) && b[0] in Elements(b);
      }
      var j :| 0 <= j < |b| && b[j] == a[0];
      var i :| 0 <= i < |a| && a[i] == b[0];
      if i > 0 {
        CmpFlip(a[0], a[i]);
      }
      SortedDistinct(a);
      SortedDistinct(b);
      assert Elements(a[1..]) == Elements(a) - {a[0]};
      assert Elements(b[1..]) == Elements(b) - {b[0]};
      SortedUnique(a[1..], b[1..]);
    }
  }

  // ----- The skip list -------------------------------------------------------------

  /** `OrderedSkipList::insert`. */
  function Insert(list: seq<Member>, m: Member): seq<Member> {
    if list == [] || PartialCmp(list[0], m) == Greater then [m] + list
    else [list[0]] + Insert(list[1..], m)
  }

  /** `OrderedSkipList::remove`: drops the first element that compares equal, if any. */
  function Remove(list: seq<Member>, m: Member): seq<Member> {
    if list == [] then []
    else if PartialCmp(list[0], m) == Equal then list[1..]
    else [list[0]] + Remove(list[1..], m)
  }

  /** `remove_index`. */
  function RemoveIndex<T>(list: seq<T>, i: nat): seq<T>
    requires i < |list|
  {
    list[..i] + list[i + 1..]
  }

  predicate AboveMin(x: Member, min: Bound<Member>) {
    match min
    case Included(m) => PartialCmp(x, m) != Less
    case Excluded(m) => PartialCmp(x, m) == Greater
    case Unbounded => true
  }

  predicate BelowMax(x: Member, max: Bound<Member>) {
    match max
    case Included(m) => PartialCmp(x, m) != Greater
    case Excluded(m) => PartialCmp(x, m) == Less
    case Unbounded => true
  }

  /** `OrderedSkipList::range`. */
  function Range(list: seq<Member>, min: Bound<Member>, max: Bound<Member>): seq<Member> {
    Filter(list, x => AboveMin(x, min) && BelowMax(x, max))
  }

  lemma {:induction false} InsertSorted(list: seq<Member>, m: Member)
    requires Sorted(list) && Plain(m) && m !in list
    ensures Sorted(Insert(list, m)) && Elements(Insert(list, m)) == Elements(list) + {m}
  {
    if list == [] {
    } else {
      CmpEqual(list[0], m);
      CmpFlip(list[0], m);
      if PartialCmp(list[0], m) == Greater {
        forall i | 0 < i < |list|
          ensures PartialCmp(m, list[i]) == Less
        {
          CmpTransitive(m, list[0], list[i]);
        }
      } else {
        InsertSorted(list[1..], m);
        var rest := Insert(list[1..], m);
        forall i | 0 <= i < |rest|
          ensures PartialCmp(list[0], rest[i]) == Less
        {
          assert rest[i] in Elements(rest);
        }
      }
    }
  }

  lemma {:induction false} RemoveSorted(list: seq<Member>, m: Member)
    requires Sorted(list) && Plain(m)
    ensures Sorted(Remove(list, m)) && Elements(Remove(list, m)) == Elements(list) - {m}
  {
    if list == [] {
    } else {
      CmpEqual(list[0], m);
      HeadElements(list);
      if list[0] == m {
        SortedDistinct(list);
      } else {
        RemoveSorted(list[1..], m);
        var rest := Remove(list[1..], m);
        HeadElements([list[0]] + rest);
        forall i | 0 <= i < |rest|
          ensures PartialCmp(list[0], rest[i]) == Less
        {
          assert rest[i] in Elements(rest);
        }
      }
    }
  }

  // ----- Ranges are blocks ---------------------------------------------------------

  /** Along the list `p` may start failing but never starts holding. */
  ghost predicate Falling<T>(list: seq<T>, p: T -> bool) {
    forall i, j :: 0 <= i < j < |list| && p(list[j]) ==> p(list[i])
  }

  ghost predicate Rising<T>(list: seq<T>, p: T -> bool) {
    forall i, j :: 0 <= i < j < |list| && p(list[i]) ==> p(list[j])
  }

  lemma TailMonotone<T>(list: seq<T>, lo: T -> bool, hi: T -> bool)
    requires list != []
    ensures Falling(list, hi) ==> Falling(list[1..], hi) && (!hi(list[0]) ==> forall x | x in list :: !hi(x))
    ensures Rising(list, lo) ==> Rising(list[1..], lo) && (lo(list[0]) ==> forall x | x in list :: lo(x))
  {
  }

  lemma {:induction false} PrefixFilter<T>(list: seq<T>, hi: T -> bool)
    requires Falling(list, hi)
    ensures var n := |Filter(list, hi)|;
      n <= |list| && Filter(list, hi) == list[..n] && Reject(list, hi) == list[n..]
  {
    if list != [] {
      TailMonotone(list, hi, hi);
      if hi(list[0]) {
        PrefixFilter(list[1..], hi);
        ShiftPrefix(list, |Filter(list[1..], hi)|);
      } else {
        FilterNone(list, hi);
        RejectAll(list, hi);
      }
    }
  }

  lemma ShiftPrefix<T>(list: seq<T>, n: nat)
    requires n < |list|
    ensures [list[0]] + list[1..][..n] == list[..n + 1] && list[1..][n..] == list[n + 1..]
  {
  }

  lemma {:induction false} RejectAll<T>(list: seq<T>, p: T -> bool)
    requires forall x | x in list :: !p(x)
    ensures Reject(list, p) == list
  {
    if list != [] {
      RejectAll(list[1..], p);
    }
  }

  lemma {:induction false} RejectNone<T>(list: seq<T>, p: T -> bool)
    requires forall x | x in list :: p(x)
    ensures Reject(list, p) == []
  {
    if list != [] {
      RejectNone(list[1..], p);
    }
  }

  lemma {:induction false} RejectSame<T>(list: seq<T>, p: T -> bool, q: T -> bool)
    requires forall x | x in list :: p(x) == q(x)
    ensures Reject(list, p) == Reject(list, q)
  {
    if list != [] {
      RejectSame(list[1..], p, q);
    }
  }

  /** When the first element is inside the lower end, the block is a prefix. */
  lemma BlockAtFront<T>(list: seq<T>, lo: T -> bool, hi: T -> bool, both: T -> bool)
    requires Rising(list, lo) && Falling(list, hi) && list != [] && lo(list[0])
    requires forall x | x in list :: both(x) == (lo(x) && hi(x))
    ensures Reject(list, lo) == []
    ensures var count := |Filter(list, both)|;
      count <= |list| && Filter(list, both) == list[..count] && Reject(list, both) == list[count..]
  {
    TailMonotone(list, lo, hi);
    RejectNone(list, lo);
    PrefixFilter(list, hi);
    FilterSame(list, both, hi);
    RejectSame(list, both, hi);
  }

  /** `both` selects the `count` elements from `pos` on. */
  ghost predicate IsBlock<T>(list: seq<T>, both: T -> bool, pos: nat, count: nat) {
    pos + count <= |list| && Filter(list, both) == list[pos..pos + count]
    && Reject(list, both) == list[..pos] + list[pos + count..]
  }

  /** The elements of an interval form one block, which starts after the ones below it. */
  lemma {:induction false} BlockFilter<T>(list: seq<T>, lo: T -> bool, hi: T -> bool, both: T -> bool)
    requires Rising(list, lo) && Falling(list, hi)
    requires forall x | x in list :: both(x) == (lo(x) && hi(x))
    ensures IsBlock(list, both, |Reject(list, lo)|, |Filter(list, both)|)
  {
    if list == [] {
    } else if lo(list[0]) {
      BlockAtFront(list, lo, hi, both);
    } else {
      BlockBelow(list, lo, hi, both);
      BlockFilter(list[1..], lo, hi, both);
      BlockStep(list, both, |Reject(list[1..], lo)|, |Filter(list[1..], both)|);
    }
  }

  lemma BlockBelow<T>(list: seq<T>, lo: T -> bool, hi: T -> bool, both: T -> bool)
    requires list != [] && !lo(list[0]) && Rising(list, lo) && Falling(list, hi)
    requires forall x | x in list :: both(x) == (lo(x) && hi(x))
    ensures Rising(list[1..], lo) && Falling(list[1..], hi) && !both(list[0])
    ensures forall x | x in list[1..] :: both(x) == (lo(x) && hi(x))
    ensures |Reject(list, lo)| == |Reject(list[1..], lo)| + 1 && Filter(list, both) == Filter(list[1..], both)
  {
    TailMonotone(list, lo, hi);
  }

  /** One more element below the block. */
  lemma BlockStep<T>(list: seq<T>, both: T -> bool, pos: nat, count: nat)
    requires list != [] && !both(list[0]) && IsBlock(list[1..], both, pos, count)
    ensures IsBlock(list, both, pos + 1, count)
  {
    var rest := list[1..];
    var outside := rest[..pos] + rest[pos + count..];
    ShiftBlock(list, pos, count);
    assert Filter(list, both) == Filter(rest, both) && Reject(list, both) == [list[0]] + outside;
  }

  lemma ShiftBlock<T>(list: seq<T>, pos: nat, count: nat)
    requires list != [] && pos + count < |list|
    ensures list[pos + 1..pos + 1 + count] == list[1..][pos..pos + count]
    ensures [list[0]] + (list[1..][..pos] + list[1..][pos + count..]) == list[..pos + 1] + list[pos + 1 + count..]
  {
    ShiftPrefix(list, pos);
    ShiftPrefix(list, pos + count);
    assert [list[0]] + (list[1..][..pos] + list[1..][pos + count..])
        == ([list[0]] + list[1..][..pos]) + list[1..][pos + count..];
  }
}
