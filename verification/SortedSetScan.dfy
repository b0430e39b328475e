/** database/src/zset.rs: ZSCAN reads the skip list, so it misses the lost members. */
module SortedSetScan {
  import opened Machine
  import opened ByteStrings
  import opened Sequences
  import opened Scores
  import opened SortedSetOrder
  import opened SortedSetState
  import opened SortedSet
  import opened Scan

  /** The reply of ZSCAN for an element. */
  function WithScore(m: Member, fmt: Score -> Bytes): seq<Bytes> {
    [m.s, fmt(m.f)]
  }

  /** Following the cursors gives each matching member that is not lost once, in order, with its
      score: the members are those of the hash map less the lost ones. */
  lemma ScannedMembers(p: Profile, z: SortedSet, keep: Member -> bool, fmt: Score -> Bytes, count: Usize)
    requires z.Valid() && 1 <= count && |z.skiplist| <= I64_MAX
    ensures Walk(p, z.skiplist, 0, keep, m => WithScore(m, fmt), count)
      == Matches(z.skiplist, keep, m => WithScore(m, fmt))
    ensures Names(Filter(z.skiplist, keep)) == set k | k in z.hmap.Keys - z.lost && keep(MemberOf(z.hmap, k))
    ensures Distinct(Filter(z.skiplist, keep))
  {
    WalkIsComplete(p, z.skiplist, keep, m => WithScore(m, fmt), count);
    LostAreUnlisted(z.skiplist, z.hmap, z.lost);
    FilterMembers(z.skiplist, keep);
    SortedDistinct(z.skiplist);
    FilterDistinct(z.skiplist, keep);
    forall k | k in z.hmap.Keys - z.lost && keep(MemberOf(z.hmap, k))
      ensures k in Names(Filter(z.skiplist, keep))
    {
      assert MemberOf(z.hmap, k) in Filter(z.skiplist, keep);
    }
  }

  /** A member that ZSCORE still knows is missed exactly when it is lost. */
  lemma MissedByScan(z: SortedSet, k: Bytes)
    requires z.Valid() && k in z.hmap
    ensures k !in Names(z.skiplist) <==> k in z.lost
  {
    LostAreUnlisted(z.skiplist, z.hmap, z.lost);
    if k !in z.lost {
      assert MemberOf(z.hmap, k) in z.skiplist;
    }
  }
}
