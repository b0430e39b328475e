/** database/src/zset.rs: how far the skip list and the hash map describe the same sorted set.

    A ZINCRBY that fails on a member takes it out of the skip list and not out of the hash map.
    Such members are lost: they have a score, and no place in the list. */
module SortedSetState {
  import opened ByteStrings
  import opened Sequences
  import opened Scores
  import opened SortedSetOrder
  import opened SortedSetAggregate

  datatype Result<+T> = Ok(value: T) | NotANumber

  ghost function MemberOf(hmap: ScoreMap, k: Bytes): Member
    requires k in hmap
  {
    Member(hmap[k], k, false)
  }

  /** The members that the hash map describes. */
  ghost function MembersOf(hmap: ScoreMap): set<Member> {
    set k | k in hmap :: MemberOf(hmap, k)
  }

  /** The two representations describe the same sorted set. */
  ghost predicate InStep(list: seq<Member>, hmap: ScoreMap) {
    Sorted(list) && Elements(list) == MembersOf(hmap)
  }

  /** They are in step but for the members `lost`, which are missing in the list. */
  ghost predicate InStepBut(list: seq<Member>, hmap: ScoreMap, lost: set<Bytes>) {
    InStep(list, hmap - lost) && lost <= hmap.Keys && forall k | k in lost :: hmap[k] != NaN
  }

  lemma MembersWithout(hmap: ScoreMap, el: Bytes)
    ensures el in hmap ==> MembersOf(hmap - {el}) == MembersOf(hmap) - {MemberOf(hmap, el)}
    ensures el !in hmap ==> hmap - {el} == hmap
  {
    assert forall k | k in hmap && k != el :: MemberOf(hmap - {el}, k) == MemberOf(hmap, k);
  }

  lemma MembersWith(hmap: ScoreMap, el: Bytes, score: Score)
    ensures MembersOf(hmap[el := score]) == MembersOf(hmap - {el}) + {Member(score, el, false)}
  {
    var hmap' := hmap[el := score];
    assert forall k | k in hmap && k != el :: MemberOf(hmap', k) == MemberOf(hmap - {el}, k);
    assert MemberOf(hmap', el) == Member(score, el, false);
  }

  /** So the skip list is determined by the hash map and the lost members. */
  lemma ListFollowsMap(a: seq<Member>, b: seq<Member>, hmap: ScoreMap, lost: set<Bytes>)
    requires InStepBut(a, hmap, lost) && InStepBut(b, hmap, lost)
    ensures a == b
  {
    SortedUnique(a, b);
  }

  lemma ListedMembers(list: seq<Member>, hmap: ScoreMap)
    requires InStep(list, hmap)
    ensures forall k | k in hmap :: hmap[k] != NaN && MemberOf(hmap, k) in list
    ensures forall m | m in list :: m.s in hmap && m == MemberOf(hmap, m.s)
  {
    forall k | k in hmap
      ensures hmap[k] != NaN && MemberOf(hmap, k) in list
    {
      assert MemberOf(hmap, k) in Elements(list);
      var i :| 0 <= i < |list| && list[i] == MemberOf(hmap, k);
    }
    forall m | m in list
      ensures m.s in hmap && m == MemberOf(hmap, m.s)
    {
      assert m in Elements(list);
    }
  }

  /** The lost members are exactly those that the hash map has and the list has not. */
  lemma LostAreUnlisted(list: seq<Member>, hmap: ScoreMap, lost: set<Bytes>)
    requires InStepBut(list, hmap, lost)
    ensures forall k | k in hmap :: hmap[k] != NaN && (k in lost <==> MemberOf(hmap, k) !in list)
    ensures forall m | m in list :: m.s in hmap && m.s !in lost && m == MemberOf(hmap, m.s)
  {
    ListedMembers(list, hmap - lost);
    assert forall k | k in hmap && k !in lost :: MemberOf(hmap - lost, k) == MemberOf(hmap, k);
  }

  /** Taking `el` out of the list, whether or not it was there. */
  lemma Unlisted(list: seq<Member>, hmap: ScoreMap, lost: set<Bytes>, el: Bytes)
    requires InStepBut(list, hmap, lost) && el in hmap
    ensures var rest := Remove(list, MemberOf(hmap, el));
      InStepBut(rest, hmap, lost + {el}) && InStepBut(rest, hmap - {el}, lost - {el})
  {
    LostAreUnlisted(list, hmap, lost);
    var listed := hmap - lost;
    UnlistedListed(list, listed, MemberOf(hmap, el));
    assert hmap - (lost + {el}) == listed - {el};
    assert (hmap - {el}) - (lost - {el}) == listed - {el};
  }

  lemma UnlistedListed(list: seq<Member>, listed: ScoreMap, m: Member)
    requires InStep(list, listed) && Plain(m) && (m.s in listed ==> MemberOf(listed, m.s) == m)
    ensures InStep(Remove(list, m), listed - {m.s})
  {
    RemoveSorted(list, m);
    MembersWithout(listed, m.s);
    if m.s !in listed {
      assert m !in Elements(list);
    }
  }

  /** Putting `el` in, in both representations. */
  lemma Listed(list: seq<Member>, hmap: ScoreMap, lost: set<Bytes>, el: Bytes, score: Score)
    requires InStepBut(list, hmap - {el}, lost - {el}) && score != NaN
    ensures InStepBut(Insert(list, Member(score, el, false)), hmap[el := score], lost - {el})
  {
    var listed := (hmap - {el}) - (lost - {el});
    ListedMembers(list, listed);
    InsertSorted(list, Member(score, el, false));
    MembersWithout(listed, el);
    MembersWith(listed, el, score);
    assert hmap[el := score] - (lost - {el}) == listed[el := score];
  }

  /** Taking an element out of both. */
  lemma BlockLeaves(list: seq<Member>, hmap: ScoreMap, lost: set<Bytes>, pos: nat)
    requires InStepBut(list, hmap, lost) && pos < |list|
    ensures InStepBut(RemoveIndex(list, pos), hmap - {list[pos].s}, lost)
  {
    LostAreUnlisted(list, hmap, lost);
    var listed, el := hmap - lost, list[pos].s;
    assert list[pos] in list;
    SortedDistinct(list);
    ElementsWithout(list, pos);
    MembersWithout(listed, el);
    assert (hmap - {el}) - lost == listed - {el};
    assert MemberOf(listed, el) == list[pos];
    assert Sorted(RemoveIndex(list, pos));
  }

  lemma ElementsWithout<T>(list: seq<T>, pos: nat)
    requires pos < |list| && Distinct(list)
    ensures Elements(RemoveIndex(list, pos)) == Elements(list) - {list[pos]}
  {
    assert list == list[..pos] + [list[pos]] + list[pos + 1..];
  }

  function Names(ms: seq<Member>): set<Bytes> {
    set m | m in ms :: m.s
  }

  /** What is left of the map when the members that `p` selects leave the list. */
  lemma MapFollowsFilter(list: seq<Member>, hmap: ScoreMap, lost: set<Bytes>, p: Member -> bool)
    requires InStepBut(list, hmap, lost)
    ensures Names(Filter(list, p)) !! lost
    ensures hmap - Names(Filter(list, p)) == map k | k in hmap && (k in lost || !p(MemberOf(hmap, k))) :: hmap[k]
  {
    LostAreUnlisted(list, hmap, lost);
    FilterMembers(list, p);
    forall k | k in hmap
      ensures k in Names(Filter(list, p)) <==> k !in lost && p(MemberOf(hmap, k))
    {
      if k !in lost && p(MemberOf(hmap, k)) {
        assert MemberOf(hmap, k) in Filter(list, p);
      }
    }
  }

  // ----- What ZADD does ------------------------------------------------------------

  datatype Flags = Flags(nx: bool, xx: bool, ch: bool, incr: bool, zeroOnNan: bool)

  /** The write is refused without an error. */
  predicate Refused(hmap: ScoreMap, s: Score, el: Bytes, flags: Flags) {
    if el in hmap then flags.nx || (flags.ch && !flags.incr && hmap[el] == s) else flags.xx
  }

  function NewScore(hmap: ScoreMap, s: Score, el: Bytes, flags: Flags): Score {
    var sum := if el in hmap && flags.incr then Add(s, hmap[el]) else s;
    if sum == NaN && flags.zeroOnNan then Finite(0.0) else sum
  }

  function ZaddMap(hmap: ScoreMap, s: Score, el: Bytes, flags: Flags): ScoreMap {
    if Refused(hmap, s, el, flags) || NewScore(hmap, s, el, flags) == NaN then hmap
    else hmap[el := NewScore(hmap, s, el, flags)]
  }

  function ZaddReply(hmap: ScoreMap, s: Score, el: Bytes, flags: Flags): Result<bool> {
    if Refused(hmap, s, el, flags) then Ok(false)
    else if NewScore(hmap, s, el, flags) == NaN then NotANumber
    else Ok(flags.ch || el !in hmap)
  }

  /** With CH, an update that the reply counts although it writes the score `v` that was there:
      INCR by 0, INCR of an infinity by a finite number or by itself, and NaN read as 0 over 0. */
  predicate Idle(v: Score, s: Score, flags: Flags) {
    v != NaN &&
    ((flags.zeroOnNan && s == NaN && v == Finite(0.0))
     || (flags.incr && (s == Finite(0.0) || (!v.Finite? && (s.Finite? || s == v)))))
  }

  /** Without CH the reply counts additions.  With CH it counts changes and idle updates. */
  lemma ZaddReplyCounts(hmap: ScoreMap, s: Score, el: Bytes, flags: Flags)
    ensures var after, reply := ZaddMap(hmap, s, el, flags), ZaddReply(hmap, s, el, flags);
      && (!flags.ch ==> (reply == Ok(true) <==> el in after && el !in hmap))
      && (flags.ch ==> ((reply == Ok(true) <==> after != hmap)
            <==> !(el in hmap && !flags.nx && Idle(hmap[el], s, flags))))
      && (reply == NotANumber ==> after == hmap)
  {
    var after := ZaddMap(hmap, s, el, flags);
    if el in hmap && el in after && after[el] == hmap[el] {
      assert after == hmap;
    }
  }

  /** ZADD k CH INCR 1 m on a member at +inf counts as a change. */
  lemma IdleIncrementCounts(el: Bytes)
    ensures var hmap, flags := map[el := PosInf], Flags(false, false, true, true, false);
      ZaddMap(hmap, Finite(1.0), el, flags) == hmap && ZaddReply(hmap, Finite(1.0), el, flags) == Ok(true)
  {
  }

  /** NX never changes a score, XX never adds a member, and no flag touches another member.  Otherwise
      the score is stored, or with INCR its sum with the old one; in place of a NaN 0 is stored, or
      nothing, which is an error. */
  lemma ZaddRespectsFlags(hmap: ScoreMap, s: Score, el: Bytes, flags: Flags)
    ensures var after, reply := ZaddMap(hmap, s, el, flags), ZaddReply(hmap, s, el, flags);
      && (forall k | k in hmap :: k in after && (k != el || flags.nx ==> after[k] == hmap[k]))
      && (forall k | k in after :: k in hmap || (k == el && !flags.xx))
      && (el in hmap && !flags.nx && flags.incr ==> Puts(hmap, after, reply, el, Add(s, hmap[el]), flags))
      && (el in hmap && !flags.nx && !flags.incr && !(flags.ch && s == hmap[el]) ==>
            Puts(hmap, after, reply, el, s, flags))
      && (el !in hmap && !flags.xx ==> Puts(hmap, after, reply, el, s, flags))
      && ((if el in hmap then flags.nx || (flags.ch && !flags.incr && s == hmap[el]) else flags.xx) ==>
            after == hmap && reply == Ok(false))
  {
  }

  /** `x` is stored, or stands for 0, or for an error. */
  ghost predicate Puts(hmap: ScoreMap, after: ScoreMap, reply: Result<bool>, el: Bytes, x: Score, flags: Flags) {
    if x == NaN && !flags.zeroOnNan then after == hmap && reply == NotANumber
    else after == hmap[el := if x == NaN then Finite(0.0) else x] && reply == Ok(flags.ch || el !in hmap)
  }

  // ----- Runs ----------------------------------------------------------------------

  /** What the two representations hold; it determines the list. */
  datatype Content = Content(hmap: ScoreMap, lost: set<Bytes>)

  /** `Drop` stands for the range removals, which see listed members only. */
  datatype Op = Put(s: Score, el: Bytes, flags: Flags) | Incr(increment: Score, member: Bytes)
              | Rem(gone: Bytes) | Drop(members: set<Bytes>)

  function ScoreAfter(c: Content, increment: Score, member: Bytes): Score {
    Add(if member in c.hmap then c.hmap[member] else Finite(0.0), increment)
  }

  function Apply(c: Content, op: Op): Content {
    match op
    case Put(s, el, flags) =>
      if Writes(c, op) then Content(ZaddMap(c.hmap, s, el, flags), c.lost - {el}) else c
    case Incr(increment, member) =>
      if Writes(c, op) then Content(c.hmap[member := ScoreAfter(c, increment, member)], c.lost - {member})
      else Content(c.hmap, c.lost + (if member in c.hmap then {member} else {}))
    case Rem(gone) => Content(c.hmap - {gone}, c.lost - {gone})
    case Drop(members) => Content(c.hmap - (members - c.lost), c.lost)
  }

  /** The operation stores a score. */
  predicate Writes(c: Content, op: Op) {
    match op
    case Put(s, el, flags) => !Refused(c.hmap, s, el, flags) && NewScore(c.hmap, s, el, flags) != NaN
    case Incr(increment, member) => ScoreAfter(c, increment, member) != NaN
    case _ => false
  }

  /** The operation loses the member `k`: a ZINCRBY of a present member whose sum is NaN. */
  predicate Loses(c: Content, op: Op, k: Bytes) {
    op.Incr? && op.member == k && k in c.hmap && ScoreAfter(c, op.increment, k) == NaN
  }

  /** The operation ends that state of `k`, by storing a score of it or by removing it. */
  predicate Settles(c: Content, op: Op, k: Bytes) {
    match op
    case Put(_, el, _) => el == k && Writes(c, op)
    case Incr(_, member) => member == k && Writes(c, op)
    case Rem(gone) => gone == k
    case Drop(_) => false
  }

  /** So what the range removals do, to members of the list, is the operation `Drop`. */
  lemma DropListed(list: seq<Member>, c: Content, ms: seq<Member>)
    requires InStepBut(list, c.hmap, c.lost) && forall m | m in ms :: m in list
    ensures Apply(c, Drop(Names(ms))) == Content(c.hmap - Names(ms), c.lost)
  {
    LostAreUnlisted(list, c.hmap, c.lost);
    assert Names(ms) - c.lost == Names(ms);
  }

  function Run(ops: seq<Op>): Content {
    if ops == [] then Content(map[], {}) else Apply(Run(ops[..|ops| - 1]), ops[|ops| - 1])
  }

  /** Some operation lost `k` and no later one settled it. */
  ghost predicate StillLost(ops: seq<Op>, k: Bytes) {
    exists i :: 0 <= i < |ops| && Loses(Run(ops[..i]), ops[i], k) && UnsettledAfter(ops, i, k)
  }

  predicate UnsettledAfter(ops: seq<Op>, i: nat, k: Bytes) {
    forall j :: i < j < |ops| ==> !Settles(Run(ops[..j]), ops[j], k)
  }

  lemma StillLostNext(ops: seq<Op>, op: Op, k: Bytes)
    ensures StillLost(ops + [op], k)
       <==> Loses(Run(ops), op, k) || (StillLost(ops, k) && !Settles(Run(ops), op, k))
  {
    var after := ops + [op];
    assert after[..|ops|] == ops;
    assert forall j :: 0 <= j < |ops| ==> after[j] == ops[j] && after[..j] == ops[..j];
    if Loses(Run(ops), op, k) {
      assert Loses(Run(after[..|ops|]), after[|ops|], k) && UnsettledAfter(after, |ops|, k);
    } else if StillLost(ops, k) && !Settles(Run(ops), op, k) {
      var i :| 0 <= i < |ops| && Loses(Run(ops[..i]), ops[i], k) && UnsettledAfter(ops, i, k);
      assert Loses(Run(after[..i]), after[i], k) && UnsettledAfter(after, i, k);
    }
    forall i | 0 <= i < |ops| && Loses(Run(after[..i]), after[i], k) && UnsettledAfter(after, i, k)
      ensures StillLost(ops, k) && !Settles(Run(ops), op, k)
    {
      assert Loses(Run(ops[..i]), ops[i], k) && UnsettledAfter(ops, i, k);
      assert !Settles(Run(after[..|ops|]), after[|ops|], k);
    }
  }

  lemma ApplyKeeps(c: Content, op: Op)
    requires c.lost <= c.hmap.Keys && forall k | k in c.hmap :: c.hmap[k] != NaN
    ensures var d := Apply(c, op);
      && d.lost <= d.hmap.Keys && (forall k | k in d.hmap :: d.hmap[k] != NaN)
      && forall k :: k in d.lost <==> Loses(c, op, k) || (k in c.lost && !Settles(c, op, k))
  {
  }

  /** After any run, the lost members are those that a failing ZINCRBY lost and nothing settled
      since; they have scores, and no score is NaN. */
  lemma {:induction false} LostAfterRun(ops: seq<Op>)
    ensures var c := Run(ops);
      && c.lost <= c.hmap.Keys && (forall k | k in c.hmap :: c.hmap[k] != NaN)
      && forall k :: k in c.lost <==> StillLost(ops, k)
  {
    if ops != [] {
      var front, op := ops[..|ops| - 1], ops[|ops| - 1];
      LostAfterRun(front);
      assert ops == front + [op];
      ApplyKeeps(Run(front), op);
      forall k: Bytes
        ensures k in Run(ops).lost <==> StillLost(ops, k)
      {
        StillLostNext(front, op, k);
      }
    }
  }

  /** So both representations are in step after a run without a failing ZINCRBY. */
  lemma InStepWithoutFailures(ops: seq<Op>)
    requires forall i, k :: 0 <= i < |ops| ==> !Loses(Run(ops[..i]), ops[i], k)
    ensures Run(ops).lost == {}
  {
    LostAfterRun(ops);
  }

  /** A set whose only member is lost has an empty skip list, which ZRANGEBYLEX unwraps the first
      element of. */
  lemma OnlyLostMembers(list: seq<Member>, m: Bytes)
    ensures InStepBut(list, map[m := PosInf], {m}) <==> list == []
  {
    NoElements(list);
    assert map[m := PosInf] - {m} == map[];
  }

  /** ZADD k inf m, then ZINCRBY k -inf m. */
  lemma FailedIncrementLoses(m: Bytes)
    ensures Run([Put(PosInf, m, Flags(false, false, false, false, false)), Incr(NegInf, m)])
      == Content(map[m := PosInf], {m})
  {
    var put := Put(PosInf, m, Flags(false, false, false, false, false));
    assert Run([]) == Content(map[], {});
    assert [put][..0] == [] && [put, Incr(NegInf, m)][..1] == [put];
    assert Run([put]) == Content(map[m := PosInf], {});
  }
}
