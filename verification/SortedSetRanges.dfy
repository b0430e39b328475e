/** database/src/zset.rs: what the ends of a range select, and how positions are normalised. */
module SortedSetRanges {
  import opened Machine
  import opened ByteStrings
  import opened Sequences
  import opened DbUtil
  import opened Scores
  import opened SortedSetOrder

  // ----- Score ranges --------------------------------------------------------------

  predicate LowScore(f: Score, min: Bound<Score>) {
    match min
    case Included(a) => !Lt(f, a)
    case Excluded(a) => Lt(a, f)
    case Unbounded => true
  }

  predicate HighScore(f: Score, max: Bound<Score>) {
    match max
    case Included(a) => !Lt(a, f)
    case Excluded(a) => Lt(f, a)
    case Unbounded => true
  }

  /** The numeric interval that a client asks for. */
  predicate InScores(x: Member, min: Bound<Score>, max: Bound<Score>) {
    LowScore(x.f, min) && HighScore(x.f, max)
  }

  /** The command parser lets no NaN through. */
  predicate Proper(bound: Bound<Score>) {
    match bound
    case Included(f) => f != NaN
    case Excluded(f) => f != NaN
    case Unbounded => true
  }

  /** The lower end handed to the skip list: just above every member when excluded. */
  function ScoreMin(min: Bound<Score>): Bound<Member> {
    match min
    case Included(f) => Included(Member(f, [], false))
    case Excluded(f) => Excluded(Member(f, [], true))
    case Unbounded => Unbounded
  }

  /** The upper end: just above every member when included. */
  function ScoreMax(max: Bound<Score>): Bound<Member> {
    match max
    case Included(f) => Included(Member(f, [], true))
    case Excluded(f) => Excluded(Member(f, [], false))
    case Unbounded => Unbounded
  }

  function RangeByScore(list: seq<Member>, min: Bound<Score>, max: Bound<Score>): seq<Member> {
    Range(list, ScoreMin(min), ScoreMax(max))
  }

  /** The members inside the numeric interval, and the ones outside, in order. */
  function InsideScores(list: seq<Member>, min: Bound<Score>, max: Bound<Score>): seq<Member> {
    Filter(list, x => InScores(x, min, max))
  }

  function OutsideScores(list: seq<Member>, min: Bound<Score>, max: Bound<Score>): seq<Member> {
    Reject(list, x => InScores(x, min, max))
  }

  /** The artificial ends cut exactly at the score, also for the empty member. */
  lemma BoundaryIsScore(x: Member, min: Bound<Score>, max: Bound<Score>)
    requires Plain(x) && Proper(min) && Proper(max)
    ensures AboveMin(x, ScoreMin(min)) <==> LowScore(x.f, min)
    ensures BelowMax(x, ScoreMax(max)) <==> HighScore(x.f, max)
  {
  }

  /** A score range selects the members in the numeric interval, in order. */
  lemma RangeByScoreExact(list: seq<Member>, min: Bound<Score>, max: Bound<Score>)
    requires Sorted(list) && Proper(min) && Proper(max)
    ensures RangeByScore(list, min, max) == InsideScores(list, min, max)
  {
    var lo, hi := ScoreMin(min), ScoreMax(max);
    forall x | x in list
      ensures (AboveMin(x, lo) && BelowMax(x, hi)) == InScores(x, min, max)
    {
      BoundaryIsScore(x, min, max);
    }
    FilterSame(list, x => AboveMin(x, lo) && BelowMax(x, hi), x => InScores(x, min, max));
  }

  /** The interval in numbers: an infinity is inside where its end is open or includes it, and a number
      where it is neither below nor above. */
  lemma InScoresMeaning(x: Member, min: Bound<Score>, max: Bound<Score>)
    requires x.f != NaN && Proper(min) && Proper(max)
    ensures InScores(x, min, max)
      <==> && (min.Unbounded? || (min.Included? && x.f == min.v) || Above(x.f, min.v))
           && (max.Unbounded? || (max.Included? && x.f == max.v) || Above(max.v, x.f))
  {
  }

  /** `f` is greater than `g`, where neither is NaN. */
  predicate Above(f: Score, g: Score) {
    f != g && (f == PosInf || g == NegInf || (f.Finite? && g.Finite? && f.r > g.r))
  }

  // ----- Lexicographic ranges ------------------------------------------------------

  function LexEnd(f: Score, bound: Bound<Bytes>): Bound<Member> {
    match bound
    case Included(s) => Included(Member(f, s, false))
    case Excluded(s) => Excluded(Member(f, s, false))
    case Unbounded => Unbounded
  }

  /** The ends take the score of the first member. */
  function RangeByLex(list: seq<Member>, min: Bound<Bytes>, max: Bound<Bytes>): seq<Member> {
    if list == [] then [] else Range(list, LexEnd(list[0].f, min), LexEnd(list[0].f, max))
  }

  predicate LowBytes(s: Bytes, min: Bound<Bytes>) {
    match min
    case Included(a) => Compare(s, a) != Less
    case Excluded(a) => Compare(s, a) == Greater
    case Unbounded => true
  }

  predicate HighBytes(s: Bytes, max: Bound<Bytes>) {
    match max
    case Included(a) => Compare(s, a) != Greater
    case Excluded(a) => Compare(s, a) == Less
    case Unbounded => true
  }

  lemma BytesMeaning(s: Bytes, min: Bound<Bytes>, max: Bound<Bytes>)
    ensures LowBytes(s, min) <==> min.Unbounded? || (min.Included? && s == min.v) || Below(min.v, s)
    ensures HighBytes(s, max) <==> max.Unbounded? || (max.Included? && s == max.v) || Below(s, max.v)
  {
    if !min.Unbounded? { CompareMeaning(s, min.v); }
    if !max.Unbounded? { CompareMeaning(s, max.v); }
  }

  /** What a lexicographic range selects in a set whose lowest score is `f`: the interval
      among the members with that score, and the others only when the range is open above. */
  predicate InLex(x: Member, f: Score, min: Bound<Bytes>, max: Bound<Bytes>) {
    if x.f == f then LowBytes(x.s, min) && HighBytes(x.s, max) else max.Unbounded?
  }

  function InsideLex(list: seq<Member>, f: Score, min: Bound<Bytes>, max: Bound<Bytes>): seq<Member> {
    Filter(list, x => InLex(x, f, min, max))
  }

  function OutsideLex(list: seq<Member>, f: Score, min: Bound<Bytes>, max: Bound<Bytes>): seq<Member> {
    Reject(list, x => InLex(x, f, min, max))
  }

  lemma FrontIsLowest(list: seq<Member>, x: Member)
    requires Sorted(list) && x in list
    ensures x.f == list[0].f || Lt(list[0].f, x.f)
  {
    var i :| 0 <= i < |list| && list[i] == x;
    assert i > 0 ==> PartialCmp(list[0], list[i]) == Less;
  }

  lemma RangeByLexExact(list: seq<Member>, min: Bound<Bytes>, max: Bound<Bytes>)
    requires Sorted(list) && list != []
    ensures RangeByLex(list, min, max) == InsideLex(list, list[0].f, min, max)
  {
    var f := list[0].f;
    var lo, hi := LexEnd(f, min), LexEnd(f, max);
    forall x | x in list
      ensures (AboveMin(x, lo) && BelowMax(x, hi)) == InLex(x, f, min, max)
    {
      FrontIsLowest(list, x);
    }
    FilterSame(list, x => AboveMin(x, lo) && BelowMax(x, hi), x => InLex(x, f, min, max));
  }

  /** With equal scores, which is how the lexicographic commands are meant to be used, the
      range is the interval of byte strings. */
  lemma RangeByLexEqualScores(list: seq<Member>, min: Bound<Bytes>, max: Bound<Bytes>)
    requires Sorted(list) && forall x | x in list :: x.f == list[0].f
    ensures RangeByLex(list, min, max) == Filter(list, (x: Member) => LowBytes(x.s, min) && HighBytes(x.s, max))
  {
    if list != [] {
      RangeByLexExact(list, min, max);
      FilterSame(list, x => InLex(x, list[0].f, min, max), (x: Member) => LowBytes(x.s, min) && HighBytes(x.s, max));
    }
  }

  // ----- Both kinds are blocks -----------------------------------------------------

  lemma EndsMonotone(list: seq<Member>, min: Bound<Member>, max: Bound<Member>)
    requires Sorted(list)
    requires min.Unbounded? || min.v.f != NaN
    requires max.Unbounded? || max.v.f != NaN
    ensures Rising(list, x => AboveMin(x, min)) && Falling(list, x => BelowMax(x, max))
  {
    forall i, j | 0 <= i < j < |list|
      ensures AboveMin(list[i], min) ==> AboveMin(list[j], min)
      ensures BelowMax(list[j], max) ==> BelowMax(list[i], max)
    {
      if !min.Unbounded? { LessThenEnd(list[i], list[j], min.v); }
      if !max.Unbounded? { LessThenEnd(list[i], list[j], max.v); }
    }
  }

  /** A smaller member compares no higher with an end than a greater member does. */
  lemma LessThenEnd(a: Member, b: Member, end: Member)
    requires Plain(a) && Plain(b) && end.f != NaN && PartialCmp(a, b) == Less
    ensures PartialCmp(a, end) == Greater ==> PartialCmp(b, end) == Greater
    ensures PartialCmp(a, end) == Equal ==> PartialCmp(b, end) == Greater
  {
    if a.f == b.f == end.f && !end.upper {
      CompareFlip(a.s, b.s);
      CompareFlip(a.s, end.s);
      CompareEqual(a.s, end.s);
      CompareFlip(end.s, b.s);
      if Compare(end.s, a.s) == Less {
        CompareTransitive(end.s, a.s, b.s);
      }
    }
  }

  /** The end that closes a range just below where `min` opens one. */
  function Complement<T>(min: Bound<T>): Bound<T>
    requires !min.Unbounded?
  {
    if min.Included? then Excluded(min.v) else Included(min.v)
  }

  /** The members below the lower end, and the members that a range leaves out. */
  function Under(list: seq<Member>, min: Bound<Member>): seq<Member> {
    Reject(list, x => AboveMin(x, min))
  }

  function Beyond(list: seq<Member>, min: Bound<Member>, max: Bound<Member>): seq<Member> {
    Reject(list, x => AboveMin(x, min) && BelowMax(x, max))
  }

  lemma NothingUnder(list: seq<Member>)
    ensures Under(list, Unbounded) == []
  {
    RejectNone(list, x => AboveMin(x, Unbounded));
  }

  /** Counting the members below a range and inside it locates the range. */
  lemma RangeIsBlock(list: seq<Member>, min: Bound<Member>, max: Bound<Member>)
    requires Sorted(list)
    requires min.Unbounded? || min.v.f != NaN
    requires max.Unbounded? || max.v.f != NaN
    ensures var pos, count := |Under(list, min)|, |Range(list, min, max)|;
      pos + count <= |list|
      && Range(list, min, max) == list[pos..pos + count]
      && Beyond(list, min, max) == list[..pos] + list[pos + count..]
  {
    EndsMonotone(list, min, max);
    BlockFilter(list, x => AboveMin(x, min), x => BelowMax(x, max), x => AboveMin(x, min) && BelowMax(x, max));
  }

  /** The separately counted position is where the score range starts. */
  lemma ScoreBlock(list: seq<Member>, min: Bound<Score>, max: Bound<Score>, pos: nat)
    requires Sorted(list) && Proper(min) && Proper(max)
    requires pos == if min.Unbounded? then 0 else |RangeByScore(list, Unbounded, Complement(min))|
    ensures var count := |RangeByScore(list, min, max)|;
      && pos + count <= |list| && InsideScores(list, min, max) == list[pos..pos + count]
      && OutsideScores(list, min, max) == list[..pos] + list[pos + count..]
  {
    var lo, hi := ScoreMin(min), ScoreMax(max);
    RangeIsBlock(list, lo, hi);
    RangeByScoreExact(list, min, max);
    assert Beyond(list, lo, hi) == OutsideScores(list, min, max) by {
      forall x | x in list
        ensures (AboveMin(x, lo) && BelowMax(x, hi)) == InScores(x, min, max)
      {
        BoundaryIsScore(x, min, max);
      }
      RejectSame(list, x => AboveMin(x, lo) && BelowMax(x, hi), x => InScores(x, min, max));
    }
    if min.Unbounded? {
      NothingUnder(list);
    } else {
      UnderScores(list, min);
    }
  }

  lemma UnderScores(list: seq<Member>, min: Bound<Score>)
    requires Sorted(list) && Proper(min) && !min.Unbounded?
    ensures Under(list, ScoreMin(min)) == RangeByScore(list, Unbounded, Complement(min))
  {
    RangeByScoreExact(list, Unbounded, Complement(min));
    forall x | x in list
      ensures AboveMin(x, ScoreMin(min)) != InScores(x, Unbounded, Complement(min))
    {
      BoundaryIsScore(x, min, Unbounded);
    }
    RejectIsFilter(list, x => AboveMin(x, ScoreMin(min)), x => InScores(x, Unbounded, Complement(min)));
  }

  lemma LexBlock(list: seq<Member>, min: Bound<Bytes>, max: Bound<Bytes>, pos: nat)
    requires Sorted(list) && list != []
    requires pos == if min.Unbounded? then 0 else |RangeByLex(list, Unbounded, Complement(min))|
    ensures var count := |RangeByLex(list, min, max)|;
      && pos + count <= |list| && InsideLex(list, list[0].f, min, max) == list[pos..pos + count]
      && OutsideLex(list, list[0].f, min, max) == list[..pos] + list[pos + count..]
  {
    var f := list[0].f;
    var lo, hi := LexEnd(f, min), LexEnd(f, max);
    RangeIsBlock(list, lo, hi);
    RangeByLexExact(list, min, max);
    assert Beyond(list, lo, hi) == OutsideLex(list, f, min, max) by {
      forall x | x in list
        ensures (AboveMin(x, lo) && BelowMax(x, hi)) == InLex(x, f, min, max)
      {
        FrontIsLowest(list, x);
      }
      RejectSame(list, x => AboveMin(x, lo) && BelowMax(x, hi), x => InLex(x, f, min, max));
    }
    if min.Unbounded? {
      NothingUnder(list);
    } else {
      UnderLex(list, min);
    }
  }

  lemma UnderLex(list: seq<Member>, min: Bound<Bytes>)
    requires Sorted(list) && list != [] && !min.Unbounded?
    ensures Under(list, LexEnd(list[0].f, min)) == RangeByLex(list, Unbounded, Complement(min))
  {
    var f := list[0].f;
    RangeByLexExact(list, Unbounded, Complement(min));
    forall x | x in list
      ensures AboveMin(x, LexEnd(f, min)) != InLex(x, f, Unbounded, Complement(min))
    {
      FrontIsLowest(list, x);
    }
    RejectIsFilter(list, x => AboveMin(x, LexEnd(f, min)), x => InLex(x, f, Unbounded, Complement(min)));
  }

  // ----- Positions -----------------------------------------------------------------

  /** `-position - 1`. */
  function Mirror(p: Profile, position: I64): Outcome<I64> {
    match I64Result(p, 0 - position)
    case Done(n) => I64Result(p, 0 + n - 1)
    case Panic => Panic
  }

  /** Where the range starts; None when that is past the last element. */
  function LowEnd(from: I64, len: Length): Option<Usize> {
    match NormalizePosition(from, len)
    case At(i) => Some(i)
    case Outside(above) => if above then None else Some(0)
  }

  /** The pair for a range that starts at `a`. */
  function HighEnd(p: Profile, a: Usize, to: I64, len: Length): Outcome<(Usize, Usize)> {
    match NormalizePosition(to, len)
    case At(b) => Done((a, b))
    case Outside(above) =>
      if !above then Done((1, 0))
      else
        match UsizeResult(p, len - 1)
        case Done(b) => Done((a, b))
        case Panic => Panic
  }

  function NormalizeRange(p: Profile, len: Length, start: I64, stop: I64, rev: bool): Outcome<(Usize, Usize)> {
    match if rev then Mirror(p, stop) else Done(start)
    case Panic => Panic
    case Done(from) =>
      match LowEnd(from, len)
      case None => Done((1, 0))
      case Some(a) =>
        match if rev then Mirror(p, start) else Done(stop)
        case Panic => Panic
        case Done(to) => HighEnd(p, a, to, len)
  }

  predicate RangeOverflows(p: Profile, len: nat, start: int, stop: int, rev: bool) {
    p.Debug? &&
    ((len == 0 && start < 0 <= stop) ||
     (rev && (stop == I64_MIN || (start == I64_MIN && Absolute(stop, len) >= 0))))
  }

  lemma MirrorMeaning(p: Profile, position: I64)
    ensures Mirror(p, position) == if p.Debug? && position == I64_MIN then Panic else Done(0 - position - 1)
  {
  }

  /** `r` names the window from `from` to `to`, and is out of order when that is empty. */
  ghost predicate NamesWindow(r: (Usize, Usize), len: nat, from: int, to: int) {
    if len == 0 then r == if from < 0 <= to then (0, WrapUsize(-1)) else (1, 0)
    else if First(from, len) <= Last(to, len) then r == (First(from, len), Last(to, len))
    else r.1 < r.0
  }

  lemma EndsMeaning(p: Profile, len: Length, from: I64, to: I64)
    requires LowEnd(from, len).Some?
    ensures var r := HighEnd(p, LowEnd(from, len).value, to, len);
      (r.Panic? <==> p.Debug? && len == 0 && from < 0 <= to) && (r.Done? ==> NamesWindow(r.value, len, from, to))
  {
  }

  lemma NormalizeRangeMeaning(p: Profile, len: Length, start: I64, stop: I64, rev: bool)
    ensures var r := NormalizeRange(p, len, start, stop, rev);
      && (r.Panic? <==> RangeOverflows(p, len, start, stop, rev))
      && (r.Done? && !rev ==> NamesWindow(r.value, len, start, stop))
      && (r.Done? && rev ==> NamesWindow(r.value, len, 0 - stop - 1, 0 - start - 1))
  {
    if rev {
      MirrorMeaning(p, stop);
      MirrorMeaning(p, start);
    }
    var from, to := if rev then Mirror(p, stop) else Done(start), if rev then Mirror(p, start) else Done(stop);
    if from.Done? && to.Done? && LowEnd(from.value, len).Some? {
      EndsMeaning(p, len, from.value, to.value);
    }
  }

  // ----- Replies -------------------------------------------------------------------

  /** ZRANGE k -1 0 on an empty set: `len - 1` underflows. */
  lemma EmptyRangeOverflows()
    ensures NormalizeRange(Debug, 0, -1, 0, false) == Panic
    ensures NormalizeRange(Release, 0, -1, 0, false) == Done((0, USIZE_LIMIT - 1))
  {
  }

  function Entry(m: Member, withscores: bool, fmt: Score -> Bytes): seq<Bytes> {
    if withscores then [m.s, fmt(m.f)] else [m.s]
  }

  /** The reply for a list of members; each score follows its member. */
  function Render(ms: seq<Member>, withscores: bool, fmt: Score -> Bytes): seq<Bytes> {
    if ms == [] then []
    else Render(ms[..|ms| - 1], withscores, fmt) + Entry(ms[|ms| - 1], withscores, fmt)
  }

  lemma {:induction false} RenderConcat(a: seq<Member>, b: seq<Member>, withscores: bool, fmt: Score -> Bytes)
    ensures Render(a + b, withscores, fmt) == Render(a, withscores, fmt) + Render(b, withscores, fmt)
  {
    if b == [] {
      assert a + b == a;
    } else {
      var front := b[..|b| - 1];
      assert (a + b)[..|a + b| - 1] == a + front;
      RenderConcat(a, front, withscores, fmt);
    }
  }

  /** A reply built with each score before its member and then reversed is the reply for the
      reversed list. */
  lemma RenderBackwards(shown: seq<Member>, m: Member, withscores: bool, fmt: Score -> Bytes)
    ensures Reverse(Render(Reverse(shown + [m]), withscores, fmt))
         == Reverse(Render(Reverse(shown), withscores, fmt)) + (if withscores then [fmt(m.f)] else []) + [m.s]
  {
    var back := Reverse(shown);
    assert Reverse(shown + [m]) == [m] + back;
    RenderConcat([m], back, withscores, fmt);
    var head, tail := Entry(m, withscores, fmt), Render(back, withscores, fmt);
    assert Render([m], withscores, fmt) == head by {
      assert [m][..0] == [];
    }
    assert Reverse(head) == (if withscores then [fmt(m.f)] else []) + [m.s];
    assert Reverse(head + tail) == Reverse(tail) + Reverse(head);
  }

  /** The end of the list that `offset` and `count` leave, seen from the front or the back. */
  function Page(list: seq<Member>, offset: nat, count: nat, rev: bool): seq<Member> {
    Take(Skip(if rev then Reverse(list) else list, offset), count)
  }

  /** The i-th member of a reply is `m`, followed by its score if scores are wanted. */
  predicate ShowsMember(reply: seq<Bytes>, i: nat, m: Member, withscores: bool, fmt: Score -> Bytes) {
    if withscores then 2 * i + 1 < |reply| && reply[2 * i] == m.s && reply[2 * i + 1] == fmt(m.f)
    else i < |reply| && reply[i] == m.s
  }

  predicate ShowsCount(reply: seq<Bytes>, n: nat, withscores: bool) {
    |reply| == if withscores then 2 * n else n
  }

  lemma {:induction false} RenderMeaning(ms: seq<Member>, withscores: bool, fmt: Score -> Bytes)
    ensures ShowsCount(Render(ms, withscores, fmt), |ms|, withscores)
    ensures forall i: nat :: i < |ms| ==> ShowsMember(Render(ms, withscores, fmt), i, ms[i], withscores, fmt)
  {
    if ms != [] {
      var n := |ms| - 1;
      RenderMeaning(ms[..n], withscores, fmt);
      var before := Render(ms[..n], withscores, fmt);
      forall i: nat | i < n
        ensures ShowsMember(Render(ms, withscores, fmt), i, ms[i], withscores, fmt)
      {
        assert ShowsMember(before, i, ms[..n][i], withscores, fmt);
      }
    }
  }

  /** The reply shows the members of the list at the positions `from` up to `to`, from the greatest
      down in reverse, where positions count from the other end. */
  ghost predicate RepliesSlice(reply: seq<Bytes>, list: seq<Member>, from: nat, to: nat, rev: bool, withscores: bool,
                               fmt: Score -> Bytes)
    requires from <= to <= |list|
  {
    && ShowsCount(reply, to - from, withscores)
    && (!rev ==> forall k :: from <= k < to ==> ShowsMember(reply, k - from, list[k], withscores, fmt))
    && (rev ==> forall k :: |list| - to <= k < |list| - from ==>
                  ShowsMember(reply, |list| - from - 1 - k, list[k], withscores, fmt))
  }

  lemma SliceMeaning(list: seq<Member>, order: seq<Member>, from: nat, to: nat, rev: bool, withscores: bool,
                     fmt: Score -> Bytes)
    requires from <= to <= |list| && order == if rev then Reverse(list) else list
    ensures RepliesSlice(Render(order[from..to], withscores, fmt), list, from, to, rev, withscores, fmt)
  {
    var shown := order[from..to];
    RenderMeaning(shown, withscores, fmt);
    var reply := Render(shown, withscores, fmt);
    if rev {
      forall k | |list| - to <= k < |list| - from
        ensures ShowsMember(reply, |list| - from - 1 - k, list[k], withscores, fmt)
      {
        assert ShowsMember(reply, |list| - from - 1 - k, shown[|list| - from - 1 - k], withscores, fmt);
      }
    } else {
      forall k | from <= k < to
        ensures ShowsMember(reply, k - from, list[k], withscores, fmt)
      {
        assert ShowsMember(reply, k - from, shown[k - from], withscores, fmt);
      }
    }
  }

  /** LIMIT: of the members inside a range the reply passes over `offset` and shows as many of the others
      as there are, up to `count`. */
  ghost predicate RepliesPage(reply: seq<Bytes>, inside: seq<Member>, offset: nat, count: nat, rev: bool,
                              withscores: bool, fmt: Score -> Bytes)
  {
    if offset >= |inside| then reply == []
    else RepliesSlice(reply, inside, offset, if count < |inside| - offset then offset + count else |inside|, rev,
                      withscores, fmt)
  }

  lemma PageMeaning(inside: seq<Member>, offset: nat, count: nat, rev: bool, withscores: bool, fmt: Score -> Bytes)
    ensures RepliesPage(Render(Page(inside, offset, count, rev), withscores, fmt), inside, offset, count, rev,
                        withscores, fmt)
  {
    var order := if rev then Reverse(inside) else inside;
    if offset < |inside| {
      TakeAfterSkip(order, offset, count);
      var to := if count < |inside| - offset then offset + count else |inside|;
      assert Page(inside, offset, count, rev) == order[offset..to];
      SliceMeaning(inside, order, offset, to, rev, withscores, fmt);
    } else {
      assert Page(inside, offset, count, rev) == [];
    }
  }

  /** ZRANGE: negative positions count from the end, and what lies off either end is left out. */
  ghost predicate RepliesWindow(reply: seq<Bytes>, list: seq<Member>, start: int, stop: int, rev: bool,
                                withscores: bool, fmt: Score -> Bytes)
  {
    var from := if start >= 0 then start else if start + |list| >= 0 then start + |list| else 0;
    var last := if stop < 0 then stop + |list| else if stop < |list| then stop else |list| - 1;
    if from > last then reply == [] else RepliesSlice(reply, list, from, last + 1, rev, withscores, fmt)
  }

  /** A window that is not empty, with its ends. */
  lemma SliceReply(list: seq<Member>, order: seq<Member>, start: int, stop: int, from: nat, last: int, rev: bool,
                   withscores: bool, fmt: Score -> Bytes)
    requires order == if rev then Reverse(list) else list
    requires from == if start >= 0 then start else if start + |list| >= 0 then start + |list| else 0
    requires last == if stop < 0 then stop + |list| else if stop < |list| then stop else |list| - 1
    requires from <= last
    ensures RepliesWindow(Render(order[from..last + 1], withscores, fmt), list, start, stop, rev, withscores, fmt)
  {
    SliceMeaning(list, order, from, last + 1, rev, withscores, fmt);
  }

  lemma WindowReply(list: seq<Member>, order: seq<Member>, start: int, stop: int, rev: bool, withscores: bool,
                    fmt: Score -> Bytes)
    requires order == if rev then Reverse(list) else list
    ensures RepliesWindow(Render(Window(order, start, stop), withscores, fmt), list, start, stop, rev, withscores, fmt)
  {
    var from, last := First(start, |list|), Last(stop, |list|);
    if from <= last {
      assert Window(order, start, stop) == order[from..last + 1];
      SliceReply(list, order, start, stop, from, last, rev, withscores, fmt);
    } else {
      assert Window(order, start, stop) == [];
      EmptyReply(list, start, stop, from, last, rev, withscores, fmt);
    }
  }

  lemma EmptyReply(list: seq<Member>, start: int, stop: int, from: nat, last: int, rev: bool, withscores: bool,
                   fmt: Score -> Bytes)
    requires from == if start >= 0 then start else if start + |list| >= 0 then start + |list| else 0
    requires last == if stop < 0 then stop + |list| else if stop < |list| then stop else |list| - 1
    requires from > last
    ensures RepliesWindow(Render([], withscores, fmt), list, start, stop, rev, withscores, fmt)
  {
  }
}
