/** database/src/zset.rs: the sorted set, a skip list and a hash map kept in step. */
module SortedSet {
  import opened Machine
  import opened ByteStrings
  import opened Sequences
  import opened DbUtil
  import opened Scores
  import opened SortedSetOrder
  import opened SortedSetRanges
  import opened SortedSetAggregate
  import opened SortedSetState

  // ----- Positions in the list -----------------------------------------------------

  lemma ComparedByPosition(list: seq<Member>, i: nat, j: nat)
    requires Sorted(list) && i < |list| && j < |list|
    ensures PartialCmp(list[j], list[i]) == if j < i then Less else if j == i then Equal else Greater
  {
    CmpEqual(list[i], list[j]);
    CmpFlip(list[i], list[j]);
  }

  lemma RangeFrom(list: seq<Member>, i: nat)
    requires Sorted(list) && i < |list|
    ensures Range(list, Included(list[i]), Unbounded) == list[i..]
  {
    var p := x => AboveMin(x, Included(list[i])) && BelowMax(x, Unbounded);
    forall j | 0 <= j < |list|
      ensures p(list[j]) <==> i <= j
    {
      ComparedByPosition(list, i, j);
    }
    assert list == list[..i] + list[i..];
    FilterConcat(list[..i], list[i..], p);
    FilterNone(list[..i], p);
    FilterAll(list[i..], p);
  }

  lemma RangeBetween(list: seq<Member>, first: nat, last: nat)
    requires Sorted(list) && first <= last < |list|
    ensures Take(Range(list, Included(list[first]), Unbounded), last - first + 1) == list[first..last + 1]
  {
    RangeFrom(list, first);
    TakeAfterSkip(list, first, last - first + 1);
  }

  lemma RangeUpTo(list: seq<Member>, i: nat)
    requires Sorted(list) && i < |list|
    ensures Range(list, Unbounded, Included(list[i])) == list[..i + 1]
  {
    var p := x => AboveMin(x, Unbounded) && BelowMax(x, Included(list[i]));
    forall j | 0 <= j < |list|
      ensures p(list[j]) <==> j <= i
    {
      ComparedByPosition(list, i, j);
    }
    assert list == list[..i + 1] + list[i + 1..];
    FilterConcat(list[..i + 1], list[i + 1..], p);
    FilterAll(list[..i + 1], p);
    FilterNone(list[i + 1..], p);
  }

  // ----- Ranks ---------------------------------------------------------------------

  /** `n` elements of the list are smaller than `m`, and the others are greater or equal. */
  ghost predicate Precede(list: seq<Member>, m: Member, n: nat) {
    n <= |list| && forall i :: 0 <= i < |list| ==> (PartialCmp(list[i], m) == Less <==> i < n)
  }

  /** The elements up to `m`, counted as `zrank` counts them. */
  function UpTo(list: seq<Member>, m: Member): seq<Member> {
    Range(list, Unbounded, Included(m))
  }

  lemma UnlistedUpTo(list: seq<Member>, m: Member)
    requires Sorted(list) && Plain(m) && m !in list
    ensures |UpTo(list, m)| <= |list| && Precede(list, m, |UpTo(list, m)|)
  {
    var p, low := x => AboveMin(x, Unbounded) && BelowMax(x, Included(m)), x => BelowMax(x, Included(m));
    EndsMonotone(list, Unbounded, Included(m));
    FilterSame(list, p, low);
    assert Falling(list, low);
    PrefixFilter(list, low);
    FilterMembers(list, low);
    var n := |Filter(list, low)|;
    forall i | 0 <= i < |list|
      ensures PartialCmp(list[i], m) == Less <==> i < n
    {
      CmpEqual(list[i], m);
      if i < n {
        assert list[..n][i] in Filter(list, low);
      } else {
        RejectIsFilter(list, low, x => !low(x));
        FilterMembers(list, x => !low(x));
        assert list[n..][i - n] in Reject(list, low);
      }
    }
  }

  /** `count() - 1`. */
  function RankIn(p: Profile, list: seq<Member>, hmap: ScoreMap, el: Bytes): Outcome<Option<Usize>> {
    if el !in hmap then Done(None)
    else
      match UsizeResult(p, |UpTo(list, Member(hmap[el], el, false))| - 1)
      case Done(n) => Done(Some(n))
      case Panic => Panic
  }

  /** The answer for a lost member: one less than the number of smaller elements, which is the rank
      of the greatest of them, and out of range when there is none. */
  ghost predicate RankOfLost(p: Profile, list: seq<Member>, m: Member, r: Outcome<Option<Usize>>) {
    exists n: nat :: Precede(list, m, n)
      && r == if n > 0 then Done(Some(n - 1)) else if p.Debug? then Panic else Done(Some(USIZE_LIMIT - 1))
  }

  lemma RankMeaning(p: Profile, list: seq<Member>, hmap: ScoreMap, lost: set<Bytes>, el: Bytes)
    requires InStepBut(list, hmap, lost) && |list| <= I64_MAX
    ensures var r := RankIn(p, list, hmap, el);
      if el !in hmap then r == Done(None)
      else if el in lost then
        RankOfLost(p, list, MemberOf(hmap, el), r)
        && (r.Panic? <==> p.Debug? && (list == [] || PartialCmp(list[0], MemberOf(hmap, el)) != Less))
      else r.Done? && r.value.Some? && r.value.value < |list| && list[r.value.value] == MemberOf(hmap, el)
  {
    if el in hmap {
      LostAreUnlisted(list, hmap, lost);
      if el in lost {
        RankUnlisted(p, list, hmap, el);
      } else {
        RankListed(p, list, hmap, el);
      }
    }
  }

  lemma RankListed(p: Profile, list: seq<Member>, hmap: ScoreMap, el: Bytes)
    requires Sorted(list) && |list| <= I64_MAX && el in hmap && MemberOf(hmap, el) in list
    ensures var r := RankIn(p, list, hmap, el);
      r.Done? && r.value.Some? && r.value.value < |list| && list[r.value.value] == MemberOf(hmap, el)
  {
    var i :| 0 <= i < |list| && list[i] == MemberOf(hmap, el);
    RangeUpTo(list, i);
  }

  lemma RankUnlisted(p: Profile, list: seq<Member>, hmap: ScoreMap, el: Bytes)
    requires Sorted(list) && |list| <= I64_MAX && el in hmap && hmap[el] != NaN && MemberOf(hmap, el) !in list
    ensures var r := RankIn(p, list, hmap, el);
      && RankOfLost(p, list, MemberOf(hmap, el), r)
      && (r.Panic? <==> p.Debug? && (list == [] || PartialCmp(list[0], MemberOf(hmap, el)) != Less))
  {
    UnlistedUpTo(list, MemberOf(hmap, el));
  }

  /** After ZADD k inf m and ZINCRBY k -inf m, ZRANK k m underflows. */
  lemma LostRankUnderflows(m: Bytes)
    ensures RankIn(Debug, [], map[m := PosInf], m) == Panic
    ensures RankIn(Release, [], map[m := PosInf], m) == Done(Some(USIZE_LIMIT - 1))
  {
  }

  class SortedSet {
    var skiplist: seq<Member>
    var hmap: ScoreMap
    /** The members that only the hash map has. */
    ghost var lost: set<Bytes>

    ghost predicate Valid()
      reads this
    {
      InStepBut(skiplist, hmap, lost)
    }

    ghost function Contents(): Content
      reads this
    {
      Content(hmap, lost)
    }

    constructor ()
      ensures Valid() && Contents() == Content(map[], {})
    {
      skiplist, hmap, lost := [], map[], {};
    }

    /** Storing a score puts a missing list entry back. */
    method Zadd(s: Score, el: Bytes, flags: Flags) returns (r: Result<bool>)
      requires Valid()
      modifies this
      ensures Valid() && Contents() == Apply(old(Contents()), Put(s, el, flags))
      ensures hmap == ZaddMap(old(hmap), s, el, flags) && r == ZaddReply(old(hmap), s, el, flags)
    {
      var score := s;
      var contains := el in hmap;
      if contains && flags.nx { return Ok(false); }
      if !contains && flags.xx { return Ok(false); }
      if contains {
        var val := hmap[el];
        if flags.ch && !flags.incr && val == s { return Ok(false); }
        if flags.incr { score := Add(score, val); }
        if score == NaN && !flags.zeroOnNan { return NotANumber; }
        Unlisted(skiplist, hmap, lost, el);
        skiplist := Remove(skiplist, Member(val, el, false));
      }
      if score == NaN {
        if flags.zeroOnNan {
          score := Finite(0.0);
        } else {
          return NotANumber;
        }
      }
      ListedAnew(skiplist, hmap, lost, el, score);
      skiplist := Insert(skiplist, Member(score, el, false));
      hmap, lost := hmap[el := score], lost - {el};
      return if flags.ch then Ok(true) else Ok(!contains);
    }

    /** A present member whose sum is NaN loses its list entry. */
    method Zincrby(increment: Score, member: Bytes) returns (r: Result<Score>)
      requires Valid()
      modifies this
      ensures Valid() && Contents() == Apply(old(Contents()), Incr(increment, member))
      ensures var sum := Add(if member in old(hmap) then old(hmap)[member] else Finite(0.0), increment);
        if sum == NaN then
          r == NotANumber && hmap == old(hmap) && lost == old(lost) + (if member in old(hmap) then {member} else {})
        else r == Ok(sum) && hmap == old(hmap)[member := sum] && lost == old(lost) - {member}
    {
      var val := Finite(0.0);
      if member in hmap {
        val := hmap[member];
        Unlisted(skiplist, hmap, lost, member);
        skiplist := Remove(skiplist, Member(val, member, false));
      }
      val := Add(val, increment);
      if val == NaN {
        if member in hmap { lost := lost + {member}; }
        return NotANumber;
      }
      ListedAnew(skiplist, hmap, lost, member, val);
      skiplist := Insert(skiplist, Member(val, member, false));
      hmap, lost := hmap[member := val], lost - {member};
      return Ok(val);
    }

    method Zrem(member: Bytes) returns (removed: bool)
      requires Valid()
      modifies this
      ensures Valid() && Contents() == Apply(old(Contents()), Rem(member))
      ensures hmap == old(hmap) - {member} && (removed <==> member in old(hmap))
    {
      if member !in hmap {
        assert hmap - {member} == hmap && lost - {member} == lost;
        return false;
      }
      Unlisted(skiplist, hmap, lost, member);
      var score := hmap[member];
      hmap, lost := hmap - {member}, lost - {member};
      skiplist := Remove(skiplist, Member(score, member, false));
      return true;
    }

    function Zcount(min: Bound<Score>, max: Bound<Score>): nat
      reads this
    {
      |RangeByScore(skiplist, min, max)|
    }

    function Zlexcount(min: Bound<Bytes>, max: Bound<Bytes>): nat
      reads this
    {
      |RangeByLex(skiplist, min, max)|
    }

    /** The loop that the three range removals share: one position, `count` times. */
    method RemoveBlock(pos: nat, count: nat)
      requires Valid() && pos + count <= |skiplist|
      modifies this
      ensures Valid() && lost == old(lost)
      ensures skiplist == old(skiplist)[..pos] + old(skiplist)[pos + count..]
      ensures hmap == old(hmap) - Names(old(skiplist)[pos..pos + count])
    {
      ghost var list := skiplist;
      for i := 0 to count
        invariant Valid() && lost == old(lost) && skiplist == list[..pos] + list[pos + i..]
        invariant hmap == old(hmap) - Names(list[pos..pos + i])
      {
        var el := skiplist[pos];
        BlockLeaves(skiplist, hmap, lost, pos);
        skiplist := RemoveIndex(skiplist, pos);
        OneMoreName(list, pos, i, old(hmap));
        hmap := hmap - {el.s};
      }
    }

    method Zremrangebyscore(min: Bound<Score>, max: Bound<Score>) returns (count: nat)
      requires Valid() && Proper(min) && Proper(max)
      modifies this
      ensures Valid() && lost == old(lost)
      ensures skiplist == OutsideScores(old(skiplist), min, max)
      ensures hmap == old(hmap) - Names(InsideScores(old(skiplist), min, max))
      ensures count == |old(skiplist)| - |skiplist|
    {
      var pos := match min
        case Included(s) => Zcount(Unbounded, Excluded(s))
        case Excluded(s) => Zcount(Unbounded, Included(s))
        case Unbounded => 0;
      count := Zcount(min, max);
      ScoreBlock(skiplist, min, max, pos);
      RemoveBlock(pos, count);
    }

    method Zremrangebylex(min: Bound<Bytes>, max: Bound<Bytes>) returns (count: nat)
      requires Valid()
      modifies this
      ensures Valid() && lost == old(lost)
      ensures old(skiplist) == [] ==> skiplist == [] && hmap == old(hmap) && count == 0
      ensures old(skiplist) != [] ==>
                var f := old(skiplist)[0].f;
                && skiplist == OutsideLex(old(skiplist), f, min, max)
                && hmap == old(hmap) - Names(InsideLex(old(skiplist), f, min, max))
                && count == |old(skiplist)| - |skiplist|
    {
      var pos := match min
        case Included(s) => Zlexcount(Unbounded, Excluded(s))
        case Excluded(s) => Zlexcount(Unbounded, Included(s))
        case Unbounded => 0;
      count := Zlexcount(min, max);
      if skiplist != [] {
        LexBlock(skiplist, min, max, pos);
        RemoveBlock(pos, count);
      }
    }

    /** `normalize_range`. */
    method Normalized(p: Profile, start: I64, stop: I64, rev: bool) returns (r: Outcome<(Usize, Usize)>)
      requires |skiplist| <= I64_MAX
      ensures r.Panic? <==> RangeOverflows(p, |skiplist|, start, stop, rev)
      ensures r.Done? && !rev ==> NamesWindow(r.value, |skiplist|, start, stop)
      ensures r.Done? && rev ==> NamesWindow(r.value, |skiplist|, 0 - stop - 1, 0 - start - 1)
    {
      NormalizeRangeMeaning(p, |skiplist|, start, stop, rev);
      return NormalizeRange(p, |skiplist|, start, stop, rev);
    }

    method Zremrangebyrank(p: Profile, start: I64, stop: I64) returns (count: Outcome<nat>)
      requires Valid() && |skiplist| <= I64_MAX
      modifies this
      ensures Valid() && lost == old(lost)
      ensures count == if RangeOverflows(p, |old(skiplist)|, start, stop, false) then Panic
                       else Done(|Window(old(skiplist), start, stop)|)
      ensures count.Panic? ==> skiplist == old(skiplist) && hmap == old(hmap)
      ensures count.Done? ==> skiplist == OutsideWindow(old(skiplist), start, stop)
      ensures count.Done? ==> hmap == old(hmap) - Names(Window(old(skiplist), start, stop))
    {
      var pair := Normalized(p, start, stop, false);
      if pair.Panic? { return Panic; }
      var n := RemovePair(pair.value.0, pair.value.1, start, stop);
      return Done(n);
    }

    /** The rest of it, once the range is known; an empty set gives a count that wraps round to 0. */
    method RemovePair(first: Usize, last: Usize, ghost start: I64, ghost stop: I64) returns (n: nat)
      requires Valid() && |skiplist| <= I64_MAX && NamesWindow((first, last), |skiplist|, start, stop)
      modifies this
      ensures Valid() && lost == old(lost) && n == |Window(old(skiplist), start, stop)|
      ensures skiplist == OutsideWindow(old(skiplist), start, stop)
      ensures hmap == old(hmap) - Names(Window(old(skiplist), start, stop))
    {
      ghost var gone, kept := Window(skiplist, start, stop), OutsideWindow(skiplist, start, stop);
      RankBlock(skiplist, start, stop, first, last);
      if last < first {
        assert Names(gone) == {};
        return 0;
      }
      n := WrapUsize(last - first + 1);
      assert |gone| == n;
      RemoveBlock(first, n);
      assert skiplist == kept && hmap == old(hmap) - Names(gone);
    }

    /** Reverse order is forward order on the reversed list, each score after its member. */
    method Zrange(p: Profile, start: I64, stop: I64, withscores: bool, rev: bool, fmt: Score -> Bytes)
      returns (r: Outcome<seq<Bytes>>)
      requires Valid() && |skiplist| <= I64_MAX
      ensures r == if RangeOverflows(p, |skiplist|, start, stop, rev) || (skiplist == [] && start < 0 <= stop)
                   then Panic
                   else Done(Render(Shown(skiplist, start, stop, rev), withscores, fmt))
      ensures r.Done? ==> RepliesWindow(r.value, skiplist, start, stop, rev, withscores, fmt)
    {
      ShownMeaning(skiplist, start, stop, rev, withscores, fmt);
      var pair := Normalized(p, start, stop, rev);
      if pair.Panic? { return Panic; }
      var first: nat, last: nat := pair.value.0, pair.value.1;
      ShownWindow(skiplist, start, stop, rev, first, last);
      if last < first { return Done([]); }
      if first >= |skiplist| { return Panic; }
      RangeBetween(skiplist, first, last);
      var shown := Take(Range(skiplist, Included(skiplist[first]), Unbounded), last - first + 1);
      var reply;
      if rev {
        reply := RenderReversed(shown, withscores, fmt);
      } else {
        reply := RenderForwards(shown, withscores, fmt);
      }
      return Done(reply);
    }

    /** For a lost member the subtraction may underflow, and otherwise the rank is another's. */
    function Zrank(p: Profile, el: Bytes): (r: Outcome<Option<Usize>>)
      requires Valid() && |skiplist| <= I64_MAX
      reads this
      ensures r == Done(None) <==> el !in hmap
      ensures el in hmap && el !in lost ==>
        r.Done? && r.value.Some? && r.value.value < |skiplist| && skiplist[r.value.value] == MemberOf(hmap, el)
      ensures el in lost ==> RankOfLost(p, skiplist, MemberOf(hmap, el), r)
      ensures r.Panic? <==>
        p.Debug? && el in lost && (skiplist == [] || PartialCmp(skiplist[0], MemberOf(hmap, el)) != Less)
    {
      RankMeaning(p, skiplist, hmap, lost, el);
      RankIn(p, skiplist, hmap, el)
    }

    method RangeReply(p: Profile, m1: Bound<Member>, m2: Bound<Member>, withscores: bool,
                      offset: Usize, count: Usize, rev: bool, fmt: Score -> Bytes)
      returns (r: Outcome<seq<Bytes>>)
      requires |skiplist| <= I64_MAX
      ensures r == if rev && p.Debug? && offset + count >= USIZE_LIMIT then Panic
                   else Done(Render(Page(Range(skiplist, m1, m2), offset, count, rev), withscores, fmt))
      ensures r.Done? ==> RepliesPage(r.value, Range(skiplist, m1, m2), offset, count, rev, withscores, fmt)
    {
      var selected := Range(skiplist, m1, m2);
      ghost var inside := selected;
      FilterShrinks(skiplist, x => AboveMin(x, m1) && BelowMax(x, m2));
      var c: nat := count;
      if rev {
        var len := |skiplist|;
        var end := UsizeResult(p, 0 + count + offset);
        if end.Panic? { return Panic; }
        if end.value > len {
          c := if len > offset then len - offset else 0;
        }
        selected := Reverse(selected);
      }
      var shown := Take(Skip(selected, offset), c);
      ShortenedPage(inside, selected, |skiplist|, offset, count, c, rev);
      var reply := RenderForwards(shown, withscores, fmt);
      PageMeaning(inside, offset, count, rev, withscores, fmt);
      return Done(reply);
    }

    method Zrangebyscore(p: Profile, from: Bound<Score>, to: Bound<Score>, withscores: bool,
                         offset: Usize, count: Usize, rev: bool, fmt: Score -> Bytes)
      returns (r: Outcome<seq<Bytes>>)
      requires Valid() && |skiplist| <= I64_MAX && Proper(from) && Proper(to)
      ensures r == if rev && p.Debug? && offset + count >= USIZE_LIMIT then Panic
                   else
                     var inside := if rev then InsideScores(skiplist, to, from) else InsideScores(skiplist, from, to);
                     Done(Render(Page(inside, offset, count, rev), withscores, fmt))
      ensures r.Done? ==>
        RepliesPage(r.value, if rev then InsideScores(skiplist, to, from) else InsideScores(skiplist, from, to),
                    offset, count, rev, withscores, fmt)
    {
      var min, max := if rev then to else from, if rev then from else to;
      RangeByScoreExact(skiplist, min, max);
      r := RangeReply(p, ScoreMin(min), ScoreMax(max), withscores, offset, count, rev, fmt);
    }

    /** On an empty set there is no first member to take the score from. */
    method Zrangebylex(p: Profile, from: Bound<Bytes>, to: Bound<Bytes>,
                       offset: Usize, count: Usize, rev: bool, fmt: Score -> Bytes)
      returns (r: Outcome<seq<Bytes>>)
      requires Valid() && |skiplist| <= I64_MAX
      ensures r == if skiplist == [] || (rev && p.Debug? && offset + count >= USIZE_LIMIT) then Panic
                   else
                     var f := skiplist[0].f;
                     var inside := if rev then InsideLex(skiplist, f, to, from) else InsideLex(skiplist, f, from, to);
                     Done(Render(Page(inside, offset, count, rev), false, fmt))
      ensures r.Done? ==>
        RepliesPage(r.value, if rev then InsideLex(skiplist, skiplist[0].f, to, from)
                             else InsideLex(skiplist, skiplist[0].f, from, to), offset, count, rev, false, fmt)
    {
      if skiplist == [] { return Panic; }
      var f := skiplist[0].f;
      var min, max := if rev then to else from, if rev then from else to;
      RangeByLexExact(skiplist, min, max);
      r := RangeReply(p, LexEnd(f, min), LexEnd(f, max), false, offset, count, rev, fmt);
    }

    method Zunion(zsets: seq<ScoreMap>, weights: Option<seq<Score>>, aggregate: Aggregate)
      requires Valid() && (weights.Some? ==> |weights.value| == |zsets|)
      modifies this
      ensures Valid() && lost <= old(lost)
      ensures forall k :: Lookup(hmap, k)
                       == UnionFold(aggregate, Lookup(old(hmap), k), Weighted(zsets, weights, k))
      ensures old(hmap) == map[] && FiniteInputs(zsets, weights) ==>
        && (forall k :: k in hmap <==> exists i: nat :: i < |zsets| && k in zsets[i])
        && (forall k | k in hmap :: Aggregates(aggregate, zsets, weights, k, hmap[k]))
    {
      for i := 0 to |zsets|
        invariant Valid() && lost <= old(lost)
        invariant forall k :: Lookup(hmap, k)
                           == UnionFold(aggregate, Lookup(old(hmap), k), Weighted(zsets[..i], weights, k))
      {
        ghost var before := hmap;
        UnionOne(zsets[i], Weight(weights, i), aggregate);
        forall k
          ensures Lookup(hmap, k) == UnionFold(aggregate, Lookup(old(hmap), k), Weighted(zsets[..i + 1], weights, k))
        {
          UnionFoldStep(zsets, weights, aggregate, Lookup(old(hmap), k), k, i);
          assert Lookup(before, k) == UnionFold(aggregate, Lookup(old(hmap), k), Weighted(zsets[..i], weights, k));
        }
      }
      assert zsets[..|zsets|] == zsets;
      if old(hmap) == map[] && FiniteInputs(zsets, weights) {
        UnionIntoEmpty(hmap, zsets, weights, aggregate);
      }
    }

    /** One operand, its members in any order. */
    method UnionOne(hm: ScoreMap, weight: Score, aggregate: Aggregate)
      requires Valid()
      modifies this
      ensures Valid() && lost <= old(lost)
      ensures forall k :: Lookup(hmap, k)
                       == if k in hm then UnionStep(aggregate, Lookup(old(hmap), k), Mul(weight, hm[k]))
                          else Lookup(old(hmap), k)
    {
      var rest := hm.Keys;
      while rest != {}
        invariant Valid() && lost <= old(lost) && rest <= hm.Keys
        invariant forall k :: Lookup(hmap, k)
                           == if k in hm && k !in rest then
                                UnionStep(aggregate, Lookup(old(hmap), k), Mul(weight, hm[k]))
                              else Lookup(old(hmap), k)
      {
        var k :| k in rest;
        assert Lookup(hmap, k) == Lookup(old(hmap), k);
        UnionMember(k, Mul(weight, hm[k]), aggregate);
        rest := rest - {k};
      }
    }

    method UnionMember(k: Bytes, x: Score, aggregate: Aggregate)
      requires Valid()
      modifies this
      ensures Valid() && lost <= old(lost)
      ensures forall j :: Lookup(hmap, j) == if j == k then UnionStep(aggregate, Lookup(old(hmap), k), x)
                                             else Lookup(old(hmap), j)
    {
      match aggregate {
        case Sum =>
          var _ := Zadd(x, k, Flags(false, false, false, true, true));
        case Max =>
          var s := if k in hmap then hmap[k] else NegInf;
          if Lt(s, x) {
            var _ := Zadd(x, k, Flags(false, false, false, false, true));
          }
        case Min =>
          var s := if k in hmap then hmap[k] else PosInf;
          if Lt(x, s) {
            var _ := Zadd(x, k, Flags(false, false, false, false, true));
          }
      }
    }

    method Zinter(zsets: seq<ScoreMap>, weights: Option<seq<Score>>, aggregate: Aggregate)
      requires Valid() && (weights.Some? ==> |weights.value| == |zsets|)
      modifies this
      ensures Valid() && lost <= old(lost)
      ensures forall k :: Lookup(hmap, k) == if zsets != [] && InAll(zsets, k)
                                             then Some(InterScore(zsets, weights, aggregate, k))
                                             else Lookup(old(hmap), k)
      ensures old(hmap) == map[] && FiniteInputs(zsets, weights) ==>
        && (forall k :: k in hmap <==> zsets != [] && forall i: nat :: i < |zsets| ==> k in zsets[i])
        && (forall k | k in hmap :: Aggregates(aggregate, zsets, weights, k, hmap[k]))
    {
      if zsets == [] { return; }
      var intersected := zsets[0].Keys;
      for i := 1 to |zsets|
        invariant forall k :: k in intersected <==> InAll(zsets[..i], k)
      {
        intersected := intersected * zsets[i].Keys;
        assert zsets[..i + 1] == zsets[..i] + [zsets[i]];
      }
      assert zsets[..|zsets|] == zsets;
      var rest := intersected;
      while rest != {}
        invariant Valid() && lost <= old(lost) && rest <= intersected
        invariant forall k :: Lookup(hmap, k) == if k in intersected && k !in rest
                                                 then Some(InterScore(zsets, weights, aggregate, k))
                                                 else Lookup(old(hmap), k)
      {
        var k :| k in rest;
        var score := ComputeInterScore(zsets, weights, aggregate, k);
        var _ := Zadd(score, k, Flags(false, false, false, false, true));
        rest := rest - {k};
      }
      if old(hmap) == map[] && FiniteInputs(zsets, weights) {
        InterIntoEmpty(hmap, zsets, weights, aggregate);
      }
    }
  }

  method ComputeInterScore(zsets: seq<ScoreMap>, weights: Option<seq<Score>>, aggregate: Aggregate, k: Bytes)
    returns (score: Score)
    requires zsets != [] && InAll(zsets, k) && (weights.Some? ==> |weights.value| == |zsets|)
    ensures ZeroOnNan(score) == InterScore(zsets, weights, aggregate, k)
  {
    ghost var xs := Weighted(zsets, weights, k);
    WeightedInAll(zsets, weights, k, 0);
    score := Mul(Weight(weights, 0), zsets[0][k]);
    assert xs[..1] == [score];
    for i := 1 to |zsets|
      invariant score == InterFold(aggregate, xs[..i])
    {
      WeightedInAll(zsets, weights, k, i);
      assert xs[..i + 1][..i] == xs[..i];
      score := InterStep(aggregate, score, Mul(Weight(weights, i), zsets[i][k]));
    }
    assert xs[..|zsets|] == xs;
  }

  /** In reverse a count that reaches past the list is cut short first, which changes nothing. */
  lemma ShortenedPage(inside: seq<Member>, selected: seq<Member>, len: nat, offset: nat, count: nat, c: nat, rev: bool)
    requires |inside| <= len && selected == if rev then Reverse(inside) else inside
    requires c == count || (count + offset > len && c == if len > offset then len - offset else 0)
    ensures Take(Skip(selected, offset), c) == Page(inside, offset, count, rev)
  {
  }

  /** The loop that turns members into a reply. */
  method RenderForwards(shown: seq<Member>, withscores: bool, fmt: Score -> Bytes) returns (r: seq<Bytes>)
    ensures r == Render(shown, withscores, fmt)
  {
    r := [];
    for i := 0 to |shown|
      invariant r == Render(shown[..i], withscores, fmt)
    {
      assert shown[..i + 1][..i] == shown[..i];
      r := r + [shown[i].s];
      if withscores { r := r + [fmt(shown[i].f)]; }
    }
    assert shown[..|shown|] == shown;
  }

  /** The reverse order pushes each score before its member and turns the reply round. */
  method RenderReversed(shown: seq<Member>, withscores: bool, fmt: Score -> Bytes) returns (r: seq<Bytes>)
    ensures r == Render(Reverse(shown), withscores, fmt)
  {
    r := [];
    for i := 0 to |shown|
      invariant r == Reverse(Render(Reverse(shown[..i]), withscores, fmt))
    {
      RenderBackwards(shown[..i], shown[i], withscores, fmt);
      assert shown[..i + 1] == shown[..i] + [shown[i]];
      if withscores { r := r + [fmt(shown[i].f)]; }
      r := r + [shown[i].s];
    }
    assert shown[..|shown|] == shown;
    r := Reverse(r);
  }

  /** The block that goes when the pair is in order; a count that wraps round is 0. */
  lemma RankBlock(list: seq<Member>, start: int, stop: int, first: nat, last: nat)
    requires first < USIZE_LIMIT && last < USIZE_LIMIT && |list| <= I64_MAX
    requires NamesWindow((first, last), |list|, start, stop)
    ensures last < first ==> OutsideWindow(list, start, stop) == list && Window(list, start, stop) == []
    ensures first <= last ==> var n := WrapUsize(last - first + 1);
              first + n <= |list| && Window(list, start, stop) == list[first..first + n]
              && OutsideWindow(list, start, stop) == list[..first] + list[first + n..]
  {
    var n := WrapUsize(last - first + 1);
    if list == [] {
      assert first <= last ==> n == 0;
    } else if First(start, |list|) <= Last(stop, |list|) {
      assert n == last - first + 1;
      assert Window(list, start, stop) == list[first..last + 1];
    }
  }

  /** The members that ZRANGE, or ZREVRANGE, is asked for. */
  function Shown(list: seq<Member>, start: int, stop: int, rev: bool): seq<Member> {
    Window(if rev then Reverse(list) else list, start, stop)
  }

  lemma ShownWindow(list: seq<Member>, start: int, stop: int, rev: bool, first: nat, last: nat)
    requires first < USIZE_LIMIT && last < USIZE_LIMIT
    requires if rev then NamesWindow((first, last), |list|, 0 - stop - 1, 0 - start - 1)
             else NamesWindow((first, last), |list|, start, stop)
    ensures var shown := Shown(list, start, stop, rev);
      if list == [] && start < 0 <= stop then first <= last
      else if last < first then shown == []
      else last < |list| && shown == if rev then Reverse(list[first..last + 1]) else list[first..last + 1]
  {
    if rev {
      WindowReverse(list, start, stop);
    }
  }

  /** The window by position. */
  lemma ShownMeaning(list: seq<Member>, start: int, stop: int, rev: bool, withscores: bool, fmt: Score -> Bytes)
    ensures RepliesWindow(Render(Shown(list, start, stop, rev), withscores, fmt), list, start, stop, rev,
                          withscores, fmt)
  {
    var order := if rev then Reverse(list) else list;
    WindowReply(list, order, start, stop, rev, withscores, fmt);
  }

  lemma {:induction false} FilterShrinks<T>(s: seq<T>, p: T -> bool)
    ensures |Filter(s, p)| <= |s|
  {
    if s != [] {
      FilterShrinks(s[1..], p);
    }
  }

  lemma OneMoreName(list: seq<Member>, pos: nat, i: nat, hmap: ScoreMap)
    requires pos + i < |list|
    ensures hmap - Names(list[pos..pos + i + 1]) == hmap - Names(list[pos..pos + i]) - {list[pos + i].s}
    ensures RemoveIndex(list[..pos] + list[pos + i..], pos) == list[..pos] + list[pos + i + 1..]
    ensures (list[..pos] + list[pos + i..])[pos] == list[pos + i]
  {
    assert list[pos..pos + i + 1] == list[pos..pos + i] + [list[pos + i]];
    assert Names(list[pos..pos + i + 1]) == Names(list[pos..pos + i]) + {list[pos + i].s};
  }

  /** Putting `el` back after it was taken out, if it was there. */
  lemma ListedAnew(list: seq<Member>, hmap: ScoreMap, lost: set<Bytes>, el: Bytes, score: Score)
    requires if el in hmap then InStepBut(list, hmap - {el}, lost - {el}) else InStepBut(list, hmap, lost)
    requires score != NaN
    ensures InStepBut(Insert(list, Member(score, el, false)), hmap[el := score], lost - {el})
  {
    if el !in hmap {
      assert hmap - {el} == hmap && lost - {el} == lost;
    }
    Listed(list, hmap, lost, el, score);
  }

  /** Rank and position are inverse to each other, for the members that are not lost. */
  lemma RankIsPosition(p: Profile, z: SortedSet, el: Bytes, i: nat)
    requires z.Valid() && i < |z.skiplist| <= I64_MAX && el !in z.lost
    ensures z.Zrank(p, el) == Done(Some(i)) <==> z.skiplist[i].s == el
    ensures z.Zrank(p, el) == Done(Some(i)) <==> Window(z.skiplist, i, i) == [Member(z.skiplist[i].f, el, false)]
  {
    LostAreUnlisted(z.skiplist, z.hmap, z.lost);
    SortedDistinct(z.skiplist);
    assert z.skiplist[i] in z.skiplist;
  }

  /** The rank that a lost member is given is never its own. */
  lemma LostRankIsAnothers(p: Profile, z: SortedSet, el: Bytes, i: nat)
    requires z.Valid() && i < |z.skiplist| <= I64_MAX && el in z.lost
    ensures z.Zrank(p, el) == Done(Some(i)) <==>
      PartialCmp(z.skiplist[i], MemberOf(z.hmap, el)) == Less
      && (i + 1 < |z.skiplist| ==> PartialCmp(z.skiplist[i + 1], MemberOf(z.hmap, el)) != Less)
    ensures z.skiplist[i].s != el
  {
    LostAreUnlisted(z.skiplist, z.hmap, z.lost);
    assert z.skiplist[i] in z.skiplist;
  }

  /** What the range removals leave of the hash map: everything outside the interval, and the lost
      members. */
  lemma MapOutsideScores(list: seq<Member>, hmap: ScoreMap, lost: set<Bytes>, min: Bound<Score>, max: Bound<Score>)
    requires InStepBut(list, hmap, lost)
    ensures hmap - Names(InsideScores(list, min, max))
      == map k | k in hmap && (k in lost || !InScores(MemberOf(hmap, k), min, max)) :: hmap[k]
  {
    MapFollowsFilter(list, hmap, lost, x => InScores(x, min, max));
  }

  lemma MapOutsideLex(list: seq<Member>, hmap: ScoreMap, lost: set<Bytes>, f: Score,
                      min: Bound<Bytes>, max: Bound<Bytes>)
    requires InStepBut(list, hmap, lost)
    ensures hmap - Names(InsideLex(list, f, min, max))
      == map k | k in hmap && (k in lost || !InLex(MemberOf(hmap, k), f, min, max)) :: hmap[k]
  {
    MapFollowsFilter(list, hmap, lost, x => InLex(x, f, min, max));
  }
}
