/** database/src/list.rs: a double-ended list of byte strings. */
module ListValue {
  import opened Machine
  import opened ByteStrings
  import opened Sequences
  import opened DbUtil

  function Occurrences(s: seq<Bytes>, x: Bytes): nat {
    if s == [] then 0 else (if s[0] == x then 1 else 0) + Occurrences(s[1..], x)
  }

  function Without(s: seq<Bytes>, x: Bytes): seq<Bytes> {
    Filter(s, y => y != x)
  }

  /** How many occurrences may go; 0 stands for all of them. */
  function Quota(s: seq<Bytes>, limit: nat): nat {
    if limit == 0 then |s| else limit
  }

  /** `s` after giving up to `quota` occurrences of `x`, from the front on. */
  function RemoveLeft(s: seq<Bytes>, x: Bytes, quota: nat): (r: seq<Bytes>)
    ensures |r| <= |s|
  {
    if s == [] || quota == 0 then s
    else if s[0] == x then RemoveLeft(s[1..], x, quota - 1)
    else [s[0]] + RemoveLeft(s[1..], x, quota)
  }

  /** The same from the back on. */
  function RemoveRight(s: seq<Bytes>, x: Bytes, quota: nat): seq<Bytes> {
    Reverse(RemoveLeft(Reverse(s), x, quota))
  }

  /** `after` is `before` with every `x` of a prefix taken out, and nothing else. */
  ghost predicate CutPrefix(before: seq<Bytes>, after: seq<Bytes>, x: Bytes, removed: nat, p: nat)
    requires p <= |before|
  {
    after == Without(before[..p], x) + before[p..] && removed == Occurrences(before[..p], x)
  }

  /** Exactly the first `quota` occurrences go, all of them if there are fewer; what is left
      keeps its order. */
  lemma {:induction false} RemoveLeftMeaning(s: seq<Bytes>, x: Bytes, quota: nat) returns (p: nat)
    ensures p <= |s|
    ensures CutPrefix(s, RemoveLeft(s, x, quota), x, |s| - |RemoveLeft(s, x, quota)|, p)
    ensures |s| - |RemoveLeft(s, x, quota)|
         == if quota <= Occurrences(s, x) then quota else Occurrences(s, x)
    ensures quota > Occurrences(s, x) ==> p == |s|
  {
    if s == [] || quota == 0 {
      p := 0;
    } else {
      var q := RemoveLeftMeaning(s[1..], x, if s[0] == x then quota - 1 else quota);
      p := q + 1;
      assert s[..p] == [s[0]] + s[1..][..q] && s[p..] == s[1..][q..];
    }
  }

  /** Moving the front element over, or dropping it against the quota, changes nothing. */
  lemma RemoveLeftStep(kept: seq<Bytes>, s: seq<Bytes>, x: Bytes, quota: nat)
    requires s != [] && quota > 0
    ensures s[0] != x ==> kept + [s[0]] + RemoveLeft(s[1..], x, quota) == kept + RemoveLeft(s, x, quota)
    ensures s[0] == x ==> RemoveLeft(s[1..], x, quota - 1) == RemoveLeft(s, x, quota)
  {
  }

  /** A limit of 0 leaves no occurrence. */
  lemma RemoveAll(s: seq<Bytes>, x: Bytes)
    ensures RemoveLeft(s, x, Quota(s, 0)) == Without(s, x)
  {
    RemoveLeftAll(s, x, |s|);
  }

  /** How many occurrences go: all for a limit of 0, and otherwise no more than the limit. */
  lemma RemovedCount(s: seq<Bytes>, x: Bytes, limit: nat)
    ensures |s| - |RemoveLeft(s, x, Quota(s, limit))|
      == if limit == 0 || Occurrences(s, x) <= limit then Occurrences(s, x) else limit
  {
    var _ := RemoveLeftMeaning(s, x, Quota(s, limit));
    OccurrencesFit(s, x);
  }

  lemma {:induction false} OccurrencesFit(s: seq<Bytes>, x: Bytes)
    ensures Occurrences(s, x) <= |s|
  {
    if s != [] {
      OccurrencesFit(s[1..], x);
    }
  }

  lemma {:induction false} RemoveLeftAll(s: seq<Bytes>, x: Bytes, quota: nat)
    requires quota >= |s|
    ensures RemoveLeft(s, x, quota) == Without(s, x)
  {
    if s == [] {
    } else if s[0] == x {
      RemoveLeftAll(s[1..], x, quota - 1);
    } else {
      RemoveLeftAll(s[1..], x, quota);
    }
  }

  /** The named positions lie inside the list, the wrong way round. */
  predicate Crossed(len: nat, start: int, stop: int) {
    0 <= Absolute(stop, len) < Absolute(start, len) < len
  }

  /** What LRANGE answers: the window, but a crossed request unwinds or runs to the end. */
  function Ranged(p: Profile, s: seq<Bytes>, start: int, stop: int): Outcome<seq<Bytes>> {
    if !Crossed(|s|, start, stop) then Done(Window(s, start, stop))
    else if p.Debug? then Panic
    else if Absolute(start, |s|) == Absolute(stop, |s|) + 1 then Done([])
    else Done(s[Absolute(start, |s|)..])
  }

  lemma RangedBySkipTake(p: Profile, s: seq<Bytes>, start: int, stop: int, first: nat, last: nat, count: nat)
    requires |s| <= I64_MAX && (first < |s| || first == 0) && Absolute(stop, |s|) >= 0
    requires first == First(start, |s|) && last == if Absolute(stop, |s|) < |s| then Absolute(stop, |s|) else |s|
    requires Crossed(|s|, start, stop) ==> p.Release?
    requires count == WrapUsize(WrapUsize(last - first) + 1)
    ensures Done(Take(Skip(s, first), count)) == Ranged(p, s, start, stop)
  {
    TakeAfterSkip(s, first, count);
    if first <= last {
      assert count == last - first + 1 && first + count == last + 1;
      assert !Crossed(|s|, start, stop);
      assert Take(Skip(s, first), count) == Window(s, start, stop);
    } else if first == last + 1 {
      assert count == 0;
    } else {
      assert count > |s|;
    }
  }

  /** LRANGE answers the window exactly for requests that are not crossed, or crossed by one
      position in a Release build. */
  lemma RangedIsWindow(p: Profile, s: seq<Bytes>, start: int, stop: int)
    ensures Ranged(p, s, start, stop) == Done(Window(s, start, stop))
       <==> !(Crossed(|s|, start, stop) && (p.Debug? || Absolute(start, |s|) > Absolute(stop, |s|) + 1))
  {
    if Crossed(|s|, start, stop) {
      assert Window(s, start, stop) == [];
      assert |s[Absolute(start, |s|)..]| > 0;
    }
  }

  /** LRANGE k 2 0 on three elements answers the last one in a release build. */
  lemma CrossedRangeAnswers(a: Bytes, b: Bytes, c: Bytes)
    ensures Window([a, b, c], 2, 0) == []
    ensures Ranged(Debug, [a, b, c], 2, 0) == Panic && Ranged(Release, [a, b, c], 2, 0) == Done([c])
  {
  }

  /** LTRIM k 2 0 on three elements unwinds, with one element left. */
  lemma CrossedTrimPanics(p: Profile, a: Bytes, b: Bytes, c: Bytes)
    ensures TrimPanics(p, 3, 2, 0) && Window([a, b, c], 0, 0) == [a]
  {
  }

  predicate TrimPanics(p: Profile, len: nat, start: int, stop: int) {
    (p.Debug? && len == 0 && start < 0 <= stop) ||
    (Crossed(len, start, stop) && Absolute(start, len) > Absolute(stop, len) + 1)
  }

  /** Cutting at `end` and then at `first` leaves the window. */
  lemma TrimmedWindow(s: seq<Bytes>, start: int, stop: int, first: nat, end: nat)
    requires Absolute(stop, |s|) >= 0 && first == First(start, |s|) && (first < |s| || s == [])
    requires end == if s == [] then 0 else Last(stop, |s|) + 1
    ensures end <= |s| && s[..end] == Window(s, 0, stop)
    ensures first <= end ==> s[..end][first..] == Window(s, start, stop)
  {
  }

  /** `after` has `newvalue` next to the first `pivot`, which is at position `p`. */
  ghost predicate InsertedAt(s: seq<Bytes>, after: seq<Bytes>, before: bool, pivot: Bytes, newvalue: Bytes, p: nat) {
    p < |s| && s[p] == pivot && pivot !in s[..p] &&
    after == if before then s[..p] + [newvalue] + s[p..] else s[..p + 1] + [newvalue] + s[p + 1..]
  }

  class ValueList {
    var list: seq<Bytes>

    constructor ()
      ensures list == []
    {
      list := [];
    }

    method Push(el: Bytes, right: bool)
      modifies this
      ensures list == if right then old(list) + [el] else [el] + old(list)
    {
      list := if right then list + [el] else [el] + list;
    }

    method Pop(right: bool) returns (el: Option<Bytes>)
      modifies this
      ensures old(list) == [] ==> el == None && list == []
      ensures old(list) != [] ==> el.Some?
      ensures el.Some? ==> old(list) == if right then list + [el.value] else [el.value] + list
    {
      if list == [] { return None; }
      if right {
        el := Some(list[|list| - 1]);
        list := list[..|list| - 1];
      } else {
        el := Some(list[0]);
        list := list[1..];
      }
    }

    method Linsert(before: bool, pivot: Bytes, newvalue: Bytes) returns (len: Option<nat>)
      modifies this
      ensures len.None? <==> pivot !in old(list)
      ensures len.None? ==> list == old(list)
      ensures len.Some? ==> len.value == |list|
      ensures len.Some? ==> exists p :: InsertedAt(old(list), list, before, pivot, newvalue, p)
    {
      for p := 0 to |list|
        invariant pivot !in list[..p]
        invariant list == old(list)
      {
        if list[p] == pivot {
          var pos := if before then p else p + 1;
          var right := list[pos..];
          list := list[..pos] + [newvalue] + right;
          assert InsertedAt(old(list), list, before, pivot, newvalue, p);
          return Some(|list|);
        }
      }
      assert list[..|list|] == list;
      return None;
    }

    method Lrange(p: Profile, start: I64, stop: I64) returns (r: Outcome<seq<Bytes>>)
      requires |list| <= I64_MAX
      ensures r == Ranged(p, list, start, stop)
    {
      var len := |list|;
      var first: int, last: int := 0, 0;
      match NormalizePosition(start, len) {
        case At(i) => first := i;
        case Outside(above) => if above { return Done([]); }
      }
      match NormalizePosition(stop, len) {
        case At(i) => last := i;
        case Outside(above) => if !above { return Done([]); } last := len;
      }
      var span := UsizeResult(p, last - first);
      if span.Panic? { return Panic; }
      var distance: int := span.value;
      var count := UsizeResult(p, distance + 1);
      if count.Panic? { return Panic; }
      RangedBySkipTake(p, list, start, stop, first, last, count.value);
      return Done(Take(Skip(list, first), count.value));
    }

    /** Right unless the request is crossed by two or more positions; the list is cut short
        by then. */
    method Ltrim(p: Profile, start: I64, stop: I64) returns (r: Outcome<()>)
      requires |list| <= I64_MAX
      modifies this
      ensures r == Panic <==> TrimPanics(p, |old(list)|, start, stop)
      ensures r.Done? ==> list == Window(old(list), start, stop)
      ensures r.Panic? ==> list == Window(old(list), 0, stop)
    {
      var len := |list|;
      var first: int, last: int := 0, 0;
      match NormalizePosition(start, len) {
        case At(i) => first := i;
        case Outside(above) => if above { list := []; return Done(()); }
      }
      match NormalizePosition(stop, len) {
        case At(i) => last := i;
        case Outside(above) =>
          if !above { list := []; return Done(()); }
          var back := UsizeResult(p, len - 1);
          if back.Panic? { return Panic; }
          last := back.value;
      }
      TrimmedWindow(list, start, stop, first, WrapUsize(last + 1));
      list := list[..WrapUsize(last + 1)];
      if first > |list| { return Panic; }
      list := list[first..];
      return Done(());
    }

    method Lrem(left: bool, limit: nat, value: Bytes) returns (count: nat)
      modifies this
      ensures var q := Quota(old(list), limit);
        list == if left then RemoveLeft(old(list), value, q) else RemoveRight(old(list), value, q)
      ensures count == |old(list)| - |list|
    {
      if left {
        count := LremFront(limit, value);
      } else {
        count := LremBack(limit, value);
      }
    }

    method LremFront(limit: nat, value: Bytes) returns (count: nat)
      modifies this
      ensures list == RemoveLeft(old(list), value, Quota(old(list), limit))
      ensures count == |old(list)| - |list|
    {
      count := 0;
      var newlist := [];
      ghost var q := Quota(list, limit);
      while limit == 0 || count < limit
        invariant count + |list| + |newlist| == |old(list)|
        invariant limit == 0 || count <= limit
        invariant newlist + RemoveLeft(list, value, q - count) == RemoveLeft(old(list), value, q)
        decreases |list|
      {
        if list == [] { break; }
        var el := list[0];
        RemoveLeftStep(newlist, list, value, q - count);
        list := list[1..];
        if el != value {
          newlist := newlist + [el];
        } else {
          count := count + 1;
        }
      }
      list := newlist + list;
    }

    method LremBack(limit: nat, value: Bytes) returns (count: nat)
      modifies this
      ensures list == RemoveRight(old(list), value, Quota(old(list), limit))
      ensures count == |old(list)| - |list|
    {
      count := 0;
      var newlist := [];
      ghost var q, target := Quota(list, limit), RemoveLeft(Reverse(list), value, Quota(list, limit));
      while limit == 0 || count < limit
        invariant count + |list| + |newlist| == |old(list)|
        invariant limit == 0 || count <= limit
        invariant Reverse(newlist) + RemoveLeft(Reverse(list), value, q - count) == target
        decreases |list|
      {
        if list == [] { break; }
        var el := list[|list| - 1];
        BackStep(newlist, list, value, q - count);
        list := list[..|list| - 1];
        if el != value {
          newlist := [el] + newlist;
        } else {
          count := count + 1;
        }
      }
      ReverseConcat(newlist, list);
      list := list + newlist;
    }
  }

  lemma ReverseFirst<T>(el: T, s: seq<T>)
    ensures Reverse([el] + s) == Reverse(s) + [el]
  {
  }

  /** The step of `RemoveLeftStep` seen from the back. */
  lemma BackStep(kept: seq<Bytes>, s: seq<Bytes>, x: Bytes, quota: nat)
    requires s != [] && quota > 0
    ensures var el, front, all := s[|s| - 1], s[..|s| - 1], Reverse(kept) + RemoveLeft(Reverse(s), x, quota);
      && (el != x ==> Reverse([el] + kept) + RemoveLeft(Reverse(front), x, quota) == all)
      && (el == x ==> RemoveLeft(Reverse(front), x, quota - 1) == RemoveLeft(Reverse(s), x, quota))
  {
    var el, front := s[|s| - 1], Reverse(s[..|s| - 1]);
    ReverseLast(s);
    ReverseFirst(el, kept);
    assert Reverse(s)[1..] == front;
    RemoveLeftStep(Reverse(kept), Reverse(s), x, quota);
  }

  lemma ReverseConcat<T>(a: seq<T>, b: seq<T>)
    ensures Reverse(Reverse(a) + Reverse(b)) == b + a
  {
  }

  lemma ReverseLast<T>(s: seq<T>)
    requires s != []
    ensures Reverse(s) == [s[|s| - 1]] + Reverse(s[..|s| - 1])
  {
  }
}
