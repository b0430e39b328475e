/** The cursor protocol that SCAN, SSCAN and ZSCAN share: database/src/lib.rs, database/src/set.rs
    and database/src/zset.rs hold the same loop over the elements in iteration order.

    `keep` is the pattern, `render` what an element adds to the reply: itself, or for ZSCAN the
    member and its score. */
module Scan {
  import opened Machine
  import opened Sequences

  datatype Page<+T> = Page(next: Usize, elements: seq<T>)

  function Flatten<T, U>(s: seq<T>, render: T -> seq<U>): seq<U> {
    if s == [] then [] else render(s[0]) + Flatten(s[1..], render)
  }

  lemma Associative<T>(a: seq<T>, b: seq<T>, c: seq<T>)
    ensures a + (b + c) == (a + b) + c
  {
  }

  lemma {:induction false} FlattenConcat<T, U>(a: seq<T>, b: seq<T>, render: T -> seq<U>)
    ensures Flatten(a + b, render) == Flatten(a, render) + Flatten(b, render)
  {
    if a == [] {
      assert a + b == b;
    } else {
      FlattenConcat(a[1..], b, render);
      assert (a + b)[0] == a[0] && (a + b)[1..] == a[1..] + b;
      Associative(render(a[0]), Flatten(a[1..], render), Flatten(b, render));
    }
  }

  /** The matching elements, rendered. */
  function Matches<T, U>(s: seq<T>, keep: T -> bool, render: T -> seq<U>): seq<U> {
    Flatten(Filter(s, keep), render)
  }

  lemma MatchesConcat<T, U>(a: seq<T>, b: seq<T>, keep: T -> bool, render: T -> seq<U>)
    ensures Matches(a + b, keep, render) == Matches(a, keep, render) + Matches(b, keep, render)
  {
    FilterConcat(a, b, keep);
    FlattenConcat(Filter(a, keep), Filter(b, keep), render);
  }

  lemma MatchesSplit<T, U>(s: seq<T>, lo: nat, hi: nat, keep: T -> bool, render: T -> seq<U>)
    requires lo <= hi <= |s|
    ensures Matches(s[lo..], keep, render) == Matches(s[lo..hi], keep, render) + Matches(s[hi..], keep, render)
  {
    assert s[lo..] == s[lo..hi] + s[hi..];
    MatchesConcat(s[lo..hi], s[hi..], keep, render);
  }

  lemma MatchesNext<T, U>(s: seq<T>, lo: nat, hi: nat, keep: T -> bool, render: T -> seq<U>)
    requires lo <= hi < |s|
    ensures Matches(s[lo..hi + 1], keep, render)
      == Matches(s[lo..hi], keep, render) + if keep(s[hi]) then render(s[hi]) else []
  {
    var x := s[hi];
    assert s[lo..hi + 1] == s[lo..hi] + [x];
    MatchesConcat(s[lo..hi], [x], keep, render);
    assert [x][1..] == [];
    assert Filter([x], keep) == if keep(x) then [x] else [];
    assert Flatten([x], render) == render(x) + Flatten([], render) == render(x);
  }

  /** One call.  `cursor + count` is computed in usize. */
  function OnePage<T, U>(p: Profile, all: seq<T>, cursor: Usize, keep: T -> bool, render: T -> seq<U>, count: Usize)
    : Outcome<Page<U>>
    requires |all| <= I64_MAX
  {
    if cursor >= |all| then Done(Page(0, []))
    else
      match UsizeResult(p, cursor + count)
      case Panic => Panic
      case Done(sum) =>
        var end := if sum < |all| then sum else |all|;
        var elements := if cursor <= end then Matches(all[cursor..end], keep, render) else [];
        Done(Page(if end >= |all| then 0 else end, elements))
  }

  method Scan<T, U>(p: Profile, all: seq<T>, cursor: Usize, keep: T -> bool, render: T -> seq<U>, count: Usize)
    returns (page: Outcome<Page<U>>)
    requires |all| <= I64_MAX
    ensures page == OnePage(p, all, cursor, keep, render, count)
  {
    if cursor >= |all| { return Done(Page(0, [])); }
    var sum := UsizeResult(p, cursor + count);
    if sum.Panic? { return Panic; }
    var end: Usize := if sum.value < |all| then sum.value else |all|;
    var result := [];
    var i: Usize := cursor;
    while i < end
      invariant i == cursor || cursor <= i <= end
      invariant result == if cursor <= i <= end then Matches(all[cursor..i], keep, render) else []
    {
      if keep(all[i]) { result := result + render(all[i]); }
      MatchesNext(all, cursor, i, keep, render);
      i := i + 1;
    }
    return Done(Page(if end >= |all| then 0 else end, result));
  }

  /** The replies to following the cursors until one is 0, put together.  A cursor other than 0 comes
      from a page that ended inside the collection. */
  function Walk<T, U>(p: Profile, all: seq<T>, cursor: Usize, keep: T -> bool, render: T -> seq<U>, count: Usize)
    : seq<U>
    requires 1 <= count && (cursor == 0 || count <= |all|)
    requires |all| <= I64_MAX
    decreases SaturatingSub(|all|, cursor)
  {
    var page := OnePage(p, all, cursor, keep, render, count).value;
    if page.next == 0 then page.elements
    else page.elements + Walk(p, all, page.next, keep, render, count)
  }

  /** A page is the matching elements up to the next cursor, or up to the end. */
  lemma PageElements<T, U>(p: Profile, all: seq<T>, cursor: Usize, keep: T -> bool, render: T -> seq<U>, count: Usize)
    requires 1 <= count && cursor + count < USIZE_LIMIT
    requires cursor < |all| <= I64_MAX
    ensures OnePage(p, all, cursor, keep, render, count)
      == Done(if cursor + count < |all| then Page(cursor + count, Matches(all[cursor..cursor + count], keep, render))
              else Page(0, Matches(all[cursor..], keep, render)))
  {
    assert all[cursor..|all|] == all[cursor..];
  }

  /** From any cursor inside, the pages are exactly the matching elements from there on. */
  lemma {:induction false} WalkIsTheRest<T, U>(p: Profile, all: seq<T>, cursor: Usize, keep: T -> bool,
                                               render: T -> seq<U>, count: Usize)
    requires 1 <= count && (cursor == 0 || count <= |all|)
    requires cursor < |all| <= I64_MAX
    ensures Walk(p, all, cursor, keep, render, count) == Matches(all[cursor..], keep, render)
    decreases |all| - cursor
  {
    PageElements(p, all, cursor, keep, render, count);
    var next: nat := cursor + count;
    if next < |all| {
      calc {
        Walk(p, all, cursor, keep, render, count);
        Matches(all[cursor..next], keep, render) + Walk(p, all, next, keep, render, count);
        { WalkIsTheRest(p, all, next, keep, render, count); }
        Matches(all[cursor..next], keep, render) + Matches(all[next..], keep, render);
        { MatchesSplit(all, cursor, next, keep, render); }
        Matches(all[cursor..], keep, render);
      }
    }
  }

  /** Following the cursors from 0 gives every matching element once, in iteration order. */
  lemma WalkIsComplete<T, U>(p: Profile, all: seq<T>, keep: T -> bool, render: T -> seq<U>, count: Usize)
    requires 1 <= count && |all| <= I64_MAX
    ensures Walk(p, all, 0, keep, render, count) == Matches(all, keep, render)
  {
    if all != [] {
      WalkIsTheRest(p, all, 0, keep, render, count);
      assert all[0..] == all;
    }
  }

  /** SCAN and SSCAN: whatever the iteration order, the pages list the matching elements of the
      collection, each once. */
  lemma WalkVisitsEachOnce<T>(p: Profile, order: seq<T>, s: set<T>, keep: T -> bool, count: Usize)
    requires Enumerates(order, s) && |order| <= I64_MAX
    requires 1 <= count
    ensures Enumerates(Walk(p, order, 0, keep, x => [x], count), set x | x in s && keep(x))
  {
    WalkIsComplete(p, order, keep, x => [x], count);
    FlattenSingles(Filter(order, keep), x => [x]);
    FilterMembers(order, keep);
    FilterDistinct(order, keep);
    assert forall x :: x in order <==> x in Elements(order);
  }

  lemma {:induction false} FlattenSingles<T>(s: seq<T>, render: T -> seq<T>)
    requires forall x :: x in s ==> render(x) == [x]
    ensures Flatten(s, render) == s
  {
    if s != [] {
      FlattenSingles(s[1..], render);
    }
  }

  lemma {:induction false} FilterDistinct<T>(s: seq<T>, keep: T -> bool)
    requires Distinct(s)
    ensures Distinct(Filter(s, keep))
  {
    if s != [] {
      FilterDistinct(s[1..], keep);
      FilterMembers(s[1..], keep);
    }
  }

  /** The COUNT argument as the commands read it: absent, it is 10. */
  function CountOf(arg: Option<I64>): Option<Usize> {
    match arg
    case None => Some(10)
    case Some(c) => if c < 0 then None else if c == 0 then Some(10) else Some(c)
  }

  /** No COUNT that the commands accept makes a page panic or the walk incomplete. */
  lemma AcceptedCountsComplete<T, U>(p: Profile, all: seq<T>, keep: T -> bool, render: T -> seq<U>, arg: Option<I64>)
    requires |all| <= I64_MAX
    requires CountOf(arg).Some?
    ensures var count := CountOf(arg).value;
      && (forall cursor: Usize :: OnePage(p, all, cursor, keep, render, count).Done?)
      && 1 <= count
      && Walk(p, all, 0, keep, render, count) == Matches(all, keep, render)
  {
    WalkIsComplete(p, all, keep, render, CountOf(arg).value);
  }

  /** `scan` itself takes a count of 0: its first page then ends the iteration, which is complete
      only if nothing matches. */
  lemma ZeroCountStops<T>(p: Profile, all: seq<T>, keep: T -> bool)
    requires |all| <= I64_MAX
    ensures OnePage(p, all, 0, keep, x => [x], 0) == Done(Page(0, []))
    ensures [] == Matches(all, keep, x => [x]) <==> forall x | x in all :: !keep(x)
  {
    FlattenSingles(Filter(all, keep), x => [x]);
    FilterMembers(all, keep);
    if forall x | x in all :: !keep(x) {
      FilterNone(all, keep);
    }
  }

  lemma CountOfValues(c: I64)
    ensures CountOf(None) == CountOf(Some(0)) == Some(10)
    ensures c < 0 ==> CountOf(Some(c)) == None
    ensures c > 0 ==> CountOf(Some(c)) == Some(c)
  {
  }
}
