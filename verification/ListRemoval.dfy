/** When removing occurrences from one end of a list does the same as removing them from the other. */
module ListRemoval {
  import opened ByteStrings
  import opened Sequences
  import opened ListValue

  lemma {:induction false} OccurrencesConcat(a: seq<Bytes>, b: seq<Bytes>, x: Bytes)
    ensures Occurrences(a + b, x) == Occurrences(a, x) + Occurrences(b, x)
  {
    if a == [] {
      assert a + b == b;
    } else {
      OccurrencesConcat(a[1..], b, x);
      assert (a + b)[0] == a[0] && (a + b)[1..] == a[1..] + b;
    }
  }

  lemma OccurrencesSplit(s: seq<Bytes>, x: Bytes, i: nat)
    requires i <= |s|
    ensures Occurrences(s, x) == Occurrences(s[..i], x) + Occurrences(s[i..], x)
  {
    assert s == s[..i] + s[i..];
    OccurrencesConcat(s[..i], s[i..], x);
  }

  lemma {:induction false} OccurrencesCount(s: seq<Bytes>, x: Bytes)
    ensures Occurrences(s, x) <= |s| && |Without(s, x)| == |s| - Occurrences(s, x)
    ensures Occurrences(s, x) == 0 <==> x !in s
    ensures x !in Without(s, x)
  {
    if s != [] {
      OccurrencesCount(s[1..], x);
      assert s == [s[0]] + s[1..];
    }
  }

  lemma {:induction false} NothingElse(s: seq<Bytes>, x: Bytes)
    requires Occurrences(s, x) == |s|
    ensures forall i :: 0 <= i < |s| ==> s[i] == x
  {
    if s != [] {
      OccurrencesCount(s[1..], x);
      NothingElse(s[1..], x);
      assert forall i :: 0 < i < |s| ==> s[i] == s[1..][i - 1];
    }
  }

  lemma {:induction false} OccurrencesReverse(s: seq<Bytes>, x: Bytes)
    ensures Occurrences(Reverse(s), x) == Occurrences(s, x)
  {
    if s != [] {
      OccurrencesReverse(s[1..], x);
      assert Reverse(s) == Reverse(s[1..]) + [s[0]];
      OccurrencesConcat(Reverse(s[1..]), [s[0]], x);
    }
  }

  // ----- Where the two ends cut ----------------------------------------------------

  lemma LeftCut(s: seq<Bytes>, x: Bytes, quota: nat) returns (p: nat)
    requires quota <= Occurrences(s, x)
    ensures p <= |s| && Occurrences(s[..p], x) == quota
    ensures RemoveLeft(s, x, quota) == Without(s[..p], x) + s[p..]
  {
    p := RemoveLeftMeaning(s, x, quota);
  }

  lemma RightCut(s: seq<Bytes>, x: Bytes, quota: nat) returns (u: nat)
    requires quota <= Occurrences(s, x)
    ensures u <= |s| && Occurrences(s[u..], x) == quota
    ensures RemoveRight(s, x, quota) == s[..u] + Without(s[u..], x)
  {
    OccurrencesReverse(s, x);
    var back := Reverse(s);
    var p := LeftCut(back, x, quota);
    u := |s| - p;
    assert back[..p] == Reverse(s[u..]) && back[p..] == Reverse(s[..u]);
    OccurrencesReverse(s[u..], x);
    FilterReverse(s[u..], y => y != x);
    ReverseConcat(Without(s[u..], x), s[..u]);
  }

  /** The occurrences of `x` stand next to one another. */
  ghost predicate Adjacent(s: seq<Bytes>, x: Bytes) {
    forall i, j, k :: 0 <= i < j < k < |s| && s[i] == x && s[k] == x ==> s[j] == x
  }

  /** The occurrences are exactly the positions from `a` to `b`. */
  ghost predicate Block(s: seq<Bytes>, x: Bytes, a: nat, b: nat) {
    a <= b <= |s| && forall i :: 0 <= i < |s| ==> (s[i] == x <==> a <= i < b)
  }

  lemma AdjacentBlock(s: seq<Bytes>, x: Bytes) returns (a: nat, b: nat)
    requires Adjacent(s, x) && x in s
    ensures Block(s, x, a, b)
  {
    var m :| 0 <= m < |s| && s[m] == x;
    a, b := m, m + 1;
    while a > 0 && s[a - 1] == x
      invariant a <= m && forall i :: a <= i <= m ==> s[i] == x
    {
      a := a - 1;
    }
    while b < |s| && s[b] == x
      invariant m < b <= |s| && forall i :: m <= i < b ==> s[i] == x
    {
      b := b + 1;
    }
  }

  lemma BlockCounts(s: seq<Bytes>, x: Bytes, a: nat, b: nat, i: nat)
    requires Block(s, x, a, b) && i <= |s|
    ensures Occurrences(s[..i], x) == if i <= a then 0 else if i <= b then i - a else b - a
    decreases i
  {
    if i > 0 {
      BlockCounts(s, x, a, b, i - 1);
      assert s[..i] == s[..i - 1] + [s[i - 1]];
      OccurrencesConcat(s[..i - 1], [s[i - 1]], x);
    }
  }

  lemma WithoutBlock(s: seq<Bytes>, x: Bytes, a: nat, b: nat, i: nat)
    requires Block(s, x, a, b) && a <= i <= b
    ensures Without(s[..i], x) == s[..a] && Without(s[i..], x) == s[b..]
  {
    var other := y => y != x;
    assert s[..i] == s[..a] + s[a..i] && s[i..] == s[i..b] + s[b..];
    FilterConcat(s[..a], s[a..i], other);
    FilterConcat(s[i..b], s[b..], other);
    FilterAll(s[..a], other);
    FilterNone(s[a..i], other);
    FilterNone(s[i..b], other);
    FilterAll(s[b..], other);
  }

  lemma BlockSize(s: seq<Bytes>, x: Bytes, a: nat, b: nat)
    requires Block(s, x, a, b)
    ensures Occurrences(s, x) == b - a
  {
    assert s[..|s|] == s;
    BlockCounts(s, x, a, b, |s|);
  }

  lemma LeftOfBlock(s: seq<Bytes>, x: Bytes, quota: nat, a: nat, b: nat)
    requires Block(s, x, a, b) && 1 <= quota < b - a
    ensures RemoveLeft(s, x, quota) == s[..a] + s[a + quota..]
  {
    BlockSize(s, x, a, b);
    var p := LeftCut(s, x, quota);
    BlockCounts(s, x, a, b, p);
    WithoutBlock(s, x, a, b, p);
  }

  lemma RightOfBlock(s: seq<Bytes>, x: Bytes, quota: nat, a: nat, b: nat)
    requires Block(s, x, a, b) && 1 <= quota < b - a
    ensures RemoveRight(s, x, quota) == s[..b - quota] + s[b..]
  {
    BlockSize(s, x, a, b);
    var u := RightCut(s, x, quota);
    BlockCounts(s, x, a, b, u);
    OccurrencesSplit(s, x, u);
    WithoutBlock(s, x, a, b, u);
  }

  /** In a block it makes no difference which end the removal starts from. */
  lemma BlockEndsAgree(s: seq<Bytes>, x: Bytes, quota: nat, a: nat, b: nat)
    requires Block(s, x, a, b) && 1 <= quota < Occurrences(s, x)
    ensures RemoveLeft(s, x, quota) == RemoveRight(s, x, quota)
  {
    BlockSize(s, x, a, b);
    LeftOfBlock(s, x, quota, a, b);
    RightOfBlock(s, x, quota, a, b);
  }

  lemma Repeats(s: seq<Bytes>, r: seq<Bytes>, x: Bytes, from: nat, to: nat, period: nat)
    requires from + period <= to <= |s| && period > 0 && to - period <= |r|
    requires forall i :: from <= i < from + period ==> s[i] == x
    requires forall i {:trigger r[i]} :: from <= i < to - period ==> s[i + period] == r[i] == s[i]
    ensures forall i :: from <= i < to ==> s[i] == x
  {
    for i := from + period to to
      invariant forall j :: from <= j < i ==> s[j] == x
    {
      assert r[i - period] == s[i - period];
    }
  }

  /** What is left of a removal from the front: no `x` up to `a`, and from there `s` shifted. */
  lemma LeftRemoved(s: seq<Bytes>, x: Bytes, quota: nat) returns (a: nat)
    requires quota <= Occurrences(s, x)
    ensures var r := RemoveLeft(s, x, quota);
      && |r| == |s| - quota && a + quota <= |s|
      && (forall i :: 0 <= i < a ==> r[i] != x)
      && (forall i {:trigger r[i]} :: a <= i < |r| ==> r[i] == s[i + quota])
    ensures Occurrences(s[..a + quota], x) == quota
  {
    var p := LeftCut(s, x, quota);
    OccurrencesCount(s[..p], x);
    a := p - quota;
    var head := Without(s[..p], x);
    assert forall i :: 0 <= i < a ==> (head + s[p..])[i] == head[i] && head[i] in head;
  }

  lemma RightRemoved(s: seq<Bytes>, x: Bytes, quota: nat) returns (u: nat)
    requires quota <= Occurrences(s, x)
    ensures var r := RemoveRight(s, x, quota);
      && |r| == |s| - quota && u + quota <= |s|
      && (forall i {:trigger r[i]} :: 0 <= i < u ==> r[i] == s[i])
      && (forall i :: u <= i < |r| ==> r[i] != x)
    ensures Occurrences(s[..u], x) == Occurrences(s, x) - quota
  {
    u := RightCut(s, x, quota);
    OccurrencesCount(s[u..], x);
    OccurrencesSplit(s, x, u);
    var tail := Without(s[u..], x);
    assert forall i :: u <= i < |s| - quota ==> (s[..u] + tail)[i] == tail[i - u] && tail[i - u] in tail;
  }

  /** If the ends agree on a part of the occurrences, these stand next to one another. */
  lemma AgreeingEndsBlock(s: seq<Bytes>, x: Bytes, quota: nat) returns (a: nat, b: nat)
    requires 1 <= quota < Occurrences(s, x)
    requires RemoveLeft(s, x, quota) == RemoveRight(s, x, quota)
    ensures Block(s, x, a, b)
  {
    var r := RemoveLeft(s, x, quota);
    a := LeftRemoved(s, x, quota);
    var u := RightRemoved(s, x, quota);
    b := u + quota;
    OccurrencesCount(s[..u], x);
    assert a <= u by {
      assert x in s[..u];
      var i :| 0 <= i < u && s[i] == x;
      assert r[i] == x;
    }
    forall i | 0 <= i < a ensures s[i] != x { assert r[i] == s[i]; }
    FullMiddle(s, x, a, quota);
    Repeats(s, r, x, a, b, quota);
    forall i | b <= i < |s| ensures s[i] != x { assert r[i - quota] == s[i]; }
  }

  lemma FullMiddle(s: seq<Bytes>, x: Bytes, a: nat, quota: nat)
    requires a + quota <= |s| && Occurrences(s[..a + quota], x) == quota
    requires forall i :: 0 <= i < a ==> s[i] != x
    ensures forall i :: a <= i < a + quota ==> s[i] == x
  {
    var front := s[..a + quota];
    assert front[..a] == s[..a] && front[a..] == s[a..a + quota];
    OccurrencesSplit(front, x, a);
    OccurrencesCount(s[..a], x);
    NothingElse(s[a..a + quota], x);
    assert forall i :: a <= i < a + quota ==> s[i] == s[a..a + quota][i - a];
  }

  /** Removing some but not all occurrences from one end does the same as from the other exactly
      when they stand next to one another. */
  lemma EndsAgree(s: seq<Bytes>, x: Bytes, quota: nat)
    requires 1 <= quota < Occurrences(s, x)
    ensures RemoveLeft(s, x, quota) == RemoveRight(s, x, quota) <==> Adjacent(s, x)
  {
    OccurrencesCount(s, x);
    if Adjacent(s, x) {
      var a, b := AdjacentBlock(s, x);
      BlockEndsAgree(s, x, quota, a, b);
    }
    if RemoveLeft(s, x, quota) == RemoveRight(s, x, quota) {
      var a, b := AgreeingEndsBlock(s, x, quota);
    }
  }

  /** Removing all of them is the same from both ends. */
  lemma AllGone(s: seq<Bytes>, x: Bytes, quota: nat)
    requires Occurrences(s, x) <= quota
    ensures RemoveLeft(s, x, quota) == Without(s, x) == RemoveRight(s, x, quota)
  {
    LeftAllGone(s, x, quota);
    OccurrencesReverse(s, x);
    LeftAllGone(Reverse(s), x, quota);
    FilterReverse(s, y => y != x);
  }

  lemma {:induction false} LeftAllGone(s: seq<Bytes>, x: Bytes, quota: nat)
    requires Occurrences(s, x) <= quota
    ensures RemoveLeft(s, x, quota) == Without(s, x)
  {
    if s == [] {
    } else if quota == 0 {
      OccurrencesCount(s, x);
      FilterAll(s, y => y != x);
    } else if s[0] == x {
      LeftAllGone(s[1..], x, quota - 1);
    } else {
      LeftAllGone(s[1..], x, quota);
    }
  }
}
