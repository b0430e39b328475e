/** database/src/dbutil.rs: signed positions, and the decimal form of set members. */
module DbUtil {
  import opened Machine
  import opened ByteStrings
  import opened Sequences
  import opened Decimal

  /** `Result<usize, bool>`; the flag tells which end was missed. */
  datatype Normalized = At(index: nat) | Outside(above: bool)

  /** The position that `position` names when negative ones count from the end. */
  function Absolute(position: int, len: nat): int {
    if position < 0 then position + len else position
  }

  function NormalizePosition(position: I64, len: Length): (r: Normalized)
    ensures r.At? <==> 0 <= Absolute(position, len) < len
    ensures r.At? ==> r.index < len && (position == r.index || position == r.index - len)
    ensures r == Outside(false) <==> position < 0 - len
    ensures r == Outside(true) <==> position >= len
  {
    var pos := if position < 0 then position + len else position;
    if pos < 0 then Outside(false)
    else if pos >= len then Outside(true)
    else At(pos)
  }

  function First(start: int, len: nat): nat {
    if Absolute(start, len) < 0 then 0 else Absolute(start, len)
  }

  function Last(stop: int, len: nat): int {
    if Absolute(stop, len) < len then Absolute(stop, len) else len - 1
  }

  function Slice<T>(s: seq<T>, first: int, last: int): seq<T> {
    if 0 <= first <= last < |s| then s[first..last + 1] else []
  }

  /** What Redis documents for `start stop` arguments: the elements whose position lies
      between the two named positions, ends included, whatever lies off either end. */
  function Window<T>(s: seq<T>, start: int, stop: int): seq<T> {
    Slice(s, First(start, |s|), Last(stop, |s|))
  }

  /** The elements outside that window. */
  function OutsideWindow<T>(s: seq<T>, start: int, stop: int): seq<T> {
    var first, last := First(start, |s|), Last(stop, |s|);
    if first <= last then s[..first] + s[last + 1..] else s
  }

  /** The window and the rest by position: negative positions count from the end, and what lies off
      either end is left out. */
  lemma WindowMeaning<T>(s: seq<T>, start: int, stop: int)
    ensures var from := if start >= 0 then start else if start + |s| >= 0 then start + |s| else 0;
      var last := if stop < 0 then stop + |s| else if stop < |s| then stop else |s| - 1;
      if from <= last then
        0 <= from && last < |s| && Window(s, start, stop) == s[from..last + 1]
        && OutsideWindow(s, start, stop) == s[..from] + s[last + 1..]
      else Window(s, start, stop) == [] && OutsideWindow(s, start, stop) == s
  {
  }

  lemma MirroredEnds(start: int, stop: int, len: nat)
    ensures First(-stop - 1, len) == len - 1 - Last(stop, len)
    ensures Last(-start - 1, len) == len - 1 - First(start, len)
  {
    assert Absolute(-stop - 1, len) == len - 1 - Absolute(stop, len);
    assert Absolute(-start - 1, len) == len - 1 - Absolute(start, len);
  }

  lemma ReverseSlice<T>(s: seq<T>, first: nat, last: int)
    requires last < |s|
    ensures Slice(Reverse(s), first, last) == Reverse(Slice(s, |s| - 1 - last, |s| - 1 - first))
  {
  }

  /** Naming the ends of the reversed sequence is naming the mirrored ends. */
  lemma WindowReverse<T>(s: seq<T>, start: int, stop: int)
    ensures Window(Reverse(s), start, stop) == Reverse(Window(s, -stop - 1, -start - 1))
  {
    MirroredEnds(start, stop, |s|);
    ReverseSlice(s, First(start, |s|), Last(stop, |s|));
  }

  /** How a number is spelled as a set member. */
  function UsizeToVec(n: Usize): Bytes {
    Print(n)
  }

  function VecToUsize(data: Bytes): Option<Usize> {
    if data == [] || (|data| > 1 && data[0] == ZERO) then None
    else ParseUsize(data)
  }

  /** Members that parse although they are not how the number is printed. */
  predicate PlusSpelled(data: Bytes) {
    data != [] && data[0] == PLUS && VecToUsize(data).Some?
  }

  lemma UsizeRoundTrip(n: Usize)
    ensures VecToUsize(UsizeToVec(n)) == Some(n)
    ensures !PlusSpelled(UsizeToVec(n))
  {
    ParsePrint(n);
    var text := Print(n);
    assert |text| > 1 ==> text[0] != ZERO by {
      if n == 0 { assert text == [ZERO]; }
    }
  }

  /** Which members parse as `n`: its printed form, and that behind a `+` and zeros. */
  lemma VecToUsizeExact(data: Bytes, n: Usize)
    ensures VecToUsize(data) == Some(n)
      <==> data == Print(n) || (data != [] && data[0] == PLUS && Padded(data[1..], n))
  {
    UsizeRoundTrip(n);
    ParsePrint(n);
    if data != [] && data[0] == PLUS {
      ParseDigitsExact(data[1..], n);
    } else if VecToUsize(data).Some? {
      PrintValue(data);
    }
  }

  /** Parsing loses the spelling exactly for the members with a leading `+`. */
  lemma VecRoundTrip(data: Bytes)
    requires VecToUsize(data).Some?
    ensures UsizeToVec(VecToUsize(data).value) == data <==> data[0] != PLUS
  {
    UsizeRoundTrip(VecToUsize(data).value);
    if data[0] != PLUS {
      PrintValue(data);
    }
  }
}
