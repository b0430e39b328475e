/** Decimal text: what `format!("{}", n)` prints and what `str::parse` accepts. */
module Decimal {
  import opened Machine
  import opened ByteStrings

  const DIGITS: Bytes := [0x30, 0x31, 0x32, 0x33, 0x34, 0x35, 0x36, 0x37, 0x38, 0x39]
  const ZERO: Byte := 0x30
  const PLUS: Byte := 0x2b
  const MINUS: Byte := 0x2d

  function DigitValue(c: Byte): Option<nat> {
    if c == 0x30 then Some(0) else if c == 0x31 then Some(1)
    else if c == 0x32 then Some(2) else if c == 0x33 then Some(3)
    else if c == 0x34 then Some(4) else if c == 0x35 then Some(5)
    else if c == 0x36 then Some(6) else if c == 0x37 then Some(7)
    else if c == 0x38 then Some(8) else if c == 0x39 then Some(9)
    else None
  }

  lemma DigitRoundTrip(d: nat, c: Byte)
    ensures d < 10 ==> DigitValue(DIGITS[d]) == Some(d)
    ensures DigitValue(c).Some? ==> DigitValue(c).value < 10 && DIGITS[DigitValue(c).value] == c
  {
  }

  /** The digits have the codes from 0x30 on. */
  lemma DigitCodes(c: Byte)
    ensures DigitValue(c).Some? <==> 0x30 <= c <= 0x39
    ensures DigitValue(c).Some? ==> c == 0x30 + DigitValue(c).value as Byte
  {
  }

  /** The decimal digits of `n`, most significant first. */
  function Print(n: nat): Bytes {
    if n < 10 then [DIGITS[n]] else Print(n / 10) + [DIGITS[n % 10]]
  }

  function PrintInt(i: int): Bytes {
    if i < 0 then [MINUS] + Print(-i) else Print(i)
  }

  predicate AllDigits(v: Bytes) {
    forall i :: 0 <= i < |v| ==> DigitValue(v[i]).Some?
  }

  function Value(v: Bytes): nat
    requires AllDigits(v)
  {
    if v == [] then 0 else 10 * Value(v[..|v| - 1]) + DigitValue(v[|v| - 1]).value
  }

  /** One or more digits; leading zeros are fine. */
  function ParseDigits(v: Bytes): Option<nat> {
    if v != [] && AllDigits(v) then Some(Value(v)) else None
  }

  /** `parse::<usize>()`: an optional `+`, then digits, the value in range. */
  function ParseUsize(v: Bytes): Option<Usize> {
    match ParseDigits(if v != [] && v[0] == PLUS then v[1..] else v)
    case Some(n) => if n < USIZE_LIMIT then Some(n) else None
    case None => None
  }

  /** `parse::<i64>()`: an optional sign, then digits, the value in range. */
  function ParseI64(v: Bytes): Option<I64> {
    if v != [] && v[0] == MINUS then
      match ParseDigits(v[1..])
      case Some(n) => if 0 - n >= I64_MIN then Some(0 - n) else None
      case None => None
    else
      match ParseDigits(if v != [] && v[0] == PLUS then v[1..] else v)
      case Some(n) => if n <= I64_MAX then Some(n) else None
      case None => None
  }

  /** Printing yields digits with no needless leading zero, and they denote `n`. */
  lemma {:induction false} PrintDenotes(n: nat)
    ensures AllDigits(Print(n)) && Value(Print(n)) == n
    ensures Print(n) != [] && (Print(n)[0] == ZERO <==> n == 0)
  {
    DigitRoundTrip(n % 10, ZERO);
    if n >= 10 {
      PrintDenotes(n / 10);
      var high, last := Print(n / 10), [DIGITS[n % 10]];
      assert Print(n) == high + last;
      assert (high + last)[..|high|] == high && (high + last)[|high|] == last[0];
      assert forall i :: 0 <= i < |high| ==> (high + last)[i] == high[i];
    }
  }

  /** Digits with no needless leading zero are the printed form of what they denote. */
  lemma {:induction false} PrintValue(v: Bytes)
    requires v != [] && AllDigits(v)
    requires v[0] != ZERO || |v| == 1
    ensures Print(Value(v)) == v
    ensures |v| > 1 ==> Value(v) >= 10
  {
    var high, last := v[..|v| - 1], DigitValue(v[|v| - 1]).value;
    DigitRoundTrip(last, v[|v| - 1]);
    assert v == high + [DIGITS[last]];
    if high == [] {
      assert Value(high) == 0;
    } else {
      PrintValue(high);
      assert Value(v) / 10 == Value(high) && Value(v) % 10 == last;
    }
  }

  /** The printed form parses back, and does not start with a sign. */
  lemma ParsePrint(n: nat)
    ensures ParseDigits(Print(n)) == Some(n)
    ensures Print(n)[0] != PLUS && Print(n)[0] != MINUS
    ensures Print(n)[0] == ZERO <==> n == 0
  {
    PrintDenotes(n);
    assert DigitValue(Print(n)[0]).Some?;
  }

  lemma PrintInjective(m: nat, n: nat)
    requires Print(m) == Print(n)
    ensures m == n
  {
    PrintDenotes(m);
    PrintDenotes(n);
  }

  /** The number -1024 in ASCII. */
  lemma PrintSample()
    ensures PrintInt(-1024) == [0x2d, 0x31, 0x30, 0x32, 0x34]
  {
    assert Print(10) == [0x31, 0x30];
    assert Print(102) == Print(10) + [0x32];
  }

  function Zeros(k: nat): Bytes {
    seq(k, _ => ZERO)
  }

  lemma ZerosNext(k: nat, rest: Bytes)
    ensures Zeros(k + 1) + rest == [ZERO] + (Zeros(k) + rest)
  {
  }

  /** `v` is the printed form of `n` behind any number of zeros. */
  ghost predicate Padded(v: Bytes, n: nat) {
    exists k: nat :: v == Zeros(k) + Print(n)
  }

  lemma {:induction false} LeadingZero(v: Bytes)
    requires AllDigits(v)
    ensures AllDigits([ZERO] + v) && Value([ZERO] + v) == Value(v)
  {
    var w := [ZERO] + v;
    assert forall i :: 0 < i < |w| ==> w[i] == v[i - 1];
    if v == [] {
      assert w[..0] == [];
    } else {
      LeadingZero(v[..|v| - 1]);
      assert w[..|w| - 1] == [ZERO] + v[..|v| - 1];
    }
  }

  lemma {:induction false} PaddedParses(k: nat, n: nat)
    ensures ParseDigits(Zeros(k) + Print(n)) == Some(n)
  {
    if k == 0 {
      ParsePrint(n);
      assert Zeros(0) + Print(n) == Print(n);
    } else {
      PaddedParses(k - 1, n);
      LeadingZero(Zeros(k - 1) + Print(n));
      ZerosNext(k - 1, Print(n));
    }
  }

  lemma {:induction false} ParsesPadded(v: Bytes) returns (k: nat)
    requires ParseDigits(v).Some?
    ensures v == Zeros(k) + Print(Value(v))
  {
    if v[0] == ZERO && |v| > 1 {
      var rest := v[1..];
      k := ParsesPadded(rest);
      LeadingZero(rest);
      assert v == [ZERO] + rest;
      ZerosNext(k, Print(Value(v)));
      k := k + 1;
    } else {
      k := 0;
      PrintValue(v);
      assert Zeros(0) + Print(Value(v)) == v;
    }
  }

  /** Which texts parse as `n`: the printed form, with zeros in front. */
  lemma ParseDigitsExact(v: Bytes, n: nat)
    ensures ParseDigits(v) == Some(n) <==> Padded(v, n)
  {
    if ParseDigits(v) == Some(n) {
      var k := ParsesPadded(v);
    }
    if Padded(v, n) {
      var k: nat :| v == Zeros(k) + Print(n);
      PaddedParses(k, n);
    }
  }
}
