/** database/src/string.rs: a string value, held as an i64 or as raw bytes. */
module StringValue {
  import opened Machine
  import opened ByteStrings
  import opened Decimal
  import opened DbUtil

  datatype Encoding = Integer(i: I64) | Data(d: Bytes)

  /** `parse_utf8::<i64>`. */
  function ParseUtf8(v: Bytes): Option<I64> {
    if v != [] && v[0] == ZERO then None else ParseI64(v)
  }

  /** `ValueString::new`. */
  function Encode(v: Bytes): Encoding {
    match ParseUtf8(v)
    case Some(i) => Integer(i)
    case None => Data(v)
  }

  /** `to_vec`: the byte string that a client sees. */
  function Denote(enc: Encoding): Bytes {
    match enc
    case Data(d) => d
    case Integer(i) => PrintInt(i)
  }

  /** Integer spellings that `parse` accepts and printing never produces. */
  predicate OddSign(v: Bytes) {
    v != [] && (v[0] == PLUS || (v[0] == MINUS && |v| > 1 && v[1] == ZERO))
  }

  lemma ParseUtf8Print(n: I64)
    ensures ParseUtf8(PrintInt(n)) == if n == 0 then None else Some(n)
    ensures !OddSign(PrintInt(n))
  {
    if n < 0 {
      var m: nat := 0 - n;
      var text := PrintInt(n);
      assert text[0] == MINUS && text[1..] == Print(m);
      ParsePrint(m);
      assert ParseI64(text) == Some(0 - m);
    } else {
      var text := Print(n);
      ParsePrint(n);
      assert PrintInt(n) == text && text != [];
    }
  }

  lemma UnsignedTextPreserved(v: Bytes, n: nat)
    requires ParseDigits(v) == Some(n) && v[0] != ZERO
    ensures Print(n) == v && n > 0
  {
    PrintValue(v);
    ParsePrint(n);
  }

  /** A stored string reads back unchanged exactly when it is not an oddly signed integer. */
  lemma NewPreservesBytes(v: Bytes)
    ensures Denote(Encode(v)) == v <==> !(OddSign(v) && ParseI64(v).Some?)
  {
    if ParseUtf8(v).Some? {
      ParseUtf8Print(ParseUtf8(v).value);
      if !OddSign(v) { PlainSignPreserved(v); }
    }
  }

  lemma PlainSignPreserved(v: Bytes)
    requires ParseUtf8(v).Some? && !OddSign(v)
    ensures PrintInt(ParseUtf8(v).value) == v
  {
    if v[0] == MINUS {
      MinusPreserved(v);
    } else {
      var digits := v;
      UnsignedTextPreserved(digits, ParseDigits(digits).value);
    }
  }

  lemma MinusPreserved(v: Bytes)
    requires v != [] && v[0] == MINUS && ParseI64(v).Some? && (|v| > 1 ==> v[1] != ZERO)
    ensures PrintInt(ParseI64(v).value) == v
  {
    var digits := v[1..];
    var n := ParseDigits(digits).value;
    UnsignedTextPreserved(digits, n);
    assert v == [MINUS] + digits;
  }

  /** SET k +5, then GET k, gives 5. */
  lemma PlusIsForgotten()
    ensures Encode([PLUS, 0x35]) == Integer(5) && Denote(Encode([PLUS, 0x35])) == [0x35]
  {
    var digits: Bytes := [0x35];
    assert [PLUS, 0x35][1..] == digits;
    assert digits[..0] == [] && Value(digits) == 5;
  }

  /** Bytes written after the printed form of an integer never make it oddly signed. */
  lemma PrintedPrefixIsPlain(i: I64, suffix: Bytes)
    ensures !(OddSign(PrintInt(i) + suffix))
  {
    PrintDenotes(if i < 0 then 0 - i else i);
    assert DigitValue(PLUS).None? && DigitValue(MINUS).None?;
  }

  /** The number that `incr` starts from. */
  function Number(enc: Encoding): Option<I64> {
    match enc
    case Integer(i) => Some(i)
    case Data(d) => ParseUtf8(d)
  }

  /** Text that is the printed form of an i64 counts as that number, except for a stored "0". */
  lemma PrintedTextIsNumber(enc: Encoding, n: I64)
    requires Denote(enc) == PrintInt(n)
    ensures Number(enc) == Some(n) <==> n != 0 || enc.Integer?
    ensures Number(enc).None? <==> enc == Data([ZERO])
  {
    ParseUtf8Print(n);
    if enc.Integer? {
      ParseUtf8Print(enc.i);
      PrintIntInjective(n, enc.i);
    } else if n != 0 {
      ParsePrint(if n < 0 then 0 - n else n);
    }
  }

  /** `d` spells `n`: it is the printed form, or that with a `+`, and with zeros behind a sign. */
  ghost predicate Spells(d: Bytes, n: int) {
    || (n > 0 && d == Print(n))
    || (n >= 0 && d != [] && d[0] == PLUS && Padded(d[1..], n))
    || (n <= 0 && d != [] && d[0] == MINUS && Padded(d[1..], 0 - n))
  }

  /** Which texts are stored as numbers, and are numbers to INCR. */
  lemma EncodeExact(d: Bytes, n: I64)
    ensures Encode(d) == Integer(n) <==> Spells(d, n)
    ensures Number(Data(d)) == Some(n) <==> Spells(d, n)
    ensures Encode(d).Integer? || Encode(d) == Data(d)
  {
    if d != [] && d[0] == MINUS {
      SignedText(d, n);
    } else if d != [] && d[0] == PLUS {
      SignedText(d, n);
    } else {
      UnsignedText(d, n);
    }
  }

  lemma SignedText(d: Bytes, n: I64)
    requires d != [] && (d[0] == PLUS || d[0] == MINUS)
    ensures ParseUtf8(d) == Some(n) <==> Spells(d, n)
  {
    var m: nat := if n < 0 then 0 - n else n;
    ParseDigitsExact(d[1..], m);
    ParsePrint(m);
    assert d != Print(m);
  }

  lemma UnsignedText(d: Bytes, n: I64)
    requires d != [] ==> d[0] != PLUS && d[0] != MINUS
    ensures ParseUtf8(d) == Some(n) <==> Spells(d, n)
  {
    if n > 0 {
      ParsePrint(n);
    }
    if ParseUtf8(d).Some? {
      UnsignedTextPreserved(d, ParseUtf8(d).value);
    }
  }

  /** INCR on "abc" is refused. */
  lemma LettersAreNoNumber()
    ensures Number(Encode([0x61, 0x62, 0x63])) == None
  {
    assert DigitValue([0x61, 0x62, 0x63][0]).None?;
  }

  /** SET key 0 stores the text, so the INCR that follows is refused. */
  lemma StoredZeroIsNoNumber()
    ensures Encode(PrintInt(0)) == Data([ZERO]) && Number(Encode(PrintInt(0))) == None
  {
    ParseUtf8Print(0);
    assert PrintInt(0) == Print(0) == [ZERO];
  }

  /** `s` zero-padded up to `index`, then overwritten from `index` on by `data`. */
  function Overwrite(s: Bytes, index: nat, data: Bytes): Bytes {
    var len := if |s| < index + |data| then index + |data| else |s|;
    seq(len, k requires 0 <= k < len =>
      if index <= k < index + |data| then data[k - index] else if k < |s| then s[k] else 0)
  }

  /** `after` has `data` from `start` on, and elsewhere the bytes of `before`, with zeros in between if
      that is shorter than `start`. */
  ghost predicate Overlaid(before: Bytes, after: Bytes, start: nat, data: Bytes) {
    && |after| == (if start + |data| > |before| then start + |data| else |before|)
    && after[start..start + |data|] == data
    && (if |before| < start then after[..|before|] == before && forall k :: |before| <= k < start ==> after[k] == 0
        else after[..start] == before[..start])
    && (forall k :: start + |data| <= k < |before| ==> after[k] == before[k])
  }

  lemma OverwriteMeaning(s: Bytes, start: nat, data: Bytes)
    ensures Overlaid(s, Overwrite(s, start, data), start, data)
  {
  }

  /** The mask of bit `bit`, counted from the most significant one. */
  function Mask(bit: nat): Byte
    requires bit < 8
  {
    (1 as bv8) << (7 - bit)
  }

  function Bit(s: Bytes, offset: nat): bool {
    offset / 8 < |s| && s[offset / 8] & Mask(offset % 8) != 0
  }

  /** Bit 0 is the most significant bit of the first byte, and there is none past the last byte. */
  lemma BitMeaning(s: Bytes, byte: nat)
    requires byte < |s|
    ensures Bit(s, 8 * byte) == (s[byte] & 0x80 != 0) && Bit(s, 8 * byte + 1) == (s[byte] & 0x40 != 0)
    ensures Bit(s, 8 * byte + 2) == (s[byte] & 0x20 != 0) && Bit(s, 8 * byte + 3) == (s[byte] & 0x10 != 0)
    ensures Bit(s, 8 * byte + 4) == (s[byte] & 0x08 != 0) && Bit(s, 8 * byte + 5) == (s[byte] & 0x04 != 0)
    ensures Bit(s, 8 * byte + 6) == (s[byte] & 0x02 != 0) && Bit(s, 8 * byte + 7) == (s[byte] & 0x01 != 0)
    ensures forall k: nat :: k >= 8 * |s| ==> !Bit(s, k)
  {
    MaskValues();
    forall bit: nat | bit < 8
      ensures Bit(s, 8 * byte + bit) == (s[byte] & Mask(bit) != 0)
    {
      assert (8 * byte + bit) / 8 == byte && (8 * byte + bit) % 8 == bit;
    }
  }

  lemma MaskValues()
    ensures Mask(0) == 0x80 && Mask(1) == 0x40 && Mask(2) == 0x20 && Mask(3) == 0x10
    ensures Mask(4) == 0x08 && Mask(5) == 0x04 && Mask(6) == 0x02 && Mask(7) == 0x01
  {
  }

  function WithBit(b: Byte, bit: nat, on: bool): Byte
    requires bit < 8
  {
    (b & !Mask(bit)) | (if on then Mask(bit) else 0)
  }

  lemma WithBitChangesOneBit(b: Byte, bit: nat, on: bool, other: nat)
    requires bit < 8 && other < 8
    ensures (WithBit(b, bit, on) & Mask(other) != 0) == (if other == bit then on else b & Mask(other) != 0)
  {
    MaskValues();
  }

  /** Writing one bit of a zero-padded string changes that bit of the string only. */
  lemma PaddedBitWrite(before: Bytes, padded: Bytes, offset: nat, on: bool)
    requires before <= padded && offset / 8 < |padded|
    requires forall k :: |before| <= k < |padded| ==> padded[k] == 0
    ensures Bit(padded, offset) == Bit(before, offset)
    ensures var after := padded[offset / 8 := WithBit(padded[offset / 8], offset % 8, on)];
      forall k: nat :: Bit(after, k) == if k == offset then on else Bit(before, k)
  {
    var byte, bit := offset / 8, offset % 8;
    var after := padded[byte := WithBit(padded[byte], bit, on)];
    forall k: nat
      ensures Bit(after, k) == if k == offset then on else Bit(before, k)
    {
      WithBitChangesOneBit(padded[byte], bit, on, k % 8);
    }
  }

  /** `len - 1` underflows on an empty string. */
  predicate GetRangePanics(p: Profile, s: Bytes, start: int, stop: int) {
    p.Debug? && s == [] && start < 0 <= stop
  }

  /** GETRANGE k -1 0 on an empty string. */
  lemma EmptyGetRangePanics()
    ensures GetRangePanics(Debug, [], -1, 0) && Window<Byte>([], -1, 0) == []
  {
  }

  class ValueString {
    var enc: Encoding

    function Contents(): Bytes
      reads this
    {
      Denote(enc)
    }

    constructor (newvalue: Bytes)
      ensures enc == Encode(newvalue)
    {
      enc := Encode(newvalue);
    }

    method Append(newvalue: Bytes)
      modifies this
      ensures Contents() == old(Contents()) + newvalue
      ensures old(enc.Data?) ==> enc.Data?
    {
      match enc
      case Data(d) => enc := Data(d + newvalue);
      case Integer(i) =>
        PrintedPrefixIsPlain(i, newvalue);
        NewPreservesBytes(PrintInt(i) + newvalue);
        enc := Encode(PrintInt(i) + newvalue);
    }

    method Incr(incr: I64) returns (r: Option<I64>)
      modifies this
      ensures var n := Number(old(enc));
        r == if n.Some? && I64_MIN <= n.value + incr <= I64_MAX then Some(n.value + incr) else None
      ensures r.None? ==> enc == old(enc)
      ensures r.Some? ==> enc == Integer(r.value)
    {
      match Number(enc)
      case None => return None;
      case Some(n) =>
        if !(I64_MIN <= n + incr <= I64_MAX) { return None; }
        enc := Integer(n + incr);
        return Some(n + incr);
    }

    method GetRange(p: Profile, start: I64, stop: I64) returns (r: Outcome<Bytes>)
      requires |Contents()| <= 0x7fff_ffff_ffff_ffff
      ensures r == if GetRangePanics(p, Contents(), start, stop) then Panic
                   else Done(Window(Contents(), start, stop))
    {
      var s := Contents();
      var first := 0;
      match NormalizePosition(start, |s|) {
        case At(i) => first := i;
        case Outside(above) => if above { return Done([]); }
      }
      var last: Usize := 0;
      match NormalizePosition(stop, |s|) {
        case At(i) => last := i;
        case Outside(above) =>
          if !above { return Done([]); }
          match UsizeResult(p, |s| - 1) {
            case Done(n) => last := n;
            case Panic => return Panic;
          }
      }
      if last < first { return Done([]); }
      return Done(s[first..WrapUsize(last + 1)]);
    }

    method SetBit(bitoffset: Usize, on: bool) returns (was: bool)
      modifies this
      ensures was == Bit(old(Contents()), bitoffset)
      ensures enc.Data?
      ensures |Contents()| == if |old(Contents())| <= bitoffset / 8 then bitoffset / 8 + 1 else |old(Contents())|
      ensures forall k: nat :: Bit(Contents(), k) == if k == bitoffset then on else Bit(old(Contents()), k)
    {
      var d := Contents();
      ghost var before := d;
      var byte := bitoffset / 8;
      while byte + 1 > |d|
        invariant |before| <= |d| <= if |before| <= byte then byte + 1 else |before|
        invariant before <= d
        invariant forall k :: |before| <= k < |d| ==> d[k] == 0
        decreases byte + 1 - |d|
      {
        d := d + [0];
      }
      ghost var padded := d;
      was := d[byte] & Mask(bitoffset % 8) != 0;
      d := d[byte := WithBit(d[byte], bitoffset % 8, on)];
      PaddedBitWrite(before, padded, bitoffset, on);
      enc := Data(d);
    }

    method GetBit(bitoffset: Usize) returns (on: bool)
      ensures on == Bit(Contents(), bitoffset)
    {
      var d := Contents();
      var byte := bitoffset / 8;
      if byte >= |d| { return false; }
      return d[byte] & Mask(bitoffset % 8) != 0;
    }

    method SetRange(start: nat, data: Bytes) returns (len: nat)
      modifies this
      ensures data == [] ==> enc == old(enc)
      ensures data != [] ==> enc == Data(Overwrite(old(Contents()), start, data))
      ensures data != [] ==> Overlaid(old(Contents()), Contents(), start, data)
      ensures len == |Contents()|
    {
      if data == [] { return |Contents()|; }
      var d := Contents();
      ghost var before := d;
      while |d| < start
        invariant |before| <= |d| <= if |before| < start then start else |before|
        invariant d == Overwrite(before, |d|, [])
      {
        d := d + [0];
      }
      var index := start;
      for i := 0 to |data|
        invariant index == start + i <= |d|
        invariant d == Overwrite(before, start, data[..i])
      {
        d := d + [data[i]];
        if index < |d| - 1 {
          d := SwapRemove(d, index);
        }
        index := index + 1;
      }
      assert data[..|data|] == data;
      OverwriteMeaning(before, start, data);
      enc := Data(d);
      return |d|;
    }
  }

  /** `Vec::swap_remove`: the last element takes the place of the one removed. */
  function SwapRemove(d: Bytes, index: nat): Bytes
    requires index < |d|
  {
    d[index := d[|d| - 1]][..|d| - 1]
  }

  lemma PrintIntInjective(m: I64, n: I64)
    requires PrintInt(m) == PrintInt(n)
    ensures m == n
  {
    ParseUtf8Print(m);
    ParseUtf8Print(n);
  }
}
