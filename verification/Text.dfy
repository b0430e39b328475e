/** Text as configuration and requests spell it. */
module Text {
  function LowerChar(c: char): char {
    if 'A' <= c <= 'Z' then c + ('a' - 'A') else c
  }

  function ToAsciiLowercase(s: string): string {
    seq(|s|, i requires 0 <= i < |s| => LowerChar(s[i]))
  }

  /** The codes 0x41 to 0x5a go up by 0x20, and nothing else changes. */
  lemma LowercaseMeaning(s: string, i: nat)
    requires i < |s|
    ensures |ToAsciiLowercase(s)| == |s|
    ensures var code := s[i] as int;
      ToAsciiLowercase(s)[i] as int == if 0x41 <= code <= 0x5a then code + 0x20 else code
  {
  }
}
