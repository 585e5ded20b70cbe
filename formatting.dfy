/** The C# number formats the commands use: `{n}` (decimal), `{n:00000}`
    (decimal zero-padded to at least five digits) and `{b:X2}` (two
    upper-case hex digits), with the readers that invert them. */
module Formatting {
  import opened Wrappers
  import opened Bits

  predicate IsDigit(c: char) {
    '0' <= c <= '9'
  }

  predicate AllDigits(s: string) {
    forall i :: 0 <= i < |s| ==> IsDigit(s[i])
  }

  function DigitChar(d: nat): (c: char)
    requires d < 10
    ensures IsDigit(c) && c as int - '0' as int == d
  {
    ('0' as int + d) as char
  }

  /** The number a string of decimal digits denotes. */
  function DigitsValue(s: string): nat
    requires AllDigits(s)
  {
    if s == [] then 0 else DigitsValue(s[..|s| - 1]) * 10 + (s[|s| - 1] as int - '0' as int)
  }

  /** `{n}` for a non-negative number: its decimal digits, with no leading
      zero unless the number is zero. */
  function NatToString(n: nat): (s: string)
    ensures |s| >= 1 && AllDigits(s)
    ensures s[0] == '0' ==> n == 0
  {
    if n < 10 then [DigitChar(n)] else NatToString(n / 10) + [DigitChar(n % 10)]
  }

  /** `{i}` for any int: a minus sign before the digits of a negative number. */
  function IntToString(i: int): (s: string)
    ensures |s| >= 1 && (s[0] == '-' <==> i < 0)
    ensures forall k :: 0 <= k < |s| ==> IsDigit(s[k]) || s[k] == '-'
  {
    if i < 0 then "-" + NatToString(-i) else NatToString(i)
  }

  /** `{n:00000}`: the decimal digits of `n`, padded on the left with zeros
      to at least `width` characters. */
  function ZeroPadded(n: nat, width: nat): (s: string)
    ensures AllDigits(s)
    ensures |s| == if |NatToString(n)| >= width then |NatToString(n)| else width
    ensures |NatToString(n)| >= width ==> s == NatToString(n)
  {
    var digits := NatToString(n);
    if |digits| >= width then digits else Zeros(width - |digits|) + digits
  }

  function Zeros(k: nat): (s: string)
    ensures |s| == k && AllDigits(s)
  {
    seq(k, _ => '0')
  }

  /** Reads a non-empty string of decimal digits. */
  function ParseNat(s: string): Option<nat> {
    if |s| > 0 && AllDigits(s) then Some(DigitsValue(s)) else None
  }

  /** Reads an optional minus sign followed by decimal digits. */
  function ParseInt(s: string): Option<int> {
    if |s| > 0 && s[0] == '-' then
      match ParseNat(s[1..])
      case Some(n) => Some(0 - n as int)
      case None => None
    else
      match ParseNat(s)
      case Some(n) => Some(n)
      case None => None
  }

  lemma {:induction false} NatToStringValue(n: nat)
    ensures DigitsValue(NatToString(n)) == n
  {
    if n >= 10 {
      NatToStringValue(n / 10);
      var s := NatToString(n);
      assert s[..|s| - 1] == NatToString(n / 10);
    }
  }

  /** Reading back the decimal text of a number gives the number. */
  lemma ParseNatRoundTrip(n: nat)
    ensures ParseNat(NatToString(n)) == Some(n)
  {
    NatToStringValue(n);
  }

  /** Reading back the decimal text of any int, negative ones included,
      gives the int. */
  lemma ParseIntRoundTrip(i: int)
    ensures ParseInt(IntToString(i)) == Some(i)
  {
    if i < 0 {
      ParseNatRoundTrip(-i);
      assert IntToString(i)[1..] == NatToString(-i);
    } else {
      ParseNatRoundTrip(i);
    }
  }

  /** Leading zeros do not change the value of a digit string. */
  lemma {:induction false} LeadingZerosValue(k: nat, s: string)
    requires AllDigits(s)
    ensures DigitsValue(Zeros(k) + s) == DigitsValue(s)
    decreases |s|, k
  {
    if s == [] {
      assert Zeros(k) + s == Zeros(k);
      if k > 0 {
        assert Zeros(k)[..k - 1] == Zeros(k - 1) + [];
        LeadingZerosValue(k - 1, []);
      }
    } else {
      var init := s[..|s| - 1];
      assert (Zeros(k) + s)[..|Zeros(k) + s| - 1] == Zeros(k) + init;
      LeadingZerosValue(k, init);
    }
  }

  /** The zero-padded text has at least `width` digits and still denotes `n`. */
  lemma ZeroPaddedValue(n: nat, width: nat)
    ensures |ZeroPadded(n, width)| >= width && AllDigits(ZeroPadded(n, width))
    ensures DigitsValue(ZeroPadded(n, width)) == n
  {
    NatToStringValue(n);
    var digits := NatToString(n);
    if |digits| < width {
      LeadingZerosValue(width - |digits|, digits);
    }
  }

  predicate IsUpperHexDigit(c: char) {
    '0' <= c <= '9' || 'A' <= c <= 'F'
  }

  function HexDigit(d: nat): (c: char)
    requires d < 16
    ensures IsUpperHexDigit(c)
  {
    if d < 10 then ('0' as int + d) as char else ('A' as int + d - 10) as char
  }

  function HexDigitValue(c: char): (d: nat)
    requires IsUpperHexDigit(c)
    ensures d < 16
  {
    if c <= '9' then c as int - '0' as int else c as int - 'A' as int + 10
  }

  /** `{b:X2}`: a byte as exactly two upper-case hex digits, high nibble
      first; reading the two digits back gives the byte. */
  function HexPair(b: Byte): (s: string)
    ensures |s| == 2 && IsUpperHexDigit(s[0]) && IsUpperHexDigit(s[1])
    ensures HexDigitValue(s[0]) * 16 + HexDigitValue(s[1]) == b
  {
    [HexDigit(b / 16), HexDigit(b % 16)]
  }

  /** Reads two upper-case hex digits as a byte. */
  function DecodeHexPair(s: string): (r: Option<Byte>)
    requires |s| == 2
  {
    if IsUpperHexDigit(s[0]) && IsUpperHexDigit(s[1]) then
      Some(HexDigitValue(s[0]) * 16 + HexDigitValue(s[1]))
    else
      None
  }

  /** `{b:X2}` on the bytes of the worked examples: upper-case digits,
      high nibble first, a leading zero nibble kept. */
  lemma HexPairExamples()
    ensures HexPair(0xAA) == "AA" && HexPair(0xFF) == "FF" && HexPair(0x80) == "80" && HexPair(0x05) == "05"
  {
  }
}
