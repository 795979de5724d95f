/**
 * The text conventions the wire protocol relies on: ASCII encoding and
 * decoding of strings (System.Text.ASCIIEncoding, which turns anything
 * outside 0..127 into '?') and decimal integers: Int64.ToString with "-"
 * as the negative sign, and Convert.ToInt64 in the invariant culture.
 */
module Ascii {
  import opened Wrappers

  const QuestionMark: bv8 := 63

  const Int64Min: int := -0x8000_0000_0000_0000
  const Int64Max: int := 0x7FFF_FFFF_FFFF_FFFF

  predicate IsAsciiChar(c: char) { c as int < 128 }

  predicate IsAscii(s: string) { forall i :: 0 <= i < |s| ==> IsAsciiChar(s[i]) }

  /** One character as ASCIIEncoding writes it. */
  function EncodeChar(c: char): bv8 {
    if IsAsciiChar(c) then c as int as bv8 else QuestionMark
  }

  /** Encoding.ASCII.GetBytes. */
  function Encode(s: string): (r: seq<bv8>)
    ensures |r| == |s|
    ensures forall i :: 0 <= i < |s| ==> r[i] == EncodeChar(s[i])
  {
    seq(|s|, i requires 0 <= i < |s| => EncodeChar(s[i]))
  }

  /** One byte as ASCIIEncoding reads it. */
  function DecodeByte(b: bv8): char {
    if b < 128 then b as int as char else '?'
  }

  /** Encoding.ASCII.GetString. */
  function Decode(bytes: seq<bv8>): (r: string)
    ensures |r| == |bytes|
    ensures forall i :: 0 <= i < |bytes| ==> r[i] == DecodeByte(bytes[i])
  {
    seq(|bytes|, i requires 0 <= i < |bytes| => DecodeByte(bytes[i]))
  }

  lemma EncodeAppend(a: string, b: string)
    ensures Encode(a + b) == Encode(a) + Encode(b)
  {
    assert forall i :: 0 <= i < |a + b| ==> Encode(a + b)[i] == (Encode(a) + Encode(b))[i];
  }

  /** Decoding what was encoded gives the text back when the text is ASCII. */
  lemma DecodeEncode(s: string)
    requires IsAscii(s)
    ensures Decode(Encode(s)) == s
  {
    var e := Encode(s);
    forall i | 0 <= i < |s| ensures Decode(e)[i] == s[i] {
      DecodeEncodeChar(s[i]);
    }
  }

  lemma DecodeEncodeChar(c: char)
    requires IsAsciiChar(c)
    ensures DecodeByte(EncodeChar(c)) == c
  {
    var n := c as int;
    SmallByte(n);
    assert EncodeChar(c) == n as bv8;
  }

  /** A number below 128 survives the trip through a byte, and the byte is below 128. */
  lemma SmallByte(n: int)
    requires 0 <= n < 128
    ensures (n as bv8) as int == n && n as bv8 < 128
  {
  }

  /** Decoded text is always ASCII: foreign bytes become '?'. */
  lemma DecodeIsAscii(bytes: seq<bv8>)
    ensures IsAscii(Decode(bytes))
  {
  }

  // ---------------------------------------------------------------------
  // Decimal integers
  // ---------------------------------------------------------------------

  predicate IsDigit(c: char) { '0' <= c <= '9' }

  function DigitChar(d: nat): (c: char)
    requires d < 10
    ensures IsDigit(c)
  {
    ('0' as int + d) as char
  }

  function DigitValue(c: char): nat
    requires IsDigit(c)
  {
    c as int - '0' as int
  }

  /** The decimal digits of `n`, most significant first, without leading zeros. */
  function NatToString(n: nat): (r: string)
    ensures |r| > 0
    ensures forall i :: 0 <= i < |r| ==> IsDigit(r[i])
  {
    if n < 10 then [DigitChar(n)] else NatToString(n / 10) + [DigitChar(n % 10)]
  }

  /**
   * Int64.ToString / UInt64.ToString, with "-" as the negative sign (the
   * invariant culture's; the source prints with the current culture).
   */
  function IntToString(n: int): string {
    if n < 0 then "-" + NatToString(-n) else NatToString(n)
  }

  /** The value of a string of decimal digits. */
  function DigitsValue(s: string): nat
    requires forall i :: 0 <= i < |s| ==> IsDigit(s[i])
  {
    if s == [] then 0 else DigitsValue(s[..|s| - 1]) * 10 + DigitValue(s[|s| - 1])
  }

  /** The white space NumberStyles.Integer allows around a number: U+0009..U+000D and U+0020. */
  predicate IsWhite(c: char) { c == ' ' || '\t' <= c <= '\r' }

  function TrimStart(s: string): (r: string)
    ensures |r| <= |s|
  {
    if |s| > 0 && IsWhite(s[0]) then TrimStart(s[1..]) else s
  }

  function TrimEnd(s: string): (r: string)
    ensures |r| <= |s|
  {
    if |s| > 0 && IsWhite(s[|s| - 1]) then TrimEnd(s[..|s| - 1]) else s
  }

  predicate AllDigits(s: string) { |s| > 0 && forall i :: 0 <= i < |s| ==> IsDigit(s[i]) }

  /**
   * Convert.ToInt64(s, CultureInfo.InvariantCulture): optional white space,
   * an optional sign, at least one digit, optional white space, and a value
   * that fits in 64 bits. Anything else throws (None here).
   */
  function ParseInt64(s: string): (r: Option<int>)
    ensures r.Some? ==> Int64Min <= r.value <= Int64Max
  {
    var t := TrimEnd(TrimStart(s));
    var negative := |t| > 0 && t[0] == '-';
    var digits := if |t| > 0 && (t[0] == '-' || t[0] == '+') then t[1..] else t;
    if !AllDigits(digits) then None
    else
      var v: int := if negative then 0 - (DigitsValue(digits) as int) else DigitsValue(digits);
      if Int64Min <= v <= Int64Max then Some(v) else None
  }

  lemma {:induction false} DigitsValueOfNat(n: nat)
    ensures DigitsValue(NatToString(n)) == n
  {
    if n >= 10 {
      var s := NatToString(n);
      assert s[..|s| - 1] == NatToString(n / 10);
      DigitsValueOfNat(n / 10);
    }
  }

  lemma TrimDigits(s: string)
    requires AllDigits(s)
    ensures TrimEnd(TrimStart(s)) == s
  {
    assert !IsWhite(s[0]) && !IsWhite(s[|s| - 1]);
  }

  /** Parsing what IntToString printed gives the number back (the Int64 range). */
  lemma ParseIntToString(n: int)
    requires Int64Min <= n <= Int64Max
    ensures ParseInt64(IntToString(n)) == Some(n)
  {
    var m: nat := if n < 0 then -n else n;
    var digits := NatToString(m);
    DigitsValueOfNat(m);
    if n < 0 {
      var s := "-" + digits;
      assert !IsWhite(s[0]) && !IsWhite(s[|s| - 1]);
      assert TrimEnd(TrimStart(s)) == s;
      assert s[1..] == digits;
    } else {
      TrimDigits(digits);
      assert digits[0] != '-' && digits[0] != '+';
    }
  }

  /** A printed number contains no space, so it stays one token of a command line. */
  lemma IntToStringHasNoSpace(n: int)
    ensures ' ' !in IntToString(n)
  {
    var m: nat := if n < 0 then -n else n;
    var digits := NatToString(m);
    assert forall i :: 0 <= i < |digits| ==> digits[i] != ' ';
  }

  lemma IntToStringIsAscii(n: int)
    ensures IsAscii(IntToString(n))
  {
    var m: nat := if n < 0 then -n else n;
    var digits := NatToString(m);
    assert forall i :: 0 <= i < |digits| ==> IsDigit(digits[i]);
  }

  /** A printed number is a minus sign and digits. */
  lemma IntToStringChars(n: int)
    ensures forall i :: 0 <= i < |IntToString(n)| ==> IsDigit(IntToString(n)[i]) || IntToString(n)[i] == '-'
  {
    var m: nat := if n < 0 then -n else n;
    var digits := NatToString(m);
    assert forall i :: 0 <= i < |digits| ==> IsDigit(digits[i]);
  }
}
