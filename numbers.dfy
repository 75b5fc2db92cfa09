/**
 * Integer text: decimal formatting ("{0}" of an integer), int.TryParse with the default
 * NumberStyles.Integer, and hexadecimal digits ("X2", "x").
 */
module Numbers {
  import opened Wrappers

  predicate IsDigit(c: char) { '0' <= c <= '9' }

  predicate AllDigits(s: string) { forall i :: 0 <= i < |s| ==> IsDigit(s[i]) }

  function DigitChar(d: nat): (c: char)
    requires d < 10
    ensures IsDigit(c) && c as int - '0' as int == d
  {
    ('0' as int + d) as char
  }

  function DigitValue(c: char): (d: nat)
    requires IsDigit(c)
    ensures d < 10 && DigitChar(d) == c
  {
    c as int - '0' as int
  }

  /** The shortest decimal numeral of `n`. */
  function NatToString(n: nat): (r: string)
    ensures |r| >= 1 && AllDigits(r)
    ensures r[0] == '0' ==> n == 0 && |r| == 1
  {
    if n < 10 then [DigitChar(n)] else NatToString(n / 10) + [DigitChar(n % 10)]
  }

  /** The value of a (non-empty or empty) run of decimal digits. */
  function ParseDigits(s: string): (n: nat)
    requires AllDigits(s)
    ensures s == [] ==> n == 0
  {
    if s == [] then 0 else ParseDigits(s[..|s| - 1]) * 10 + DigitValue(s[|s| - 1])
  }

  lemma {:induction false} ParseDigitsOfNatToString(n: nat)
    ensures ParseDigits(NatToString(n)) == n
  {
    if n >= 10 {
      var r := NatToString(n);
      assert r[..|r| - 1] == NatToString(n / 10);
      ParseDigitsOfNatToString(n / 10);
    }
  }

  /** Int32.ToString() / "{0}" of an integer: optional minus sign, then the numeral. */
  function IntToString(i: int): (r: string)
    ensures |r| >= 1
    ensures i >= 0 ==> r == NatToString(i)
    ensures i < 0 ==> r == "-" + NatToString(-i)
  {
    if i < 0 then "-" + NatToString(-i) else NatToString(i)
  }

  /** The white space NumberStyles.AllowLeadingWhite / AllowTrailingWhite accept. */
  predicate IsNumberSpace(c: char) { c == ' ' || ('\t' <= c <= '\r') }

  function TrimNumberSpace(s: string): (r: string)
    ensures |r| <= |s|
    ensures r == [] || (!IsNumberSpace(r[0]) && !IsNumberSpace(r[|r| - 1]))
    ensures s == [] || (!IsNumberSpace(s[0]) && !IsNumberSpace(s[|s| - 1])) ==> r == s
  {
    if s == [] then s
    else if IsNumberSpace(s[0]) then TrimNumberSpace(s[1..])
    else if IsNumberSpace(s[|s| - 1]) then TrimNumberSpace(s[..|s| - 1])
    else s
  }

  /** The text before its trailing '\0' characters. */
  function TrimNulls(s: string): (r: string)
    ensures |r| <= |s|
    ensures r == [] || r[|r| - 1] != '\0'
  {
    if s != [] && s[|s| - 1] == '\0' then TrimNulls(s[..|s| - 1]) else s
  }

  /**
   * The value int.TryParse would read from `s` before its range check: white space, an
   * optional sign, at least one ASCII digit, white space, and then nothing but '\0'
   * characters (the runtime's number parser accepts trailing nulls).
   */
  function ParseInteger(s: string): (r: Option<int>)
    ensures s != [] && AllDigits(s) ==> r == Some(ParseDigits(s))
    ensures s == [] ==> r == None
  {
    var t := TrimNumberSpace(TrimNulls(s));
    if t == [] then None
    else if t[0] == '-' || t[0] == '+' then
      var d := t[1..];
      if d != [] && AllDigits(d) then
        var v: int := ParseDigits(d);
        Some(if t[0] == '-' then -v else v)
      else None
    else if AllDigits(t) then Some(ParseDigits(t))
    else None
  }

  lemma ParseIntegerOfIntToString(i: int)
    ensures ParseInteger(IntToString(i)) == Some(i)
  {
    if i < 0 {
      ParseIntegerOfNegative(-i);
    } else {
      ParseDigitsOfNatToString(i);
    }
  }

  lemma ParseIntegerOfNegative(n: nat)
    requires n > 0
    ensures ParseInteger("-" + NatToString(n)) == Some(-(n as int))
  {
    ParseDigitsOfNatToString(n);
    ParseIntegerOfMinus(NatToString(n), n);
  }

  lemma ParseIntegerOfMinus(d: string, v: nat)
    requires d != [] && AllDigits(d) && ParseDigits(d) == v
    ensures ParseInteger("-" + d) == Some(-(v as int))
  {
    var r := "-" + d;
    assert r[0] == '-' && r[1..] == d;
    assert r[|r| - 1] == d[|d| - 1];
    assert TrimNulls(r) == r;
    assert TrimNumberSpace(r) == r;
  }

  /** Trailing '\0' characters after a number are read as if absent. */
  lemma ParseIntegerIgnoresTrailingNull(s: string)
    ensures ParseInteger(s + "\0") == ParseInteger(s)
  {
    assert (s + "\0")[..|s|] == s;
  }

  /** So "12\0" reads as 12, while a null before white space ends the number. */
  lemma ParseIntegerOfNullTerminated()
    ensures ParseInteger("12\0") == Some(12)
    ensures ParseInteger("12\0 ") == None
  {
    ParseIntegerIgnoresTrailingNull("12");
    assert ParseDigits("12") == 12;
    var t := TrimNumberSpace(TrimNulls("12\0 "));
    assert TrimNulls("12\0 ") == "12\0 ";
    assert t == "12\0";
    assert !AllDigits(t) by { assert !IsDigit(t[2]); }
  }

  const Int32Min := -0x8000_0000
  const Int32Max := 0x7FFF_FFFF

  /** Int32 arithmetic wraps around (the source adds without `checked`). */
  function WrapInt32(x: int): (r: int)
    ensures Int32Min <= r <= Int32Max
    ensures (r - x) % 0x1_0000_0000 == 0
    ensures Int32Min <= x <= Int32Max ==> r == x
    ensures x == Int32Max + 1 ==> r == Int32Min
  {
    (x - Int32Min) % 0x1_0000_0000 + Int32Min
  }

  /** "X" formatting of one hexadecimal digit. */
  function HexDigitUpper(d: nat): (c: char)
    requires d < 16
    ensures d < 10 ==> c == DigitChar(d)
    ensures d >= 10 ==> 'A' <= c <= 'F' && c as int - 'A' as int == d - 10
  {
    if d < 10 then DigitChar(d) else ('A' as int + d - 10) as char
  }

  /** "x" formatting of one hexadecimal digit. */
  function HexDigitLower(d: nat): (c: char)
    requires d < 16
    ensures d < 10 ==> c == DigitChar(d)
    ensures d >= 10 ==> 'a' <= c <= 'f' && c as int - 'a' as int == d - 10
  {
    if d < 10 then DigitChar(d) else ('a' as int + d - 10) as char
  }

  predicate IsHexDigit(c: char) {
    IsDigit(c) || ('a' <= c <= 'f') || ('A' <= c <= 'F')
  }

  /** The value of a hexadecimal digit of either case. */
  function HexValue(c: char): (d: nat)
    requires IsHexDigit(c)
    ensures d < 16
    ensures HexDigitUpper(d) == c || HexDigitLower(d) == c
  {
    if IsDigit(c) then DigitValue(c)
    else if 'a' <= c <= 'f' then c as int - 'a' as int + 10
    else c as int - 'A' as int + 10
  }

  /** "{0:X2}" of a byte: exactly two upper-case hexadecimal digits. */
  function HexByteUpper(b: byte): (r: string)
    ensures |r| == 2 && IsHexDigit(r[0]) && IsHexDigit(r[1])
    ensures HexValue(r[0]) * 16 + HexValue(r[1]) == b as int
  {
    [HexDigitUpper(b as int / 16), HexDigitUpper(b as int % 16)]
  }

  /** "{0:x2}" of a byte: exactly two lower-case hexadecimal digits. */
  function HexByteLower(b: byte): (r: string)
    ensures |r| == 2 && IsHexDigit(r[0]) && IsHexDigit(r[1])
    ensures HexValue(r[0]) * 16 + HexValue(r[1]) == b as int
  {
    [HexDigitLower(b as int / 16), HexDigitLower(b as int % 16)]
  }

  /** Int32.ToString("x") of a non-negative value: lower-case hex without leading zeros. */
  function NatToHexLower(n: nat): (r: string)
    ensures |r| >= 1
    ensures forall i :: 0 <= i < |r| ==> IsHexDigit(r[i]) && !('A' <= r[i] <= 'F')
    ensures r[0] == '0' ==> n == 0
  {
    if n < 16 then [HexDigitLower(n)] else NatToHexLower(n / 16) + [HexDigitLower(n % 16)]
  }

  /** The value of a run of hexadecimal digits. */
  function ParseHexDigits(s: string): (n: nat)
    requires forall i :: 0 <= i < |s| ==> IsHexDigit(s[i])
  {
    if s == [] then 0 else ParseHexDigits(s[..|s| - 1]) * 16 + HexValue(s[|s| - 1])
  }

  lemma {:induction false} ParseHexDigitsOfNatToHexLower(n: nat)
    ensures ParseHexDigits(NatToHexLower(n)) == n
  {
    if n >= 16 {
      var r := NatToHexLower(n);
      assert r[..|r| - 1] == NatToHexLower(n / 16);
      ParseHexDigitsOfNatToHexLower(n / 16);
    }
  }

  /** The number of digits NatToHexLower writes. */
  lemma {:induction false} NatToHexLowerLength(n: nat)
    ensures n < 16 ==> |NatToHexLower(n)| == 1
    ensures 16 <= n < 256 ==> |NatToHexLower(n)| == 2
    ensures 256 <= n < 4096 ==> |NatToHexLower(n)| == 3
    ensures 4096 <= n < 65536 ==> |NatToHexLower(n)| == 4
  {
    if n >= 16 { NatToHexLowerLength(n / 16); }
  }
}
