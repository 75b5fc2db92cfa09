/**
 * The JSON converters of JsonConverters.cs: TimestampConverter writes a DateTime as the
 * whole seconds since 1970-01-01 and reads such a number back, and UnicodeConverter writes
 * a string as "\u" escapes of its UTF-16 code units.  The JSON reader and writer are not
 * modelled: the token's text stands for what they pass in and out.
 */
module JsonConverters {
  import opened Wrappers
  import opened Strings
  import Numbers
  import Types
  import DateTimeHelper

  //------------------------------------------------------------------
  // TimestampConverter
  //------------------------------------------------------------------

  /** new DateTime(1970, 1, 1).Ticks. */
  const EpochTicks: int := 621_355_968_000_000_000

  predicate FitsInt32(n: int) { -0x8000_0000 <= n <= 0x7FFF_FFFF }

  /** C#'s integer division and `(int)` of a quotient round toward zero. */
  function TruncDiv(a: int, b: int): (q: int)
    requires b > 0
    ensures a >= 0 ==> q * b <= a < (q + 1) * b
    ensures a < 0 ==> (q - 1) * b < a <= q * b
  {
    if a >= 0 then a / b else -((-a) / b)
  }

  /** (int)(dt - new DateTime(1970, 1, 1)).TotalSeconds, before the cast's range matters. */
  function SecondsSinceEpoch(dt: DateTimeHelper.DateTime): int {
    TruncDiv(dt - EpochTicks, DateTimeHelper.TicksPerSecond)
  }

  /**
   * TimestampConverter.WriteJson: the whole seconds from 1970-01-01 to the date, counted
   * toward 1970 (a fraction of a second is dropped).
   */
  function WriteTimestamp(dt: DateTimeHelper.DateTime): (n: int)
    requires FitsInt32(SecondsSinceEpoch(dt))
    ensures FitsInt32(n)
    ensures dt >= EpochTicks ==>
      EpochTicks + n * DateTimeHelper.TicksPerSecond <= dt < EpochTicks + (n + 1) * DateTimeHelper.TicksPerSecond
    ensures dt < EpochTicks ==>
      EpochTicks + (n - 1) * DateTimeHelper.TicksPerSecond < dt <= EpochTicks + n * DateTimeHelper.TicksPerSecond
  {
    SecondsSinceEpoch(dt)
  }

  /** new DateTime(1970, 1, 1).AddSeconds(n) for an Int32 `n`: always within the DateTime range. */
  function EpochPlus(n: int): (dt: DateTimeHelper.DateTime)
    requires FitsInt32(n)
    ensures dt == EpochTicks + n * DateTimeHelper.TicksPerSecond
  {
    EpochTicks + n * DateTimeHelper.TicksPerSecond
  }

  /**
   * TimestampConverter.ReadJson: int.Parse of the token's text, then that many seconds
   * after 1970-01-01.  A null token throws NullReference; text that is not an integer
   * throws Format, one outside Int32 throws Overflow.
   */
  function ReadTimestamp(token: Option<string>): (r: Result<DateTimeHelper.DateTime>)
    ensures token.None? ==> r == Err(NullReference)
    ensures token.Some? && Numbers.ParseInteger(token.value).None? ==> r == Err(FormatError)
    ensures r.Ok? ==> (token.Some? && Numbers.ParseInteger(token.value).Some?
                       && FitsInt32(Numbers.ParseInteger(token.value).value)
                       && r.value == EpochTicks + Numbers.ParseInteger(token.value).value * DateTimeHelper.TicksPerSecond)
    ensures r.Err? && token.Some? && Numbers.ParseInteger(token.value).Some? ==> r == Err(OverflowError)
  {
    if token.None? then Err(NullReference)
    else
      match Numbers.ParseInteger(token.value)
      case None => Err(FormatError)
      case Some(n) => if FitsInt32(n) then Ok(EpochPlus(n)) else Err(OverflowError)
  }

  /** A date on a whole second within the Int32 range of seconds is written and read back unchanged. */
  lemma TimestampRoundTrip(dt: DateTimeHelper.DateTime)
    requires FitsInt32(SecondsSinceEpoch(dt))
    requires (dt - EpochTicks) % DateTimeHelper.TicksPerSecond == 0
    ensures ReadTimestamp(Some(Numbers.IntToString(WriteTimestamp(dt)))) == Ok(dt)
  {
    var n := WriteTimestamp(dt);
    Numbers.ParseIntegerOfIntToString(n);
    assert dt == EpochTicks + n * DateTimeHelper.TicksPerSecond;
  }

  /** Any other date is read back as the whole second it falls in, counted toward 1970. */
  lemma TimestampTruncates(dt: DateTimeHelper.DateTime)
    requires FitsInt32(SecondsSinceEpoch(dt))
    ensures var r := ReadTimestamp(Some(Numbers.IntToString(WriteTimestamp(dt))));
      r.Ok? && (r.value - EpochTicks) % DateTimeHelper.TicksPerSecond == 0
      && (dt >= EpochTicks ==> EpochTicks <= r.value <= dt < r.value + DateTimeHelper.TicksPerSecond)
      && (dt < EpochTicks ==> r.value - DateTimeHelper.TicksPerSecond < dt <= r.value <= EpochTicks)
  {
    var n := WriteTimestamp(dt);
    Numbers.ParseIntegerOfIntToString(n);
    var v := EpochTicks + n * DateTimeHelper.TicksPerSecond;
    assert ReadTimestamp(Some(Numbers.IntToString(n))) == Ok(v);
    assert (v - EpochTicks) % DateTimeHelper.TicksPerSecond == 0 by {
      WholeSeconds(n);
    }
  }

  lemma WholeSeconds(n: int)
    ensures (n * DateTimeHelper.TicksPerSecond) % DateTimeHelper.TicksPerSecond == 0
  {
  }

  /** Every Int32 number of seconds is read and written back unchanged. */
  lemma TimestampReadWrite(n: int)
    requires FitsInt32(n)
    ensures var r := ReadTimestamp(Some(Numbers.IntToString(n)));
      r.Ok? && FitsInt32(SecondsSinceEpoch(r.value)) && WriteTimestamp(r.value) == n
  {
    Numbers.ParseIntegerOfIntToString(n);
    var dt := EpochPlus(n);
    assert dt - EpochTicks == n * DateTimeHelper.TicksPerSecond;
    assert SecondsSinceEpoch(dt) == n by {
      TruncDivExact(n, DateTimeHelper.TicksPerSecond);
    }
  }

  lemma TruncDivExact(n: int, b: int)
    requires b > 0
    ensures TruncDiv(n * b, b) == n
  {
    if n < 0 {
      assert -(n * b) == (-n) * b;
    }
  }

  /**
   * CanConvert: TimestampConverter takes DateTime and nothing else (not even DateTime?),
   * UnicodeConverter takes string and nothing else, so no type goes to both.
   */
  predicate TimestampCanConvert(t: Types.TypeDesc) { t == Types.DateTimeType }

  predicate UnicodeCanConvert(t: Types.TypeDesc) { t == Types.StringType }

  lemma CanConvertDisjoint(t: Types.TypeDesc)
    ensures !(TimestampCanConvert(t) && UnicodeCanConvert(t))
    ensures TimestampCanConvert(t) <==> t == Types.DateTimeType
    ensures UnicodeCanConvert(t) <==> t == Types.StringType
    ensures !TimestampCanConvert(Types.NullableType(Types.DateTimeType))
  {
  }

  //------------------------------------------------------------------
  // UnicodeConverter
  //------------------------------------------------------------------

  predicate IsCodeUnits(units: seq<int>) {
    forall k :: 0 <= k < |units| ==> 0 <= units[k] < 0x10000
  }

  /** Encoding.Unicode.GetBytes: each code unit as two bytes, the low byte first. */
  function Utf16LeBytes(units: seq<int>): (r: seq<byte>)
    requires IsCodeUnits(units)
    ensures |r| == 2 * |units|
  {
    seq(2 * |units|, i requires 0 <= i < 2 * |units| =>
      if i % 2 == 0 then (units[i / 2] % 256) as byte else (units[i / 2] / 256) as byte)
  }

  lemma LeBytesAt(units: seq<int>, k: nat)
    requires IsCodeUnits(units) && k < |units|
    ensures Utf16LeBytes(units)[2 * k] == (units[k] % 256) as byte
    ensures Utf16LeBytes(units)[2 * k + 1] == (units[k] / 256) as byte
    ensures UnitEscapeOf(units[k]) == UnitEscape(Utf16LeBytes(units)[2 * k + 1], Utf16LeBytes(units)[2 * k])
  {
  }

  const EscapeHead := "\\u"

  /** One escape: "\u", then the high byte and the low byte as two upper-case hex digits each. */
  function UnitEscape(hi: byte, lo: byte): (r: string)
    ensures |r| == 6 && r[0] == '\\' && r[1] == 'u'
  {
    EscapeHead + Numbers.HexByteUpper(hi) + Numbers.HexByteUpper(lo)
  }

  /** The escape of one code unit: its high byte, then its low byte. */
  function UnitEscapeOf(u: int): (r: string)
    requires 0 <= u < 0x10000
    ensures |r| == 6
  {
    UnitEscape((u / 256) as byte, (u % 256) as byte)
  }

  /** The escapes of a run of code units, in order. */
  function EscapeUnits(units: seq<int>): (r: string)
    requires IsCodeUnits(units)
    ensures |r| == 6 * |units|
  {
    if units == [] then ""
    else EscapeUnits(units[..|units| - 1]) + UnitEscapeOf(units[|units| - 1])
  }

  lemma EscapeUnitsStep(units: seq<int>, k: nat)
    requires IsCodeUnits(units) && k < |units|
    ensures EscapeUnits(units[..k + 1]) == EscapeUnits(units[..k]) + UnitEscapeOf(units[k])
  {
    assert units[..k + 1][..k] == units[..k];
  }

  /** One turn of ToUnicode's loop appends the escape of the next code unit. */
  lemma ToUnicodeStep(units: seq<int>, bts: seq<byte>, i: nat, k: nat)
    requires IsCodeUnits(units) && bts == Utf16LeBytes(units)
    requires k < |units| && i == 2 * k
    ensures i + 1 < |bts|
    ensures forall r: string :: r == EscapeUnits(units[..k]) ==>
      r + EscapeHead + Numbers.HexByteUpper(bts[i + 1]) + Numbers.HexByteUpper(bts[i]) == EscapeUnits(units[..k + 1])
  {
    EscapeUnitsStep(units, k);
    LeBytesAt(units, k);
  }

  /** UnicodeConverter.ToUnicode: the loop over the UTF-16 bytes, two at a time. */
  method ToUnicode(str: string) returns (r: string)
    ensures r == EscapeUnits(Utf16(str))
  {
    var units := Utf16(str);
    var bts := Utf16LeBytes(units);
    r := "";
    var i := 0;
    ghost var k := 0;
    while i < |bts|
      invariant 0 <= k <= |units| && i == 2 * k
      invariant r == EscapeUnits(units[..k])
    {
      ToUnicodeStep(units, bts, i, k);
      r := r + EscapeHead + Numbers.HexByteUpper(bts[i + 1]) + Numbers.HexByteUpper(bts[i]);
      i, k := i + 2, k + 1;
    }
    assert units[..k] == units;
  }

  /** Each escape takes six characters, and only the empty string has none. */
  lemma ToUnicodeLength(str: string)
    ensures |EscapeUnits(Utf16(str))| == 6 * |Utf16(str)|
    ensures EscapeUnits(Utf16(str)) == [] <==> str == []
  {
  }

  /** Below U+10000 there is one escape per character. */
  lemma ToUnicodeBasic(str: string)
    requires forall k :: 0 <= k < |str| ==> str[k] as int < 0x10000
    ensures |EscapeUnits(Utf16(str))| == 6 * |str|
  {
    Utf16OfBasic(str);
  }

  //------------------------------------------------------------------
  // Reading the escapes back
  //------------------------------------------------------------------

  predicate IsEscapeGroup(g: string) {
    |g| == 6 && g[0] == '\\' && g[1] == 'u' && forall k :: 2 <= k < 6 ==> Numbers.IsHexDigit(g[k])
  }

  /** The code unit a "\uXXXX" escape stands for. */
  function GroupValue(g: string): (u: int)
    requires IsEscapeGroup(g)
    ensures 0 <= u < 0x10000
  {
    ((Numbers.HexValue(g[2]) * 16 + Numbers.HexValue(g[3])) * 16 + Numbers.HexValue(g[4])) * 16 + Numbers.HexValue(g[5])
  }

  /** What a JSON reader makes of a run of "\uXXXX" escapes: the code units, or None. */
  function ReadEscapes(s: string): (r: Option<seq<int>>)
    decreases |s|
  {
    if s == [] then Some([])
    else if |s| < 6 || !IsEscapeGroup(s[|s| - 6..]) then None
    else
      match ReadEscapes(s[..|s| - 6])
      case Some(init) => Some(init + [GroupValue(s[|s| - 6..])])
      case None => None
  }

  lemma GroupValueOfEscape(hi: byte, lo: byte)
    ensures IsEscapeGroup(UnitEscape(hi, lo))
    ensures GroupValue(UnitEscape(hi, lo)) == hi as int * 256 + lo as int
  {
    var g := UnitEscape(hi, lo);
    var a, b := Numbers.HexByteUpper(hi), Numbers.HexByteUpper(lo);
    assert g[2] == a[0] && g[3] == a[1] && g[4] == b[0] && g[5] == b[1];
    var h, l := Numbers.HexValue(a[0]) * 16 + Numbers.HexValue(a[1]), Numbers.HexValue(b[0]) * 16 + Numbers.HexValue(b[1]);
    assert GroupValue(g) == h * 256 + l;
  }

  lemma UnitEscapeOfValue(u: int)
    requires 0 <= u < 0x10000
    ensures IsEscapeGroup(UnitEscapeOf(u)) && GroupValue(UnitEscapeOf(u)) == u
  {
    GroupValueOfEscape((u / 256) as byte, (u % 256) as byte);
  }

  lemma ReadEscapesSnoc(s: string, g: string)
    requires IsEscapeGroup(g)
    ensures ReadEscapes(s + g) == if ReadEscapes(s).Some? then Some(ReadEscapes(s).value + [GroupValue(g)]) else None
  {
    var t := s + g;
    assert t[..|t| - 6] == s && t[|t| - 6..] == g;
  }

  /** The escapes read back as the code units they were made from. */
  lemma {:induction false} ReadEscapesOfEscapeUnits(units: seq<int>)
    requires IsCodeUnits(units)
    ensures ReadEscapes(EscapeUnits(units)) == Some(units)
  {
    if units != [] {
      var init, u := units[..|units| - 1], units[|units| - 1];
      assert units == init + [u];
      var g := UnitEscapeOf(u);
      assert EscapeUnits(units) == EscapeUnits(init) + g;
      UnitEscapeOfValue(u);
      ReadEscapesSnoc(EscapeUnits(init), g);
      ReadEscapesOfEscapeUnits(init);
    }
  }

  /** ToUnicode's output decodes to the string's UTF-16 code units. */
  lemma ToUnicodeDecodes(str: string)
    ensures ReadEscapes(EscapeUnits(Utf16(str))) == Some(Utf16(str))
  {
    ReadEscapesOfEscapeUnits(Utf16(str));
  }
}
