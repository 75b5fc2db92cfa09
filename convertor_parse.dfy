/**
 * Convertor.Parse: reading a scalar from text for a declared type (IsBasicType,
 * ParseBasicType), the typed TryParse wrappers for integers and booleans, and enum parsing
 * (ParseEnum, ParseEnums).  Float, double, decimal and DateTime text go through the Platform.
 */
module ConvertorParse {
  import opened Wrappers
  import opened Strings
  import opened Types
  import opened Values
  import Numbers
  import opened EnumNames

  /** IsBasicType: string, the six integer types, float, double, decimal, bool, DateTime and
   *  enums, or Nullable<T> of one of them. */
  predicate IsBasicType(t: TypeDesc) {
    var u := if IsNullable(t) then GetRealType(t) else t;
    u == StringType || IsParsedType(u)
  }

  /** The types ParseBasicType parses (every basic type but string). */
  predicate IsParsedType(t: TypeDesc) {
    IsNumber(t) || t == Primitive(Boolean) || t == DateTimeType || IsEnum(t)
  }

  predicate InRange(p: Prim, n: int)
    requires IsIntegral(p)
  {
    MinOf(p) <= n <= MaxOf(p)
  }

  /** ParseInt, ParseLong, ParseShort, ParseUInt, ParseULong, ParseUShort: TryParse, null on
   *  failure or when the number does not fit. */
  function ParseIntegral(p: Prim, text: string): (r: Option<int>)
    requires IsIntegral(p)
    ensures r.Some? ==> InRange(p, r.value) && Numbers.ParseInteger(text) == Some(r.value)
    ensures r.None? ==> Numbers.ParseInteger(text).None? || !InRange(p, Numbers.ParseInteger(text).value)
  {
    match Numbers.ParseInteger(text)
    case Some(n) => if InRange(p, n) then Some(n) else None
    case None => None
  }

  /** The characters bool.TryParse strips from both ends: white space and '\0'. */
  predicate IsSpaceOrNull(c: char) { IsWhiteSpace(c) || c == '\0' }

  /** Boolean.TrimWhiteSpaceAndNull: removes leading and trailing white space and nulls. */
  function TrimWhiteSpaceAndNull(s: string): (r: string)
    ensures |r| <= |s|
    ensures r == [] || (!IsSpaceOrNull(r[0]) && !IsSpaceOrNull(r[|r| - 1]))
    ensures s == [] || (!IsSpaceOrNull(s[0]) && !IsSpaceOrNull(s[|s| - 1])) ==> r == s
  {
    if s == [] then s
    else if IsSpaceOrNull(s[0]) then TrimWhiteSpaceAndNull(s[1..])
    else if IsSpaceOrNull(s[|s| - 1]) then TrimWhiteSpaceAndNull(s[..|s| - 1])
    else s
  }

  /**
   * ParseBool: bool.TryParse, "True" or "False" in any case.  The runtime compares the
   * text as it is and then with white space and '\0' trimmed from both ends; since neither
   * word holds such a character, the trimmed comparison decides.
   */
  function ParseBool(text: string): (r: Option<bool>)
    ensures r.Some? <==> EqualsIgnoreCase(TrimWhiteSpaceAndNull(text), "True")
                         || EqualsIgnoreCase(TrimWhiteSpaceAndNull(text), "False")
    ensures r == Some(true) <==> EqualsIgnoreCase(TrimWhiteSpaceAndNull(text), "True")
  {
    var s := TrimWhiteSpaceAndNull(text);
    if EqualsIgnoreCase(s, "True") then Some(true)
    else if EqualsIgnoreCase(s, "False") then Some(false)
    else None
  }

  /**
   * Enum.Parse(type, text, ignoreCase: true) / Enum.TryParse.  The text is trimmed; empty
   * text fails.  Text starting with a digit or a sign is first read as an Int32: a number
   * out of range fails, and text that is not a number at all falls through to names.
   * Names are the comma-separated pieces, each trimmed and matched ignoring case; every
   * piece must name a member, and the result is the OR of their values.
   */
  function ParseEnumValue(t: TypeDesc, text: string): (r: Option<int>)
    requires t.EnumType?
    ensures r.Some? ==> Trim(text) != [] && -0x8000_0000 <= r.value <= 0x7FFF_FFFF
  {
    var s := Trim(text);
    if s == [] then None
    else if StartsNumber(s) && Numbers.ParseInteger(s).Some? then
      var n := Numbers.ParseInteger(s).value;
      if InRange(Int32, n) then Some(n) else None
    else ParseEnumNames(t.members, s)
  }

  /** Enum text that Enum.Parse first tries as a number: it starts with a digit or a sign. */
  predicate StartsNumber(s: string)
    requires s != []
  {
    Numbers.IsDigit(s[0]) || s[0] == '-' || s[0] == '+'
  }

  /** ParseEnum(text, type): null for empty text and for text Enum.Parse rejects. */
  function ParseEnum(text: string, t: TypeDesc): (r: Value)
    requires t.EnumType?
    ensures text == "" ==> r == Null
    ensures r != Null ==> ParseEnumValue(t, text).Some? && r == EnumV(t, ParseEnumValue(t, text).value)
  {
    if text == "" then Null
    else match ParseEnumValue(t, text)
      case Some(n) => EnumV(t, n)
      case None => Null
  }

  /** The typed parse of a basic non-string type, null when the text does not parse. */
  function ParseTyped(p: Platform, text: string, t: TypeDesc): (r: Value)
    requires IsParsedType(t)
    ensures r != Null ==> TypeOf(r) == t
  {
    match t
    case Primitive(q) => ParsePrimitive(p, text, q)
    case DecimalType => (match p.parseDecimal(text) case Some(d) => Dec(d) case None => Null)
    case DateTimeType => (match p.parseDate(text) case Some(d) => Date(d) case None => Null)
    case EnumType(_, _, _, _) => ParseEnum(text, t)
  }

  /** The typed parse of bool, float, double and the integer types. */
  function ParsePrimitive(p: Platform, text: string, q: Prim): (r: Value)
    requires q.Boolean? || q.Single? || q.Double? || IsIntegral(q)
    ensures r != Null ==> TypeOf(r) == Primitive(q)
  {
    if q == Boolean then (match ParseBool(text) case Some(b) => Bool(b) case None => Null)
    else if q == Single || q == Double then (match p.parseReal(q, text) case Some(x) => Real(q, x) case None => Null)
    else (match ParseIntegral(q, text) case Some(n) => Int(q, n) case None => Null)
  }

  /** What ParseBasicType returns for empty text and a non-nullable type: a boxed Int32 zero
   *  for every numeric type, true for bool, the default date, the enum's zero. */
  function EmptyDefault(t: TypeDesc): Value
    requires IsParsedType(t)
  {
    if t == Primitive(Boolean) then Bool(true)
    else if t == DateTimeType then Date(0)
    else if t.EnumType? then ParseEnum("0", t)
    else Int(Int32, 0)
  }

  /**
   * ParseBasicType.  For Nullable<T>, empty text is null and otherwise T's TryParse result
   * (null on failure) is returned; a Nullable<T> of another type continues with T.  For a
   * non-nullable type, empty text gives EmptyDefault and unparseable text fails in
   * Nullable<T>.Value, except for enums, which give null.  Other types get the text back.
   */
  function ParseBasicType(p: Platform, text: string, t: TypeDesc): (r: Result<Value>)
    ensures r.Err? ==> r.error == NullValue
  {
    if t == StringType then Ok(Str(text))
    else if IsNullable(t) && text == "" then Ok(Null)
    else
      var u := if IsNullable(t) then GetRealType(t) else t;
      if IsNullable(t) && IsParsedType(u) then Ok(ParseTyped(p, text, u))
      else if text == "" && IsParsedType(u) then Ok(EmptyDefault(u))
      else if IsParsedType(u) then
        var v := ParseTyped(p, text, u);
        if v == Null && !u.EnumType? then Err(NullValue) else Ok(v)
      else Ok(Str(text))
  }

  /** ParseEnumValue for one enum type, as a function of the text. */
  function EnumParser(t: TypeDesc): string -> Option<int>
    requires t.EnumType?
  {
    s => ParseEnumValue(t, s)
  }

  /** The values ParseEnums keeps from the first n items: those that parse, in order. */
  function ParsedEnums(parse: string -> Option<int>, items: seq<string>, n: nat): (r: seq<int>)
    requires n <= |items|
    ensures |r| <= n
  {
    if n == 0 then []
    else match parse(items[n - 1])
      case Some(e) => ParsedEnums(parse, items, n - 1) + [e]
      case None => ParsedEnums(parse, items, n - 1)
  }

  /** The pieces of Split with RemoveEmptyEntries. */
  function NonEmptyPieces(pieces: seq<string>): (r: seq<string>)
    ensures forall i :: 0 <= i < |r| ==> r[i] != []
    ensures |r| <= |pieces|
    decreases |pieces|
  {
    if pieces == [] then []
    else
      var init := NonEmptyPieces(pieces[..|pieces| - 1]);
      var last := pieces[|pieces| - 1];
      assert pieces == pieces[..|pieces| - 1] + [last];
      if last == [] then init else init + [last]
  }

  /** ParseEnums: splits on the separator dropping empty entries, and adds each item that
   *  parses as the enum. */
  method ParseEnums(text: string, separator: char, t: TypeDesc) returns (enums: seq<int>)
    requires t.EnumType?
    ensures text == "" ==> enums == []
    ensures text != "" ==> enums == ParsedEnums(EnumParser(t), NonEmptyPieces(Split(text, separator)), |NonEmptyPieces(Split(text, separator))|)
  {
    enums := [];
    if text != "" {
      enums := ParseItems(EnumParser(t), NonEmptyPieces(Split(text, separator)));
    }
  }

  /** The loop of ParseEnums: parses each item and adds the values that parse. */
  method ParseItems(parse: string -> Option<int>, items: seq<string>) returns (enums: seq<int>)
    ensures enums == ParsedEnums(parse, items, |items|)
  {
    enums := [];
    var i := 0;
    while i < |items|
      invariant 0 <= i <= |items|
      invariant enums == ParsedEnums(parse, items, i)
    {
      var e := parse(items[i]);
      if e.Some? {
        enums := enums + [e.value];
      }
      i := i + 1;
    }
  }

  /** Items that all parse are all kept, in order. */
  lemma {:induction false} ParsedEnumsOfParsed(parse: string -> Option<int>, items: seq<string>, values: seq<int>, n: nat)
    requires n <= |items| == |values|
    requires forall k :: 0 <= k < |items| ==> parse(items[k]) == Some(values[k])
    ensures ParsedEnums(parse, items, n) == values[..n]
  {
    if n > 0 {
      assert values[..n] == values[..n - 1] + [values[n - 1]];
      ParsedEnumsOfParsed(parse, items, values, n - 1);
    }
  }

  //------------------------------------------------------------------
  // Properties
  //------------------------------------------------------------------

  /** IsBasicType looks through Nullable<T>; decimal is basic although it is not simple. */
  lemma BasicTypes(t: TypeDesc)
    ensures IsBasicType(NullableType(t)) <==> IsBasicType(t) || (t.NullableType? && IsBasicType(t.inner))
    ensures IsNumber(t) ==> IsBasicType(t)
    ensures IsBasicType(DecimalType) && !IsSimpleType(DecimalType)
    ensures IsSimpleType(t) && !t.Primitive? ==> IsBasicType(t)
  {
  }

  lemma TrimOfTrimmed(s: string)
    requires s == [] || (!IsWhiteSpace(s[0]) && !IsWhiteSpace(s[|s| - 1]))
    ensures Trim(s) == s
  {
    assert TrimStartWhiteSpace(s) == s;
    assert TrimEndWhiteSpace(s) == s;
  }

  /** The integer parsers read back an integer's text exactly when it is in range. */
  lemma ParseIntegralOfText(p: Prim, n: int)
    requires IsIntegral(p)
    ensures ParseIntegral(p, Numbers.IntToString(n)) == (if InRange(p, n) then Some(n) else None)
  {
    Numbers.ParseIntegerOfIntToString(n);
  }

  /** Boolean text reads back as the boolean. */
  lemma ParseBoolOfText(b: bool)
    ensures ParseBool(BoolText(b)) == Some(b)
  {
    var s := BoolText(b);
    assert s == "True" || s == "False";
    assert TrimWhiteSpaceAndNull(s) == s by {
      assert !IsSpaceOrNull(s[0]) && !IsSpaceOrNull(s[|s| - 1]);
    }
    assert EqualsIgnoreCase("True", "True");
    assert !EqualsIgnoreCase("False", "True") by {
      assert ToLower("False")[0] == 'f' && ToLower("True")[0] == 't';
    }
  }

  /** bool.TryParse ignores a trailing null: "True\0" parses. */
  lemma ParseBoolOfNullTerminated()
    ensures ParseBool("True\0") == Some(true)
  {
    assert TrimWhiteSpaceAndNull("True\0") == "True" by {
      assert "True\0"[..4] == "True";
      assert TrimWhiteSpaceAndNull("True") == "True";
    }
    ParseBoolOfText(true);
  }

  /** ... and white space and nulls on both sides: " False\0" parses. */
  lemma ParseBoolOfPadded()
    ensures ParseBool(" False\0") == Some(false)
  {
    assert TrimWhiteSpaceAndNull(" False\0") == "False" by {
      assert " False\0"[1..] == "False\0";
      assert "False\0"[..5] == "False";
      assert TrimWhiteSpaceAndNull("False") == "False";
    }
    ParseBoolOfText(false);
  }

  /** A letter, digit or underscore: the characters of a member name. */
  predicate IsNameChar(c: char) {
    ('a' <= c <= 'z') || ('A' <= c <= 'Z') || ('0' <= c <= '9') || c == '_'
  }

  /** An enum the compiler accepts: identifier names, distinct even ignoring case, and
   *  distinct Int32 values. */
  predicate WellFormedEnum(t: TypeDesc)
    requires t.EnumType?
  {
    var m := t.members;
    (forall i :: 0 <= i < |m| ==>
      m[i].0 != [] && !Numbers.IsDigit(m[i].0[0]) && (forall k :: 0 <= k < |m[i].0| ==> IsNameChar(m[i].0[k]))
      && InRange(Int32, m[i].1))
    && (forall i, j :: 0 <= i < j < |m| ==> !EqualsIgnoreCase(m[i].0, m[j].0) && m[i].1 != m[j].1)
  }

  /** A member name the compiler accepts: a letter or underscore, then letters, digits and
   *  underscores. */
  predicate IsIdentifier(name: string) {
    name != [] && !Numbers.IsDigit(name[0]) && forall k :: 0 <= k < |name| ==> IsNameChar(name[k])
  }

  /** A name of letters and underscores, not empty, is an identifier. */
  lemma IdentifierChars(name: string)
    requires name != [] && forall k :: 0 <= k < |name| ==> ('a' <= name[k] <= 'z') || ('A' <= name[k] <= 'Z') || name[k] == '_'
    ensures IsIdentifier(name)
  {
  }

  /** Two names that differ in length, or ignoring case in one of their first two
   *  characters. */
  predicate Apart(a: string, b: string) {
    |a| != |b| || (|a| >= 2 && (ToLowerChar(a[0]) != ToLowerChar(b[0]) || ToLowerChar(a[1]) != ToLowerChar(b[1])))
  }

  /** Apart names are not equal ignoring case. */
  lemma ApartDiffer(a: string, b: string)
    requires Apart(a, b)
    ensures !EqualsIgnoreCase(a, b)
  {
  }

  /** The members of an enum that leaves its values implicit: the names in declaration
   *  order, numbered from 0. */
  function Numbered(names: seq<string>): (r: seq<(string, int)>)
    ensures |r| == |names|
    ensures forall i :: 0 <= i < |names| ==> r[i] == (names[i], i)
  {
    seq(|names|, i requires 0 <= i < |names| => (names[i], i))
  }

  /** An enum numbered from 0 is well formed when its names are identifiers and pairwise
   *  apart. */
  lemma NumberedEnumWellFormed(t: TypeDesc, names: seq<string>)
    requires t.EnumType? && t.members == Numbered(names) && |names| <= 0x8000_0000
    requires forall i :: 0 <= i < |names| ==> IsIdentifier(names[i])
    requires forall i, j :: 0 <= i < j < |names| ==> Apart(names[i], names[j])
    ensures WellFormedEnum(t)
  {
    forall i, j | 0 <= i < j < |names|
      ensures !EqualsIgnoreCase(t.members[i].0, t.members[j].0)
    {
      ApartDiffer(names[i], names[j]);
    }
  }

  /**
   * Trimmed text that cannot start a number and holds no comma is one piece, read as the
   * value of the member its name matches.
   */
  lemma ParseEnumOfMatch(t: TypeDesc, s: string, i: nat)
    requires t.EnumType? && i < |t.members| && InRange(Int32, t.members[i].1)
    requires s != [] && Trim(s) == s && ',' !in s
    requires !StartsNumber(s)
    requires NameMatch(t.members, s) == Some(i)
    ensures ParseEnumValue(t, s) == Some(t.members[i].1)
  {
    var v := t.members[i].1;
    assert ParseEnumNames(t.members, s) == Some(v) by {
      SplitWithoutComma(s);
      NamesValueOfOne(t.members, s, i);
      FromBitsOfBits(v);
    }
    ParseEnumByNames(t, s);
  }

  /** Trimmed text that does not start like a number is read by the name path alone. */
  lemma ParseEnumByNames(t: TypeDesc, s: string)
    requires t.EnumType? && s != [] && Trim(s) == s && !StartsNumber(s)
    ensures ParseEnumValue(t, s) == ParseEnumNames(t.members, s)
  {
  }

  /** A member's name parses to the member's value. */
  lemma ParseEnumOfName(t: TypeDesc, i: nat)
    requires t.EnumType? && WellFormedEnum(t) && i < |t.members|
    ensures ParseEnumValue(t, t.members[i].0) == Some(t.members[i].1)
  {
    var name := t.members[i].0;
    NameHasNoComma(name);
    TrimOfTrimmed(name);
    NameMatchOfName(t, i);
    assert IsNameChar(name[0]);
    ParseEnumOfMatch(t, name, i);
  }

  /** A member's name in any (ASCII) case parses to that member's value. */
  lemma ParseEnumIgnoresCase(t: TypeDesc, i: nat, s: string)
    requires t.EnumType? && WellFormedEnum(t) && i < |t.members|
    requires EqualsIgnoreCase(s, t.members[i].0)
    ensures ParseEnum(s, t) == EnumV(t, t.members[i].1)
  {
    var name := t.members[i].0;
    assert |s| == |name| > 0;
    forall k | 0 <= k < |s|
      ensures IsNameChar(s[k]) && s[k] != ','
      ensures k == 0 ==> !Numbers.IsDigit(s[k]) && s[k] != '-' && s[k] != '+'
    {
      assert ToLowerChar(s[k]) == ToLower(s)[k] == ToLower(name)[k] == ToLowerChar(name[k]);
      assert IsNameChar(name[k]);
    }
    TrimOfTrimmed(s);
    var r := NameMatch(t.members, s);
    NameMatchFirst(t.members, s);
    assert r.Some? && r.value <= i;
    assert EqualsIgnoreCase(t.members[r.value].0, name);
    assert r.value == i;
    ParseEnumOfMatch(t, s, i);
  }

  /** An identifier that no member's name equals, ignoring case, parses to null. */
  lemma ParseEnumUnknown(t: TypeDesc, s: string)
    requires t.EnumType? && IsIdentifier(s)
    requires forall i :: 0 <= i < |t.members| ==> !EqualsIgnoreCase(t.members[i].0, s)
    ensures ParseEnum(s, t) == Null
  {
    assert IsNameChar(s[0]) && IsNameChar(s[|s| - 1]);
    TrimOfTrimmed(s);
    assert ',' !in s by {
      forall k | 0 <= k < |s| ensures s[k] != ',' {
        assert IsNameChar(s[k]);
      }
    }
    SplitWithoutComma(s);
    assert NameMatch(t.members, Trim(s)).None?;
  }

  /** The decimal text of an integer parses as that number when it fits an Int32, whether
   *  or not a member has it, and fails (OverflowException) when it does not. */
  lemma ParseEnumOfNumber(t: TypeDesc, n: int)
    requires t.EnumType?
    ensures ParseEnumValue(t, Numbers.IntToString(n)) == if InRange(Int32, n) then Some(n) else None
  {
    var s := Numbers.IntToString(n);
    assert Numbers.IsDigit(s[0]) || s[0] == '-';
    assert !IsWhiteSpace(s[|s| - 1]) by {
      assert Numbers.IsDigit(s[|s| - 1]);
    }
    TrimOfTrimmed(s);
    Numbers.ParseIntegerOfIntToString(n);
    ParseEnumOfNumeral(t, s, n);
  }

  /** Trimmed text that starts like a number and reads as one is that number when it fits
   *  an Int32, and fails otherwise; the names are not consulted. */
  lemma ParseEnumOfNumeral(t: TypeDesc, s: string, n: int)
    requires t.EnumType? && s != [] && Trim(s) == s && StartsNumber(s)
    requires Numbers.ParseInteger(s) == Some(n)
    ensures ParseEnumValue(t, s) == if InRange(Int32, n) then Some(n) else None
  {
  }

  /** Enum text in either EnumFomatting reads back as the value. */
  lemma EnumTextRoundTrip(t: TypeDesc, n: int)
    requires t.EnumType? && WellFormedEnum(t) && InRange(Int32, n)
    ensures ParseEnumValue(t, EnumName(t, n)) == Some(n)
    ensures ParseEnumValue(t, Numbers.IntToString(n)) == Some(n)
  {
    ParseEnumOfNumber(t, n);
    match MemberWithValue(t.members, n)
    case Some(i) => ParseEnumOfName(t, i);
    case None =>
  }

  /** In a well-formed enum a member's name matches that member and no other. */
  lemma NameMatchOfName(t: TypeDesc, i: nat)
    requires t.EnumType? && WellFormedEnum(t) && i < |t.members|
    ensures NameMatch(t.members, t.members[i].0) == Some(i)
  {
    var r := NameMatch(t.members, t.members[i].0);
    NameMatchFirst(t.members, t.members[i].0);
    assert EqualsIgnoreCase(t.members[i].0, t.members[i].0);
    assert r.Some? && r.value <= i;
    assert r.value == i;
  }

  /** A member name holds no comma and no white space. */
  lemma NameHasNoComma(name: string)
    requires forall k :: 0 <= k < |name| ==> IsNameChar(name[k])
    ensures ',' !in name
    ensures name != [] ==> !IsWhiteSpace(name[0]) && !IsWhiteSpace(name[|name| - 1])
  {
    forall k | 0 <= k < |name| ensures name[k] != ',' {
      assert IsNameChar(name[k]);
    }
    if name != [] {
      assert IsNameChar(name[0]) && IsNameChar(name[|name| - 1]);
    }
  }

  /**
   * A comma-separated list of member names ("Read,Write", the way flags are written) reads
   * as the OR of the members' values, narrowed to an Int32.
   */
  lemma ParseEnumOfNameList(t: TypeDesc, idx: seq<nat>)
    requires t.EnumType? && WellFormedEnum(t) && idx != []
    requires forall k :: 0 <= k < |idx| ==> idx[k] < |t.members|
    ensures ParseEnumValue(t, Join(",", NamesAt(t.members, idx)))
            == Some(FromBits32(OrAll(ValuesAt(t.members, idx))))
  {
    var names := NamesAt(t.members, idx);
    var text := Join([','], names);
    assert ParseEnumNames(t.members, text) == Some(FromBits32(OrAll(ValuesAt(t.members, idx)))) by {
      forall k | 0 <= k < |names|
        ensures ',' !in names[k]
        ensures NameMatch(t.members, Trim(names[k])) == Some(idx[k])
      {
        NameHasNoComma(names[k]);
        TrimOfTrimmed(names[k]);
        NameMatchOfName(t, idx[k]);
      }
      SplitOfJoin(names, ',');
      NamesValueOfPieces(t.members, names, idx);
    }
    NameListText(t, idx);
    ParseEnumByNames(t, text);
  }

  /** A list of member names is trimmed text that does not start like a number. */
  lemma NameListText(t: TypeDesc, idx: seq<nat>)
    requires t.EnumType? && WellFormedEnum(t) && idx != []
    requires forall k :: 0 <= k < |idx| ==> idx[k] < |t.members|
    ensures var text := Join(",", NamesAt(t.members, idx));
      text != [] && Trim(text) == text && !StartsNumber(text)
  {
    var names := NamesAt(t.members, idx);
    var text := Join([','], names);
    var first, last := names[0], names[|names| - 1];
    MemberIdentifier(t, idx[0]);
    MemberIdentifier(t, idx[|idx| - 1]);
    assert first != [] && last != [];
    JoinEnds([','], names);
    assert text != [] && text[0] == first[0] && text[|text| - 1] == last[|last| - 1];
    NameHasNoComma(first);
    NameHasNoComma(last);
    TrimOfTrimmed(text);
    IdentifierStartsNoNumber(text, first);
  }

  /** Every member name of a well-formed enum is an identifier. */
  lemma MemberIdentifier(t: TypeDesc, i: nat)
    requires t.EnumType? && WellFormedEnum(t) && i < |t.members|
    ensures IsIdentifier(t.members[i].0)
  {
  }

  /** Text that starts like an identifier does not start like a number. */
  lemma IdentifierStartsNoNumber(s: string, name: string)
    requires IsIdentifier(name) && s != [] && s[0] == name[0]
    ensures !StartsNumber(s)
  {
    assert IsNameChar(name[0]);
  }

  /** Naming a member twice changes nothing: "Read,Read" reads as Read. */
  lemma ParseEnumOfRepeatedName(t: TypeDesc, i: nat)
    requires t.EnumType? && WellFormedEnum(t) && i < |t.members|
    ensures ParseEnumValue(t, t.members[i].0 + "," + t.members[i].0) == Some(t.members[i].1)
  {
    var name, v := t.members[i].0, t.members[i].1;
    assert InRange(Int32, v);
    FromBitsOfBits(v);
    ParseEnumOfNameList(t, [i, i]);
    assert NamesAt(t.members, [i, i]) == [name, name];
    assert Join(",", [name, name]) == name + "," + name;
    assert ValuesAt(t.members, [i, i]) == [v, v];
    OrAllOfTwice(v);
  }

  /** ParseEnum is null for empty or unrecognised text. */
  lemma ParseEnumNull(t: TypeDesc, text: string)
    requires t.EnumType?
    ensures ParseEnum(text, t) == Null <==> text == "" || ParseEnumValue(t, text).None?
  {
  }

  /** Member names read back as their values, in order: the items of a list ParseEnums
   *  accepts without loss. */
  lemma ParseEnumsOfNames(t: TypeDesc, names: seq<string>, values: seq<int>)
    requires t.EnumType? && WellFormedEnum(t) && |names| == |values|
    requires forall k :: 0 <= k < |names| ==> (names[k], values[k]) in t.members
    ensures ParsedEnums(EnumParser(t), names, |names|) == values
  {
    forall k | 0 <= k < |names|
      ensures EnumParser(t)(names[k]) == Some(values[k])
    {
      assert (names[k], values[k]) in t.members;
      var i :| 0 <= i < |t.members| && t.members[i] == (names[k], values[k]);
      ParseEnumOfName(t, i);
    }
    ParsedEnumsOfParsed(EnumParser(t), names, values, |names|);
    assert values[..|names|] == values;
  }

  /** ParseBasicType on a string type returns the text itself. */
  lemma ParseStringIsIdentity(p: Platform, text: string)
    ensures ParseBasicType(p, text, StringType) == Ok(Str(text))
  {
  }

  /** Nullable targets: empty text is null, otherwise the typed parse, null when it fails. */
  lemma ParseNullable(p: Platform, text: string, t: TypeDesc)
    requires IsParsedType(t) && !t.NullableType?
    ensures ParseBasicType(p, "", NullableType(t)) == Ok(Null)
    ensures text != "" ==> ParseBasicType(p, text, NullableType(t)) == Ok(ParseTyped(p, text, t))
  {
    RealTypeFacts(NullableType(t));
  }

  /** Non-nullable targets with empty text get a default: zero (an Int32) for every number,
   *  true for bool, the default date, and the enum's zero. */
  lemma ParseEmptyDefaults(p: Platform, t: TypeDesc)
    requires IsParsedType(t) && t != StringType
    ensures t == Primitive(Boolean) ==> ParseBasicType(p, "", t) == Ok(Bool(true))
    ensures t == DateTimeType ==> ParseBasicType(p, "", t) == Ok(Date(0))
    ensures t.EnumType? ==> ParseBasicType(p, "", t) == Ok(EnumV(t, 0))
    ensures IsNumber(t) ==> ParseBasicType(p, "", t) == Ok(Int(Int32, 0))
  {
    RealTypeFacts(t);
    if t.EnumType? {
      assert EmptyDefault(t) == EnumV(t, 0) by {
        ParseEnumZero(t);
      }
    }
  }

  /** "0" is the enum's zero, whether or not a member has that value. */
  lemma ParseEnumZero(t: TypeDesc)
    requires t.EnumType?
    ensures ParseEnum("0", t) == EnumV(t, 0)
  {
    assert Numbers.IntToString(0) == "0";
    assert InRange(Int32, 0);
    ParseEnumOfNumber(t, 0);
  }

  /** Non-nullable targets with unparseable text fail, except enums, which give null. */
  lemma ParseFailure(p: Platform, text: string, t: TypeDesc)
    requires IsParsedType(t) && text != "" && ParseTyped(p, text, t) == Null
    ensures !t.EnumType? ==> ParseBasicType(p, text, t) == Err(NullValue)
    ensures t.EnumType? ==> ParseBasicType(p, text, t) == Ok(Null)
  {
    RealTypeFacts(t);
  }

  /** Types that are not basic get the raw text back (for non-empty text). */
  lemma ParseOtherIsText(p: Platform, text: string, t: TypeDesc)
    requires !IsBasicType(t) && (text != "" || !IsNullable(t))
    ensures ParseBasicType(p, text, t) == Ok(Str(text))
  {
    RealTypeFacts(t);
  }

  /** An integer's text reads back as the integer for an integer type when in range, and
   *  fails otherwise. */
  lemma ParseIntegerText(p: Platform, q: Prim, n: int)
    requires IsIntegral(q) && IsParsedType(Primitive(q))
    ensures InRange(q, n) ==> ParseBasicType(p, Numbers.IntToString(n), Primitive(q)) == Ok(Int(q, n))
    ensures !InRange(q, n) ==> ParseBasicType(p, Numbers.IntToString(n), Primitive(q)) == Err(NullValue)
  {
    RealTypeFacts(Primitive(q));
    var s := Numbers.IntToString(n);
    assert s != [];
    assert ParseTyped(p, s, Primitive(q)) == if InRange(q, n) then Int(q, n) else Null by {
      ParseIntegralOfText(q, n);
    }
  }
}
