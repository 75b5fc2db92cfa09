/**
 * Boxed .NET values as the mapper sees them through `object`: scalars, enums, dates and
 * collections and objects with their runtime type; the defaults and the assignment rules
 * reflection applies when a parsed value is stored; and "{0}" formatting of a value.
 * What depends on culture or on floating-point text (float, double and decimal text,
 * DateTime text, URL encoding) is a parameter, the Platform.
 */
module Values {
  import opened Wrappers
  import opened Strings
  import opened Types
  import Numbers

  datatype Value =
    | Null
    | Str(s: string)
    | Bool(b: bool)
    | Int(prim: Prim, n: int)                         // an integral primitive of type `prim`
    | Chr(c: char)
    | Real(prim: Prim, x: real)                       // a Single or a Double
    | Dec(d: real)                                    // a decimal
    | Date(ticks: int)                                // a DateTime, in 100 ns ticks
    | EnumV(etype: TypeDesc, n: int)                  // a boxed enum: its type and numeric value
    | ListV(ltype: TypeDesc, items: seq<Value>)       // List<T>, T[] or ArrayList
    | DictV(dtype: TypeDesc, entries: seq<(Value, Value)>) // Dictionary<K, V> or Hashtable, in key order
    | Obj(otype: TypeDesc, fields: seq<Value>)        // an object: its property values, in Properties order

  /**
   * The platform services the mapper calls but that are not part of this model: float and
   * decimal text, DateTime text, and URL encoding.
   */
  datatype Platform = Platform(
    formatReal: (Prim, real) -> string,       // "{0}" of a float or a double
    parseReal: (Prim, string) -> Option<real>, // float.TryParse / double.TryParse
    formatDecimal: real -> string,            // "{0}" of a decimal
    parseDecimal: string -> Option<real>,     // decimal.TryParse
    formatDate: (int, string) -> string,      // DateTime.ToString(format)
    parseDate: string -> Option<int>,         // DateTime.TryParse
    urlEncode: string -> string,              // HttpUtility.UrlEncode
    urlDecode: string -> string)              // HttpUtility.UrlDecode

  /** What reflection and the platform tell the mapper: the platform services and the
   *  public properties of the user's classes. */
  datatype Runtime = Runtime(platform: Platform, schema: Schema)

  /** object.GetType() of a non-null value. */
  function TypeOf(v: Value): TypeDesc
    requires v != Null
  {
    match v
    case Str(_) => StringType
    case Bool(_) => Primitive(Boolean)
    case Int(p, _) => Primitive(p)
    case Chr(_) => Primitive(Char)
    case Real(p, _) => Primitive(p)
    case Dec(_) => DecimalType
    case Date(_) => DateTimeType
    case EnumV(t, _) => t
    case ListV(t, _) => t
    case DictV(t, _) => t
    case Obj(t, _) => t
  }

  /** default(T), boxed: zero of a value type, null for reference types and Nullable<T>. */
  function DefaultValue(t: TypeDesc): (r: Value)
    ensures r == Null <==> !IsValueType(t) || t.NullableType?
    ensures r != Null ==> TypeOf(r) == t
  {
    match t
    case Primitive(p) =>
      if p == Boolean then Bool(false)
      else if p == Char then Chr(0 as char)
      else if p == Single || p == Double then Real(p, 0.0)
      else Int(p, 0)
    case DateTimeType => Date(0)
    case DecimalType => Dec(0.0)
    case EnumType(_, _, _, _) => EnumV(t, 0)
    case _ => Null
  }

  /** A non-null value can be stored where `t` is declared without conversion: same type,
   *  object, or the Nullable<T> of its type. */
  predicate Assignable(v: Value, t: TypeDesc)
    requires v != Null
  {
    TypeOf(v) == t || t == ObjectType || t == NullableType(TypeOf(v))
  }

  /** The widening conversions between primitives that reflection's binder performs. */
  predicate Widens(from: Prim, to: Prim) {
    match from
    case Byte => to in {Char, UInt16, Int16, UInt32, Int32, UInt64, Int64, Single, Double}
    case SByte => to in {Int16, Int32, Int64, Single, Double}
    case UInt16 => to in {UInt32, Int32, UInt64, Int64, Single, Double}
    case Int16 => to in {Int32, Int64, Single, Double}
    case UInt32 => to in {UInt64, Int64, Single, Double}
    case Int32 => to in {Int64, Single, Double}
    case UInt64 => to in {Single, Double}
    case Int64 => to in {Single, Double}
    case Single => to == Double
    case _ => false
  }

  /** An integral value widened to another primitive. */
  function WidenInt(n: int, to: Prim): Value {
    if to == Single || to == Double then Real(to, n as real)
    else if to == Char then Chr(if 0 <= n < 0x100 then n as char else 0 as char)
    else Int(to, n)
  }

  /**
   * PropertyInfo.SetValue: null stores default(T); a value must be assignable to the
   * property's type or widen to it; anything else is an ArgumentException.
   */
  function ConvertForSet(v: Value, t: TypeDesc): (r: Result<Value>)
    ensures v == Null ==> r == Ok(DefaultValue(t))
    ensures v != Null && Assignable(v, t) ==> r == Ok(v)
    ensures r.Err? ==> r.error == ArgumentError
  {
    if v == Null then Ok(DefaultValue(t))
    else if Assignable(v, t) then Ok(v)
    else if v.Int? && t.Primitive? && Widens(v.prim, t.prim) then Ok(WidenInt(v.n, t.prim))
    else if v.Real? && t.Primitive? && Widens(v.prim, t.prim) then Ok(Real(t.prim, v.x))
    else Err(ArgumentError)
  }

  /**
   * IList.Add / IDictionary.Add on a generic collection: null is refused where the element
   * type is a non-nullable value type, and a value is cast, not converted.
   */
  function ConvertForAdd(v: Value, t: TypeDesc): (r: Result<Value>)
    ensures r.Ok? ==> r.value == v
    ensures r.Ok? <==> (v == Null && (!IsValueType(t) || t.NullableType?)) || (v != Null && Assignable(v, t))
    ensures r.Err? ==> r.error == ArgumentError
  {
    if v == Null then
      if IsValueType(t) && !t.NullableType? then Err(ArgumentError) else Ok(Null)
    else if Assignable(v, t) then Ok(v)
    else Err(ArgumentError)
  }

  /** The first member of an enum with the given value, by declaration (value) order. */
  function MemberWithValue(members: seq<(string, int)>, n: int): (r: Option<nat>)
    ensures r.Some? ==> r.value < |members| && members[r.value].1 == n
    ensures r.None? ==> forall i :: 0 <= i < |members| ==> members[i].1 != n
  {
    if members == [] then None
    else if members[0].1 == n then Some(0)
    else match MemberWithValue(members[1..], n)
      case None => None
      case Some(k) => Some(k + 1)
  }

  /**
   * Enum.ToString() of an enum without [Flags]: the member's name, or the number when no
   * member has that value.  (A [Flags] enum would join several members' names with ", ";
   * enum types here carry no [Flags] mark.)
   */
  function EnumName(t: TypeDesc, n: int): (r: string)
    requires t.EnumType?
    ensures MemberWithValue(t.members, n).None? ==> r == Numbers.IntToString(n)
    ensures (exists i :: 0 <= i < |t.members| && t.members[i].1 == n) ==> (r, n) in t.members
  {
    match MemberWithValue(t.members, n)
    case Some(i) => t.members[i].0
    case None => Numbers.IntToString(n)
  }

  /** Boolean.ToString(). */
  function BoolText(b: bool): string {
    if b then "True" else "False"
  }

  /** A bool, an integral, a char, a float or a double. */
  predicate IsScalar(v: Value) {
    v.Bool? || v.Int? || v.Chr? || v.Real?
  }

  /** The "{0}" text of a scalar. */
  function ScalarText(p: Platform, v: Value): string
    requires IsScalar(v)
  {
    match v
    case Bool(b) => BoolText(b)
    case Int(_, n) => Numbers.IntToString(n)
    case Chr(c) => [c]
    case Real(q, x) => p.formatReal(q, x)
  }

  /** string.Format("{0}", v): a value's default text ("" for null). */
  function FormatValue(p: Platform, v: Value): string {
    match v
    case Null => ""
    case Str(s) => s
    case Bool(_) => ScalarText(p, v)
    case Int(_, _) => ScalarText(p, v)
    case Chr(_) => ScalarText(p, v)
    case Real(_, _) => ScalarText(p, v)
    case Dec(d) => p.formatDecimal(d)
    case Date(t) => p.formatDate(t, "G")
    case EnumV(t, n) => if t.EnumType? then EnumName(t, n) else Numbers.IntToString(n)
    case ListV(t, _) => TypeText(t)
    case DictV(t, _) => TypeText(t)
    case Obj(t, _) => TypeText(t)
  }

  /** An integer is written as its decimal numeral, which reads back as the integer. */
  lemma FormatValueOfNumbers(p: Platform, n: int, q: Prim)
    ensures FormatValue(p, Int(q, n)) == Numbers.IntToString(n)
    ensures Numbers.ParseInteger(FormatValue(p, Int(q, n))) == Some(n)
  {
    Numbers.ParseIntegerOfIntToString(n);
  }
}
