/**
 * The .NET types the object mapper reasons about, as data, with the type helpers of
 * Reflector.Type: names, generic arguments, nullability, the classification predicates,
 * GetShortName and GetTypeString.  The types modelled are those the mapper tells apart:
 * the primitives, string, DateTime, decimal, object, enums, Nullable<T>, List<T>,
 * Dictionary<K, V>, arrays, the non-generic ArrayList and Hashtable, anonymous types and
 * user classes.
 */
module Types {
  import opened Strings
  import Numbers
  import StringHelper

  /** The primitive types (Type.IsPrimitive). */
  datatype Prim =
    | Boolean | Byte | SByte | Int16 | UInt16 | Int32 | UInt32 | Int64 | UInt64
    | IntPtr | UIntPtr | Char | Double | Single

  datatype TypeDesc =
    | Primitive(prim: Prim)
    | StringType
    | DateTimeType
    | DecimalType
    | ObjectType
      // an enum: namespace, name, assembly, and its members (name, value) in value order
    | EnumType(ns: string, name: string, assembly: string, members: seq<(string, int)>)
    | NullableType(inner: TypeDesc)
    | ListType(item: TypeDesc)
    | DictType(key: TypeDesc, value: TypeDesc)
    | ArrayType(elem: TypeDesc)
    | ArrayListType
    | HashtableType
      // the compiler-generated `<>f__AnonymousType{index}`n`: its read-only properties
      // are its generic arguments
    | AnonymousType(index: nat, assembly: string, propNames: seq<string>, propTypes: seq<TypeDesc>)
      // a user class (not generic), by namespace, name and assembly
    | ClassType(ns: string, name: string, assembly: string)

  /** A public instance property: its name, declared type, whether it has a setter, and
   *  whether it carries NonSerialized, JsonIgnore or XmlIgnore. */
  datatype Property = Property(name: string, propType: TypeDesc, canWrite: bool, ignored: bool)

  /** What reflection reports about a class: its public instance properties in declaration
   *  order, and whether it has a public parameterless constructor. */
  datatype ClassInfo = ClassInfo(properties: seq<Property>, defaultConstructor: bool)

  /** The classes of the program, by full name. */
  type Schema = map<string, ClassInfo>

  function PrimName(p: Prim): string {
    match p
    case Boolean => "Boolean"
    case Byte => "Byte"
    case SByte => "SByte"
    case Int16 => "Int16"
    case UInt16 => "UInt16"
    case Int32 => "Int32"
    case UInt32 => "UInt32"
    case Int64 => "Int64"
    case UInt64 => "UInt64"
    case IntPtr => "IntPtr"
    case UIntPtr => "UIntPtr"
    case Char => "Char"
    case Double => "Double"
    case Single => "Single"
  }

  /** The integral primitives (all but Boolean, Char, Double and Single). */
  predicate IsIntegral(p: Prim) {
    !(p.Boolean? || p.Char? || p.Double? || p.Single?)
  }

  /** The range of an integral primitive (IntPtr and UIntPtr as on a 64-bit process). */
  function MinOf(p: Prim): int
    requires IsIntegral(p)
  {
    match p
    case Byte => 0
    case SByte => -0x80
    case Int16 => -0x8000
    case UInt16 => 0
    case Int32 => -0x8000_0000
    case UInt32 => 0
    case Int64 => -0x8000_0000_0000_0000
    case UInt64 => 0
    case IntPtr => -0x8000_0000_0000_0000
    case UIntPtr => 0
  }

  function MaxOf(p: Prim): int
    requires IsIntegral(p)
  {
    match p
    case Byte => 0xFF
    case SByte => 0x7F
    case Int16 => 0x7FFF
    case UInt16 => 0xFFFF
    case Int32 => 0x7FFF_FFFF
    case UInt32 => 0xFFFF_FFFF
    case Int64 => 0x7FFF_FFFF_FFFF_FFFF
    case UInt64 => 0xFFFF_FFFF_FFFF_FFFF
    case IntPtr => 0x7FFF_FFFF_FFFF_FFFF
    case UIntPtr => 0xFFFF_FFFF_FFFF_FFFF
  }

  /** Type.Name. */
  function Name(t: TypeDesc): string {
    match t
    case Primitive(p) => PrimName(p)
    case StringType => "String"
    case DateTimeType => "DateTime"
    case DecimalType => "Decimal"
    case ObjectType => "Object"
    case EnumType(_, n, _, _) => n
    case NullableType(_) => "Nullable`1"
    case ListType(_) => "List`1"
    case DictType(_, _) => "Dictionary`2"
    case ArrayType(e) => Name(e) + "[]"
    case ArrayListType => "ArrayList"
    case HashtableType => "Hashtable"
    case AnonymousType(i, _, _, ts) =>
      "<>f__AnonymousType" + Numbers.NatToString(i) + (if ts == [] then "" else "`" + Numbers.NatToString(|ts|))
    case ClassType(_, n, _) => n
  }

  /** Type.Namespace, with "" for the anonymous types' null namespace. */
  function Namespace(t: TypeDesc): string {
    match t
    case EnumType(ns, _, _, _) => ns
    case ClassType(ns, _, _) => ns
    case ListType(_) => "System.Collections.Generic"
    case DictType(_, _) => "System.Collections.Generic"
    case ArrayListType => "System.Collections"
    case HashtableType => "System.Collections"
    case ArrayType(e) => Namespace(e)
    case AnonymousType(_, _, _, _) => ""
    case _ => "System"
  }

  /** The simple name of the type's assembly. */
  function Assembly(t: TypeDesc): string {
    match t
    case EnumType(_, _, a, _) => a
    case ClassType(_, _, a) => a
    case AnonymousType(_, a, _, _) => a
    case ArrayType(e) => Assembly(e)
    case _ => "mscorlib"
  }

  /** Type.GetGenericArguments(). */
  function GenericArgs(t: TypeDesc): (r: seq<TypeDesc>)
    ensures t.NullableType? || t.ListType? ==> |r| == 1
    ensures t.DictType? ==> |r| == 2
  {
    match t
    case NullableType(a) => [a]
    case ListType(a) => [a]
    case DictType(k, v) => [k, v]
    case AnonymousType(_, _, _, ts) => ts
    case _ => []
  }

  predicate IsGenericType(t: TypeDesc) { GenericArgs(t) != [] }

  predicate IsValueType(t: TypeDesc) {
    t.Primitive? || t.DateTimeType? || t.DecimalType? || t.EnumType? || t.NullableType?
  }

  predicate IsPrimitive(t: TypeDesc) { t.Primitive? }

  /** EnumHelper.IsEnum: the base type is System.Enum. */
  predicate IsEnum(t: TypeDesc) { t.EnumType? }

  predicate IsArray(t: TypeDesc) { t.ArrayType? }

  /** Implements System.Collections.IList. */
  predicate IsList(t: TypeDesc) { t.ListType? || t.ArrayType? || t.ArrayListType? }

  /** Implements System.Collections.IDictionary. */
  predicate IsDict(t: TypeDesc) { t.DictType? || t.HashtableType? }

  /** Implements System.Collections.IEnumerable. */
  predicate IsEnumerable(t: TypeDesc) { t.StringType? || IsList(t) || IsDict(t) }

  /** IsGenericList: a generic type that implements IList. */
  predicate IsGenericList(t: TypeDesc) { IsGenericType(t) && IsList(t) }

  /** IsGenericDict: a generic type that implements IDictionary. */
  predicate IsGenericDict(t: TypeDesc) { IsGenericType(t) && IsDict(t) }

  /** IsAnonymous: the type's name contains "AnonymousType". */
  predicate IsAnonymous(t: TypeDesc) { Contains(Name(t), "AnonymousType") }

  /** IsSimpleType: primitive, string, DateTime or enum. */
  predicate IsSimpleType(t: TypeDesc) {
    IsPrimitive(t) || t == StringType || t == DateTimeType || IsEnum(t)
  }

  /** IsNumber: the nine numeric types the source lists. */
  predicate IsNumber(t: TypeDesc) {
    t == DecimalType
    || (t.Primitive? && (t.prim.Int16? || t.prim.Int32? || t.prim.Int64? || t.prim.UInt16? || t.prim.UInt32?
                         || t.prim.UInt64? || t.prim.Double? || t.prim.Single?))
  }

  /** IsNullable: the generic type definition is Nullable<>. */
  predicate IsNullable(t: TypeDesc) {
    IsGenericType(t) && t.NullableType?
  }

  /** GetNullableDataType: T for Nullable<T>, else the type itself. */
  function GetNullableDataType(t: TypeDesc): (r: TypeDesc)
    ensures IsNullable(t) ==> r == t.inner
    ensures !IsNullable(t) ==> r == t
  {
    if IsGenericType(t) && t.NullableType? then GenericArgs(t)[0] else t
  }

  /** GetRealType: unwraps Nullable<> for as long as it applies. */
  function GetRealType(t: TypeDesc): (r: TypeDesc)
    ensures !IsNullable(r)
    ensures !IsNullable(t) ==> r == t
    ensures IsNullable(t) ==> r == GetRealType(t.inner)
  {
    if IsNullable(t) then GetRealType(GetNullableDataType(t)) else t
  }

  /** GetGenericDataType: the first generic argument, or the type itself. */
  function GetGenericDataType(t: TypeDesc): (r: TypeDesc)
    ensures IsGenericType(t) ==> r == GenericArgs(t)[0]
    ensures !IsGenericType(t) ==> r == t
  {
    if IsGenericType(t) then GenericArgs(t)[0] else t
  }

  /** GetElementType of an array type. */
  function ElementType(t: TypeDesc): TypeDesc
    requires IsArray(t)
  {
    t.elem
  }

  function Max(a: nat, b: nat): nat { if a < b then b else a }

  /** How deeply generic arguments and array elements nest. */
  function Depth(t: TypeDesc): nat
    decreases t
  {
    match t
    case NullableType(a) => 1 + Depth(a)
    case ListType(a) => 1 + Depth(a)
    case DictType(k, v) => 1 + Max(Depth(k), Depth(v))
    case ArrayType(e) => 1 + Depth(e)
    case AnonymousType(_, _, _, ts) => 1 + DepthOfAll(ts)
    case _ => 0
  }

  function DepthOfAll(ts: seq<TypeDesc>): (d: nat)
    ensures forall i :: 0 <= i < |ts| ==> Depth(ts[i]) <= d
    decreases ts
  {
    if ts == [] then 0 else Max(DepthOfAll(ts[..|ts| - 1]), Depth(ts[|ts| - 1]))
  }

  lemma ArgsShallower(t: TypeDesc)
    ensures forall i :: 0 <= i < |GenericArgs(t)| ==> Depth(GenericArgs(t)[i]) < Depth(t)
  {
  }

  /** "ns.name", or the bare name without a namespace. */
  function Qualified(ns: string, name: string): string {
    if ns == "" then name else ns + "." + name
  }

  /** The name of the generic type definition with its namespace (GetGenericTypeDefinition().FullName). */
  function DefinitionFullName(t: TypeDesc): string {
    Qualified(Namespace(t), Name(t))
  }

  /**
   * Type.FullName.  A generic type lists its arguments' assembly-qualified names, here
   * "FullName, Assembly" (version, culture and key token are not modelled).
   */
  function FullName(t: TypeDesc): string
    decreases Depth(t)
  {
    if IsGenericType(t) then
      var args := GenericArgs(t);
      ArgsShallower(t);
      DefinitionFullName(t) + "["
        + Join(",", seq(|args|, i requires 0 <= i < |args| => "[" + FullName(args[i]) + ", " + Assembly(args[i]) + "]"))
        + "]"
    else if t.ArrayType? then FullName(t.elem) + "[]"
    else DefinitionFullName(t)
  }

  /** Type.ToString(): generic arguments by their own ToString, without assemblies. */
  function TypeText(t: TypeDesc): string
    decreases Depth(t)
  {
    if IsGenericType(t) then
      var args := GenericArgs(t);
      ArgsShallower(t);
      DefinitionFullName(t) + "[" + Join(",", seq(|args|, i requires 0 <= i < |args| => TypeText(args[i]))) + "]"
    else if t.ArrayType? then TypeText(t.elem) + "[]"
    else DefinitionFullName(t)
  }

  /**
   * GetShortName: a generic type as `ns.Name[[arg],[arg]]` (string.Format("{0}.{1}") even
   * when the namespace is null), an mscorlib type by its FullName, any other type as
   * "FullName, Assembly".
   */
  function GetShortName(t: TypeDesc): string
    decreases Depth(t)
  {
    if IsGenericType(t) then
      var args := GenericArgs(t);
      ArgsShallower(t);
      Namespace(t) + "." + Name(t) + "["
        + Join(",", seq(|args|, i requires 0 <= i < |args| => "[" + GetShortName(args[i]) + "]"))
        + "]"
    else if Assembly(t) == "mscorlib" then FullName(t)
    else FullName(t) + ", " + Assembly(t)
  }

  /**
   * GetTypeString: `T?` for Nullable<T>; a generic type as its definition name cut at the
   * last backtick, then its arguments in angle brackets (always rendered with short names);
   * a value type by Name; any other type by Name or FullName.
   */
  function GetTypeString(t: TypeDesc, shortName: bool): string
    decreases Depth(t)
  {
    if IsNullable(t) then GetTypeString(GetNullableDataType(t), shortName) + "?"
    else if IsGenericType(t) then
      var args := GenericArgs(t);
      ArgsShallower(t);
      var name := StringHelper.TrimEnd(if shortName then Name(t) else DefinitionFullName(t), "`", false);
      name + "<" + Join(", ", seq(|args|, i requires 0 <= i < |args| => GetTypeString(args[i], true))) + ">"
    else if IsValueType(t) then Name(t)
    else if shortName then Name(t)
    else FullName(t)
  }

  /**
   * The public instance properties GetProperties() lists for a type: an anonymous type's
   * read-only properties come from the type itself, a class's (and the non-generic
   * collections') from the schema; object, decimal, Nullable<T> and the scalar types have
   * none that the mapper can use.
   */
  function Properties(schema: Schema, t: TypeDesc): (r: seq<Property>)
    ensures t.AnonymousType? && |t.propNames| == |t.propTypes| ==>
      |r| == |t.propNames| && forall i :: 0 <= i < |r| ==> r[i] == Property(t.propNames[i], t.propTypes[i], false, false)
    ensures t.ClassType? && FullName(t) !in schema ==> r == []
  {
    match t
    case AnonymousType(_, _, names, ts) =>
      if |names| != |ts| then []
      else seq(|names|, i requires 0 <= i < |names| => Property(names[i], ts[i], false, false))
    case ClassType(_, _, _) =>
      var key := FullName(t);
      if key in schema then schema[key].properties else []
    case ArrayListType => if FullName(t) in schema then schema[FullName(t)].properties else []
    case HashtableType => if FullName(t) in schema then schema[FullName(t)].properties else []
    case _ => []
  }

  /** Activator.CreateInstance succeeds: value types always, anonymous types never, classes
   *  when they have a parameterless constructor. */
  predicate CanCreate(schema: Schema, t: TypeDesc) {
    match t
    case AnonymousType(_, _, _, _) => false
    case ClassType(_, _, _) => FullName(t) !in schema || schema[FullName(t)].defaultConstructor
    case _ => true
  }

  //------------------------------------------------------------------
  // Properties of the helpers
  //------------------------------------------------------------------

  /** IsNullable holds exactly for Nullable<T>, and GetRealType is idempotent. */
  lemma RealTypeFacts(t: TypeDesc)
    ensures IsNullable(t) <==> t.NullableType?
    ensures GetRealType(GetRealType(t)) == GetRealType(t)
    ensures t.NullableType? ==> GetRealType(t) == GetRealType(t.inner)
  {
  }

  /** A generic list or dictionary is exactly List<T> or Dictionary<K, V>: arrays and the
   *  non-generic collections implement the interface but are not generic. */
  lemma GenericCollections(t: TypeDesc)
    ensures IsGenericList(t) <==> t.ListType?
    ensures IsGenericDict(t) <==> t.DictType?
    ensures t.ArrayType? || t.ArrayListType? ==> IsList(t) && !IsGenericList(t)
    ensures t.HashtableType? ==> IsDict(t) && !IsGenericDict(t)
  {
  }

  /** decimal is a number for IsNumber but not a simple type. */
  lemma DecimalIsNumberNotSimple()
    ensures IsNumber(DecimalType) && !IsSimpleType(DecimalType)
  {
  }

  /** A non-generic mscorlib type's short name is its full name. */
  lemma ShortNameOfSystemType(t: TypeDesc)
    requires !IsGenericType(t) && !t.ArrayType? && Assembly(t) == "mscorlib" && Namespace(t) != ""
    ensures GetShortName(t) == Namespace(t) + "." + Name(t)
  {
  }

  /** The short name of a type with one generic argument. */
  lemma ShortNameOneArg(t: TypeDesc, a: TypeDesc)
    requires GenericArgs(t) == [a]
    ensures GetShortName(t) == Namespace(t) + "." + Name(t) + "[[" + GetShortName(a) + "]]"
  {
    ArgsShallower(t);
    var x := "[" + GetShortName(a) + "]";
    var parts := seq(1, i requires 0 <= i < 1 => "[" + GetShortName([a][i]) + "]");
    assert parts == [x];
    assert GetShortName(t) == Namespace(t) + "." + Name(t) + "[" + x + "]";
    OneArgText(Namespace(t) + "." + Name(t), GetShortName(a));
  }

  lemma OneArgText(p: string, a: string)
    ensures p + "[" + ("[" + a + "]") + "]" == p + "[[" + a + "]]"
  {
  }

  lemma TwoArgsText(p: string, a: string, b: string)
    ensures p + "[" + ("[" + a + "]" + "," + ("[" + b + "]")) + "]" == p + "[[" + a + "],[" + b + "]]"
  {
  }

  /** The short name of a type with two generic arguments. */
  lemma ShortNameTwoArgs(t: TypeDesc, a: TypeDesc, b: TypeDesc)
    requires GenericArgs(t) == [a, b]
    ensures GetShortName(t) == Namespace(t) + "." + Name(t) + "[[" + GetShortName(a) + "],[" + GetShortName(b) + "]]"
  {
    ArgsShallower(t);
    var x := "[" + GetShortName(a) + "]";
    var y := "[" + GetShortName(b) + "]";
    var parts := seq(2, i requires 0 <= i < 2 => "[" + GetShortName([a, b][i]) + "]");
    assert parts == [x, y];
    assert Join(",", parts) == x + "," + y by {
      assert parts[1..] == [y];
    }
    assert GetShortName(t) == Namespace(t) + "." + Name(t) + "[" + (x + "," + y) + "]";
    TwoArgsText(Namespace(t) + "." + Name(t), GetShortName(a), GetShortName(b));
  }

  /** The examples GetShortName documents: a plain system type by its full name. */
  lemma ShortNameOfInt32()
    ensures GetShortName(Primitive(Int32)) == "System.Int32"
  {
    ShortNameOfSystemType(Primitive(Int32));
  }

  /** Documented example: int? is `System.Nullable`1[[System.Int32]]`. */
  lemma ShortNameOfNullableInt32()
    ensures GetShortName(NullableType(Primitive(Int32))) == "System.Nullable`1[[System.Int32]]"
  {
    ShortNameOfInt32();
    ShortNameOneArg(NullableType(Primitive(Int32)), Primitive(Int32));
    NullableInt32Text();
  }

  lemma NullableInt32Text()
    ensures "System" + "." + "Nullable`1" + "[[" + "System.Int32" + "]]" == "System.Nullable`1[[System.Int32]]"
  {
  }

  /** Documented example: Dictionary<string, int> lists both arguments in brackets. */
  lemma ShortNameOfStringIntDictionary()
    ensures GetShortName(DictType(StringType, Primitive(Int32)))
      == "System.Collections.Generic.Dictionary`2" + "[[" + "System.String" + "],[" + "System.Int32" + "]]"
  {
    ShortNameOfInt32();
    ShortNameOfSystemType(StringType);
    ShortNameTwoArgs(DictType(StringType, Primitive(Int32)), StringType, Primitive(Int32));
    DictionaryText();
  }

  lemma DictionaryText()
    ensures "System" + "." + "String" == "System.String"
    ensures "System.Collections.Generic" + "." + "Dictionary`2" == "System.Collections.Generic.Dictionary`2"
  {
  }

  /** A type from another assembly carries the assembly name after a comma. */
  lemma ShortNameOfUserType(ns: string, name: string, asm: string, members: seq<(string, int)>)
    requires asm != "mscorlib"
    ensures GetShortName(ListType(EnumType(ns, name, asm, members)))
      == "System.Collections.Generic" + "." + "List`1" + "[[" + (Qualified(ns, name) + ", " + asm) + "]]"
  {
    var e := EnumType(ns, name, asm, members);
    assert GetShortName(e) == Qualified(ns, name) + ", " + asm;
    ShortNameOneArg(ListType(e), e);
  }

  /** TrimEnd cuts a generic definition name `N`k` (one-digit arity) back to N. */
  lemma TrimArity(name: string, d: char)
    requires d != '`'
    ensures StringHelper.TrimEnd(name + "`" + [d], "`", false) == name
  {
    var s := name + "`" + [d];
    assert s[..|name|] == name;
    assert s[|name|..|name| + 1] == "`";
    assert OccursAt(s, "`", |name|);
    assert !OccursAt(s, "`", |name| + 1) by {
      assert s[|name| + 1] == d;
    }
    assert LastIndexOf(s, "`") == |name|;
  }

  /** The type string of a type with one generic argument. */
  lemma TypeStringOneArg(t: TypeDesc, a: TypeDesc, shortName: bool)
    requires GenericArgs(t) == [a] && !IsNullable(t)
    ensures GetTypeString(t, shortName)
      == StringHelper.TrimEnd(if shortName then Name(t) else DefinitionFullName(t), "`", false)
        + "<" + GetTypeString(a, true) + ">"
  {
    ArgsShallower(t);
    var parts := seq(1, i requires 0 <= i < 1 => GetTypeString([a][i], true));
    assert parts == [GetTypeString(a, true)];
  }

  /** The type string of a type with two generic arguments. */
  lemma TypeStringTwoArgs(t: TypeDesc, a: TypeDesc, b: TypeDesc, shortName: bool)
    requires GenericArgs(t) == [a, b] && !IsNullable(t)
    ensures GetTypeString(t, shortName)
      == StringHelper.TrimEnd(if shortName then Name(t) else DefinitionFullName(t), "`", false)
        + "<" + (GetTypeString(a, true) + ", " + GetTypeString(b, true)) + ">"
  {
    ArgsShallower(t);
    var x := GetTypeString(a, true);
    var y := GetTypeString(b, true);
    var parts := seq(2, i requires 0 <= i < 2 => GetTypeString([a, b][i], true));
    assert parts == [x, y];
    assert Join(", ", parts) == x + ", " + y by {
      assert parts[1..] == [y];
    }
  }

  /** int? renders as `Int32?`. */
  lemma TypeStringOfNullableInt32()
    ensures GetTypeString(NullableType(Primitive(Int32)), true) == "Int32?"
  {
  }

  /** List<int> renders as `List<Int32>`, its argument always by short name. */
  lemma TypeStringOfIntList()
    ensures GetTypeString(ListType(Primitive(Int32)), true) == "List" + "<" + "Int32" + ">"
  {
    TypeStringOneArg(ListType(Primitive(Int32)), Primitive(Int32), true);
    assert "List`1" == "List" + "`" + ['1'];
    TrimArity("List", '1');
  }

  /** Dictionary<string, int> renders as `Dictionary<String, Int32>`. */
  lemma TypeStringOfStringIntDictionary()
    ensures GetTypeString(DictType(StringType, Primitive(Int32)), true)
      == "Dictionary" + "<" + ("String" + ", " + "Int32") + ">"
  {
    TypeStringTwoArgs(DictType(StringType, Primitive(Int32)), StringType, Primitive(Int32), true);
    assert "Dictionary`2" == "Dictionary" + "`" + ['2'];
    TrimArity("Dictionary", '2');
  }

  /** With full names the definition keeps its namespace, but the arguments stay short. */
  lemma TypeStringFullName(ns: string, name: string, asm: string)
    ensures GetTypeString(ListType(ClassType(ns, name, asm)), false)
      == "System.Collections.Generic" + "." + "List" + "<" + name + ">"
  {
    var p := "System.Collections.Generic" + "." + "List";
    assert "List`1" == "List" + "`" + ['1'];
    assert DefinitionFullName(ListType(ClassType(ns, name, asm))) == p + "`" + ['1'];
    TypeStringOneArg(ListType(ClassType(ns, name, asm)), ClassType(ns, name, asm), false);
    TrimArity(p, '1');
  }
}
