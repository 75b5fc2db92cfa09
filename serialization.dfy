/**
 * SerializationNode.FromType: the classifier the XML mapper consults to decide how a type
 * is written (basic text, object, list, array or dictionary), which type its items have
 * and which tag name the items get.
 */
module Serialization {
  import opened Wrappers
  import opened Strings
  import opened Types

  /** SerializationType. */
  datatype SerializationType = Basic | Class | List | Array | Dict

  /** EnumFomatting: how enums are written, Text = 0 or Int = 1. */
  datatype EnumFormatting = Text | Int

  function EnumFormattingValue(f: EnumFormatting): (n: int)
    ensures n == 0 <==> f == Text
    ensures 0 <= n <= 1
  {
    match f
    case Text => 0
    case Int => 1
  }

  /** The classification of a type: its kind, its item type and a name for its items. */
  datatype SerializationNode = SerializationNode(kind: SerializationType, itemType: TypeDesc, name: string)

  /**
   * FromType: the first matching test wins.  An anonymous type reads its first generic
   * argument, which a type without generic arguments does not have (IndexOutOfRange).
   */
  function FromType(t: TypeDesc): (r: Result<SerializationNode>)
    ensures r.Err? ==> r.error == IndexOutOfRange
    ensures r.Err? <==> !IsSimpleType(GetRealType(t)) && IsAnonymous(t) && GenericArgs(t) == []
  {
    if IsSimpleType(GetRealType(t)) then Ok(SerializationNode(Basic, t, Name(t)))
    else if IsAnonymous(t) then
      if GenericArgs(t) == [] then Err(IndexOutOfRange)
      else Ok(SerializationNode(Class, GenericArgs(t)[0], "Anonymous"))
    else if IsGenericDict(t) then
      var v := GenericArgs(t)[1];
      Ok(SerializationNode(Dict, v, Name(v) + "s"))
    else if IsGenericList(t) then
      var item := GenericArgs(t)[0];
      Ok(SerializationNode(List, item, Name(item) + "s"))
    else if IsArray(t) then
      var e := ElementType(t);
      Ok(SerializationNode(Array, e, TypeText(e) + "s"))
    else Ok(SerializationNode(Class, t, Name(t)))
  }

  //------------------------------------------------------------------
  // Which types the name test takes for anonymous
  //------------------------------------------------------------------

  /** A name shorter than "AnonymousType" cannot contain it. */
  lemma ShortNameNotAnonymous(t: TypeDesc)
    requires |Name(t)| < |"AnonymousType"|
    ensures !IsAnonymous(t)
  {
    var n := IndexOf(Name(t), "AnonymousType");
    assert n == -1;
  }

  /** Every compiler-generated anonymous type passes the name test. */
  lemma AnonymousTypeIsAnonymous(t: TypeDesc)
    requires t.AnonymousType?
    ensures IsAnonymous(t)
  {
    var name := Name(t);
    var head := "<>f__AnonymousType";
    assert name[..|head|] == head;
    assert name[5..18] == head[5..18] == "AnonymousType";
    assert OccursAt(name, "AnonymousType", 5);
  }

  /** None of the library's own non-array types passes the name test. */
  lemma SystemTypesNotAnonymous(t: TypeDesc)
    requires !t.EnumType? && !t.ClassType? && !t.AnonymousType? && !t.ArrayType?
    ensures !IsAnonymous(t)
  {
    ShortNameNotAnonymous(t);
  }

  //------------------------------------------------------------------
  // The classification, type constructor by type constructor
  //------------------------------------------------------------------

  /** Simple types and their nullable forms are Basic, keeping the declared type and name. */
  lemma BasicKeepsDeclaredType(t: TypeDesc)
    requires IsSimpleType(GetRealType(t))
    ensures FromType(t) == Ok(SerializationNode(Basic, t, Name(t)))
  {
  }

  /** int? is Basic and named after Nullable`1, not after int. */
  lemma NullableIntIsBasic()
    ensures FromType(NullableType(Primitive(Int32))) == Ok(SerializationNode(Basic, NullableType(Primitive(Int32)), "Nullable`1"))
  {
  }

  /** Dictionary<K, V> is Dict; the items are the values, named after V plus "s". */
  lemma DictionaryIsDict(k: TypeDesc, v: TypeDesc)
    ensures FromType(DictType(k, v)) == Ok(SerializationNode(Dict, v, Name(v) + "s"))
  {
    SystemTypesNotAnonymous(DictType(k, v));
  }

  /** List<T> is List; the items are T, named after T plus "s". */
  lemma ListIsList(item: TypeDesc)
    ensures FromType(ListType(item)) == Ok(SerializationNode(List, item, Name(item) + "s"))
  {
    SystemTypesNotAnonymous(ListType(item));
  }

  /** T[] is Array, named after T's full ToString text plus "s", unless T's name looks anonymous. */
  lemma ArrayIsArray(e: TypeDesc)
    requires !IsAnonymous(ArrayType(e))
    ensures FromType(ArrayType(e)) == Ok(SerializationNode(Array, e, TypeText(e) + "s"))
  {
  }

  /** An array of anonymous objects passes the name test but has no generic arguments. */
  lemma AnonymousArrayFails(e: TypeDesc)
    requires e.AnonymousType?
    ensures FromType(ArrayType(e)) == Err(IndexOutOfRange)
  {
    AnonymousTypeIsAnonymous(e);
    var n := IndexOf(Name(e), "AnonymousType");
    assert OccursAt(Name(e), "AnonymousType", n);
    assert Name(ArrayType(e))[n..n + 13] == Name(e)[n..n + 13];
    assert OccursAt(Name(ArrayType(e)), "AnonymousType", n);
  }

  /** An anonymous type is Class, named "Anonymous", with its first property's type as item type;
   *  one without properties has no first generic argument. */
  lemma AnonymousIsClass(t: TypeDesc)
    requires t.AnonymousType?
    ensures t.propTypes != [] ==> FromType(t) == Ok(SerializationNode(Class, t.propTypes[0], "Anonymous"))
    ensures t.propTypes == [] ==> FromType(t) == Err(IndexOutOfRange)
  {
    AnonymousTypeIsAnonymous(t);
  }

  /** Everything else is Class under its own name: decimal, object, the non-generic
   *  collections, nullable decimal and user classes whose name does not look anonymous. */
  lemma OthersAreClass(t: TypeDesc)
    requires t in {DecimalType, ObjectType, ArrayListType, HashtableType, NullableType(DecimalType)}
      || (t.ClassType? && !IsAnonymous(t))
    ensures FromType(t) == Ok(SerializationNode(Class, t, Name(t)))
  {
    if !t.ClassType? {
      SystemTypesNotAnonymous(t);
    }
  }
}
