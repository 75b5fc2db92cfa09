/**
 * Writing a value with Xmlizer.ToXml and parsing the element back with Xmlizer.Parse gives
 * the value again, for the values both sides name alike: strings without '<' or '&',
 * booleans, the integers ParseBasicType parses, enums, objects of classes whose properties
 * all have setters and distinct names, lists of basic values or objects, and dictionaries
 * keyed by strings that URL decoding leaves alone.  Next to the theorem stand the inputs
 * on which the two sides disagree.
 */
module XmlRoundTrip {
  import opened Wrappers
  import opened Strings
  import opened Types
  import opened Values
  import opened Serialization
  import opened ConvertorParse
  import opened XmlNodes
  import opened XmlWriting
  import opened XmlReading
  import Numbers

  //------------------------------------------------------------------
  // Sibling elements, some of them left out
  //------------------------------------------------------------------

  /** The elements named `names[j]` holding `bodies[j]` for the first k positions, leaving
   *  out the positions without a body. */
  function Children(names: seq<string>, bodies: seq<Option<seq<Node>>>, k: nat): (r: seq<Node>)
    requires k <= |names| && k <= |bodies|
  {
    if k == 0 then [] else Children(names, bodies, k - 1) + Present(names, bodies, k - 1)
  }

  /** The element at position j, if it has a body. */
  function Present(names: seq<string>, bodies: seq<Option<seq<Node>>>, j: nat): (r: seq<Node>)
    requires j < |names| && j < |bodies|
    ensures |r| <= 1
  {
    if bodies[j].Some? then [Element(names[j], bodies[j].value)] else []
  }

  /** With distinct names, the only child named `names[i]` is the i-th element, and it is
   *  there exactly when position i has a body. */
  lemma {:induction false} ChildrenNamed(names: seq<string>, bodies: seq<Option<seq<Node>>>, k: nat, i: nat)
    requires k <= |names| && k <= |bodies| && i < |names|
    requires forall a, b :: 0 <= a < b < |names| ==> names[a] != names[b]
    ensures forall c :: c in Children(names, bodies, k) && c.Element? && c.name == names[i] ==>
      i < k && bodies[i].Some? && c == Element(names[i], bodies[i].value)
    ensures i < k && bodies[i].Some? ==> Element(names[i], bodies[i].value) in Children(names, bodies, k)
    decreases k
  {
    if k > 0 {
      ChildrenNamed(names, bodies, k - 1, i);
      assert Children(names, bodies, k) == Children(names, bodies, k - 1) + Present(names, bodies, k - 1);
    }
  }

  /** Looking up the i-th name among the children finds the i-th element, if it is there. */
  lemma FirstNamedChildren(names: seq<string>, bodies: seq<Option<seq<Node>>>, k: nat, i: nat)
    requires k <= |names| && k <= |bodies| && i < k
    requires forall a, b :: 0 <= a < b < |names| ==> names[a] != names[b]
    ensures FirstNamed(Children(names, bodies, k), names[i]) ==
      if bodies[i].Some? then Some(Element(names[i], bodies[i].value)) else None
  {
    ChildrenNamed(names, bodies, k, i);
  }

  /** An element is among the children when some position has a body. */
  lemma {:induction false} ChildrenNonEmpty(names: seq<string>, bodies: seq<Option<seq<Node>>>, k: nat, i: nat)
    requires k <= |names| && k <= |bodies| && i < k && bodies[i].Some?
    ensures Children(names, bodies, k) != []
    decreases k
  {
    if i < k - 1 {
      ChildrenNonEmpty(names, bodies, k - 1, i);
    }
  }

  //------------------------------------------------------------------
  // The values that read back as written
  //------------------------------------------------------------------

  /** A dictionary key that URL decoding reads back as written: a string without '%' or '+'. */
  predicate PlainKey(key: Value) {
    key.Str? && '%' !in key.s && '+' !in key.s
  }

  /** A list item type that the writer and the reader call alike: not a list or a dictionary
   *  (whose items the writer names after their own item type plus "s"), not a Nullable
   *  (whose items are named after the underlying type), and a valid child name. */
  predicate SameItemName(t: TypeDesc) {
    !IsList(t) && !IsDict(t) && !t.NullableType? && IsXPathName(Name(t))
  }

  /**
   * What reflection must report about an object's class for it to read back: a plain class
   * with a parameterless constructor, one value per property, every property with a setter,
   * written, and named by a distinct valid child name, and at least one property written
   * (an element without children reads as null).
   */
  ghost predicate ObjectShape(rt: Runtime, ct: TypeDesc, fields: seq<Value>) {
    var props := Properties(rt.schema, ct);
    && ct.ClassType? && !IsAnonymous(ct) && CanCreate(rt.schema, ct)
    && |fields| == |props|
    && (forall i :: 0 <= i < |props| ==> props[i].canWrite && !props[i].ignored && IsXPathName(props[i].name))
    && (forall i, j :: 0 <= i < j < |props| ==> props[i].name != props[j].name)
    && (exists i :: 0 <= i < |fields| && fields[i] != Null)
  }

  /** A declared type that holds a scalar of type u: u itself, or Nullable<u>. */
  predicate Holds(t: TypeDesc, u: TypeDesc) {
    t == u || t == NullableType(u)
  }

  /**
   * The values of declared type t that the writer and the reader agree on: strings without
   * '<' or '&'; booleans, in-range integers of the types ParseBasicType parses and enums of
   * well-formed enum types, declared as their type or its Nullable; objects of the right
   * shape whose null properties are skipped under IgnoreNull and whose other properties fit
   * their declared types; lists of non-null items of their item type; and dictionaries with
   * string keys, distinct plain keys and non-null values of their value type.
   */
  ghost predicate Fits(s: Settings, rt: Runtime, v: Value, t: TypeDesc)
    decreases v
  {
    match v
    case Str(x) => t == StringType && !ContainsAny(x, TextSpecials)
    case Bool(_) => Holds(t, Primitive(Boolean))
    case Int(q, n) => Holds(t, Primitive(q)) && IsIntegral(q) && IsParsedType(Primitive(q)) && InRange(q, n)
    case EnumV(e, n) => Holds(t, e) && e.EnumType? && WellFormedEnum(e) && InRange(Int32, n)
    case Obj(ct, fields) =>
      var props := Properties(rt.schema, ct);
      && t == ct && ObjectShape(rt, ct, fields)
      && (forall i :: 0 <= i < |fields| && fields[i] == Null ==> s.ignoreNull && DefaultValue(props[i].propType) == Null)
      && (forall i :: 0 <= i < |fields| && fields[i] != Null ==> Fits(s, rt, fields[i], props[i].propType))
    case ListV(lt, items) =>
      && t == lt && lt.ListType? && SameItemName(lt.item)
      && (forall i :: 0 <= i < |items| ==> items[i] != Null && Fits(s, rt, items[i], lt.item))
    case DictV(dt, entries) =>
      && t == dt && dt.DictType? && dt.key == StringType
      && (forall i :: 0 <= i < |entries| ==> PlainKey(entries[i].0))
      && (forall i, j :: 0 <= i < j < |entries| ==> entries[i].0 != entries[j].0)
      && (forall i :: 0 <= i < |entries| ==> entries[i].1 != Null && Fits(s, rt, entries[i].1, dt.value))
    case _ => false
  }

  /** A value that fits its declared type is not null and can be stored there as it is; it
   *  has exactly that type unless the type is a Nullable. */
  lemma FitsType(s: Settings, rt: Runtime, v: Value, t: TypeDesc)
    requires Fits(s, rt, v, t)
    ensures v != Null && Assignable(v, t)
    ensures !t.NullableType? ==> TypeOf(v) == t
  {
  }

  //------------------------------------------------------------------
  // Text values
  //------------------------------------------------------------------

  /** An element holding text, read as a simple type, is that text parsed by ParseBasicType. */
  lemma ReadText(rt: Runtime, name: string, text: string, t: TypeDesc)
    requires IsSimpleType(GetRealType(t))
    ensures ReadNode(Reflection(rt), Element(name, TextNodes(text)), t) == ParseBasicType(rt.platform, text, t)
  {
    InnerTextOfText(name, text);
    BasicKeepsDeclaredType(t);
  }

  /** The parse of a text that is not empty, declared as a parsed type or its Nullable: the
   *  typed parse, when that does not fail. */
  lemma ParseOfText(p: Platform, text: string, u: TypeDesc, t: TypeDesc)
    requires text != "" && IsParsedType(u) && !u.NullableType? && ParseTyped(p, text, u) != Null && Holds(t, u)
    ensures ParseBasicType(p, text, t) == Ok(ParseTyped(p, text, u))
  {
    if t == u {
      RealTypeFacts(u);
    } else {
      ParseNullable(p, text, u);
    }
  }

  lemma ParseBoolText(p: Platform, b: bool, t: TypeDesc)
    requires Holds(t, Primitive(Boolean))
    ensures ParseBasicType(p, BoolText(b), t) == Ok(Bool(b))
  {
    ParseBoolOfText(b);
    ParseOfText(p, BoolText(b), Primitive(Boolean), t);
  }

  lemma ParseIntText(p: Platform, q: Prim, n: int, t: TypeDesc)
    requires IsIntegral(q) && IsParsedType(Primitive(q)) && InRange(q, n) && Holds(t, Primitive(q))
    ensures ParseBasicType(p, Numbers.IntToString(n), t) == Ok(Value.Int(q, n))
  {
    ParseIntegralOfText(q, n);
    assert ParseTyped(p, Numbers.IntToString(n), Primitive(q)) == Value.Int(q, n);
    ParseOfText(p, Numbers.IntToString(n), Primitive(q), t);
  }

  lemma ParseEnumText(p: Platform, s: Settings, e: TypeDesc, n: int, t: TypeDesc)
    requires e.EnumType? && WellFormedEnum(e) && InRange(Int32, n) && Holds(t, e)
    ensures ParseBasicType(p, EnumText(s, e, n), t) == Ok(EnumV(e, n))
  {
    var text := EnumText(s, e, n);
    EnumTextParses(s, e, n);
    assert ParseTyped(p, text, e) == EnumV(e, n);
    ParseOfText(p, text, e, t);
  }

  /** Enum text is not empty and parses as the enum's value. */
  lemma EnumTextParses(s: Settings, e: TypeDesc, n: int)
    requires e.EnumType? && WellFormedEnum(e) && InRange(Int32, n)
    ensures EnumText(s, e, n) != "" && ParseEnumValue(e, EnumText(s, e, n)) == Some(n)
  {
    EnumTextNonEmpty(s, e, n);
    EnumTextRoundTrip(e, n);
  }

  /** A member name is never empty, and neither is a number's text. */
  lemma EnumTextNonEmpty(s: Settings, e: TypeDesc, n: int)
    requires e.EnumType? && WellFormedEnum(e)
    ensures EnumText(s, e, n) != ""
  {
    if s.formatEnum.Text? {
      match MemberWithValue(e.members, n)
      case Some(i) =>
        assert EnumName(e, n) == e.members[i].0;
        assert e.members[i].0 != [];
      case None =>
    }
  }

  /** A string without '<' or '&', a boolean, an integer in range or an enum is written as
   *  its text and read back from it. */
  lemma ScalarRoundTrip(s: Settings, rt: Runtime, v: Value, t: TypeDesc, tag: string, name: string)
    requires Fits(s, rt, v, t) && (v.Str? || v.Bool? || v.Int? || v.EnumV?)
    ensures Inner(s, rt, Library(rt), v, tag).Ok?
    ensures ReadNode(Reflection(rt), Element(name, Inner(s, rt, Library(rt), v, tag).value), t) == Ok(v)
  {
    var p := rt.platform;
    match v
    case Str(x) =>
      ReadText(rt, name, x, t);
    case Bool(b) =>
      ReadText(rt, name, BoolText(b), t);
      ParseBoolText(p, b, t);
    case Int(q, n) =>
      ReadText(rt, name, Numbers.IntToString(n), t);
      ParseIntText(p, q, n, t);
    case EnumV(e, n) =>
      ReadText(rt, name, EnumText(s, e, n), t);
      ParseEnumText(p, s, e, n, t);
  }

  //------------------------------------------------------------------
  // What the writer produces for objects, lists and dictionaries
  //------------------------------------------------------------------

  /** The names of the properties, in order. */
  function PropertyNames(props: seq<Property>): (r: seq<string>)
    ensures |r| == |props|
    ensures forall j :: 0 <= j < |props| ==> r[j] == props[j].name
  {
    seq(|props|, j requires 0 <= j < |props| => props[j].name)
  }

  /** What the writer puts inside a property's element: nothing when the value is null (and
   *  the element is skipped), else the value's nodes. */
  function Written(s: Settings, rt: Runtime, rf: Naming, x: Value, name: string): (r: Option<seq<Node>>)
    ensures r.Some? <==> x != Null && Inner(s, rt, rf, x, name).Ok?
    ensures r.Some? ==> r.value == Inner(s, rt, rf, x, name).value
  {
    if x == Null then None
    else match Inner(s, rt, rf, x, name)
      case Ok(ns) => Some(ns)
      case Err(_) => None
  }

  function Bodies(s: Settings, rt: Runtime, rf: Naming, fields: seq<Value>, props: seq<Property>)
    : (r: seq<Option<seq<Node>>>)
    requires |fields| == |props|
    ensures |r| == |fields|
    ensures forall j :: 0 <= j < |fields| ==> r[j] == Written(s, rt, rf, fields[j], props[j].name)
  {
    seq(|fields|, j requires 0 <= j < |fields| => Written(s, rt, rf, fields[j], props[j].name))
  }

  /** Every property is written, its value is written without failing, and a null value is
   *  skipped. */
  predicate FieldsWritten(s: Settings, rt: Runtime, rf: Naming, fields: seq<Value>, props: seq<Property>) {
    && |fields| == |props|
    && (forall j :: 0 <= j < |props| ==> !props[j].ignored)
    && (forall j :: 0 <= j < |props| && fields[j] == Null ==> s.ignoreNull)
    && (forall j :: 0 <= j < |props| && fields[j] != Null ==> Inner(s, rt, rf, fields[j], props[j].name).Ok?)
  }

  /** Every item is not null, classified under the name `iname`, and written without failing. */
  predicate ItemsWritten(s: Settings, rt: Runtime, rf: Naming, items: seq<Value>, iname: string) {
    forall j :: 0 <= j < |items| ==>
      && items[j] != Null
      && rf.classify(TypeOf(items[j])).Ok? && rf.classify(TypeOf(items[j])).value.name == iname
      && Inner(s, rt, rf, items[j], "").Ok?
  }

  /** The property loop writes, for each property in order, the property's element when its
   *  value is not null and nothing when it is null and IgnoreNull is set. */
  lemma {:induction false} PropertyNodesChildren(s: Settings, rt: Runtime, rf: Naming, v: Value, k: nat)
    requires v.Obj? && |v.fields| == |rf.properties(v.otype)| && k <= |v.fields|
    requires FieldsWritten(s, rt, rf, v.fields, rf.properties(v.otype))
    ensures var props := rf.properties(v.otype);
      PropertyNodes(s, rt, rf, v, k) == Ok(Children(PropertyNames(props), Bodies(s, rt, rf, v.fields, props), k))
    decreases k
  {
    if k > 0 {
      PropertyNodesChildren(s, rt, rf, v, k - 1);
      var props := rf.properties(v.otype);
      assert PropertyNode(s, rt, rf, v, k - 1)
        == Ok(Present(PropertyNames(props), Bodies(s, rt, rf, v.fields, props), k - 1));
    }
  }

  /** An object of a plain class is written as its properties' elements. */
  lemma ObjWrites(s: Settings, rt: Runtime, rf: Naming, v: Value, tag: string)
    requires v.Obj? && v.otype.ClassType? && rf.tagName(s, v.otype).Ok?
    requires |v.fields| == |rf.properties(v.otype)|
    requires FieldsWritten(s, rt, rf, v.fields, rf.properties(v.otype))
    ensures var props := rf.properties(v.otype);
      Inner(s, rt, rf, v, tag) == Ok(Children(PropertyNames(props), Bodies(s, rt, rf, v.fields, props), |props|))
  {
    PropertyNodesChildren(s, rt, rf, v, |v.fields|);
  }

  /** The item loop writes one element per item, named as the classifier names the item's
   *  type. */
  lemma {:induction false} ItemNodesAll(s: Settings, rt: Runtime, rf: Naming, v: Value, iname: string, k: nat)
    requires v.ListV? && k <= |v.items|
    requires ItemsWritten(s, rt, rf, v.items, iname)
    ensures ItemNodes(s, rt, rf, v, k).Ok?
    ensures var ns := ItemNodes(s, rt, rf, v, k).value;
      |ns| == k && forall j :: 0 <= j < k ==> ns[j] == Element(iname, Inner(s, rt, rf, v.items[j], "").value)
    decreases k
  {
    if k > 0 {
      ItemNodesAll(s, rt, rf, v, iname, k - 1);
      assert ItemNode(s, rt, rf, v, k - 1) == Ok([Element(iname, Inner(s, rt, rf, v.items[k - 1], "").value)]);
    }
  }

  /** A list is written as its items' elements. */
  lemma ListWrites(s: Settings, rt: Runtime, rf: Naming, v: Value, tag: string, iname: string)
    requires v.ListV? && (CamelName(s, tag) == "" ==> rf.tagName(s, GetRealType(v.ltype)).Ok?)
    requires ItemsWritten(s, rt, rf, v.items, iname)
    ensures Inner(s, rt, rf, v, tag).Ok?
    ensures var ns := Inner(s, rt, rf, v, tag).value;
      |ns| == |v.items| && forall j :: 0 <= j < |v.items| ==> ns[j] == Element(iname, Inner(s, rt, rf, v.items[j], "").value)
  {
    ItemNodesAll(s, rt, rf, v, iname, |v.items|);
  }

  /** The entry loop writes one element per entry, named by its key's tag text. */
  lemma {:induction false} EntryNodesAll(s: Settings, rt: Runtime, rf: Naming, v: Value, k: nat)
    requires v.DictV? && k <= |v.entries|
    requires forall j :: 0 <= j < |v.entries| ==> Inner(s, rt, rf, v.entries[j].1, "").Ok?
    ensures EntryNodes(s, rt, rf, v, k).Ok?
    ensures var ns := EntryNodes(s, rt, rf, v, k).value;
      |ns| == k && forall j :: 0 <= j < k ==>
        ns[j] == Element(rf.keyName(v.entries[j].0), Inner(s, rt, rf, v.entries[j].1, "").value)
    decreases k
  {
    if k > 0 {
      EntryNodesAll(s, rt, rf, v, k - 1);
      var e := v.entries[k - 1];
      assert EntryNode(s, rt, rf, v, k - 1) == Ok([Element(rf.keyName(e.0), Inner(s, rt, rf, e.1, "").value)]);
    }
  }

  /** A dictionary is written as its entries' elements. */
  lemma DictWrites(s: Settings, rt: Runtime, rf: Naming, v: Value, tag: string)
    requires v.DictV? && v.dtype.DictType? && rf.tagName(s, v.dtype).Ok?
    requires forall j :: 0 <= j < |v.entries| ==> Inner(s, rt, rf, v.entries[j].1, "").Ok?
    ensures Inner(s, rt, rf, v, tag).Ok?
    ensures var ns := Inner(s, rt, rf, v, tag).value;
      |ns| == |v.entries| && forall j :: 0 <= j < |v.entries| ==>
        ns[j] == Element(rf.keyName(v.entries[j].0), Inner(s, rt, rf, v.entries[j].1, "").value)
  {
    EntryNodesAll(s, rt, rf, v, |v.entries|);
  }

  //------------------------------------------------------------------
  // What the reader makes of those elements
  //------------------------------------------------------------------

  /** A property whose name is unique among the children reads the value its element holds,
   *  and keeps its current value when its element was left out. */
  lemma PropertyReadsBack(rd: Reading, n: Node, names: seq<string>, bodies: seq<Option<seq<Node>>>,
                          p: Property, j: nat, current: Value, x: Value)
    requires |names| == |bodies| && j < |names| && ChildNodes(n) == Children(names, bodies, |names|)
    requires forall a, b :: 0 <= a < b < |names| ==> names[a] != names[b]
    requires p.name == names[j] && p.canWrite && IsXPathName(p.name)
    requires bodies[j].None? ==> x == current
    requires bodies[j].Some? ==>
      ReadNode(rd, Element(names[j], bodies[j].value), p.propType) == Ok(x) && ConvertForSet(x, p.propType) == Ok(x)
    ensures PropertyValue(rd, n, p, current) == Ok(x)
  {
    FirstNamedChildren(names, bodies, |names|, j);
  }

  /** An element with children, read as a plain class, is a new instance with its properties
   *  read in order. */
  lemma ObjDispatch(rd: Reading, n: Node, ct: TypeDesc)
    requires ct.ClassType? && rd.canCreate(ct) && !IsEmptyNode(n)
    requires rd.classify(ct).Ok? && rd.classify(ct).value.kind == Class
    ensures var props := rd.properties(ct);
      ReadNode(rd, n, ct) == ReadProperties(rd, n, props, Obj(ct, Defaults(props)), |props|)
  {
    assert NewInstance(rd, ct) == Ok(Obj(ct, Defaults(rd.properties(ct))));
  }

  /** What the reader needs of an object's properties and their elements: distinct valid
   *  names with setters, a left-out element only for a property at its default, and each
   *  written element reading back as the property's value. */
  ghost predicate FieldsReadable(rd: Reading, props: seq<Property>, fields: seq<Value>, bodies: seq<Option<seq<Node>>>) {
    && |props| == |fields| == |bodies|
    && (forall a, b :: 0 <= a < b < |props| ==> props[a].name != props[b].name)
    && (forall j :: 0 <= j < |props| ==> props[j].canWrite && IsXPathName(props[j].name))
    && (forall j :: 0 <= j < |props| && bodies[j].None? ==> fields[j] == DefaultValue(props[j].propType))
    && (forall j :: 0 <= j < |props| && bodies[j].Some? ==>
          && ReadNode(rd, Element(props[j].name, bodies[j].value), props[j].propType) == Ok(fields[j])
          && ConvertForSet(fields[j], props[j].propType) == Ok(fields[j]))
  }

  /** Each property, read on its own from its default, reads back as its value. */
  lemma FieldsReadBack(rd: Reading, n: Node, props: seq<Property>, fields: seq<Value>, bodies: seq<Option<seq<Node>>>)
    requires FieldsReadable(rd, props, fields, bodies)
    requires ChildNodes(n) == Children(PropertyNames(props), bodies, |props|)
    ensures forall j :: 0 <= j < |props| ==>
      PropertyValue(rd, n, props[j], Defaults(props)[j]) == Ok(fields[j])
  {
    var names := PropertyNames(props);
    forall j | 0 <= j < |props|
      ensures PropertyValue(rd, n, props[j], Defaults(props)[j]) == Ok(fields[j])
    {
      PropertyReadsBack(rd, n, names, bodies, props[j], j, Defaults(props)[j], fields[j]);
    }
  }

  /** An element holding the elements of an object's non-null properties reads as the
   *  object: a new instance whose properties are read one by one. */
  lemma ObjReads(rd: Reading, name: string, ct: TypeDesc, fields: seq<Value>, bodies: seq<Option<seq<Node>>>)
    requires ct.ClassType? && rd.canCreate(ct)
    requires rd.classify(ct).Ok? && rd.classify(ct).value.kind == Class
    requires FieldsReadable(rd, rd.properties(ct), fields, bodies)
    requires exists j :: 0 <= j < |bodies| && bodies[j].Some?
    ensures var props := rd.properties(ct);
      ReadNode(rd, Element(name, Children(PropertyNames(props), bodies, |props|)), ct) == Ok(Obj(ct, fields))
  {
    var props := rd.properties(ct);
    var names := PropertyNames(props);
    var n := Element(name, Children(names, bodies, |props|));
    var i :| 0 <= i < |bodies| && bodies[i].Some?;
    ChildrenNonEmpty(names, bodies, |props|, i);
    ObjDispatch(rd, n, ct);
    var o := Obj(ct, Defaults(props));
    FieldsReadBack(rd, n, props, fields, bodies);
    ReadPropertiesIndependent(rd, n, props, o, |props|);
    var r := ReadProperties(rd, n, props, o, |props|).value;
    assert r.fields == fields;
  }

  /** An element holding one element per item, all named after the item type, reads as the
   *  list of the items. */
  lemma ListReads(rd: Reading, n: Node, lt: TypeDesc, items: seq<Value>)
    requires lt.ListType?
    requires rd.classify(lt).Ok? && rd.classify(lt).value.kind == List && rd.classify(lt).value.itemType == lt.item
    requires IsXPathName(rd.typeName(lt.item))
    requires |ChildNodes(n)| == |items|
    requires forall j :: 0 <= j < |items| ==>
      && ChildNodes(n)[j].Element? && ChildNodes(n)[j].name == rd.typeName(lt.item)
      && ReadNode(rd, ChildNodes(n)[j], lt.item) == Ok(items[j])
      && ConvertForAdd(items[j], lt.item) == Ok(items[j])
    ensures ReadNode(rd, n, lt) == Ok(ListV(lt, items))
  {
    var cs := ChildNodes(n);
    ElementsNamedAll(cs, rd.typeName(lt.item));
    ReadItemsAll(rd, n, cs, lt.item, |cs|);
    var read := ReadItems(rd, n, cs, lt.item, |cs|).value;
    assert read == items;
  }

  /** An element holding one element per entry, named by a text that decodes to the entry's
   *  key, reads as the dictionary when the keys are distinct. */
  lemma DictReads(rd: Reading, n: Node, dt: TypeDesc, entries: seq<(Value, Value)>)
    requires dt.DictType? && dt.key == StringType
    requires rd.classify(dt).Ok? && rd.classify(dt).value.kind == Dict && rd.classify(dt).value.itemType == dt.value
    requires |ChildNodes(n)| == |entries|
    requires forall i, j :: 0 <= i < j < |entries| ==> entries[i].0 != entries[j].0
    requires forall j :: 0 <= j < |entries| ==>
      && Str(rd.keyText(NodeName(ChildNodes(n)[j]))) == entries[j].0
      && ReadNode(rd, ChildNodes(n)[j], dt.value) == Ok(entries[j].1)
      && ConvertForAdd(entries[j].1, dt.value).Ok?
    ensures ReadNode(rd, n, dt) == Ok(DictV(dt, entries))
  {
    var cs := ChildNodes(n);
    ReadEntriesOk(rd, n, cs, dt, dt.value, |cs|);
    ReadEntriesKeys(rd, n, cs, dt, dt.value, |cs|);
    ReadEntriesValues(rd, n, cs, dt, dt.value, |cs|);
    var read := ReadEntries(rd, n, cs, dt, dt.value, |cs|).value;
    assert read == entries;
  }

  //------------------------------------------------------------------
  // The round trip
  //------------------------------------------------------------------

  /**
   * Writing a value that fits its declared type, under any tag name, and reading the
   * element holding what was written, under any element name, as the declared type gives
   * the value back.
   */
  lemma {:induction false} RoundTrip(s: Settings, rt: Runtime, v: Value, t: TypeDesc, tag: string, name: string)
    requires UrlCoding(rt.platform) && Fits(s, rt, v, t)
    ensures Inner(s, rt, Library(rt), v, tag).Ok?
    ensures ReadNode(Reflection(rt), Element(name, Inner(s, rt, Library(rt), v, tag).value), t) == Ok(v)
    decreases v, 1
  {
    match v
    case Obj(_, _) => ObjRoundTrip(s, rt, v, tag, name);
    case ListV(_, _) => ListRoundTrip(s, rt, v, tag, name);
    case DictV(_, _) => DictRoundTrip(s, rt, v, tag, name);
    case _ => ScalarRoundTrip(s, rt, v, t, tag, name);
  }

  /** A fitting item type is named alike by the classifier and by Type.Name. */
  lemma ItemTypeName(s: Settings, rt: Runtime, x: Value, t: TypeDesc)
    requires Fits(s, rt, x, t) && !IsList(t) && !IsDict(t) && !t.NullableType?
    ensures FromType(t).Ok? && FromType(t).value.name == Name(t)
  {
    if x.Obj? {
      OthersAreClass(t);
    } else {
      BasicKeepsDeclaredType(t);
    }
  }

  lemma {:induction false} ObjRoundTrip(s: Settings, rt: Runtime, v: Value, tag: string, name: string)
    requires UrlCoding(rt.platform) && v.Obj? && Fits(s, rt, v, v.otype)
    ensures Inner(s, rt, Library(rt), v, tag).Ok?
    ensures ReadNode(Reflection(rt), Element(name, Inner(s, rt, Library(rt), v, tag).value), v.otype) == Ok(v)
    decreases v, 0
  {
    var props := Properties(rt.schema, v.otype);
    forall j | 0 <= j < |props| && v.fields[j] != Null
      ensures FieldRoundTrip(s, rt, v.fields[j], props[j])
    {
      RoundTrip(s, rt, v.fields[j], props[j].propType, props[j].name, props[j].name);
    }
    ObjFromFields(s, rt, v, tag, name);
  }

  /** A non-null property value is written under the property's name and read back from
   *  that element. */
  ghost predicate FieldRoundTrip(s: Settings, rt: Runtime, x: Value, p: Property) {
    && Inner(s, rt, Library(rt), x, p.name).Ok?
    && ReadNode(Reflection(rt), Element(p.name, Inner(s, rt, Library(rt), x, p.name).value), p.propType) == Ok(x)
  }

  /** An object whose non-null properties each make the round trip makes it too. */
  lemma ObjFromFields(s: Settings, rt: Runtime, v: Value, tag: string, name: string)
    requires v.Obj? && Fits(s, rt, v, v.otype)
    requires var props := Properties(rt.schema, v.otype);
      forall j :: 0 <= j < |props| && v.fields[j] != Null ==> FieldRoundTrip(s, rt, v.fields[j], props[j])
    ensures Inner(s, rt, Library(rt), v, tag).Ok?
    ensures ReadNode(Reflection(rt), Element(name, Inner(s, rt, Library(rt), v, tag).value), v.otype) == Ok(v)
  {
    var L, R := Library(rt), Reflection(rt);
    var ct := v.otype;
    var props := Properties(rt.schema, ct);
    ObjWritesChildren(s, rt, v, tag);
    var bodies := Bodies(s, rt, L, v.fields, props);
    ObjFieldsReadable(s, rt, v);
    var i :| 0 <= i < |v.fields| && v.fields[i] != Null;
    assert bodies[i].Some?;
    ObjClassified(rt, ct);
    ObjReads(R, name, ct, v.fields, bodies);
  }

  /** The mapper reads a plain class as an object it can create. */
  lemma ObjClassified(rt: Runtime, ct: TypeDesc)
    requires ct.ClassType? && !IsAnonymous(ct) && CanCreate(rt.schema, ct)
    ensures Reflection(rt).canCreate(ct)
    ensures Reflection(rt).classify(ct).Ok? && Reflection(rt).classify(ct).value.kind == Class
  {
    OthersAreClass(ct);
  }

  /** The writer's view: the object's element holds its non-null properties' elements. */
  lemma ObjWritesChildren(s: Settings, rt: Runtime, v: Value, tag: string)
    requires v.Obj? && Fits(s, rt, v, v.otype)
    requires var props := Properties(rt.schema, v.otype);
      forall j :: 0 <= j < |props| && v.fields[j] != Null ==> FieldRoundTrip(s, rt, v.fields[j], props[j])
    ensures var props := Properties(rt.schema, v.otype);
      Inner(s, rt, Library(rt), v, tag) == Ok(Children(PropertyNames(props), Bodies(s, rt, Library(rt), v.fields, props), |props|))
  {
    var L := Library(rt);
    assert FieldsWritten(s, rt, L, v.fields, L.properties(v.otype));
    assert L.tagName(s, v.otype) == Ok(CamelName(s, Name(v.otype)));
    ObjWrites(s, rt, L, v, tag);
  }

  /** The reader's view of what the writer wrote for an object's properties. */
  lemma ObjFieldsReadable(s: Settings, rt: Runtime, v: Value)
    requires v.Obj? && Fits(s, rt, v, v.otype)
    requires var props := Properties(rt.schema, v.otype);
      forall j :: 0 <= j < |props| && v.fields[j] != Null ==> FieldRoundTrip(s, rt, v.fields[j], props[j])
    ensures var props := Properties(rt.schema, v.otype);
      FieldsReadable(Reflection(rt), props, v.fields, Bodies(s, rt, Library(rt), v.fields, props))
  {
    var props := Properties(rt.schema, v.otype);
    forall j | 0 <= j < |props| && v.fields[j] != Null
      ensures ConvertForSet(v.fields[j], props[j].propType) == Ok(v.fields[j])
    {
      FitsType(s, rt, v.fields[j], props[j].propType);
    }
  }

  lemma {:induction false} ListRoundTrip(s: Settings, rt: Runtime, v: Value, tag: string, name: string)
    requires UrlCoding(rt.platform) && v.ListV? && Fits(s, rt, v, v.ltype)
    ensures Inner(s, rt, Library(rt), v, tag).Ok?
    ensures ReadNode(Reflection(rt), Element(name, Inner(s, rt, Library(rt), v, tag).value), v.ltype) == Ok(v)
    decreases v, 0
  {
    var L, R := Library(rt), Reflection(rt);
    var item := v.ltype.item;
    forall j | 0 <= j < |v.items|
      ensures Inner(s, rt, L, v.items[j], "").Ok?
      ensures ReadNode(R, Element(Name(item), Inner(s, rt, L, v.items[j], "").value), item) == Ok(v.items[j])
      ensures TypeOf(v.items[j]) == item
    {
      RoundTrip(s, rt, v.items[j], item, "", Name(item));
      FitsType(s, rt, v.items[j], item);
    }
    if |v.items| > 0 {
      ItemTypeName(s, rt, v.items[0], item);
    }
    ListTagName(s, item);
    assert GetRealType(v.ltype) == v.ltype;
    ListWrites(s, rt, L, v, tag, Name(item));
    ListIsList(item);
    ListReads(R, Element(name, Inner(s, rt, L, v, tag).value), v.ltype, v.items);
  }

  lemma {:induction false} DictRoundTrip(s: Settings, rt: Runtime, v: Value, tag: string, name: string)
    requires UrlCoding(rt.platform) && v.DictV? && Fits(s, rt, v, v.dtype)
    ensures Inner(s, rt, Library(rt), v, tag).Ok?
    ensures ReadNode(Reflection(rt), Element(name, Inner(s, rt, Library(rt), v, tag).value), v.dtype) == Ok(v)
    decreases v, 0
  {
    var p := rt.platform;
    forall j | 0 <= j < |v.entries|
      ensures EntryRoundTrip(s, rt, v.entries[j], v.dtype.value)
    {
      assert v.entries[j].1 < v;
      RoundTrip(s, rt, v.entries[j].1, v.dtype.value, "", KeyName(p, v.entries[j].0));
      FitsType(s, rt, v.entries[j].1, v.dtype.value);
      TagRoundTrip(p, v.entries[j].0.s);
    }
    DictFromEntries(s, rt, v, tag, name);
  }

  /** An entry's value is written under its key's tag and read back from that element, which
   *  is named by a text that decodes to the key, and IDictionary.Add accepts the value. */
  ghost predicate EntryRoundTrip(s: Settings, rt: Runtime, e: (Value, Value), vt: TypeDesc) {
    var tag := KeyName(rt.platform, e.0);
    && Inner(s, rt, Library(rt), e.1, "").Ok?
    && ReadNode(Reflection(rt), Element(tag, Inner(s, rt, Library(rt), e.1, "").value), vt) == Ok(e.1)
    && ConvertForAdd(e.1, vt).Ok?
    && Str(XmlTagDecode(rt.platform, tag)) == e.0
  }

  /** A dictionary whose entries each make the round trip makes it too. */
  lemma DictFromEntries(s: Settings, rt: Runtime, v: Value, tag: string, name: string)
    requires v.DictV? && Fits(s, rt, v, v.dtype)
    requires forall j :: 0 <= j < |v.entries| ==> EntryRoundTrip(s, rt, v.entries[j], v.dtype.value)
    ensures Inner(s, rt, Library(rt), v, tag).Ok?
    ensures ReadNode(Reflection(rt), Element(name, Inner(s, rt, Library(rt), v, tag).value), v.dtype) == Ok(v)
  {
    var L, R := Library(rt), Reflection(rt);
    var dt := v.dtype;
    SystemTypesNotAnonymous(dt);
    DictWrites(s, rt, L, v, tag);
    DictionaryIsDict(dt.key, dt.value);
    DictReads(R, Element(name, Inner(s, rt, L, v, tag).value), dt, v.entries);
  }

  //------------------------------------------------------------------
  // Arrays, with ParseNodeToArray corrected
  //------------------------------------------------------------------

  /** An element holding one element per item, all named after the element type, reads, with
   *  the corrected ParseNodeToArray, as the array of the items. */
  lemma ArrayReads(rd: Reading, n: Node, at: TypeDesc, items: seq<Value>)
    requires at.ArrayType?
    requires rd.classify(at).Ok? && rd.classify(at).value.itemType == at.elem
    requires IsXPathName(rd.typeName(at.elem))
    requires |ChildNodes(n)| == |items|
    requires forall j :: 0 <= j < |items| ==>
      && ChildNodes(n)[j].Element? && ChildNodes(n)[j].name == rd.typeName(at.elem)
      && ReadNode(rd, ChildNodes(n)[j], at.elem) == Ok(items[j])
      && ConvertForSet(items[j], at.elem) == Ok(items[j])
    ensures ReadArrayFixed(rd, n, at) == Ok(ListV(at, items))
  {
    var cs := ChildNodes(n);
    ElementsNamedAll(cs, rd.typeName(at.elem));
    ReadElementsAll(rd, n, cs, at.elem, |cs|);
    var read := ReadElements(rd, n, cs, at.elem, |cs|).value;
    assert read == items;
  }

  /**
   * An array written under a tag name (as a property or as the document root, where the
   * writer does not call GetTagName) reads back with the corrected ParseNodeToArray, for
   * items that fit an element type the writer and the reader name alike.
   */
  lemma {:induction false} ArrayFixedRoundTrip(s: Settings, rt: Runtime, e: TypeDesc, items: seq<Value>, tag: string, name: string)
    requires UrlCoding(rt.platform) && tag != ""
    requires SameItemName(e) && !IsAnonymous(ArrayType(e))
    requires forall j :: 0 <= j < |items| ==> items[j] != Null && Fits(s, rt, items[j], e)
    ensures Inner(s, rt, Library(rt), ListV(ArrayType(e), items), tag).Ok?
    ensures ReadArrayFixed(Reflection(rt), Element(name, Inner(s, rt, Library(rt), ListV(ArrayType(e), items), tag).value), ArrayType(e))
      == Ok(ListV(ArrayType(e), items))
  {
    var L, R := Library(rt), Reflection(rt);
    var v := ListV(ArrayType(e), items);
    forall j | 0 <= j < |items|
      ensures Inner(s, rt, L, items[j], "").Ok?
      ensures ReadNode(R, Element(Name(e), Inner(s, rt, L, items[j], "").value), e) == Ok(items[j])
      ensures TypeOf(items[j]) == e
    {
      RoundTrip(s, rt, items[j], e, "", Name(e));
      FitsType(s, rt, items[j], e);
    }
    if |items| > 0 {
      ItemTypeName(s, rt, items[0], e);
    }
    ListWrites(s, rt, L, v, tag, Name(e));
    ArrayIsArray(e);
    ArrayReads(R, Element(name, Inner(s, rt, L, v, tag).value), ArrayType(e), items);
  }

  //------------------------------------------------------------------
  // Where writing and reading disagree
  //------------------------------------------------------------------

  /** A string holding '<' or '&' comes back with the CDATA padding: one space on each
   *  side. */
  lemma CDataPadding(s: Settings, rt: Runtime, x: string, tag: string, name: string)
    requires ContainsAny(x, TextSpecials)
    ensures Inner(s, rt, Library(rt), Str(x), tag).Ok?
    ensures ReadNode(Reflection(rt), Element(name, Inner(s, rt, Library(rt), Str(x), tag).value), StringType)
      == Ok(Str(" " + x + " "))
  {
    EncodedTextInnerText(name, x);
    BasicKeepsDeclaredType(StringType);
  }

  /** default(DateTime) is written as no text. */
  lemma DefaultDateWritesNothing(s: Settings, rt: Runtime, tag: string)
    ensures Inner(s, rt, Library(rt), Date(0), tag) == Ok([])
  {
  }

  /** An element without text reads as the default date, or as null for DateTime?. */
  lemma EmptyDateReads(rt: Runtime, name: string)
    ensures ReadNode(Reflection(rt), Element(name, []), DateTimeType) == Ok(Date(0))
    ensures ReadNode(Reflection(rt), Element(name, []), NullableType(DateTimeType)) == Ok(Null)
  {
    assert TextNodes("") == [];
    ReadText(rt, name, "", DateTimeType);
    ReadText(rt, name, "", NullableType(DateTimeType));
    ParseEmptyDefaults(rt.platform, DateTimeType);
    ParseNullable(rt.platform, "", DateTimeType);
  }

  /** A string is written as its text when it holds neither '<' nor '&'. */
  lemma PlainStringWrites(s: Settings, rt: Runtime, rf: Naming, x: string, tag: string)
    requires !ContainsAny(x, TextSpecials)
    ensures Inner(s, rt, rf, Str(x), tag) == Ok(TextNodes(x))
  {
  }

  /** A list of objects holding a string is written with the item named after its runtime
   *  type, String. */
  lemma ObjectListWrites(s: Settings, rt: Runtime, tag: string)
    ensures Inner(s, rt, Library(rt), ListV(ListType(ObjectType), [Str("a")]), tag) == Ok([Element("String", TextNodes("a"))])
  {
    var L := Library(rt);
    var v := ListV(ListType(ObjectType), [Str("a")]);
    SystemTypesNotAnonymous(ObjectType);
    ListTagName(s, ObjectType);
    assert GetRealType(v.ltype) == v.ltype;
    BasicKeepsDeclaredType(StringType);
    assert !ContainsAny("a", TextSpecials);
    PlainStringWrites(s, rt, L, "a", "");
    ListWrites(s, rt, L, v, tag, "String");
    assert Inner(s, rt, L, v, tag).value == [Element("String", TextNodes("a"))];
  }

  /** A list element none of whose children is named after the item type reads as an empty
   *  list. */
  lemma ListOfNoneNamed(rd: Reading, n: Node, lt: TypeDesc)
    requires rd.classify(lt).Ok? && rd.classify(lt).value.kind == List
    requires IsXPathName(rd.typeName(rd.classify(lt).value.itemType))
    requires forall c :: c in ChildNodes(n) ==> !(c.Element? && c.name == rd.typeName(rd.classify(lt).value.itemType))
    ensures ReadNode(rd, n, lt) == Ok(ListV(lt, []))
  {
    var cs, iname := ChildNodes(n), rd.typeName(rd.classify(lt).value.itemType);
    forall k | 0 <= k < |cs|
      ensures !(cs[k].Element? && cs[k].name == iname)
    {
      assert cs[k] in cs;
    }
    ElementsNamedNone(cs, iname);
    assert ReadItems(rd, n, [], rd.classify(lt).value.itemType, 0) == Ok([]);
  }

  /** The reader selects children named after the declared item type, Object, and finds
   *  none. */
  lemma ObjectListReads(rt: Runtime, name: string)
    ensures ReadNode(Reflection(rt), Element(name, [Element("String", TextNodes("a"))]), ListType(ObjectType))
      == Ok(ListV(ListType(ObjectType), []))
  {
    ListIsList(ObjectType);
    assert IsXPathName("Object");
    ListOfNoneNamed(Reflection(rt), Element(name, [Element("String", TextNodes("a"))]), ListType(ObjectType));
  }

  /** So a list of objects holding a string comes back empty. */
  lemma ObjectListDropsItems(s: Settings, rt: Runtime, tag: string, name: string)
    ensures var v := ListV(ListType(ObjectType), [Str("a")]);
      && Inner(s, rt, Library(rt), v, tag).Ok?
      && ReadNode(Reflection(rt), Element(name, Inner(s, rt, Library(rt), v, tag).value), ListType(ObjectType))
        == Ok(ListV(ListType(ObjectType), []))
  {
    ObjectListWrites(s, rt, tag);
    ObjectListReads(rt, name);
  }

  /** A key holding '+' but none of '<', '&', '/', '>' is written as it is. */
  lemma PlusKeyWrites(s: Settings, rt: Runtime, tag: string)
    ensures var dt := DictType(StringType, StringType);
      Inner(s, rt, Library(rt), DictV(dt, [(Str("a+b"), Str("x"))]), tag) == Ok([Element("a+b", TextNodes("x"))])
  {
    var L := Library(rt);
    var dt := DictType(StringType, StringType);
    var v := DictV(dt, [(Str("a+b"), Str("x"))]);
    SystemTypesNotAnonymous(dt);
    assert !ContainsAny("x", TextSpecials);
    assert !ContainsAny("a+b", TagSpecials);
    PlainStringWrites(s, rt, L, "x", "");
    DictWrites(s, rt, L, v, tag);
    assert Inner(s, rt, L, v, tag).value == [Element("a+b", TextNodes("x"))];
  }

  /** ... and read back with a space in place of the '+'. */
  lemma PlusKeyReads(rt: Runtime, name: string)
    requires UrlCoding(rt.platform)
    ensures var dt := DictType(StringType, StringType);
      ReadNode(Reflection(rt), Element(name, [Element("a+b", TextNodes("x"))]), dt) == Ok(DictV(dt, [(Str("a b"), Str("x"))]))
  {
    var dt := DictType(StringType, StringType);
    var n := Element(name, [Element("a+b", TextNodes("x"))]);
    PlusKeyReadsAsSpace(rt.platform);
    assert !ContainsAny("a+b", TagSpecials);
    DictionaryIsDict(StringType, StringType);
    ReadText(rt, "a+b", "x", StringType);
    DictReads(Reflection(rt), n, dt, [(Str("a b"), Str("x"))]);
  }

  /** So a dictionary keyed "a+b" comes back keyed "a b". */
  lemma PlusKeyDictionary(s: Settings, rt: Runtime, tag: string, name: string)
    requires UrlCoding(rt.platform)
    ensures var v := DictV(DictType(StringType, StringType), [(Str("a+b"), Str("x"))]);
      && Inner(s, rt, Library(rt), v, tag).Ok?
      && ReadNode(Reflection(rt), Element(name, Inner(s, rt, Library(rt), v, tag).value), v.dtype)
        == Ok(DictV(v.dtype, [(Str("a b"), Str("x"))]))
  {
    PlusKeyWrites(s, rt, tag);
    PlusKeyReads(rt, name);
  }

  /** An object all of whose properties are null is written, under IgnoreNull, as an empty
   *  element, which reads as null. */
  lemma NullObjectReadsAsNull(s: Settings, rt: Runtime, v: Value, tag: string, name: string)
    requires v.Obj? && v.otype.ClassType? && !IsAnonymous(v.otype) && s.ignoreNull
    requires var props := Properties(rt.schema, v.otype);
      && |v.fields| == |props|
      && (forall j :: 0 <= j < |props| ==> !props[j].ignored && v.fields[j] == Null)
    ensures Inner(s, rt, Library(rt), v, tag) == Ok([])
    ensures ReadNode(Reflection(rt), Element(name, []), v.otype) == Ok(Null)
  {
    var L := Library(rt);
    var props := Properties(rt.schema, v.otype);
    assert FieldsWritten(s, rt, L, v.fields, L.properties(v.otype));
    assert L.tagName(s, v.otype) == Ok(CamelName(s, Name(v.otype)));
    ObjWrites(s, rt, L, v, tag);
    var bodies := Bodies(s, rt, L, v.fields, props);
    ChildrenAbsent(PropertyNames(props), bodies, |props|);
    OthersAreClass(v.otype);
  }

  /** Without bodies there are no children. */
  lemma {:induction false} ChildrenAbsent(names: seq<string>, bodies: seq<Option<seq<Node>>>, k: nat)
    requires k <= |names| && k <= |bodies|
    requires forall j :: 0 <= j < k ==> bodies[j].None?
    ensures Children(names, bodies, k) == []
    decreases k
  {
    if k > 0 {
      ChildrenAbsent(names, bodies, k - 1);
    }
  }
}
