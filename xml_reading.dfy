/**
 * What Xmlizer.Parse reads from a node tree: basic values from an element's inner text,
 * objects property by property from the first child element named after each writable
 * property, lists from the child elements named after the item type, dictionaries from
 * every child node with the URL-decoded node name as key.  Arrays are never read: the
 * reader builds an array of the wrong type and the conversion that follows fails.  The
 * imperative reader in module Xmlizer is proved to return exactly these values.
 */
module XmlReading {
  import opened Wrappers
  import opened Types
  import opened Values
  import opened Serialization
  import opened ConvertorParse
  import opened XmlNodes
  import opened XmlWriting

  /**
   * What the reader asks of reflection and of the library: FromType's classification,
   * Type.Name (the child name list items are selected by), ParseBasicType, the public
   * properties, whether Activator.CreateInstance succeeds, and the decoding of a node name
   * into a dictionary key.  The reader is stated over any such services; `Reflection` is
   * the mapper's own.
   */
  datatype Reading = Reading(
    classify: TypeDesc -> Result<SerializationNode>,
    typeName: TypeDesc -> string,
    parse: (string, TypeDesc) -> Result<Value>,
    properties: TypeDesc -> seq<Property>,
    canCreate: TypeDesc -> bool,
    keyText: string -> string)

  function Reflection(rt: Runtime): (r: Reading)
    ensures forall t :: r.classify(t) == FromType(t)
    ensures forall t :: r.typeName(t) == Name(t)
    ensures forall x, t :: r.parse(x, t) == ParseBasicType(rt.platform, x, t)
    ensures forall t :: r.properties(t) == Properties(rt.schema, t)
    ensures forall t :: r.canCreate(t) == CanCreate(rt.schema, t)
    ensures forall x :: r.keyText(x) == XmlTagDecode(rt.platform, x)
  {
    Reading(FromType, Name, (x, t) => ParseBasicType(rt.platform, x, t), t => Properties(rt.schema, t),
            t => CanCreate(rt.schema, t), x => XmlTagDecode(rt.platform, x))
  }

  //------------------------------------------------------------------
  // The reader
  //------------------------------------------------------------------

  /** Parse(xml, type): a basic type is parsed from the text itself; anything else from the
   *  document element of the loaded XML (`load` is XmlDocument.LoadXml, None when the text
   *  is not well-formed). */
  function Parse(rd: Reading, load: string -> Option<Node>, xml: string, t: TypeDesc): (r: Result<Value>)
    ensures rd.classify(t).Err? ==> r == Err(rd.classify(t).error)
    ensures rd.classify(t).Ok? && rd.classify(t).value.kind == Basic ==> r == rd.parse(xml, t)
    ensures rd.classify(t).Ok? && rd.classify(t).value.kind != Basic && load(xml).None? ==> r == Err(XmlError)
  {
    match rd.classify(t)
    case Err(e) => Err(e)
    case Ok(tag) =>
      if tag.kind == Basic then rd.parse(xml, t)
      else match load(xml)
        case None => Err(XmlError)
        case Some(root) => ReadNode(rd, root, t)
  }

  /** ParseNode: dispatch on the classification of the expected type. */
  function ReadNode(rd: Reading, n: Node, t: TypeDesc): (r: Result<Value>)
    decreases n, 3
  {
    match rd.classify(t)
    case Err(e) => Err(e)
    case Ok(tag) =>
      match tag.kind
      case Basic => ReadValue(rd, n, t)
      case List => ReadList(rd, n, t)
      case Array => ReadArray(rd, n, t)
      case Dict => ReadDict(rd, n, t)
      case Class => ReadObject(rd, n, t)
  }

  /** ParseNodeToValue: the node's inner text, parsed as the expected type. */
  function ReadValue(rd: Reading, n: Node, t: TypeDesc): Result<Value> {
    rd.parse(InnerText(n), t)
  }

  //------------------------------------------------------------------
  // Objects
  //------------------------------------------------------------------

  /** Every property at its type's default value, in property order. */
  function Defaults(props: seq<Property>): (r: seq<Value>)
    ensures |r| == |props|
    ensures forall i :: 0 <= i < |props| ==> r[i] == DefaultValue(props[i].propType)
  {
    seq(|props|, i requires 0 <= i < |props| => DefaultValue(props[i].propType))
  }

  /**
   * Activator.CreateInstance(type): MissingMethodException without a parameterless
   * constructor; null for Nullable<T>; a zero decimal; an empty ArrayList or Hashtable;
   * otherwise an object whose properties hold their defaults.
   */
  function NewInstance(rd: Reading, t: TypeDesc): (r: Result<Value>)
    ensures r.Err? <==> !rd.canCreate(t)
    ensures r.Err? ==> r.error == MissingConstructor
    ensures r.Ok? && r.value.Obj? ==> r.value == Obj(t, Defaults(rd.properties(t)))
  {
    if !rd.canCreate(t) then Err(MissingConstructor)
    else if t.NullableType? then Ok(Null)
    else if t == DecimalType then Ok(Dec(0.0))
    else if t == ArrayListType then Ok(ListV(t, []))
    else if t == HashtableType then Ok(DictV(t, []))
    else Ok(Obj(t, Defaults(rd.properties(t))))
  }

  /** PropertyInfo.SetValue on the i-th property: an object's field changes, and nothing else
   *  has fields the mapper can see. */
  function SetField(o: Value, i: nat, x: Value): (r: Value)
    ensures o.Obj? && i < |o.fields| ==> r == Obj(o.otype, o.fields[i := x])
    ensures !(o.Obj? && i < |o.fields|) ==> r == o
  {
    if o.Obj? && i < |o.fields| then o.(fields := o.fields[i := x]) else o
  }

  /** ParseNodeToObject: null for an element without child nodes, else a new instance whose
   *  writable properties are read in order. */
  function ReadObject(rd: Reading, n: Node, t: TypeDesc): (r: Result<Value>)
    ensures IsEmptyNode(n) ==> r == Ok(Null)
    ensures !IsEmptyNode(n) && !rd.canCreate(t) ==> r == Err(MissingConstructor)
    decreases n, 2
  {
    if IsEmptyNode(n) then Ok(Null)
    else match NewInstance(rd, t)
      case Err(e) => Err(e)
      case Ok(o) => ReadProperties(rd, n, rd.properties(t), o, |rd.properties(t)|)
  }

  /** The instance after the loop has passed the first k properties; the first failure wins. */
  function ReadProperties(rd: Reading, n: Node, props: seq<Property>, o: Value, k: nat): (r: Result<Value>)
    requires k <= |props|
    decreases n, 1, k
  {
    if k == 0 then Ok(o)
    else match ReadProperties(rd, n, props, o, k - 1)
      case Err(e) => Err(e)
      case Ok(o') => ReadProperty(rd, n, props[k - 1], k - 1, o')
  }

  /**
   * One pass of the property loop: a property without a setter, or without a child element
   * of its name, leaves the instance alone; otherwise the child is read as the property's
   * type and stored through SetValue.
   */
  function ReadProperty(rd: Reading, n: Node, p: Property, i: nat, o: Value): (r: Result<Value>)
    decreases n, 0
  {
    if !p.canWrite then Ok(o)
    else match SelectSingleNode(n, p.name)
      case Err(e) => Err(e)
      case Ok(None) => Ok(o)
      case Ok(Some(c)) =>
        match ReadNode(rd, c, p.propType)
        case Err(e) => Err(e)
        case Ok(v) =>
          match ConvertForSet(v, p.propType)
          case Err(e) => Err(e)
          case Ok(x) => Ok(SetField(o, i, x))
  }

  //------------------------------------------------------------------
  // Lists and arrays
  //------------------------------------------------------------------

  /** ParseNodeToList: a new list holding, in order, the child elements named after the item
   *  type, each read as the item type and added with IList.Add. */
  function ReadList(rd: Reading, n: Node, t: TypeDesc): (r: Result<Value>)
    decreases n, 2
  {
    match rd.classify(t)
    case Err(e) => Err(e)
    case Ok(tag) =>
      match SelectNodes(n, rd.typeName(tag.itemType))
      case Err(e) => Err(e)
      case Ok(subs) =>
        match ReadItems(rd, n, subs, tag.itemType, |subs|)
        case Err(e) => Err(e)
        case Ok(items) => Ok(ListV(t, items))
  }

  /** The items of the first k selected nodes; the first failure wins. */
  function ReadItems(rd: Reading, parent: Node, subs: seq<Node>, item: TypeDesc, k: nat): (r: Result<seq<Value>>)
    requires k <= |subs|
    requires forall j :: 0 <= j < |subs| ==> subs[j] < parent
    decreases parent, 1, k
  {
    if k == 0 then Ok([])
    else match ReadItems(rd, parent, subs, item, k - 1)
      case Err(e) => Err(e)
      case Ok(items) =>
        match ReadItem(rd, subs[k - 1], item)
        case Err(e) => Err(e)
        case Ok(x) => Ok(items + [x])
  }

  /** One pass of the list loop: the node read as the item type, then list.Add. */
  function ReadItem(rd: Reading, sub: Node, item: TypeDesc): (r: Result<Value>)
    decreases sub, 4
  {
    match ReadNode(rd, sub, item)
    case Err(e) => Err(e)
    case Ok(v) => ConvertForAdd(v, item)
  }

  /**
   * ParseNodeToArray as written: once SelectNodes has accepted the item name, the array
   * is created with the array type itself as element type, and Convert.ChangeType of that
   * array to the array type is an InvalidCastException.
   */
  function ReadArray(rd: Reading, n: Node, t: TypeDesc): (r: Result<Value>)
    ensures r.Err?
  {
    match rd.classify(t)
    case Err(e) => Err(e)
    case Ok(tag) =>
      match SelectNodes(n, rd.typeName(tag.itemType))
      case Err(e) => Err(e)
      case Ok(_) => Err(InvalidCast)
  }

  /** ParseNodeToArray as evidently intended: an array of the item type, holding the selected
   *  nodes read as items and stored with Array.SetValue, which widens and turns null into
   *  the element type's default. */
  function ReadArrayFixed(rd: Reading, n: Node, t: TypeDesc): (r: Result<Value>)
    decreases n, 2
  {
    match rd.classify(t)
    case Err(e) => Err(e)
    case Ok(tag) =>
      match SelectNodes(n, rd.typeName(tag.itemType))
      case Err(e) => Err(e)
      case Ok(subs) =>
        match ReadElements(rd, n, subs, tag.itemType, |subs|)
        case Err(e) => Err(e)
        case Ok(items) => Ok(ListV(t, items))
  }

  function ReadElements(rd: Reading, parent: Node, subs: seq<Node>, item: TypeDesc, k: nat): (r: Result<seq<Value>>)
    requires k <= |subs|
    requires forall j :: 0 <= j < |subs| ==> subs[j] < parent
    decreases parent, 1, k
  {
    if k == 0 then Ok([])
    else match ReadElements(rd, parent, subs, item, k - 1)
      case Err(e) => Err(e)
      case Ok(items) =>
        match ReadNode(rd, subs[k - 1], item)
        case Err(e) => Err(e)
        case Ok(v) =>
          match ConvertForSet(v, item)
          case Err(_) => Err(InvalidCast)
          case Ok(x) => Ok(items + [x])
  }

  //------------------------------------------------------------------
  // Dictionaries
  //------------------------------------------------------------------

  /** ParseNodeToDict: a new dictionary holding, in order, every child node under its
   *  URL-decoded name, read as the value type and added with IDictionary.Add. */
  function ReadDict(rd: Reading, n: Node, t: TypeDesc): (r: Result<Value>)
    decreases n, 2
  {
    match rd.classify(t)
    case Err(e) => Err(e)
    case Ok(tag) =>
      match ReadEntries(rd, n, ChildNodes(n), t, tag.itemType, |ChildNodes(n)|)
      case Err(e) => Err(e)
      case Ok(entries) => Ok(DictV(t, entries))
  }

  /** The entries of the first k child nodes; the first failure wins. */
  function ReadEntries(rd: Reading, parent: Node, subs: seq<Node>, t: TypeDesc, item: TypeDesc, k: nat)
    : (r: Result<seq<(Value, Value)>>)
    requires k <= |subs|
    requires forall j :: 0 <= j < |subs| ==> subs[j] < parent
    decreases parent, 1, k
  {
    if k == 0 then Ok([])
    else match ReadEntries(rd, parent, subs, t, item, k - 1)
      case Err(e) => Err(e)
      case Ok(entries) => ReadEntry(rd, entries, subs[k - 1], t, item)
  }

  /** One pass of the dictionary loop: the node's decoded name as key, the node read as the
   *  value type, then IDictionary.Add. */
  function ReadEntry(rd: Reading, entries: seq<(Value, Value)>, sub: Node, t: TypeDesc, item: TypeDesc)
    : (r: Result<seq<(Value, Value)>>)
    decreases sub, 4
  {
    match ReadNode(rd, sub, item)
    case Err(e) => Err(e)
    case Ok(v) => AddEntry(entries, Str(rd.keyText(NodeName(sub))), v, t, item)
  }

  /** The key of Dictionary<K, V> accepts a string: K is string or object. */
  predicate TakesStringKey(t: TypeDesc) {
    !t.DictType? || t.key == StringType || t.key == ObjectType
  }

  /** The keys of a list of entries. */
  function Keys(entries: seq<(Value, Value)>): (r: seq<Value>)
    ensures |r| == |entries|
    ensures forall j :: 0 <= j < |entries| ==> r[j] == entries[j].0
  {
    seq(|entries|, j requires 0 <= j < |entries| => entries[j].0)
  }

  /**
   * IDictionary.Add(key, value) on Dictionary<K, V>: a null the value type cannot hold, a
   * key that is not a K, or a value that is not a V is an ArgumentException; a key already
   * present is the duplicate-key ArgumentException.
   */
  function AddEntry(entries: seq<(Value, Value)>, key: Value, v: Value, t: TypeDesc, item: TypeDesc)
    : (r: Result<seq<(Value, Value)>>)
    ensures r.Ok? <==> ConvertForAdd(v, item).Ok? && TakesStringKey(t) && key !in Keys(entries)
    ensures r.Ok? ==> r.value == entries + [(key, v)]
    ensures r.Ok? ==> forall i :: 0 <= i < |entries| ==> entries[i].0 != key
    ensures r.Err? && ConvertForAdd(v, item).Ok? && TakesStringKey(t) ==> r.error == DuplicateKey
    ensures r.Err? && !(ConvertForAdd(v, item).Ok? && TakesStringKey(t)) ==> r.error == ArgumentError
  {
    match ConvertForAdd(v, item)
    case Err(e) => Err(e)
    case Ok(x) =>
      if !TakesStringKey(t) then Err(ArgumentError)
      else if key in Keys(entries) then Err(DuplicateKey)
      else Ok(entries + [(key, x)])
  }

  //------------------------------------------------------------------
  // Properties of the reader
  //------------------------------------------------------------------

  /** The value a property ends up with when read on its own: its current value when it has
   *  no setter or no child element of its name, else the child read and converted. */
  function PropertyValue(rd: Reading, n: Node, p: Property, current: Value): (r: Result<Value>)
    decreases n, 0
  {
    if !p.canWrite then Ok(current)
    else match SelectSingleNode(n, p.name)
      case Err(e) => Err(e)
      case Ok(None) => Ok(current)
      case Ok(Some(c)) =>
        match ReadNode(rd, c, p.propType)
        case Err(e) => Err(e)
        case Ok(v) => ConvertForSet(v, p.propType)
  }

  /**
   * The property loop reads every property independently of the others: it succeeds exactly
   * when each of the first k properties reads, and then each of them holds what it reads
   * to on its own while the later ones keep their initial values.
   */
  lemma {:induction false} ReadPropertiesIndependent(rd: Reading, n: Node, props: seq<Property>, o: Value, k: nat)
    requires k <= |props| && o.Obj? && |o.fields| == |props|
    ensures ReadProperties(rd, n, props, o, k).Ok? <==>
      forall j :: 0 <= j < k ==> PropertyValue(rd, n, props[j], o.fields[j]).Ok?
    ensures ReadProperties(rd, n, props, o, k).Ok? ==>
      var r := ReadProperties(rd, n, props, o, k).value;
      && r.Obj? && r.otype == o.otype && |r.fields| == |props|
      && (forall j :: 0 <= j < k ==> r.fields[j] == PropertyValue(rd, n, props[j], o.fields[j]).value)
      && (forall j :: k <= j < |props| ==> r.fields[j] == o.fields[j])
    decreases k
  {
    if k > 0 {
      ReadPropertiesIndependent(rd, n, props, o, k - 1);
      var prev := ReadProperties(rd, n, props, o, k - 1);
      if prev.Ok? {
        PropertyStepValue(rd, n, props[k - 1], k - 1, prev.value);
      }
    }
  }

  /** One pass of the property loop stores what the property reads to on its own. */
  lemma PropertyStepValue(rd: Reading, n: Node, p: Property, i: nat, o: Value)
    requires o.Obj? && i < |o.fields|
    ensures ReadProperty(rd, n, p, i, o).Ok? <==> PropertyValue(rd, n, p, o.fields[i]).Ok?
    ensures ReadProperty(rd, n, p, i, o).Ok? ==>
      ReadProperty(rd, n, p, i, o).value == Obj(o.otype, o.fields[i := PropertyValue(rd, n, p, o.fields[i]).value])
  {
    if PropertyValue(rd, n, p, o.fields[i]) == Ok(o.fields[i]) {
      assert o.fields[i := o.fields[i]] == o.fields;
    }
  }

  /** The list holds one item per selected node, in order, each the node read as the item
   *  type; it is read exactly when every node reads and is accepted by IList.Add. */
  lemma {:induction false} ReadItemsAll(rd: Reading, parent: Node, subs: seq<Node>, item: TypeDesc, k: nat)
    requires k <= |subs|
    requires forall j :: 0 <= j < |subs| ==> subs[j] < parent
    ensures ReadItems(rd, parent, subs, item, k).Ok? <==> forall j :: 0 <= j < k ==> ReadItem(rd, subs[j], item).Ok?
    ensures ReadItems(rd, parent, subs, item, k).Ok? ==>
      var items := ReadItems(rd, parent, subs, item, k).value;
      |items| == k && forall j :: 0 <= j < k ==> ReadItem(rd, subs[j], item) == Ok(items[j])
    decreases k
  {
    if k > 0 {
      ReadItemsAll(rd, parent, subs, item, k - 1);
    }
  }

  /** The corrected array holds one element per selected node, in order, each the node read
   *  as the element type and stored with Array.SetValue; it is read exactly when every node
   *  reads and is stored. */
  lemma {:induction false} ReadElementsAll(rd: Reading, parent: Node, subs: seq<Node>, item: TypeDesc, k: nat)
    requires k <= |subs|
    requires forall j :: 0 <= j < |subs| ==> subs[j] < parent
    ensures ReadElements(rd, parent, subs, item, k).Ok? <==>
      forall j :: 0 <= j < k ==> ReadNode(rd, subs[j], item).Ok? && ConvertForSet(ReadNode(rd, subs[j], item).value, item).Ok?
    ensures ReadElements(rd, parent, subs, item, k).Ok? ==>
      var items := ReadElements(rd, parent, subs, item, k).value;
      |items| == k && forall j :: 0 <= j < k ==> ConvertForSet(ReadNode(rd, subs[j], item).value, item) == Ok(items[j])
    decreases k
  {
    if k > 0 {
      ReadElementsAll(rd, parent, subs, item, k - 1);
    }
  }

  /** The dictionary holds one entry per child node, in order, keyed by the node's decoded
   *  name. */
  lemma {:induction false} ReadEntriesKeys(rd: Reading, parent: Node, subs: seq<Node>, t: TypeDesc, item: TypeDesc, k: nat)
    requires k <= |subs|
    requires forall j :: 0 <= j < |subs| ==> subs[j] < parent
    ensures ReadEntries(rd, parent, subs, t, item, k).Ok? ==>
      var entries := ReadEntries(rd, parent, subs, t, item, k).value;
      && |entries| == k
      && (forall j :: 0 <= j < k ==> entries[j].0 == Str(rd.keyText(NodeName(subs[j]))))
    decreases k
  {
    if k > 0 && ReadEntries(rd, parent, subs, t, item, k).Ok? {
      ReadEntriesKeys(rd, parent, subs, t, item, k - 1);
      EntryStepOk(rd, parent, subs, t, item, k);
      var prev := ReadEntries(rd, parent, subs, t, item, k - 1).value;
      var entries := ReadEntries(rd, parent, subs, t, item, k).value;
      forall j | 0 <= j < k
        ensures entries[j].0 == Str(rd.keyText(NodeName(subs[j])))
      {
        if j < k - 1 {
          assert entries[j] == prev[j];
        }
      }
    }
  }

  /** Each entry's value is its node read as the value type. */
  lemma {:induction false} ReadEntriesValues(rd: Reading, parent: Node, subs: seq<Node>, t: TypeDesc, item: TypeDesc, k: nat)
    requires k <= |subs|
    requires forall j :: 0 <= j < |subs| ==> subs[j] < parent
    ensures ReadEntries(rd, parent, subs, t, item, k).Ok? ==>
      var entries := ReadEntries(rd, parent, subs, t, item, k).value;
      |entries| == k && forall j :: 0 <= j < k ==> ReadNode(rd, subs[j], item) == Ok(entries[j].1)
    decreases k
  {
    if k > 0 && ReadEntries(rd, parent, subs, t, item, k).Ok? {
      ReadEntriesValues(rd, parent, subs, t, item, k - 1);
      EntryStepOk(rd, parent, subs, t, item, k);
    }
  }

  /** A dictionary that is read has distinct keys: a repeated key fails. */
  lemma {:induction false} ReadEntriesDistinct(rd: Reading, parent: Node, subs: seq<Node>, t: TypeDesc, item: TypeDesc, k: nat)
    requires k <= |subs|
    requires forall j :: 0 <= j < |subs| ==> subs[j] < parent
    ensures ReadEntries(rd, parent, subs, t, item, k).Ok? ==>
      var entries := ReadEntries(rd, parent, subs, t, item, k).value;
      forall i, j :: 0 <= i < j < |entries| ==> entries[i].0 != entries[j].0
    decreases k
  {
    if k > 0 && ReadEntries(rd, parent, subs, t, item, k).Ok? {
      ReadEntriesDistinct(rd, parent, subs, t, item, k - 1);
      EntryStepOk(rd, parent, subs, t, item, k);
    }
  }

  /** The k-th pass of the dictionary loop, when it succeeds: the entries before it succeeded
   *  and one entry with a new key was added. */
  lemma EntryStepOk(rd: Reading, parent: Node, subs: seq<Node>, t: TypeDesc, item: TypeDesc, k: nat)
    requires 0 < k <= |subs|
    requires forall j :: 0 <= j < |subs| ==> subs[j] < parent
    requires ReadEntries(rd, parent, subs, t, item, k).Ok?
    ensures ReadEntries(rd, parent, subs, t, item, k - 1).Ok?
    ensures ReadNode(rd, subs[k - 1], item).Ok?
    ensures var prev := ReadEntries(rd, parent, subs, t, item, k - 1).value;
      var key := Str(rd.keyText(NodeName(subs[k - 1])));
      && ReadEntries(rd, parent, subs, t, item, k).value == prev + [(key, ReadNode(rd, subs[k - 1], item).value)]
      && forall i :: 0 <= i < |prev| ==> prev[i].0 != key
  {
  }

  /** Conversely, when every node reads as a value IDictionary.Add accepts and the decoded
   *  names are distinct, the dictionary loop succeeds. */
  lemma {:induction false} ReadEntriesOk(rd: Reading, parent: Node, subs: seq<Node>, t: TypeDesc, item: TypeDesc, k: nat)
    requires k <= |subs|
    requires forall j :: 0 <= j < |subs| ==> subs[j] < parent
    requires TakesStringKey(t)
    requires forall j :: 0 <= j < k ==>
      ReadNode(rd, subs[j], item).Ok? && ConvertForAdd(ReadNode(rd, subs[j], item).value, item).Ok?
    requires forall i, j :: 0 <= i < j < k ==> rd.keyText(NodeName(subs[i])) != rd.keyText(NodeName(subs[j]))
    ensures ReadEntries(rd, parent, subs, t, item, k).Ok?
    decreases k
  {
    if k > 0 {
      ReadEntriesOk(rd, parent, subs, t, item, k - 1);
      ReadEntriesKeys(rd, parent, subs, t, item, k - 1);
      var prev := ReadEntries(rd, parent, subs, t, item, k - 1).value;
      var key := Str(rd.keyText(NodeName(subs[k - 1])));
      assert key !in Keys(prev) by {
        forall j | 0 <= j < |prev|
          ensures Keys(prev)[j] != key
        {
          assert Keys(prev)[j] == Str(rd.keyText(NodeName(subs[j])));
        }
      }
    }
  }

  /** Two child nodes whose names decode to the same key make the dictionary fail. */
  lemma RepeatedKeyFails(rd: Reading, n: Node, t: TypeDesc, i: nat, j: nat)
    requires i < j < |ChildNodes(n)|
    requires rd.keyText(NodeName(ChildNodes(n)[i])) == rd.keyText(NodeName(ChildNodes(n)[j]))
    requires rd.classify(t).Ok? && rd.classify(t).value.kind == Dict
    ensures ReadNode(rd, n, t).Err?
  {
    var cs := ChildNodes(n);
    ReadEntriesKeys(rd, n, cs, t, rd.classify(t).value.itemType, |cs|);
    ReadEntriesDistinct(rd, n, cs, t, rd.classify(t).value.itemType, |cs|);
  }

  /** With the mapper's own services, an array type is never read: once the item name is a
   *  valid child name, the result is an InvalidCastException. */
  lemma ArrayNeverReads(rt: Runtime, n: Node, e: TypeDesc)
    requires !IsAnonymous(ArrayType(e)) && IsXPathName(Name(e))
    ensures ReadNode(Reflection(rt), n, ArrayType(e)) == Err(InvalidCast)
  {
    ArrayIsArray(e);
  }
}
