/**
 * The Xmlizer object: its formatting properties and the writer that appends a value's XML
 * to a StringBuilder.  Every write method is proved to append exactly the markup of the
 * nodes module XmlWriting assigns to the value, or to stop with the exception that
 * function names.
 */
module Xmlizer {
  import opened Wrappers
  import opened Types
  import opened Values
  import opened Serialization
  import opened XmlNodes
  import opened XmlWriting
  import opened XmlReading

  class Xmlizer {
    const formatLowCamel: bool
    const formatEnum: EnumFormatting
    const formatDateTime: string
    const formatIndent: bool
    const ignoreNull: bool
    /** The platform services and the class schema reflection would consult. */
    const runtime: Runtime
    /** How the writer names elements. */
    const naming: Naming
    /** What the reader asks of reflection. */
    const reading: Reading

    constructor(formatLowCamel: bool, formatEnum: EnumFormatting, formatDateTime: string,
                formatIndent: bool, ignoreNull: bool, runtime: Runtime)
      ensures CurrentSettings() == Settings(formatLowCamel, formatEnum, formatDateTime, formatIndent, ignoreNull)
      ensures this.runtime == runtime
      ensures naming == Library(runtime)
      ensures reading == Reflection(runtime)
    {
      this.formatLowCamel := formatLowCamel;
      this.formatEnum := formatEnum;
      this.formatDateTime := formatDateTime;
      this.formatIndent := formatIndent;
      this.ignoreNull := ignoreNull;
      this.runtime := runtime;
      this.naming := Library(runtime);
      this.reading := Reflection(runtime);
    }

    /** The current values of the five formatting properties. */
    function CurrentSettings(): Settings {
      Settings(formatLowCamel, formatEnum, formatDateTime, formatIndent, ignoreNull)
    }

    //------------------------------------------------------------------
    // Object to XML
    //------------------------------------------------------------------

    /** ToXml: the root tag is the given name or the value type's tag name. */
    method ToXml(o: Value, rootName: string, addXmlHead: bool) returns (r: Result<string>)
      ensures r == Document(CurrentSettings(), runtime, naming, o, rootName, addXmlHead)
    {
      var root := rootName;
      if root == "" {
        if o == Null {
          return Err(NullReference);
        }
        var named := naming.tagName(CurrentSettings(), TypeOf(o));
        if named.Err? {
          return Err(named.error);
        }
        root := named.value;
      }
      DocumentText(CurrentSettings(), runtime, naming, o, rootName, addXmlHead, root,
                   if addXmlHead then XmlHead else "", Inner(CurrentSettings(), runtime, naming, o, root));
      r := WriteDocument(o, root, addXmlHead);
    }

    /** ToXml once the root tag is known: the XML declaration when asked for, then the root
     *  element around the value. */
    method WriteDocument(o: Value, root: string, addXmlHead: bool) returns (r: Result<string>)
      ensures var inner := Inner(CurrentSettings(), runtime, naming, o, root);
        && (inner.Err? ==> r == Err(inner.error))
        && (inner.Ok? ==> r == Ok((if addXmlHead then XmlHead else "") + OpenTag(root) + MarkupAll(inner.value) + CloseTag(root)))
    {
      var sb := new StringBuilder();
      if addXmlHead {
        sb.Append(XmlHead);
        assert sb.text == XmlHead;
      }
      sb.Append(OpenTag(root));
      var err := WriteInner(sb, o, root);
      if err.Some? {
        return Err(err.value);
      }
      sb.Append(CloseTag(root));
      return Ok(sb.text);
    }

    /** WriteInner: appends the markup of the value's nodes, or reports the exception that
     *  stops the write. */
    method WriteInner(sb: StringBuilder, o: Value, tagName: string) returns (err: Option<Exception>)
      modifies sb
      ensures var spec := Inner(CurrentSettings(), runtime, naming, o, tagName);
        && (spec.Err? <==> err.Some?)
        && (spec.Err? ==> err == Some(spec.error))
        && (spec.Ok? ==> sb.text == old(sb.text) + MarkupAll(spec.value))
      decreases o, 3
    {
      match o
      case Null =>
        return None;
      case Str(x) =>
        WriteString(sb, x);
        return None;
      case Date(d) =>
        err := WriteDateTime(sb, d);
      case Bool(_) =>
        WriteValue(sb, o);
        return None;
      case Int(_, _) =>
        WriteValue(sb, o);
        return None;
      case Chr(_) =>
        WriteValue(sb, o);
        return None;
      case Real(_, _) =>
        WriteValue(sb, o);
        return None;
      case EnumV(t, n) =>
        WriteEnum(sb, t, n);
        return None;
      case Dec(_) =>
        err := WriteComposite(sb, o, tagName);
      case ListV(_, _) =>
        err := WriteComposite(sb, o, tagName);
      case DictV(_, _) =>
        err := WriteComposite(sb, o, tagName);
      case Obj(_, _) =>
        err := WriteComposite(sb, o, tagName);
    }

    /** The tag name check, then WriteDict, WriteList or WriteClass. */
    method WriteComposite(sb: StringBuilder, o: Value, tagName: string) returns (err: Option<Exception>)
      requires o.Dec? || o.ListV? || o.DictV? || o.Obj?
      modifies sb
      ensures var spec := Composite(CurrentSettings(), runtime, naming, o, tagName);
        && (spec.Err? <==> err.Some?)
        && (spec.Err? ==> err == Some(spec.error))
        && (spec.Ok? ==> sb.text == old(sb.text) + MarkupAll(spec.value))
      decreases o, 2
    {
      var tag := CamelName(CurrentSettings(), tagName);
      if tag == "" {
        var named := naming.tagName(CurrentSettings(), GetRealType(TypeOf(o)));
        if named.Err? {
          return Some(named.error);
        }
      }
      if o.DictV? {
        err := WriteDict(sb, o);
      } else if o.ListV? {
        err := WriteList(sb, o);
      } else {
        err := WriteClass(sb, o);
      }
    }

    /** WriteString: the text, CDATA-wrapped when it holds '<' or '&'. */
    method WriteString(sb: StringBuilder, x: string)
      modifies sb
      ensures sb.text == old(sb.text) + MarkupAll(EncodedText(x))
    {
      sb.Append(XmlTextEncode(x));
      EncodedTextMarkup(x);
    }

    /** WriteEnum: the number or the member name, as FormatEnum says. */
    method WriteEnum(sb: StringBuilder, t: TypeDesc, n: int)
      modifies sb
      ensures sb.text == old(sb.text) + MarkupAll(TextNodes(EnumText(CurrentSettings(), t, n)))
    {
      sb.Append(EnumText(CurrentSettings(), t, n));
      TextMarkup(EnumText(CurrentSettings(), t, n));
    }

    /** WriteDateTime: nothing for default(DateTime), else the formatted date passed to
     *  AppendFormat as a format string. */
    method WriteDateTime(sb: StringBuilder, ticks: int) returns (err: Option<Exception>)
      modifies sb
      ensures var spec := DateNodes(CurrentSettings(), runtime.platform, ticks);
        && (spec.Err? <==> err.Some?)
        && (spec.Err? ==> err == Some(spec.error))
        && (spec.Ok? ==> sb.text == old(sb.text) + MarkupAll(spec.value))
    {
      if ticks == 0 {
        return None;
      }
      var formatted := FormatNoArgs(runtime.platform.formatDate(ticks, formatDateTime));
      if formatted.Err? {
        return Some(formatted.error);
      }
      sb.Append(formatted.value);
      TextMarkup(formatted.value);
      return None;
    }

    /** WriteValue: a primitive's "{0}" text. */
    method WriteValue(sb: StringBuilder, o: Value)
      modifies sb
      requires IsScalar(o)
      ensures sb.text == old(sb.text) + MarkupAll(TextNodes(ScalarText(runtime.platform, o)))
    {
      sb.Append(ScalarText(runtime.platform, o));
      TextMarkup(ScalarText(runtime.platform, o));
    }

    /** WriteList: each item as an element named by FromType of its runtime type. */
    method WriteList(sb: StringBuilder, o: Value) returns (err: Option<Exception>)
      requires o.ListV?
      modifies sb
      ensures var spec := ItemNodes(CurrentSettings(), runtime, naming, o, |o.items|);
        && (spec.Err? <==> err.Some?)
        && (spec.Err? ==> err == Some(spec.error))
        && (spec.Ok? ==> sb.text == old(sb.text) + MarkupAll(spec.value))
      decreases o, 1
    {
      var settings, start := CurrentSettings(), sb.text;
      ghost var done: seq<Node> := [];
      var i := 0;
      while i < |o.items|
        invariant 0 <= i <= |o.items|
        invariant ItemNodes(settings, runtime, naming, o, i) == Ok(done)
        invariant sb.text == start + MarkupAll(done)
      {
        err := WriteItem(sb, o, i);
        ItemStep(settings, runtime, naming, o, i, done);
        if err.Some? {
          return err;
        }
        AppendNodes(start, done, ItemNode(settings, runtime, naming, o, i).value);
        done := done + ItemNode(settings, runtime, naming, o, i).value;
        i := i + 1;
      }
      return None;
    }

    /** One pass of WriteList's loop: `<Name>`, the item, `</Name>`. */
    method WriteItem(sb: StringBuilder, o: Value, i: nat) returns (err: Option<Exception>)
      requires o.ListV? && i < |o.items|
      modifies sb
      ensures var spec := ItemNode(CurrentSettings(), runtime, naming, o, i);
        && (spec.Err? <==> err.Some?)
        && (spec.Err? ==> err == Some(spec.error))
        && (spec.Ok? ==> sb.text == old(sb.text) + MarkupAll(spec.value))
      decreases o, 0, i
    {
      var item := o.items[i];
      if item == Null {
        return Some(NullReference);
      }
      var node := naming.classify(TypeOf(item));
      if node.Err? {
        return Some(node.error);
      }
      sb.Append(OpenTag(node.value.name));
      err := WriteInner(sb, item, "");
      if err.Some? {
        return err;
      }
      sb.Append(CloseTag(node.value.name));
      AppendElement(old(sb.text), node.value.name, Inner(CurrentSettings(), runtime, naming, item, "").value);
    }

    /** WriteDict: each entry as an element named by its key's text, tag-encoded. */
    method WriteDict(sb: StringBuilder, o: Value) returns (err: Option<Exception>)
      requires o.DictV?
      modifies sb
      ensures var spec := EntryNodes(CurrentSettings(), runtime, naming, o, |o.entries|);
        && (spec.Err? <==> err.Some?)
        && (spec.Err? ==> err == Some(spec.error))
        && (spec.Ok? ==> sb.text == old(sb.text) + MarkupAll(spec.value))
      decreases o, 1
    {
      var settings, start := CurrentSettings(), sb.text;
      ghost var done: seq<Node> := [];
      var i := 0;
      while i < |o.entries|
        invariant 0 <= i <= |o.entries|
        invariant EntryNodes(settings, runtime, naming, o, i) == Ok(done)
        invariant sb.text == start + MarkupAll(done)
      {
        err := WriteEntry(sb, o, i);
        EntryStep(settings, runtime, naming, o, i, done);
        if err.Some? {
          return err;
        }
        AppendNodes(start, done, EntryNode(settings, runtime, naming, o, i).value);
        done := done + EntryNode(settings, runtime, naming, o, i).value;
        i := i + 1;
      }
      return None;
    }

    /** One pass of WriteDict's loop: `<key>`, the value, `</key>`. */
    method WriteEntry(sb: StringBuilder, o: Value, i: nat) returns (err: Option<Exception>)
      requires o.DictV? && i < |o.entries|
      modifies sb
      ensures var spec := EntryNode(CurrentSettings(), runtime, naming, o, i);
        && (spec.Err? <==> err.Some?)
        && (spec.Err? ==> err == Some(spec.error))
        && (spec.Ok? ==> sb.text == old(sb.text) + MarkupAll(spec.value))
      decreases o, 0, i
    {
      var (key, value) := o.entries[i];
      var tag := naming.keyName(key);
      assert value < o.entries[i];
      sb.Append(OpenTag(tag));
      err := WriteInner(sb, value, "");
      if err.Some? {
        return err;
      }
      sb.Append(CloseTag(tag));
      AppendElement(old(sb.text), tag, Inner(CurrentSettings(), runtime, naming, value, "").value);
    }

    /** WriteClass: each property that is not ignored, and not null under IgnoreNull, as an
     *  element named after the property. */
    method WriteClass(sb: StringBuilder, o: Value) returns (err: Option<Exception>)
      requires o != Null
      modifies sb
      ensures var spec := PropertyNodes(CurrentSettings(), runtime, naming, o, |naming.properties(TypeOf(o))|);
        && (spec.Err? <==> err.Some?)
        && (spec.Err? ==> err == Some(spec.error))
        && (spec.Ok? ==> sb.text == old(sb.text) + MarkupAll(spec.value))
      decreases o, 1
    {
      var properties := naming.properties(TypeOf(o));
      var settings, start := CurrentSettings(), sb.text;
      ghost var done: seq<Node> := [];
      var i := 0;
      while i < |properties|
        invariant 0 <= i <= |properties|
        invariant PropertyNodes(settings, runtime, naming, o, i) == Ok(done)
        invariant sb.text == start + MarkupAll(done)
      {
        err := WriteProperty(sb, o, i);
        PropertyStep(settings, runtime, naming, o, i, done);
        if err.Some? {
          return err;
        }
        AppendNodes(start, done, PropertyNode(settings, runtime, naming, o, i).value);
        done := done + PropertyNode(settings, runtime, naming, o, i).value;
        i := i + 1;
      }
      return None;
    }

    /** One pass of WriteClass's loop: skip the property, or `<Name>`, its value, `</Name>`. */
    method WriteProperty(sb: StringBuilder, o: Value, i: nat) returns (err: Option<Exception>)
      requires o != Null && i < |naming.properties(TypeOf(o))|
      modifies sb
      ensures var spec := PropertyNode(CurrentSettings(), runtime, naming, o, i);
        && (spec.Err? <==> err.Some?)
        && (spec.Err? ==> err == Some(spec.error))
        && (spec.Ok? ==> sb.text == old(sb.text) + MarkupAll(spec.value))
      decreases o, 0, i
    {
      var property := naming.properties(TypeOf(o))[i];
      var subObj := FieldValue(o, i);
      if property.ignored || (subObj == Null && ignoreNull) {
        return None;
      }
      sb.Append(OpenTag(property.name));
      if subObj != Null {
        err := WriteInner(sb, subObj, property.name);
        if err.Some? {
          return err;
        }
      }
      sb.Append(CloseTag(property.name));
      var inner := if subObj == Null then [] else Inner(CurrentSettings(), runtime, naming, subObj, property.name).value;
      AppendElement(old(sb.text), property.name, inner);
      return None;
    }

    //------------------------------------------------------------------
    // XML to object
    //------------------------------------------------------------------

    /** Parse(xml, type): a basic type straight from the text, anything else from the
     *  document element; `load` stands for XmlDocument.LoadXml. */
    method Parse(xml: string, t: TypeDesc, load: string -> Option<Node>) returns (r: Result<Value>)
      ensures r == XmlReading.Parse(reading, load, xml, t)
    {
      var node := reading.classify(t);
      if node.Err? {
        return Err(node.error);
      }
      if node.value.kind == Basic {
        return reading.parse(xml, t);
      }
      var doc := load(xml);
      if doc.None? {
        return Err(XmlError);
      }
      r := ParseNode(doc.value, t);
    }

    /** ParseNode: dispatch on FromType's classification of the expected type. */
    method ParseNode(node: Node, t: TypeDesc) returns (r: Result<Value>)
      ensures r == ReadNode(reading, node, t)
      decreases node, 3
    {
      var tag := reading.classify(t);
      if tag.Err? {
        return Err(tag.error);
      }
      match tag.value.kind
      case Basic => r := ParseNodeToValue(node, t);
      case List => r := ParseNodeToList(node, t);
      case Array => r := ParseNodeToArray(node, t);
      case Dict => r := ParseNodeToDict(node, t);
      case Class => r := ParseNodeToObject(node, t);
    }

    /** ParseNodeToValue: the inner text parsed as the expected type. */
    method ParseNodeToValue(node: Node, t: TypeDesc) returns (r: Result<Value>)
      ensures r == ReadValue(reading, node, t)
    {
      var text := InnerText(node);
      r := reading.parse(text, t);
    }

    /** ParseNodeToObject: a new instance, then each writable property from the first child
     *  element of its name. */
    method ParseNodeToObject(node: Node, t: TypeDesc) returns (r: Result<Value>)
      ensures r == ReadObject(reading, node, t)
      decreases node, 2
    {
      if IsEmptyNode(node) {
        return Ok(Null);
      }
      var created := NewInstance(reading, t);
      if created.Err? {
        return Err(created.error);
      }
      var props := reading.properties(t);
      var o := created.value;
      var i := 0;
      while i < |props|
        invariant 0 <= i <= |props|
        invariant ReadProperties(reading, node, props, created.value, i) == Ok(o)
      {
        var next := ParseProperty(node, props[i], i, o);
        PropertiesStep(reading, node, props, created.value, i, o);
        if next.Err? {
          return next;
        }
        o := next.value;
        i := i + 1;
      }
      return Ok(o);
    }

    /** One pass of ParseNodeToObject's loop. */
    method ParseProperty(node: Node, p: Property, i: nat, o: Value) returns (r: Result<Value>)
      ensures r == ReadProperty(reading, node, p, i, o)
      decreases node, 1
    {
      if !p.canWrite {
        return Ok(o);
      }
      var cnode := SelectSingleNode(node, p.name);
      if cnode.Err? {
        return Err(cnode.error);
      }
      if cnode.value.None? {
        return Ok(o);
      }
      var value := ParseNode(cnode.value.value, p.propType);
      if value.Err? {
        return Err(value.error);
      }
      var x := ConvertForSet(value.value, p.propType);
      if x.Err? {
        return Err(x.error);
      }
      return Ok(SetField(o, i, x.value));
    }

    /** ParseNodeToList: the child elements named after the item type, each parsed and added. */
    method ParseNodeToList(node: Node, t: TypeDesc) returns (r: Result<Value>)
      ensures r == ReadList(reading, node, t)
      decreases node, 2
    {
      var tag := reading.classify(t);
      if tag.Err? {
        return Err(tag.error);
      }
      var itemType := tag.value.itemType;
      var nodes := SelectNodes(node, reading.typeName(itemType));
      if nodes.Err? {
        return Err(nodes.error);
      }
      var subs := nodes.value;
      var list: seq<Value> := [];
      var i := 0;
      while i < |subs|
        invariant 0 <= i <= |subs|
        invariant ReadItems(reading, node, subs, itemType, i) == Ok(list)
      {
        var item := ParseNode(subs[i], itemType);
        ItemsStep(reading, node, subs, itemType, i, list);
        if item.Err? {
          return Err(item.error);
        }
        var added := ConvertForAdd(item.value, itemType);
        if added.Err? {
          return Err(added.error);
        }
        list := list + [added.value];
        i := i + 1;
      }
      return Ok(ListV(t, list));
    }

    /** ParseNodeToArray: the item nodes are selected, then the conversion of the new array
     *  fails. */
    method ParseNodeToArray(node: Node, t: TypeDesc) returns (r: Result<Value>)
      ensures r == ReadArray(reading, node, t)
    {
      var tag := reading.classify(t);
      if tag.Err? {
        return Err(tag.error);
      }
      var nodes := SelectNodes(node, reading.typeName(tag.value.itemType));
      if nodes.Err? {
        return Err(nodes.error);
      }
      return Err(InvalidCast);
    }

    /** ParseNodeToDict: every child node, under its decoded name, parsed and added. */
    method ParseNodeToDict(node: Node, t: TypeDesc) returns (r: Result<Value>)
      ensures r == ReadDict(reading, node, t)
      decreases node, 2
    {
      var tag := reading.classify(t);
      if tag.Err? {
        return Err(tag.error);
      }
      var itemType := tag.value.itemType;
      var subs := ChildNodes(node);
      var dict: seq<(Value, Value)> := [];
      var i := 0;
      while i < |subs|
        invariant 0 <= i <= |subs|
        invariant ReadEntries(reading, node, subs, t, itemType, i) == Ok(dict)
      {
        var key := reading.keyText(NodeName(subs[i]));
        var item := ParseNode(subs[i], itemType);
        EntriesStep(reading, node, subs, t, itemType, i, dict);
        if item.Err? {
          return Err(item.error);
        }
        var added := AddEntry(dict, Str(key), item.value, t, itemType);
        if added.Err? {
          return Err(added.error);
        }
        dict := added.value;
        i := i + 1;
      }
      return Ok(DictV(t, dict));
    }
  }

  //------------------------------------------------------------------
  // A failure ends the write
  //------------------------------------------------------------------

  lemma {:induction false} ItemErrorStays(s: Settings, rt: Runtime, rf: Naming, v: Value, i: nat, n: nat)
    requires v.ListV? && i <= n <= |v.items|
    requires ItemNodes(s, rt, rf, v, i).Err?
    ensures ItemNodes(s, rt, rf, v, n) == ItemNodes(s, rt, rf, v, i)
    decreases n
  {
    if n > i {
      ItemErrorStays(s, rt, rf, v, i, n - 1);
    }
  }

  lemma {:induction false} EntryErrorStays(s: Settings, rt: Runtime, rf: Naming, v: Value, i: nat, n: nat)
    requires v.DictV? && i <= n <= |v.entries|
    requires EntryNodes(s, rt, rf, v, i).Err?
    ensures EntryNodes(s, rt, rf, v, n) == EntryNodes(s, rt, rf, v, i)
    decreases n
  {
    if n > i {
      EntryErrorStays(s, rt, rf, v, i, n - 1);
    }
  }

  lemma {:induction false} PropertyErrorStays(s: Settings, rt: Runtime, rf: Naming, v: Value, i: nat, n: nat)
    requires v != Null && i <= n <= |rf.properties(TypeOf(v))|
    requires PropertyNodes(s, rt, rf, v, i).Err?
    ensures PropertyNodes(s, rt, rf, v, n) == PropertyNodes(s, rt, rf, v, i)
    decreases n
  {
    if n > i {
      PropertyErrorStays(s, rt, rf, v, i, n - 1);
    }
  }

  /** One more item: its failure is the failure of the whole write, else its nodes follow. */
  lemma ItemStep(s: Settings, rt: Runtime, rf: Naming, v: Value, i: nat, done: seq<Node>)
    requires v.ListV? && i < |v.items|
    requires ItemNodes(s, rt, rf, v, i) == Ok(done)
    ensures ItemNode(s, rt, rf, v, i).Err? ==> ItemNodes(s, rt, rf, v, |v.items|) == Err(ItemNode(s, rt, rf, v, i).error)
    ensures ItemNode(s, rt, rf, v, i).Ok? ==> ItemNodes(s, rt, rf, v, i + 1) == Ok(done + ItemNode(s, rt, rf, v, i).value)
  {
    if ItemNode(s, rt, rf, v, i).Err? {
      ItemErrorStays(s, rt, rf, v, i + 1, |v.items|);
    }
  }

  /** One more entry: its failure is the failure of the whole write, else its nodes follow. */
  lemma EntryStep(s: Settings, rt: Runtime, rf: Naming, v: Value, i: nat, done: seq<Node>)
    requires v.DictV? && i < |v.entries|
    requires EntryNodes(s, rt, rf, v, i) == Ok(done)
    ensures EntryNode(s, rt, rf, v, i).Err? ==> EntryNodes(s, rt, rf, v, |v.entries|) == Err(EntryNode(s, rt, rf, v, i).error)
    ensures EntryNode(s, rt, rf, v, i).Ok? ==> EntryNodes(s, rt, rf, v, i + 1) == Ok(done + EntryNode(s, rt, rf, v, i).value)
  {
    if EntryNode(s, rt, rf, v, i).Err? {
      EntryErrorStays(s, rt, rf, v, i + 1, |v.entries|);
    }
  }

  /** One more property: its failure is the failure of the whole write, else its nodes follow. */
  lemma PropertyStep(s: Settings, rt: Runtime, rf: Naming, v: Value, i: nat, done: seq<Node>)
    requires v != Null && i < |rf.properties(TypeOf(v))|
    requires PropertyNodes(s, rt, rf, v, i) == Ok(done)
    ensures PropertyNode(s, rt, rf, v, i).Err? ==> PropertyNodes(s, rt, rf, v, |rf.properties(TypeOf(v))|) == Err(PropertyNode(s, rt, rf, v, i).error)
    ensures PropertyNode(s, rt, rf, v, i).Ok? ==> PropertyNodes(s, rt, rf, v, i + 1) == Ok(done + PropertyNode(s, rt, rf, v, i).value)
  {
    if PropertyNode(s, rt, rf, v, i).Err? {
      PropertyErrorStays(s, rt, rf, v, i + 1, |rf.properties(TypeOf(v))|);
    }
  }

  //------------------------------------------------------------------
  // A failure ends the read
  //------------------------------------------------------------------

  lemma {:induction false} PropertiesErrorStays(rd: Reading, n: Node, props: seq<Property>, o: Value, i: nat, k: nat)
    requires i <= k <= |props|
    requires ReadProperties(rd, n, props, o, i).Err?
    ensures ReadProperties(rd, n, props, o, k) == ReadProperties(rd, n, props, o, i)
    decreases k
  {
    if k > i {
      PropertiesErrorStays(rd, n, props, o, i, k - 1);
    }
  }

  lemma {:induction false} ItemsErrorStays(rd: Reading, parent: Node, subs: seq<Node>, item: TypeDesc, i: nat, k: nat)
    requires i <= k <= |subs|
    requires forall j :: 0 <= j < |subs| ==> subs[j] < parent
    requires ReadItems(rd, parent, subs, item, i).Err?
    ensures ReadItems(rd, parent, subs, item, k) == ReadItems(rd, parent, subs, item, i)
    decreases k
  {
    if k > i {
      ItemsErrorStays(rd, parent, subs, item, i, k - 1);
    }
  }

  lemma {:induction false} EntriesErrorStays(rd: Reading, parent: Node, subs: seq<Node>, t: TypeDesc, item: TypeDesc, i: nat, k: nat)
    requires i <= k <= |subs|
    requires forall j :: 0 <= j < |subs| ==> subs[j] < parent
    requires ReadEntries(rd, parent, subs, t, item, i).Err?
    ensures ReadEntries(rd, parent, subs, t, item, k) == ReadEntries(rd, parent, subs, t, item, i)
    decreases k
  {
    if k > i {
      EntriesErrorStays(rd, parent, subs, t, item, i, k - 1);
    }
  }

  /** One more property: its failure is the failure of the whole read, else it gives the
   *  instance the loop continues with. */
  lemma PropertiesStep(rd: Reading, n: Node, props: seq<Property>, o0: Value, i: nat, o: Value)
    requires i < |props|
    requires ReadProperties(rd, n, props, o0, i) == Ok(o)
    ensures ReadProperty(rd, n, props[i], i, o).Err? ==>
      ReadProperties(rd, n, props, o0, |props|) == ReadProperty(rd, n, props[i], i, o)
    ensures ReadProperty(rd, n, props[i], i, o).Ok? ==>
      ReadProperties(rd, n, props, o0, i + 1) == ReadProperty(rd, n, props[i], i, o)
  {
    if ReadProperty(rd, n, props[i], i, o).Err? {
      PropertiesErrorStays(rd, n, props, o0, i + 1, |props|);
    }
  }

  /** One more list item: its failure is the failure of the whole read, else it is appended. */
  lemma ItemsStep(rd: Reading, parent: Node, subs: seq<Node>, item: TypeDesc, i: nat, items: seq<Value>)
    requires i < |subs|
    requires forall j :: 0 <= j < |subs| ==> subs[j] < parent
    requires ReadItems(rd, parent, subs, item, i) == Ok(items)
    ensures ReadItem(rd, subs[i], item).Err? ==>
      ReadItems(rd, parent, subs, item, |subs|) == Err(ReadItem(rd, subs[i], item).error)
    ensures ReadItem(rd, subs[i], item).Ok? ==>
      ReadItems(rd, parent, subs, item, i + 1) == Ok(items + [ReadItem(rd, subs[i], item).value])
  {
    if ReadItem(rd, subs[i], item).Err? {
      ItemsErrorStays(rd, parent, subs, item, i + 1, |subs|);
    }
  }

  /** One more dictionary entry: its failure is the failure of the whole read, else it gives
   *  the entries the loop continues with. */
  lemma EntriesStep(rd: Reading, parent: Node, subs: seq<Node>, t: TypeDesc, item: TypeDesc, i: nat,
                    entries: seq<(Value, Value)>)
    requires i < |subs|
    requires forall j :: 0 <= j < |subs| ==> subs[j] < parent
    requires ReadEntries(rd, parent, subs, t, item, i) == Ok(entries)
    ensures ReadEntry(rd, entries, subs[i], t, item).Err? ==>
      ReadEntries(rd, parent, subs, t, item, |subs|) == ReadEntry(rd, entries, subs[i], t, item)
    ensures ReadEntry(rd, entries, subs[i], t, item).Ok? ==>
      ReadEntries(rd, parent, subs, t, item, i + 1) == ReadEntry(rd, entries, subs[i], t, item)
  {
    if ReadEntry(rd, entries, subs[i], t, item).Err? {
      EntriesErrorStays(rd, parent, subs, t, item, i + 1, |subs|);
    }
  }
}
