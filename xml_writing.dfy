/**
 * What Xmlizer.ToXml writes, as a tree of nodes: the writer's settings, the tag names it
 * derives from types, the text and tag encodings, and the nodes each kind of value becomes
 * (text for strings, dates, primitives and enums; one element per item, entry or property
 * for lists, dictionaries and objects).  The imperative writer in module Xmlizer appends
 * exactly the markup of these nodes.
 */
module XmlWriting {
  import opened Wrappers
  import opened Strings
  import Numbers
  import StringHelper
  import opened Types
  import opened Values
  import opened Serialization
  import opened XmlNodes

  /** The writer's formatting properties. */
  datatype Settings = Settings(
    formatLowCamel: bool,          // FormatLowCamel
    formatEnum: EnumFormatting,    // FormatEnum
    formatDateTime: string,        // FormatDateTime
    formatIndent: bool,            // FormatIndent (never read by the writer)
    ignoreNull: bool)              // IgnoreNull

  const DefaultDateTimeFormat: string := "yyyy-MM-dd HH:mm:ss"

  /** The settings of `new Xmlizer()`. */
  const DefaultSettings: Settings := Settings(false, EnumFormatting.Text, DefaultDateTimeFormat, false, true)

  //------------------------------------------------------------------
  // Tag names
  //------------------------------------------------------------------

  /** GetCamelName: the name lower-cased when FormatLowCamel is set. */
  function CamelName(s: Settings, name: string): (r: string)
    ensures |r| == |name|
    ensures !s.formatLowCamel ==> r == name
    ensures s.formatLowCamel ==> forall i :: 0 <= i < |name| ==> r[i] == ToLowerChar(name[i])
  {
    if s.formatLowCamel then StringHelper.ToLowCamel(name) else name
  }

  const ItemTag: string := "Item"
  const DictionaryTag: string := "Dictionary"

  /**
   * GetTagName, as written.  The list test comes before the array test, and for an array or
   * an ArrayList GetGenericDataType returns the type itself, so the method calls itself with
   * the same argument until the stack overflows; the array branch after it is never reached.
   */
  function TagName(s: Settings, t: TypeDesc): (r: Result<string>)
    ensures r.Err? ==> r.error == StackOverflow
    decreases t
  {
    if IsAnonymous(t) then Ok(CamelName(s, ItemTag))
    else if IsDict(t) then Ok(CamelName(s, DictionaryTag))
    else if IsList(t) then
      var g := GetGenericDataType(t);
      if g == t then Err(StackOverflow)
      else
        assert t.ListType? && g == t.item;
        match TagName(s, g)
        case Ok(name) => Ok(name + "s")
        case Err(e) => Err(e)
    else Ok(CamelName(s, Name(t)))
  }

  /** GetTagName as evidently intended: an array is named after its element type and a
   *  non-generic list after itself. */
  function TagNameFixed(s: Settings, t: TypeDesc): (r: string)
    decreases t
  {
    if IsAnonymous(t) then CamelName(s, ItemTag)
    else if IsDict(t) then CamelName(s, DictionaryTag)
    else if IsArray(t) then TagNameFixed(s, ElementType(t)) + "s"
    else if IsGenericList(t) then TagNameFixed(s, GetGenericDataType(t)) + "s"
    else CamelName(s, Name(t))
  }

  /** Wherever the written GetTagName returns, it returns the intended name. */
  lemma {:induction false} TagNameAgreesWithFixed(s: Settings, t: TypeDesc)
    ensures TagName(s, t).Ok? ==> TagName(s, t).value == TagNameFixed(s, t)
    decreases t
  {
    if !IsAnonymous(t) && !IsDict(t) && t.ListType? {
      TagNameAgreesWithFixed(s, t.item);
    }
  }

  /** A list is named after its items plus "s", and fails where they fail. */
  lemma ListTagName(s: Settings, item: TypeDesc)
    ensures TagName(s, ListType(item)).Ok? <==> TagName(s, item).Ok?
    ensures TagName(s, item).Ok? ==> TagName(s, ListType(item)) == Ok(TagName(s, item).value + "s")
  {
    SystemTypesNotAnonymous(ListType(item));
  }

  /** The written GetTagName overflows the stack on any array whose name does not look
   *  anonymous, and on ArrayList. */
  lemma ArrayTagNameOverflows(s: Settings, e: TypeDesc)
    requires !IsAnonymous(ArrayType(e))
    ensures TagName(s, ArrayType(e)) == Err(StackOverflow)
    ensures TagName(s, ArrayListType) == Err(StackOverflow)
  {
    SystemTypesNotAnonymous(ArrayListType);
  }

  /** The intended name of an array is its element type's name plus "s", as for a list. */
  lemma FixedArrayTagName(s: Settings, e: TypeDesc)
    requires !IsAnonymous(ArrayType(e))
    ensures TagNameFixed(s, ArrayType(e)) == TagNameFixed(s, e) + "s"
    ensures TagNameFixed(s, ArrayType(e)) == TagNameFixed(s, ListType(e))
  {
    SystemTypesNotAnonymous(ListType(e));
  }

  //------------------------------------------------------------------
  // Text and tag encoding
  //------------------------------------------------------------------

  const TextSpecials: set<char> := {'<', '&'}
  const TagSpecials: set<char> := {'<', '&', '/', '>'}

  /** XmlTextEncode: text holding '<' or '&' goes into a CDATA section, padded with one
   *  space on each side. */
  function XmlTextEncode(txt: string): (r: string)
    ensures !ContainsAny(txt, TextSpecials) ==> r == txt
    ensures ContainsAny(txt, TextSpecials) ==> r == CDataStart + " " + txt + " " + CDataEnd
  {
    if ContainsAny(txt, TextSpecials) then CDataStart + " " + txt + " " + CDataEnd else txt
  }

  /** The node XmlTextEncode's text stands for. */
  function EncodedText(txt: string): (r: seq<Node>)
    ensures |r| <= 1
  {
    if ContainsAny(txt, TextSpecials) then [CData(" " + txt + " ")] else TextNodes(txt)
  }

  /** The encoded text is the markup of its node. */
  lemma EncodedTextMarkup(txt: string)
    ensures MarkupAll(EncodedText(txt)) == XmlTextEncode(txt)
  {
    if ContainsAny(txt, TextSpecials) {
      var d := " " + txt + " ";
      assert MarkupAll([CData(d)]) == MarkupAll([]) + Markup(CData(d));
    } else {
      TextMarkup(txt);
    }
  }

  /** Encoded text reads back as the text, except that text holding '<' or '&' gains the
   *  CDATA padding. */
  lemma EncodedTextInnerText(name: string, txt: string)
    ensures !ContainsAny(txt, TextSpecials) ==> InnerText(Element(name, EncodedText(txt))) == txt
    ensures ContainsAny(txt, TextSpecials) ==> InnerText(Element(name, EncodedText(txt))) == " " + txt + " "
  {
    var e := Element(name, EncodedText(txt));
    if ContainsAny(txt, TextSpecials) {
      assert InnerTexts(e, e.children) == InnerTexts(e, []) + InnerText(e.children[0]);
    } else {
      InnerTextOfText(name, txt);
    }
  }

  /** XmlTagEncode: a key holding '<', '&', '/' or '>' is URL-encoded. */
  function XmlTagEncode(p: Platform, txt: string): (r: string)
    ensures !ContainsAny(txt, TagSpecials) ==> r == txt
    ensures ContainsAny(txt, TagSpecials) ==> r == p.urlEncode(txt)
  {
    if ContainsAny(txt, TagSpecials) then p.urlEncode(txt) else txt
  }

  /** XmlTagDecode: every tag name read as a key is URL-decoded. */
  function XmlTagDecode(p: Platform, txt: string): string {
    p.urlDecode(txt)
  }

  /**
   * The laws of HttpUtility's URL coding the round trip needs: decoding undoes encoding,
   * and text without '%' decodes by turning each '+' into a space.
   */
  ghost predicate UrlCoding(p: Platform) {
    (forall txt :: p.urlDecode(p.urlEncode(txt)) == txt)
    && (forall txt :: '%' !in txt ==> p.urlDecode(txt) == ReplaceChar(txt, '+', ' '))
  }

  /** A key without '%' or '+' reads back from its tag as itself. */
  lemma TagRoundTrip(p: Platform, key: string)
    requires UrlCoding(p)
    requires '%' !in key && '+' !in key
    ensures XmlTagDecode(p, XmlTagEncode(p, key)) == key
  {
    if !ContainsAny(key, TagSpecials) {
      assert ReplaceChar(key, '+', ' ') == key;
    }
  }

  /** A key with '+' but none of the four specials is written unencoded and read back with
   *  a space in place of the '+'. */
  lemma PlusKeyReadsAsSpace(p: Platform)
    requires UrlCoding(p)
    ensures XmlTagDecode(p, XmlTagEncode(p, "a+b")) == "a b"
  {
    assert !ContainsAny("a+b", TagSpecials);
  }

  //------------------------------------------------------------------
  // Composite formatting without arguments
  //------------------------------------------------------------------

  /**
   * StringBuilder.AppendFormat(format) with no arguments: "{{" and "}}" stand for one
   * brace; any other brace opens a format item that cannot be satisfied or is unmatched,
   * and is a FormatException.
   */
  function FormatNoArgs(f: string): (r: Result<string>)
    ensures r.Err? ==> r.error == FormatError
    decreases |f|
  {
    if f == [] then Ok([])
    else if f[0] == '{' || f[0] == '}' then
      if |f| >= 2 && f[1] == f[0] then
        match FormatNoArgs(f[2..])
        case Ok(t) => Ok([f[0]] + t)
        case Err(e) => Err(e)
      else Err(FormatError)
    else
      match FormatNoArgs(f[1..])
      case Ok(t) => Ok([f[0]] + t)
      case Err(e) => Err(e)
  }

  /** Text with every brace doubled. */
  function DoubleBraces(t: string): (r: string)
    ensures |r| >= |t|
  {
    if t == [] then []
    else (if t[0] == '{' || t[0] == '}' then [t[0], t[0]] else [t[0]]) + DoubleBraces(t[1..])
  }

  /** Formatting undoes brace doubling; text without braces formats as itself. */
  lemma {:induction false} FormatNoArgsOfDoubled(t: string)
    ensures FormatNoArgs(DoubleBraces(t)) == Ok(t)
    ensures '{' !in t && '}' !in t ==> DoubleBraces(t) == t
    decreases |t|
  {
    if t != [] {
      FormatNoArgsOfDoubled(t[1..]);
      var d := DoubleBraces(t);
      assert t == [t[0]] + t[1..];
      if t[0] == '{' || t[0] == '}' {
        assert d[2..] == DoubleBraces(t[1..]);
      } else {
        assert d[1..] == DoubleBraces(t[1..]);
      }
    }
  }

  /** A lone brace is refused. */
  lemma LoneBraceFails()
    ensures FormatNoArgs("{0}").Err?
    ensures FormatNoArgs("a}").Err?
  {
    assert FormatNoArgs("a}") == match FormatNoArgs("}") case Ok(t) => Ok(['a'] + t) case Err(e) => Err(e);
  }

  //------------------------------------------------------------------
  // The nodes a value is written as
  //------------------------------------------------------------------

  /** WriteEnum: the number for EnumFomatting.Int ("{0:d}"), else the member name ("{0}"). */
  function EnumText(s: Settings, t: TypeDesc, n: int): (r: string)
    ensures s.formatEnum.Int? || !t.EnumType? ==> r == Numbers.IntToString(n)
    ensures s.formatEnum.Text? && t.EnumType? ==> r == EnumName(t, n)
  {
    if s.formatEnum.Int? || !t.EnumType? then Numbers.IntToString(n) else EnumName(t, n)
  }

  /** WriteDateTime: nothing for default(DateTime), else the date in FormatDateTime, passed
   *  through AppendFormat as a format string. */
  function DateNodes(s: Settings, p: Platform, ticks: int): (r: Result<seq<Node>>)
    ensures ticks == 0 ==> r == Ok([])
    ensures r.Err? <==> ticks != 0 && FormatNoArgs(p.formatDate(ticks, s.formatDateTime)).Err?
    ensures r.Ok? && ticks != 0 ==> r.value == TextNodes(FormatNoArgs(p.formatDate(ticks, s.formatDateTime)).value)
  {
    if ticks == 0 then Ok([])
    else match FormatNoArgs(p.formatDate(ticks, s.formatDateTime))
      case Ok(text) => Ok(TextNodes(text))
      case Err(e) => Err(e)
  }

  /**
   * How the writer names elements: FromType names list items, GetTagName checks values
   * written without a tag name, a dictionary entry is named by its key's text, and
   * reflection lists a class's properties.  The writer is stated over any such naming;
   * `Library` is the mapper's own.
   */
  datatype Naming = Naming(
    classify: TypeDesc -> Result<SerializationNode>,
    tagName: (Settings, TypeDesc) -> Result<string>,
    keyName: Value -> string,
    properties: TypeDesc -> seq<Property>)

  /** WriteDict's tag for a key: its "{0}" text, tag-encoded. */
  function KeyName(p: Platform, key: Value): string {
    XmlTagEncode(p, FormatValue(p, key))
  }

  function Library(rt: Runtime): (r: Naming)
    ensures forall t :: r.classify(t) == FromType(t)
    ensures forall s, t :: r.tagName(s, t) == TagName(s, t)
    ensures forall k :: r.keyName(k) == KeyName(rt.platform, k)
    ensures forall t :: r.properties(t) == Properties(rt.schema, t)
  {
    Naming(FromType, TagName, k => KeyName(rt.platform, k), t => Properties(rt.schema, t))
  }

  /** property.GetValue(obj): the object's value of its i-th property (a decimal has none). */
  function FieldValue(v: Value, i: nat): (r: Value)
    ensures r != Null ==> v.Obj? && i < |v.fields| && r == v.fields[i]
  {
    if v.Obj? && i < |v.fields| then v.fields[i] else Null
  }

  /**
   * WriteInner: the nodes written inside a value's element.  Strings, dates, primitives and
   * enums are text.  For anything else the tag name is computed first (GetTagName when
   * `tagName` is empty, which can overflow) and then dictionaries, lists and objects are
   * written entry by entry, item by item, property by property.  The first failure ends
   * the write.
   */
  function Inner(s: Settings, rt: Runtime, rf: Naming, v: Value, tagName: string): (r: Result<seq<Node>>)
    decreases v, 3
  {
    match v
    case Null => Ok([])
    case Str(x) => Ok(EncodedText(x))
    case Date(d) => DateNodes(s, rt.platform, d)
    case Bool(_) => Ok(TextNodes(ScalarText(rt.platform, v)))
    case Int(_, _) => Ok(TextNodes(ScalarText(rt.platform, v)))
    case Chr(_) => Ok(TextNodes(ScalarText(rt.platform, v)))
    case Real(_, _) => Ok(TextNodes(ScalarText(rt.platform, v)))
    case EnumV(t, n) => Ok(TextNodes(EnumText(s, t, n)))
    case Dec(_) => Composite(s, rt, rf, v, tagName)
    case ListV(_, _) => Composite(s, rt, rf, v, tagName)
    case DictV(_, _) => Composite(s, rt, rf, v, tagName)
    case Obj(_, _) => Composite(s, rt, rf, v, tagName)
  }

  /** WriteInner for a value that is not text: the tag name check, then WriteDict, WriteList
   *  or WriteClass. */
  function Composite(s: Settings, rt: Runtime, rf: Naming, v: Value, tagName: string): (r: Result<seq<Node>>)
    requires v.Dec? || v.ListV? || v.DictV? || v.Obj?
    decreases v, 2
  {
    var tag := CamelName(s, tagName);
    var named := if tag == "" then rf.tagName(s, GetRealType(TypeOf(v))) else Ok(tag);
    if named.Err? then Err(named.error)
    else if v.DictV? then EntryNodes(s, rt, rf, v, |v.entries|)
    else if v.ListV? then ItemNodes(s, rt, rf, v, |v.items|)
    else PropertyNodes(s, rt, rf, v, |rf.properties(TypeOf(v))|)
  }

  /** The first result's nodes followed by the second's; the first failure wins. */
  function Then(done: Result<seq<Node>>, next: Result<seq<Node>>): (r: Result<seq<Node>>)
    ensures done.Err? ==> r == done
    ensures done.Ok? && next.Err? ==> r == Err(next.error)
    ensures done.Ok? && next.Ok? ==> r == Ok(done.value + next.value)
  {
    if done.Err? then done
    else if next.Err? then Err(next.error)
    else Ok(done.value + next.value)
  }

  /** WriteList, one item: `<Name>inner</Name>` under the name FromType gives the item's
   *  runtime type; a null item is a NullReferenceException. */
  function ItemNode(s: Settings, rt: Runtime, rf: Naming, v: Value, i: nat): (r: Result<seq<Node>>)
    requires v.ListV? && i < |v.items|
    ensures r.Ok? ==> |r.value| == 1 && r.value[0].Element?
    ensures v.items[i] == Null ==> r == Err(NullReference)
    decreases v, 0, i
  {
    var item := v.items[i];
    if item == Null then Err(NullReference)
    else match rf.classify(TypeOf(item))
      case Err(e) => Err(e)
      case Ok(node) =>
        match Inner(s, rt, rf, item, "")
        case Err(e) => Err(e)
        case Ok(inner) => Ok([Element(node.name, inner)])
  }

  function ItemNodes(s: Settings, rt: Runtime, rf: Naming, v: Value, n: nat): (r: Result<seq<Node>>)
    requires v.ListV? && n <= |v.items|
    decreases v, 1, n
  {
    if n == 0 then Ok([]) else Then(ItemNodes(s, rt, rf, v, n - 1), ItemNode(s, rt, rf, v, n - 1))
  }

  /** WriteDict, one entry: `<key>inner</key>` with the key's text as tag name. */
  function EntryNode(s: Settings, rt: Runtime, rf: Naming, v: Value, i: nat): (r: Result<seq<Node>>)
    requires v.DictV? && i < |v.entries|
    ensures r.Ok? ==> |r.value| == 1 && r.value[0].Element?
    ensures r.Ok? ==> r.value[0].name == rf.keyName(v.entries[i].0)
    decreases v, 0, i
  {
    var key := rf.keyName(v.entries[i].0);
    assert v.entries[i].1 < v.entries[i];
    match Inner(s, rt, rf, v.entries[i].1, "")
    case Err(e) => Err(e)
    case Ok(inner) => Ok([Element(key, inner)])
  }

  function EntryNodes(s: Settings, rt: Runtime, rf: Naming, v: Value, n: nat): (r: Result<seq<Node>>)
    requires v.DictV? && n <= |v.entries|
    decreases v, 1, n
  {
    if n == 0 then Ok([]) else Then(EntryNodes(s, rt, rf, v, n - 1), EntryNode(s, rt, rf, v, n - 1))
  }

  /** WriteClass, one property: nothing for an ignored property or, under IgnoreNull, for a
   *  null value; else `<Name>inner</Name>` with the value written under the property name. */
  function PropertyNode(s: Settings, rt: Runtime, rf: Naming, v: Value, i: nat): (r: Result<seq<Node>>)
    requires v != Null && i < |rf.properties(TypeOf(v))|
    ensures r.Ok? ==> |r.value| <= 1
    ensures rf.properties(TypeOf(v))[i].ignored ==> r == Ok([])
    decreases v, 0, i
  {
    var prop := rf.properties(TypeOf(v))[i];
    var x := FieldValue(v, i);
    if prop.ignored then Ok([])
    else if x == Null then
      if s.ignoreNull then Ok([]) else Ok([Element(prop.name, [])])
    else
      match Inner(s, rt, rf, x, prop.name)
      case Err(e) => Err(e)
      case Ok(inner) => Ok([Element(prop.name, inner)])
  }

  function PropertyNodes(s: Settings, rt: Runtime, rf: Naming, v: Value, n: nat): (r: Result<seq<Node>>)
    requires v != Null && n <= |rf.properties(TypeOf(v))|
    decreases v, 1, n
  {
    if n == 0 then Ok([]) else Then(PropertyNodes(s, rt, rf, v, n - 1), PropertyNode(s, rt, rf, v, n - 1))
  }

  //------------------------------------------------------------------
  // The document
  //------------------------------------------------------------------

  const XmlHead: string := "<?xml version=\"1.0\" encoding=\"utf-8\"?>\r\n"

  /** The root tag: the given name, else GetTagName of the value's type (null has none). */
  function RootName(s: Settings, nm: Naming, o: Value, rootName: string): (r: Result<string>)
    ensures rootName != "" ==> r == Ok(rootName)
    ensures rootName == "" && o == Null ==> r == Err(NullReference)
  {
    if rootName != "" then Ok(rootName)
    else if o == Null then Err(NullReference)
    else nm.tagName(s, TypeOf(o))
  }

  /** ToXml: the optional XML declaration, then the root element around the value's nodes. */
  function Document(s: Settings, rt: Runtime, nm: Naming, o: Value, rootName: string, addXmlHead: bool): (r: Result<string>)
  {
    match RootName(s, nm, o, rootName)
    case Err(e) => Err(e)
    case Ok(root) =>
      match Inner(s, rt, nm, o, root)
      case Err(e) => Err(e)
      case Ok(inner) => Ok((if addXmlHead then XmlHead else "") + Markup(Element(root, inner)))
  }

  /** With its root tag settled, the document is the optional XML declaration and the root's
   *  tags around the markup of the value's nodes, or the failure that stops the write. */
  lemma DocumentText(s: Settings, rt: Runtime, nm: Naming, o: Value, rootName: string, addXmlHead: bool,
                     root: string, head: string, inner: Result<seq<Node>>)
    requires RootName(s, nm, o, rootName) == Ok(root)
    requires head == (if addXmlHead then XmlHead else "")
    requires inner == Inner(s, rt, nm, o, root)
    ensures inner.Err? ==> Document(s, rt, nm, o, rootName, addXmlHead) == Err(inner.error)
    ensures inner.Ok? ==>
      Document(s, rt, nm, o, rootName, addXmlHead) == Ok(head + OpenTag(root) + MarkupAll(inner.value) + CloseTag(root))
  {
    if inner.Ok? {
      ElementMarkup(root, inner.value);
      AppendTagged(head, root, MarkupAll(inner.value));
    }
  }
}
