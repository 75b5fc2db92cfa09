/**
 * Messages pushed to an official account (OP/PushMessage.cs): the message and event type
 * enums the reader parses incoming XML into, and the passive replies, each an anonymous
 * object written by the XML mapper under the root `xml` with the default settings.  The
 * current time's timestamp text is a parameter.
 */
module PushMessages {
  import opened Wrappers
  import opened Types
  import opened Values
  import opened XmlNodes
  import opened XmlWriting
  import opened XmlReading
  import Numbers
  import Serialization
  import ConvertorParse
  import XmlRoundTrip
  import opened Strings

  const OpNamespace := "App.Wechats.OP"
  const RootTag := "xml"

  //------------------------------------------------------------------
  // The enums and the message
  //------------------------------------------------------------------

  const MessageTypeNames: seq<string> :=
    ["Text", "Image", "Voice", "Video", "ShortVideo", "Link", "Location", "Event"]

  const EventTypeNames: seq<string> :=
    ["Subscribe", "Unsubscribe", "Scan", "Location", "Click", "View", "view_miniprogram", "TemplateSendJobFinish"]

  /** PushMessageType, its members in declaration order from 0. */
  function MessageTypeDesc(asm: string): (r: TypeDesc)
    ensures r.EnumType?
  {
    EnumType(OpNamespace, "PushMessageType", asm, ConvertorParse.Numbered(MessageTypeNames))
  }

  /** PushEventType, its members in declaration order from 0. */
  function EventTypeDesc(asm: string): (r: TypeDesc)
    ensures r.EnumType?
  {
    EnumType(OpNamespace, "PushEventType", asm, ConvertorParse.Numbered(EventTypeNames))
  }

  /** The text properties of PushMessage, in declaration order. */
  const TextProperties: seq<string> :=
    ["ToUserName", "FromUserName", "CreateTime", "MsgId", "Content", "PicUrl", "MediaId", "Format",
     "Recognition", "ThumbMediaId", "Longitude", "Latitude", "Precision", "Scale", "Label", "Title",
     "Description", "Url", "EventKey", "Ticket"]

  /**
   * The public properties reflection lists for PushMessage: the twenty strings, the two
   * nullable enums, and CreateDt, which has no setter.
   */
  function MessageProperties(asm: string): (r: seq<Property>)
    ensures |r| == 23
    ensures r[22] == Property("CreateDt", NullableType(DateTimeType), false, false)
  {
    seq(20, i requires 0 <= i < 20 => Property(TextProperties[i], StringType, true, false))
      + [Property("MsgType", NullableType(MessageTypeDesc(asm)), true, false),
         Property("Event", NullableType(EventTypeDesc(asm)), true, false),
         Property("CreateDt", NullableType(DateTimeType), false, false)]
  }

  /** The sender and receiver of a pushed message: all a reply reads of it. */
  datatype PushMessage = PushMessage(toUserName: Option<string>, fromUserName: Option<string>)

  //------------------------------------------------------------------
  // Reading the incoming types
  //------------------------------------------------------------------

  /** An element holding text, read for a nullable enum property: the text parsed by
   *  ParseEnum, so empty text is null. */
  lemma ReadEnumElement(rt: Runtime, name: string, text: string, t: TypeDesc)
    requires t.EnumType?
    ensures ReadNode(Reflection(rt), Element(name, TextNodes(text)), NullableType(t)) == Ok(ConvertorParse.ParseEnum(text, t))
  {
    RealTypeFacts(NullableType(t));
    XmlRoundTrip.ReadText(rt, name, text, NullableType(t));
    ConvertorParse.ParseNullable(rt.platform, text, t);
  }

  lemma MessageNamesApart()
    ensures forall i, j :: 0 <= i < j < |MessageTypeNames| ==> ConvertorParse.Apart(MessageTypeNames[i], MessageTypeNames[j])
  {
  }

  lemma MessageNamesIdentifiers()
    ensures forall i :: 0 <= i < |MessageTypeNames| ==> ConvertorParse.IsIdentifier(MessageTypeNames[i])
  {
    forall i | 0 <= i < |MessageTypeNames| ensures ConvertorParse.IsIdentifier(MessageTypeNames[i]) {
      ConvertorParse.IdentifierChars(MessageTypeNames[i]);
    }
  }

  /** PushMessageType's names are identifiers, distinct ignoring case, with distinct values. */
  lemma MessageTypeWellFormed(asm: string)
    ensures ConvertorParse.WellFormedEnum(MessageTypeDesc(asm))
  {
    MessageNamesApart();
    MessageNamesIdentifiers();
    ConvertorParse.NumberedEnumWellFormed(MessageTypeDesc(asm), MessageTypeNames);
  }

  lemma EventNamesApart()
    ensures forall i, j :: 0 <= i < j < |EventTypeNames| ==> ConvertorParse.Apart(EventTypeNames[i], EventTypeNames[j])
  {
  }

  lemma EventNamesIdentifiers()
    ensures forall i :: 0 <= i < |EventTypeNames| ==> ConvertorParse.IsIdentifier(EventTypeNames[i])
  {
    forall i | 0 <= i < |EventTypeNames| ensures ConvertorParse.IsIdentifier(EventTypeNames[i]) {
      ConvertorParse.IdentifierChars(EventTypeNames[i]);
    }
  }

  /** PushEventType's names are identifiers, distinct ignoring case, with distinct values. */
  lemma EventTypeWellFormed(asm: string)
    ensures ConvertorParse.WellFormedEnum(EventTypeDesc(asm))
  {
    EventNamesApart();
    EventNamesIdentifiers();
    ConvertorParse.NumberedEnumWellFormed(EventTypeDesc(asm), EventTypeNames);
  }

  /** A MsgType element holding a member's name in any case reads as that member. */
  lemma MsgTypeReads(rt: Runtime, asm: string, text: string, i: nat)
    requires i < |MessageTypeNames| && EqualsIgnoreCase(text, MessageTypeNames[i])
    ensures ReadNode(Reflection(rt), Element("MsgType", TextNodes(text)), NullableType(MessageTypeDesc(asm)))
      == Ok(EnumV(MessageTypeDesc(asm), i))
  {
    var t := MessageTypeDesc(asm);
    ReadEnumElement(rt, "MsgType", text, t);
    MessageTypeWellFormed(asm);
    ConvertorParse.ParseEnumIgnoresCase(t, i, text);
  }

  /** An Event element holding a member's name in any case reads as that member. */
  lemma EventReads(rt: Runtime, asm: string, text: string, i: nat)
    requires i < |EventTypeNames| && EqualsIgnoreCase(text, EventTypeNames[i])
    ensures ReadNode(Reflection(rt), Element("Event", TextNodes(text)), NullableType(EventTypeDesc(asm)))
      == Ok(EnumV(EventTypeDesc(asm), i))
  {
    var t := EventTypeDesc(asm);
    ReadEnumElement(rt, "Event", text, t);
    EventTypeWellFormed(asm);
    ConvertorParse.ParseEnumIgnoresCase(t, i, text);
  }

  /** WeChat sends the message type "text" for a text message: the Text member. */
  lemma TextIsText(asm: string)
    ensures ConvertorParse.ParseEnum("text", MessageTypeDesc(asm)) == EnumV(MessageTypeDesc(asm), 0)
  {
    MessageTypeWellFormed(asm);
    assert EqualsIgnoreCase("text", MessageTypeNames[0]) by {
      assert ToLower("text") == ToLower("Text") == "text";
    }
    ConvertorParse.ParseEnumIgnoresCase(MessageTypeDesc(asm), 0, "text");
  }

  /** WeChat sends the event "SCAN" for a scanned code: the Scan member. */
  lemma ScanIsScan(asm: string)
    ensures ConvertorParse.ParseEnum("SCAN", EventTypeDesc(asm)) == EnumV(EventTypeDesc(asm), 2)
  {
    EventTypeWellFormed(asm);
    assert EqualsIgnoreCase("SCAN", EventTypeNames[2]) by {
      assert ToLower("SCAN") == ToLower("Scan") == "scan";
    }
    ConvertorParse.ParseEnumIgnoresCase(EventTypeDesc(asm), 2, "SCAN");
  }

  /** A message type WeChat may send that the enum lacks, "file", reads as null. */
  lemma UnknownTypeIsNull(asm: string)
    ensures ConvertorParse.ParseEnum("file", MessageTypeDesc(asm)) == Null
  {
    var t := MessageTypeDesc(asm);
    forall i | 0 <= i < |MessageTypeNames| ensures !EqualsIgnoreCase(t.members[i].0, "file") {
      assert ConvertorParse.Apart(MessageTypeNames[i], "file");
      ConvertorParse.ApartDiffer(MessageTypeNames[i], "file");
    }
    ConvertorParse.IdentifierChars("file");
    ConvertorParse.ParseEnumUnknown(t, "file");
  }

  /** CreateDt has no setter: reading a message never assigns it, whatever the XML holds. */
  lemma CreateDtNotRead(rd: Reading, n: Node, asm: string, o: Value)
    requires o.Obj? && |o.fields| == 23
    ensures var r := ReadProperties(rd, n, MessageProperties(asm), o, 23);
      r.Ok? ==> r.value.Obj? && |r.value.fields| == 23 && r.value.fields[22] == o.fields[22]
  {
    ReadPropertiesIndependent(rd, n, MessageProperties(asm), o, 23);
  }

  //------------------------------------------------------------------
  // Writing the replies
  //------------------------------------------------------------------

  /** A string property's value: null for a null string. */
  function StrOrNull(x: Option<string>): (r: Value)
    ensures r == Null <==> x.None?
    ensures x.Some? ==> r == Str(x.value)
  {
    match x
    case None => Null
    case Some(s) => Str(s)
  }

  /** What the writer makes of a string property under IgnoreNull: nothing for null, else
   *  one element holding the encoded text. */
  function StringElement(name: string, x: Option<string>): (r: seq<Node>)
    ensures x.None? <==> r == []
    ensures x.Some? ==> r == [Element(name, EncodedText(x.value))]
  {
    match x
    case None => []
    case Some(s) => [Element(name, EncodedText(s))]
  }

  /** The parts' nodes, one part after another. */
  function Flatten(parts: seq<seq<Node>>): (r: seq<Node>)
    ensures parts == [] ==> r == []
  {
    if parts == [] then [] else Flatten(parts[..|parts| - 1]) + parts[|parts| - 1]
  }

  lemma {:induction false} FlattenAppend(a: seq<seq<Node>>, b: seq<seq<Node>>)
    ensures Flatten(a + b) == Flatten(a) + Flatten(b)
    decreases |b|
  {
    if b != [] {
      var b' := b[..|b| - 1];
      assert (a + b)[..|a + b| - 1] == a + b';
      FlattenAppend(a, b');
    } else {
      assert a + b == a;
    }
  }

  /** The property loop writes the properties' nodes in order. */
  lemma {:induction false} PropertyNodesAre(s: Settings, rt: Runtime, rf: Naming, v: Value, parts: seq<seq<Node>>, k: nat)
    requires v != Null && |parts| <= |rf.properties(TypeOf(v))| && k <= |parts|
    requires forall i :: 0 <= i < |parts| ==> PropertyNode(s, rt, rf, v, i) == Ok(parts[i])
    ensures PropertyNodes(s, rt, rf, v, k) == Ok(Flatten(parts[..k]))
    decreases k
  {
    if k > 0 {
      PropertyNodesAre(s, rt, rf, v, parts, k - 1);
      assert parts[..k][..k - 1] == parts[..k - 1];
    }
  }

  /** An object written under a tag is its properties' nodes, in order. */
  lemma ObjectWrites(s: Settings, rt: Runtime, rf: Naming, v: Value, tag: string, parts: seq<seq<Node>>)
    requires v.Obj? && (tag != "" || rf.tagName(s, GetRealType(TypeOf(v))).Ok?)
    requires |parts| == |rf.properties(TypeOf(v))|
    requires forall i :: 0 <= i < |parts| ==> PropertyNode(s, rt, rf, v, i) == Ok(parts[i])
    ensures Inner(s, rt, rf, v, tag) == Ok(Flatten(parts))
  {
    PropertyNodesAre(s, rt, rf, v, parts, |parts|);
    assert parts[..|parts|] == parts;
  }

  /** A string property is written as its element, or not at all when it is null. */
  lemma StringProperty(s: Settings, rt: Runtime, rf: Naming, v: Value, i: nat, x: Option<string>)
    requires v.Obj? && i < |v.fields| && i < |rf.properties(v.otype)| && s.ignoreNull
    requires !rf.properties(v.otype)[i].ignored && v.fields[i] == StrOrNull(x)
    ensures PropertyNode(s, rt, rf, v, i) == Ok(StringElement(rf.properties(v.otype)[i].name, x))
  {
  }

  /** A property holding an object is one element around the object's nodes. */
  lemma ObjectProperty(s: Settings, rt: Runtime, rf: Naming, v: Value, i: nat, inner: seq<Node>)
    requires v.Obj? && i < |v.fields| && i < |rf.properties(v.otype)| && v.fields[i] != Null
    requires !rf.properties(v.otype)[i].ignored
    requires Inner(s, rt, rf, v.fields[i], rf.properties(v.otype)[i].name) == Ok(inner)
    ensures PropertyNode(s, rt, rf, v, i) == Ok([Element(rf.properties(v.otype)[i].name, inner)])
  {
  }

  /** One declared string type per property. */
  function StringTypes(n: nat): (r: seq<TypeDesc>)
    ensures |r| == n && forall i :: 0 <= i < n ==> r[i] == StringType
  {
    seq(n, _ => StringType)
  }

  /** `new { ... }` with the given property names, declared types and values.  The number
   *  the compiler gives the type only enters the type's name, which no reply writes. */
  function Anonymous(asm: string, names: seq<string>, types: seq<TypeDesc>, fields: seq<Value>): (r: Value)
    ensures r.Obj? && r.otype.AnonymousType?
  {
    Obj(AnonymousType(0, asm, names, types), fields)
  }

  /** The properties reflection lists for an anonymous object: its names and declared
   *  types, none writable and none ignored. */
  lemma AnonymousProperties(rt: Runtime, asm: string, names: seq<string>, types: seq<TypeDesc>, fields: seq<Value>)
    requires |names| == |types|
    ensures var props := Library(rt).properties(TypeOf(Anonymous(asm, names, types, fields)));
      |props| == |names| && forall i :: 0 <= i < |names| ==> props[i] == Property(names[i], types[i], false, false)
  {
  }

  /** The values of string properties. */
  function StringFields(xs: seq<Option<string>>): (r: seq<Value>)
    ensures |r| == |xs| && forall i :: 0 <= i < |xs| ==> r[i] == StrOrNull(xs[i])
  {
    seq(|xs|, i requires 0 <= i < |xs| => StrOrNull(xs[i]))
  }

  /** An anonymous object of strings, such as `new { MediaId = mediaId }`. */
  function StringsObject(asm: string, names: seq<string>, xs: seq<Option<string>>): Value
    requires |names| == |xs|
  {
    Anonymous(asm, names, StringTypes(|names|), StringFields(xs))
  }

  /** The elements of the strings that are not null, in order. */
  function StringNodes(names: seq<string>, xs: seq<Option<string>>): seq<Node>
    requires |names| == |xs|
  {
    Flatten(seq(|xs|, i requires 0 <= i < |xs| => StringElement(names[i], xs[i])))
  }

  /** An anonymous object of strings is written as one element per string that is not
   *  null. */
  lemma StringsObjectWrites(rt: Runtime, asm: string, names: seq<string>, xs: seq<Option<string>>, tag: string)
    requires |names| == |xs| && tag != ""
    ensures Inner(DefaultSettings, rt, Library(rt), StringsObject(asm, names, xs), tag) == Ok(StringNodes(names, xs))
  {
    var L := Library(rt);
    var v := StringsObject(asm, names, xs);
    var parts := seq(|xs|, i requires 0 <= i < |xs| => StringElement(names[i], xs[i]));
    AnonymousProperties(rt, asm, names, StringTypes(|names|), v.fields);
    forall i | 0 <= i < |parts|
      ensures PropertyNode(DefaultSettings, rt, L, v, i) == Ok(parts[i])
    {
      StringProperty(DefaultSettings, rt, L, v, i, xs[i]);
    }
    ObjectWrites(DefaultSettings, rt, L, v, tag, parts);
  }

  const HeaderNames: seq<string> := ["ToUserName", "FromUserName", "CreateTime", "MsgType"]

  /** A reply: its header, which sends it back to the message's sender from the message's
   *  receiver at time `now` with the reply's type, then the reply's own properties. */
  function ReplyObject(asm: string, m: PushMessage, now: string, msgType: string,
                       names: seq<string>, types: seq<TypeDesc>, fields: seq<Value>): Value
  {
    Anonymous(asm, HeaderNames + names, StringTypes(4) + types,
      [StrOrNull(m.fromUserName), StrOrNull(m.toUserName), Str(now), Str(msgType)] + fields)
  }

  /** The header's elements: ToUserName holds the message's sender and FromUserName its
   *  receiver (each left out when null), then CreateTime and MsgType. */
  function HeaderNodes(m: PushMessage, now: string, msgType: string): seq<Node> {
    StringElement("ToUserName", m.fromUserName) + StringElement("FromUserName", m.toUserName)
      + [Element("CreateTime", EncodedText(now)), Element("MsgType", EncodedText(msgType))]
  }

  /** `o.ToXml("xml")`: the mapper with its default settings, under the root `xml`, without
   *  an XML declaration. */
  function ToXml(rt: Runtime, o: Value): Result<string> {
    Document(DefaultSettings, rt, Library(rt), o, RootTag, false)
  }

  /** A value is written by ToXml as the root `xml` around its nodes. */
  lemma ToXmlOf(rt: Runtime, o: Value, nodes: seq<Node>)
    requires Inner(DefaultSettings, rt, Library(rt), o, RootTag) == Ok(nodes)
    ensures ToXml(rt, o) == Ok(Markup(Element(RootTag, nodes)))
  {
    assert "" + Markup(Element(RootTag, nodes)) == Markup(Element(RootTag, nodes));
  }

  /** The header's four parts, one per property. */
  function HeaderParts(m: PushMessage, now: string, msgType: string): (r: seq<seq<Node>>)
    ensures |r| == 4 && Flatten(r) == HeaderNodes(m, now, msgType)
  {
    var r := [StringElement("ToUserName", m.fromUserName), StringElement("FromUserName", m.toUserName),
              [Element("CreateTime", EncodedText(now))], [Element("MsgType", EncodedText(msgType))]];
    assert Flatten(r[..1]) == r[0] by {
      assert r[..1][..0] == [];
    }
    assert Flatten(r[..2]) == r[0] + r[1] by {
      assert r[..2][..1] == r[..1];
    }
    assert Flatten(r[..3]) == r[0] + r[1] + r[2] by {
      assert r[..3][..2] == r[..2];
    }
    assert r[..4] == r;
    r
  }

  /** The header's properties are written as its parts. */
  lemma HeaderWrites(rt: Runtime, asm: string, m: PushMessage, now: string, msgType: string,
                     names: seq<string>, types: seq<TypeDesc>, fields: seq<Value>, i: nat)
    requires |names| == |types| == |fields| && i < 4
    ensures PropertyNode(DefaultSettings, rt, Library(rt), ReplyObject(asm, m, now, msgType, names, types, fields), i)
      == Ok(HeaderParts(m, now, msgType)[i])
  {
    var v := ReplyObject(asm, m, now, msgType, names, types, fields);
    AnonymousProperties(rt, asm, HeaderNames + names, StringTypes(4) + types, v.fields);
    var x := [m.fromUserName, m.toUserName, Some(now), Some(msgType)][i];
    StringProperty(DefaultSettings, rt, Library(rt), v, i, x);
  }

  /** A reply is written as the root `xml` around the header's elements and then its own
   *  properties' nodes. */
  lemma ReplyWrites(rt: Runtime, asm: string, m: PushMessage, now: string, msgType: string,
                    names: seq<string>, types: seq<TypeDesc>, fields: seq<Value>, body: seq<seq<Node>>)
    requires |names| == |types| == |fields| == |body|
    requires forall i :: 0 <= i < |body| ==>
      PropertyNode(DefaultSettings, rt, Library(rt), ReplyObject(asm, m, now, msgType, names, types, fields), 4 + i) == Ok(body[i])
    ensures ToXml(rt, ReplyObject(asm, m, now, msgType, names, types, fields))
      == Ok(Markup(Element(RootTag, HeaderNodes(m, now, msgType) + Flatten(body))))
  {
    var L := Library(rt);
    var v := ReplyObject(asm, m, now, msgType, names, types, fields);
    var head := HeaderParts(m, now, msgType);
    var parts := head + body;
    AnonymousProperties(rt, asm, HeaderNames + names, StringTypes(4) + types, v.fields);
    forall i | 0 <= i < |parts|
      ensures PropertyNode(DefaultSettings, rt, L, v, i) == Ok(parts[i])
    {
      if i < 4 {
        HeaderWrites(rt, asm, m, now, msgType, names, types, fields, i);
      } else {
        assert PropertyNode(DefaultSettings, rt, L, v, 4 + (i - 4)) == Ok(body[i - 4]);
      }
    }
    ObjectWrites(DefaultSettings, rt, L, v, RootTag, parts);
    FlattenAppend(head, body);
    ToXmlOf(rt, v, HeaderNodes(m, now, msgType) + Flatten(body));
  }

  /** A reply's own string property is written as its element, or not at all when null. */
  lemma BodyString(rt: Runtime, asm: string, m: PushMessage, now: string, msgType: string,
                   names: seq<string>, types: seq<TypeDesc>, fields: seq<Value>, i: nat, x: Option<string>)
    requires |names| == |types| == |fields| && i < |names| && fields[i] == StrOrNull(x)
    ensures PropertyNode(DefaultSettings, rt, Library(rt), ReplyObject(asm, m, now, msgType, names, types, fields), 4 + i)
      == Ok(StringElement(names[i], x))
  {
    var v := ReplyObject(asm, m, now, msgType, names, types, fields);
    AnonymousProperties(rt, asm, HeaderNames + names, StringTypes(4) + types, v.fields);
    StringProperty(DefaultSettings, rt, Library(rt), v, 4 + i, x);
  }

  /** A reply's own property holding a value that is not null is one element around the
   *  value's nodes. */
  lemma BodyValue(rt: Runtime, asm: string, m: PushMessage, now: string, msgType: string,
                   names: seq<string>, types: seq<TypeDesc>, fields: seq<Value>, i: nat, inner: seq<Node>)
    requires |names| == |types| == |fields| && i < |names| && fields[i] != Null
    requires Inner(DefaultSettings, rt, Library(rt), fields[i], names[i]) == Ok(inner)
    ensures PropertyNode(DefaultSettings, rt, Library(rt), ReplyObject(asm, m, now, msgType, names, types, fields), 4 + i)
      == Ok([Element(names[i], inner)])
  {
    var v := ReplyObject(asm, m, now, msgType, names, types, fields);
    AnonymousProperties(rt, asm, HeaderNames + names, StringTypes(4) + types, v.fields);
    ObjectProperty(DefaultSettings, rt, Library(rt), v, 4 + i, inner);
  }

  lemma FlattenOne(a: seq<Node>)
    ensures Flatten([a]) == a
  {
    assert [a][..0] == [];
  }

  lemma FlattenTwo(a: seq<Node>, b: seq<Node>)
    ensures Flatten([a, b]) == a + b
  {
    assert [a, b][..1] == [a];
    FlattenOne(a);
  }

  //------------------------------------------------------------------
  // The replies
  //------------------------------------------------------------------

  const TransferType := "transfer_customer_service"
  const EventType := "event"
  const ViewMiniProgram := "view_miniprogram"
  const TextType := "text"
  const ImageType := "image"
  const VoiceType := "voice"
  const VideoType := "video"
  const MusicType := "music"
  const NewsType := "news"

  /** ReplyTransferCustomerService: hands the conversation over to customer service. */
  function ReplyTransferCustomerService(rt: Runtime, asm: string, m: PushMessage, now: string): Result<string> {
    ToXml(rt, ReplyObject(asm, m, now, TransferType, [], [], []))
  }

  /** ReplyMiniProgram: a view_miniprogram event opening the page; the app id is not used. */
  function ReplyMiniProgram(rt: Runtime, asm: string, m: PushMessage, now: string,
                            appId: Option<string>, pagePath: Option<string>): Result<string>
  {
    ToXml(rt, ReplyObject(asm, m, now, EventType, ["Event", "EventKey"], StringTypes(2),
      StringFields([Some(ViewMiniProgram), pagePath])))
  }

  /** ReplyText: a text message. */
  function ReplyText(rt: Runtime, asm: string, m: PushMessage, now: string, text: Option<string>): Result<string> {
    ToXml(rt, ReplyObject(asm, m, now, TextType, ["Content"], StringTypes(1), StringFields([text])))
  }

  /** ReplyImage: an image message, the media id inside an Image object. */
  function ReplyImage(rt: Runtime, asm: string, m: PushMessage, now: string, mediaId: Option<string>): Result<string> {
    var media := StringsObject(asm, ["MediaId"], [mediaId]);
    ToXml(rt, ReplyObject(asm, m, now, ImageType, ["Image"], [media.otype], [media]))
  }

  /** ReplyVoice: a voice message, the media id inside a Voice object. */
  function ReplyVoice(rt: Runtime, asm: string, m: PushMessage, now: string, mediaId: Option<string>): Result<string> {
    var media := StringsObject(asm, ["MediaId"], [mediaId]);
    ToXml(rt, ReplyObject(asm, m, now, VoiceType, ["Voice"], [media.otype], [media]))
  }

  /** ReplyVideo: a video message, the media id and the thumbnail's inside a Video object. */
  function ReplyVideo(rt: Runtime, asm: string, m: PushMessage, now: string,
                      mediaId: Option<string>, thumbMediaId: Option<string>): Result<string>
  {
    var media := StringsObject(asm, ["MediaId", "ThumbMediaId"], [mediaId, thumbMediaId]);
    ToXml(rt, ReplyObject(asm, m, now, VideoType, ["Video"], [media.otype], [media]))
  }

  const MusicNames: seq<string> := ["Title", "Description", "MusicUrl", "HQMusicUrl", "ThumbMediaId"]

  /** ReplyMusic: a music message, its five strings inside a Music object. */
  function ReplyMusic(rt: Runtime, asm: string, m: PushMessage, now: string, title: Option<string>,
                      description: Option<string>, musicUrl: Option<string>, hqMusicUrl: Option<string>,
                      thumbMediaId: Option<string>): Result<string>
  {
    var music := StringsObject(asm, MusicNames, [title, description, musicUrl, hqMusicUrl, thumbMediaId]);
    ToXml(rt, ReplyObject(asm, m, now, MusicType, ["Music"], [music.otype], [music]))
  }

  /** The transfer reply is the header alone. */
  lemma ReplyTransferWrites(rt: Runtime, asm: string, m: PushMessage, now: string)
    ensures ReplyTransferCustomerService(rt, asm, m, now) == Ok(Markup(Element(RootTag, HeaderNodes(m, now, TransferType))))
  {
    ReplyWrites(rt, asm, m, now, TransferType, [], [], [], []);
    assert HeaderNodes(m, now, TransferType) + Flatten([]) == HeaderNodes(m, now, TransferType);
  }

  /** A reply whose own properties are strings: the header, then an element per string
   *  that is not null. */
  lemma StringsReplyWrites(rt: Runtime, asm: string, m: PushMessage, now: string, msgType: string,
                           names: seq<string>, xs: seq<Option<string>>)
    requires |names| == |xs|
    ensures ToXml(rt, ReplyObject(asm, m, now, msgType, names, StringTypes(|names|), StringFields(xs)))
      == Ok(Markup(Element(RootTag, HeaderNodes(m, now, msgType) + StringNodes(names, xs))))
  {
    var types, fields := StringTypes(|names|), StringFields(xs);
    var body := seq(|xs|, i requires 0 <= i < |xs| => StringElement(names[i], xs[i]));
    forall i | 0 <= i < |body|
      ensures PropertyNode(DefaultSettings, rt, Library(rt), ReplyObject(asm, m, now, msgType, names, types, fields), 4 + i)
        == Ok(body[i])
    {
      BodyString(rt, asm, m, now, msgType, names, types, fields, i, xs[i]);
    }
    ReplyWrites(rt, asm, m, now, msgType, names, types, fields, body);
  }

  /** The mini-program reply: the header, the Event element, then EventKey with the page
   *  path unless it is null. */
  lemma ReplyMiniProgramWrites(rt: Runtime, asm: string, m: PushMessage, now: string,
                               appId: Option<string>, pagePath: Option<string>)
    ensures ReplyMiniProgram(rt, asm, m, now, appId, pagePath)
      == Ok(Markup(Element(RootTag, HeaderNodes(m, now, EventType)
           + StringNodes(["Event", "EventKey"], [Some(ViewMiniProgram), pagePath]))))
  {
    StringsReplyWrites(rt, asm, m, now, EventType, ["Event", "EventKey"], [Some(ViewMiniProgram), pagePath]);
  }

  /** The text reply: the header, then Content with the text unless it is null. */
  lemma ReplyTextWrites(rt: Runtime, asm: string, m: PushMessage, now: string, text: Option<string>)
    ensures ReplyText(rt, asm, m, now, text)
      == Ok(Markup(Element(RootTag, HeaderNodes(m, now, TextType) + StringElement("Content", text))))
  {
    StringsReplyWrites(rt, asm, m, now, TextType, ["Content"], [text]);
    assert StringNodes(["Content"], [text]) == StringElement("Content", text) by {
      FlattenOne(StringElement("Content", text));
      assert seq(1, i requires 0 <= i < 1 => StringElement(["Content"][i], [text][i])) == [StringElement("Content", text)];
    }
  }

  /** A reply holding one object of strings: the header, then one element named after the
   *  property around the strings' elements. */
  lemma NestedReplyWrites(rt: Runtime, asm: string, m: PushMessage, now: string, msgType: string,
                          name: string, inner: seq<string>, xs: seq<Option<string>>)
    requires |inner| == |xs| && name != ""
    ensures var o := StringsObject(asm, inner, xs);
      ToXml(rt, ReplyObject(asm, m, now, msgType, [name], [o.otype], [o]))
      == Ok(Markup(Element(RootTag, HeaderNodes(m, now, msgType) + [Element(name, StringNodes(inner, xs))])))
  {
    var o := StringsObject(asm, inner, xs);
    StringsObjectWrites(rt, asm, inner, xs, name);
    BodyValue(rt, asm, m, now, msgType, [name], [o.otype], [o], 0, StringNodes(inner, xs));
    var part := [Element(name, StringNodes(inner, xs))];
    ReplyWrites(rt, asm, m, now, msgType, [name], [o.otype], [o], [part]);
    FlattenOne(part);
  }

  /** The image reply: the header, then an Image element around the media id's element. */
  lemma ReplyImageWrites(rt: Runtime, asm: string, m: PushMessage, now: string, mediaId: Option<string>)
    ensures ReplyImage(rt, asm, m, now, mediaId)
      == Ok(Markup(Element(RootTag, HeaderNodes(m, now, ImageType) + [Element("Image", StringNodes(["MediaId"], [mediaId]))])))
  {
    NestedReplyWrites(rt, asm, m, now, ImageType, "Image", ["MediaId"], [mediaId]);
  }

  /** The voice reply: the header, then a Voice element around the media id's element. */
  lemma ReplyVoiceWrites(rt: Runtime, asm: string, m: PushMessage, now: string, mediaId: Option<string>)
    ensures ReplyVoice(rt, asm, m, now, mediaId)
      == Ok(Markup(Element(RootTag, HeaderNodes(m, now, VoiceType) + [Element("Voice", StringNodes(["MediaId"], [mediaId]))])))
  {
    NestedReplyWrites(rt, asm, m, now, VoiceType, "Voice", ["MediaId"], [mediaId]);
  }

  /** The video reply: the header, then a Video element around the media id's and the
   *  thumbnail's elements. */
  lemma ReplyVideoWrites(rt: Runtime, asm: string, m: PushMessage, now: string,
                         mediaId: Option<string>, thumbMediaId: Option<string>)
    ensures ReplyVideo(rt, asm, m, now, mediaId, thumbMediaId)
      == Ok(Markup(Element(RootTag, HeaderNodes(m, now, VideoType)
           + [Element("Video", StringNodes(["MediaId", "ThumbMediaId"], [mediaId, thumbMediaId]))])))
  {
    NestedReplyWrites(rt, asm, m, now, VideoType, "Video", ["MediaId", "ThumbMediaId"], [mediaId, thumbMediaId]);
  }

  /** The music reply: the header, then a Music element around its five strings' elements. */
  lemma ReplyMusicWrites(rt: Runtime, asm: string, m: PushMessage, now: string, title: Option<string>,
                         description: Option<string>, musicUrl: Option<string>, hqMusicUrl: Option<string>,
                         thumbMediaId: Option<string>)
    ensures ReplyMusic(rt, asm, m, now, title, description, musicUrl, hqMusicUrl, thumbMediaId)
      == Ok(Markup(Element(RootTag, HeaderNodes(m, now, MusicType)
           + [Element("Music", StringNodes(MusicNames, [title, description, musicUrl, hqMusicUrl, thumbMediaId]))])))
  {
    NestedReplyWrites(rt, asm, m, now, MusicType, "Music", MusicNames, [title, description, musicUrl, hqMusicUrl, thumbMediaId]);
  }

  /** An article of a news reply, an instance of the nested class `item`: its four strings. */
  datatype Article = Article(title: Option<string>, description: Option<string>, picUrl: Option<string>, url: Option<string>)

  /** The class `item`.  It is nested in PushMessage, which only shows in its full name. */
  function ItemClass(asm: string): TypeDesc {
    ClassType(OpNamespace, "item", asm)
  }

  const ItemNames: seq<string> := ["Title", "Description", "PicUrl", "Url"]

  /** What reflection lists for `item`: its four string properties, each with a setter. */
  function ItemProperties(): (r: seq<Property>)
    ensures |r| == 4 && forall i :: 0 <= i < 4 ==> r[i] == Property(ItemNames[i], StringType, true, false)
  {
    seq(4, i requires 0 <= i < 4 => Property(ItemNames[i], StringType, true, false))
  }

  /** The runtime's reflection knows the class `item`. */
  predicate ItemReflected(rt: Runtime, asm: string) {
    FullName(ItemClass(asm)) in rt.schema && rt.schema[FullName(ItemClass(asm))].properties == ItemProperties()
  }

  function ArticleStrings(a: Article): (r: seq<Option<string>>)
    ensures |r| == 4
  {
    [a.title, a.description, a.picUrl, a.url]
  }

  /** `new item(title, description, picUrl, url)`: the constructor stores the four strings. */
  function NewItem(asm: string, a: Article): (r: Value)
    ensures r.Obj? && r.otype == ItemClass(asm)
  {
    Obj(ItemClass(asm), StringFields(ArticleStrings(a)))
  }

  /** The List<item> of a news reply. */
  function ArticlesList(asm: string, items: seq<Article>): (r: Value)
    ensures r.ListV? && |r.items| == |items|
  {
    ListV(ListType(ItemClass(asm)), seq(|items|, j requires 0 <= j < |items| => NewItem(asm, items[j])))
  }

  /** The news reply object. */
  function NewsObject(asm: string, m: PushMessage, now: string, items: seq<Article>): Value {
    ReplyObject(asm, m, now, NewsType, NewsNames, NewsTypes(asm), [Value.Int(Int32, |items|), ArticlesList(asm, items)])
  }

  const NewsNames: seq<string> := ["ArticleCount", "Articles"]

  function NewsTypes(asm: string): seq<TypeDesc> {
    [Primitive(Int32), ListType(ItemClass(asm))]
  }

  /** ReplyNews(items): reading the count of a null list throws. */
  function ReplyNews(rt: Runtime, asm: string, m: PushMessage, now: string, items: Option<seq<Article>>): Result<string> {
    match items
    case None => Err(NullReference)
    case Some(list) =>
      ToXml(rt, NewsObject(asm, m, now, list))
  }

  /** ReplyNews(title, description, picUrl, url): the news reply with a single article. */
  function ReplyNewsOne(rt: Runtime, asm: string, m: PushMessage, now: string, title: Option<string>,
                        description: Option<string>, picUrl: Option<string>, url: Option<string>): Result<string>
  {
    ReplyNews(rt, asm, m, now, Some([Article(title, description, picUrl, url)]))
  }

  /** An article is written as its strings' elements. */
  lemma ItemWrites(rt: Runtime, asm: string, a: Article)
    requires ItemReflected(rt, asm)
    ensures Inner(DefaultSettings, rt, Library(rt), NewItem(asm, a), "") == Ok(StringNodes(ItemNames, ArticleStrings(a)))
  {
    var L := Library(rt);
    var v := NewItem(asm, a);
    var xs := ArticleStrings(a);
    var parts := seq(4, i requires 0 <= i < 4 => StringElement(ItemNames[i], xs[i]));
    Serialization.ShortNameNotAnonymous(ItemClass(asm));
    assert L.tagName(DefaultSettings, GetRealType(TypeOf(v))).Ok?;
    assert L.properties(TypeOf(v)) == ItemProperties();
    forall i | 0 <= i < 4
      ensures PropertyNode(DefaultSettings, rt, L, v, i) == Ok(parts[i])
    {
      StringProperty(DefaultSettings, rt, L, v, i, xs[i]);
    }
    ObjectWrites(DefaultSettings, rt, L, v, "", parts);
  }

  /** The articles' elements: one `item` element per article. */
  function ArticleElements(items: seq<Article>): (r: seq<Node>)
    ensures |r| == |items|
  {
    seq(|items|, j requires 0 <= j < |items| => Element("item", StringNodes(ItemNames, ArticleStrings(items[j]))))
  }

  /** An article is an `item` object, classified under the name `item`. */
  lemma ItemClassified(rt: Runtime, asm: string, a: Article)
    ensures Library(rt).classify(TypeOf(NewItem(asm, a))).Ok?
    ensures Library(rt).classify(TypeOf(NewItem(asm, a))).value.name == "item"
  {
    var t := ItemClass(asm);
    assert TypeOf(NewItem(asm, a)) == t;
    Serialization.ShortNameNotAnonymous(t);
    Serialization.OthersAreClass(t);
    assert Library(rt).classify(t) == Serialization.FromType(t);
  }

  /** Every article in the list is an `item` object, classified under the name `item`, and
   *  written as its strings' elements. */
  lemma ArticlesWritten(rt: Runtime, asm: string, items: seq<Article>)
    requires ItemReflected(rt, asm)
    ensures XmlRoundTrip.ItemsWritten(DefaultSettings, rt, Library(rt), ArticlesList(asm, items).items, "item")
    ensures forall j :: 0 <= j < |items| ==>
      Inner(DefaultSettings, rt, Library(rt), ArticlesList(asm, items).items[j], "") == Ok(StringNodes(ItemNames, ArticleStrings(items[j])))
  {
    var v := ArticlesList(asm, items);
    forall j | 0 <= j < |items|
      ensures v.items[j] != Null
      ensures Library(rt).classify(TypeOf(v.items[j])).Ok? && Library(rt).classify(TypeOf(v.items[j])).value.name == "item"
      ensures Inner(DefaultSettings, rt, Library(rt), v.items[j], "") == Ok(StringNodes(ItemNames, ArticleStrings(items[j])))
    {
      assert v.items[j] == NewItem(asm, items[j]);
      ItemClassified(rt, asm, items[j]);
      ItemWrites(rt, asm, items[j]);
    }
  }

  /** The list of articles is written as one `item` element per article, in order. */
  lemma ArticlesWrite(rt: Runtime, asm: string, items: seq<Article>)
    requires ItemReflected(rt, asm)
    ensures Inner(DefaultSettings, rt, Library(rt), ArticlesList(asm, items), "Articles") == Ok(ArticleElements(items))
  {
    var L := Library(rt);
    var v := ArticlesList(asm, items);
    ArticlesWritten(rt, asm, items);
    XmlRoundTrip.ListWrites(DefaultSettings, rt, L, v, "Articles", "item");
    var ns := Inner(DefaultSettings, rt, L, v, "Articles").value;
    assert ns == ArticleElements(items);
  }

  /** A count is written as its decimal text. */
  lemma CountWrites(rt: Runtime, n: int, tag: string)
    ensures Inner(DefaultSettings, rt, Library(rt), Value.Int(Int32, n), tag) == Ok(TextNodes(Numbers.IntToString(n)))
  {
  }

  /** The news reply's ArticleCount property holds the number of articles as text. */
  lemma NewsCountWrites(rt: Runtime, asm: string, m: PushMessage, now: string, items: seq<Article>)
    ensures PropertyNode(DefaultSettings, rt, Library(rt), NewsObject(asm, m, now, items), 4)
      == Ok([Element("ArticleCount", TextNodes(Numbers.IntToString(|items|)))])
  {
    var fields := [Value.Int(Int32, |items|), ArticlesList(asm, items)];
    CountWrites(rt, |items|, NewsNames[0]);
    BodyValue(rt, asm, m, now, NewsType, NewsNames, NewsTypes(asm), fields, 0, TextNodes(Numbers.IntToString(|items|)));
  }

  /** The news reply's Articles property holds one `item` element per article. */
  lemma NewsArticlesWrites(rt: Runtime, asm: string, m: PushMessage, now: string, items: seq<Article>)
    requires ItemReflected(rt, asm)
    ensures PropertyNode(DefaultSettings, rt, Library(rt), NewsObject(asm, m, now, items), 5)
      == Ok([Element("Articles", ArticleElements(items))])
  {
    var fields := [Value.Int(Int32, |items|), ArticlesList(asm, items)];
    ArticlesWrite(rt, asm, items);
    BodyValue(rt, asm, m, now, NewsType, NewsNames, NewsTypes(asm), fields, 1, ArticleElements(items));
  }

  /** The news reply: the header, ArticleCount with the number of articles, then Articles
   *  around one `item` element per article. */
  lemma ReplyNewsWrites(rt: Runtime, asm: string, m: PushMessage, now: string, items: seq<Article>)
    requires ItemReflected(rt, asm)
    ensures ReplyNews(rt, asm, m, now, Some(items))
      == Ok(Markup(Element(RootTag, HeaderNodes(m, now, NewsType)
           + [Element("ArticleCount", TextNodes(Numbers.IntToString(|items|))), Element("Articles", ArticleElements(items))])))
  {
    var fields := [Value.Int(Int32, |items|), ArticlesList(asm, items)];
    var count := [Element("ArticleCount", TextNodes(Numbers.IntToString(|items|)))];
    var articles := [Element("Articles", ArticleElements(items))];
    var body := [count, articles];
    NewsCountWrites(rt, asm, m, now, items);
    NewsArticlesWrites(rt, asm, m, now, items);
    assert forall i :: 0 <= i < 2 ==>
      PropertyNode(DefaultSettings, rt, Library(rt), NewsObject(asm, m, now, items), 4 + i) == Ok(body[i]);
    ReplyWrites(rt, asm, m, now, NewsType, NewsNames, NewsTypes(asm), fields, body);
    FlattenTwo(count, articles);
    assert Flatten(body) == count + articles == [count[0], articles[0]];
    assert ReplyNews(rt, asm, m, now, Some(items)) == ToXml(rt, NewsObject(asm, m, now, items));
  }

  /** The single-article news reply is the news reply with a count of 1 and one `item`. */
  lemma ReplyNewsOneWrites(rt: Runtime, asm: string, m: PushMessage, now: string, title: Option<string>,
                           description: Option<string>, picUrl: Option<string>, url: Option<string>)
    requires ItemReflected(rt, asm)
    ensures ReplyNewsOne(rt, asm, m, now, title, description, picUrl, url)
      == Ok(Markup(Element(RootTag, HeaderNodes(m, now, NewsType)
           + [Element("ArticleCount", [Text("1")]),
              Element("Articles", [Element("item", StringNodes(ItemNames, [title, description, picUrl, url]))])])))
  {
    var a := Article(title, description, picUrl, url);
    ReplyNewsWrites(rt, asm, m, now, [a]);
    assert Numbers.IntToString(1) == "1";
    assert ArticleElements([a]) == [Element("item", StringNodes(ItemNames, [title, description, picUrl, url]))];
  }
}
