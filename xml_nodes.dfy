/**
 * The XML side of the mapper: the node tree the reader walks (XmlNode with its Name,
 * ChildNodes and InnerText, and the child-name XPath queries SelectNodes and
 * SelectSingleNode), the markup each node stands for, and the StringBuilder the writer
 * appends to.  Loading text into a tree is done by the platform's parser, which is not part
 * of this model.
 */
module XmlNodes {
  import opened Wrappers

  /** An element with its child nodes, a text node or a CDATA section. */
  datatype Node =
    | Element(name: string, children: seq<Node>)
    | Text(text: string)
    | CData(data: string)

  /** XmlNode.Name. */
  function NodeName(n: Node): (r: string)
    ensures n.Element? ==> r == n.name
  {
    match n
    case Element(name, _) => name
    case Text(_) => "#text"
    case CData(_) => "#cdata-section"
  }

  /** XmlNode.ChildNodes: text and CDATA nodes have none. */
  function ChildNodes(n: Node): (r: seq<Node>)
    ensures forall c :: c in r ==> c < n
  {
    if n.Element? then n.children else []
  }

  /** Util.IsEmpty applied to a node, which enumerates its child nodes. */
  predicate IsEmptyNode(n: Node) {
    ChildNodes(n) == []
  }

  /** XmlNode.InnerText: the text of all descendant text and CDATA nodes, in document order. */
  function InnerText(n: Node): string
    decreases n, 1
  {
    match n
    case Element(_, cs) => InnerTexts(n, cs)
    case Text(t) => t
    case CData(d) => d
  }

  function InnerTexts(parent: Node, cs: seq<Node>): string
    requires forall i :: 0 <= i < |cs| ==> cs[i] < parent
    decreases parent, 0, |cs|
  {
    if cs == [] then "" else InnerTexts(parent, cs[..|cs| - 1]) + InnerText(cs[|cs| - 1])
  }

  /** The nodes that text becomes: none for empty text, else one text node. */
  function TextNodes(s: string): (r: seq<Node>)
    ensures |r| <= 1
    ensures s != "" <==> r == [Text(s)]
  {
    if s == "" then [] else [Text(s)]
  }

  const CDataStart: string := "<![CDATA["
  const CDataEnd: string := "]]>"

  function OpenTag(name: string): string { "<" + name + ">" }
  function CloseTag(name: string): string { "</" + name + ">" }

  /** Text between an opening and a closing tag. */
  function Tagged(name: string, body: string): string {
    OpenTag(name) + body + CloseTag(name)
  }

  /** The markup a node stands for. */
  function Markup(n: Node): string
    decreases n, 1
  {
    match n
    case Element(name, cs) => Tagged(name, Markups(n, cs))
    case Text(t) => t
    case CData(d) => CDataStart + d + CDataEnd
  }

  /** The markup of a sequence of sibling nodes. */
  function Markups(parent: Node, cs: seq<Node>): string
    requires forall i :: 0 <= i < |cs| ==> cs[i] < parent
    decreases parent, 0, |cs|
  {
    if cs == [] then "" else Markups(parent, cs[..|cs| - 1]) + Markup(cs[|cs| - 1])
  }

  /** The markup of a list of sibling nodes, independent of their parent. */
  function MarkupAll(ns: seq<Node>): (r: string)
    ensures ns == [] ==> r == ""
  {
    if ns == [] then "" else MarkupAll(ns[..|ns| - 1]) + Markup(ns[|ns| - 1])
  }

  lemma {:induction false} MarkupsIsMarkupAll(parent: Node, cs: seq<Node>)
    requires forall i :: 0 <= i < |cs| ==> cs[i] < parent
    ensures Markups(parent, cs) == MarkupAll(cs)
    decreases |cs|
  {
    if cs != [] {
      MarkupsIsMarkupAll(parent, cs[..|cs| - 1]);
    }
  }

  /** An element's markup is its tags around its children's markup. */
  lemma ElementMarkup(name: string, cs: seq<Node>)
    ensures Markup(Element(name, cs)) == Tagged(name, MarkupAll(cs))
  {
    MarkupsIsMarkupAll(Element(name, cs), cs);
  }

  lemma {:induction false} MarkupAllAppend(a: seq<Node>, b: seq<Node>)
    ensures MarkupAll(a + b) == MarkupAll(a) + MarkupAll(b)
    decreases |b|
  {
    if b == [] {
      assert a + b == a;
    } else {
      var init, x := b[..|b| - 1], b[|b| - 1];
      assert a + b == (a + init) + [x] by {
        assert b == init + [x];
      }
      calc {
        MarkupAll(a + b);
        { MarkupAllSnoc(a + init, x); }
        MarkupAll(a + init) + Markup(x);
        { MarkupAllAppend(a, init); }
        MarkupAll(a) + MarkupAll(init) + Markup(x);
        MarkupAll(a) + MarkupAll(b);
      }
    }
  }

  lemma MarkupAllSnoc(ns: seq<Node>, x: Node)
    ensures MarkupAll(ns + [x]) == MarkupAll(ns) + Markup(x)
  {
    assert (ns + [x])[..|ns|] == ns;
  }

  /** Appending an element's tags around its content's markup appends the element's markup. */
  lemma AppendElement(text: string, name: string, cs: seq<Node>)
    ensures text + OpenTag(name) + MarkupAll(cs) + CloseTag(name) == text + MarkupAll([Element(name, cs)])
  {
    MarkupAllSnoc([], Element(name, cs));
    ElementMarkup(name, cs);
    assert [] + [Element(name, cs)] == [Element(name, cs)];
    var o, b, c := OpenTag(name), MarkupAll(cs), CloseTag(name);
    assert text + o + b + c == text + (o + b + c);
  }

  /** Appending an opening tag, a body and the closing tag appends the tagged body. */
  lemma AppendTagged(text: string, name: string, body: string)
    ensures text + OpenTag(name) + body + CloseTag(name) == text + Tagged(name, body)
  {
    var o, c := OpenTag(name), CloseTag(name);
    assert text + o + body + c == text + (o + body + c);
  }

  /** Appending the markup of more nodes extends the markup of the nodes before. */
  lemma AppendNodes(text: string, ns: seq<Node>, more: seq<Node>)
    ensures text + MarkupAll(ns) + MarkupAll(more) == text + MarkupAll(ns + more)
  {
    MarkupAllAppend(ns, more);
    assert text + MarkupAll(ns) + MarkupAll(more) == text + (MarkupAll(ns) + MarkupAll(more));
  }

  lemma {:induction false} InnerTextsAppend(parent: Node, a: seq<Node>, b: seq<Node>)
    requires forall i :: 0 <= i < |a| ==> a[i] < parent
    requires forall i :: 0 <= i < |b| ==> b[i] < parent
    ensures InnerTexts(parent, a + b) == InnerTexts(parent, a) + InnerTexts(parent, b)
    decreases |b|
  {
    if b == [] {
      assert a + b == a;
    } else {
      var init, x := b[..|b| - 1], b[|b| - 1];
      assert (a + b)[..|a + b| - 1] == a + init;
      calc {
        InnerTexts(parent, a + b);
        InnerTexts(parent, a + init) + InnerText(x);
        { InnerTextsAppend(parent, a, init); }
        InnerTexts(parent, a) + InnerTexts(parent, init) + InnerText(x);
        InnerTexts(parent, a) + InnerTexts(parent, b);
      }
    }
  }

  /** The inner text of an element holding the nodes of a text is that text. */
  lemma InnerTextOfText(name: string, s: string)
    ensures InnerText(Element(name, TextNodes(s))) == s
  {
    var e := Element(name, TextNodes(s));
    if s != "" {
      assert InnerTexts(e, [Text(s)]) == InnerTexts(e, []) + InnerText(Text(s));
    }
  }

  /** Text without '<' or '&' is its own markup and reads back as itself. */
  lemma TextMarkup(s: string)
    ensures MarkupAll(TextNodes(s)) == s
  {
    if s != "" {
      assert MarkupAll([Text(s)]) == MarkupAll([]) + Markup(Text(s));
    }
  }

  //------------------------------------------------------------------
  // Child-name XPath queries
  //------------------------------------------------------------------

  predicate IsNameStartChar(c: char) {
    ('a' <= c <= 'z') || ('A' <= c <= 'Z') || c == '_' || c >= 'À'
  }

  predicate IsNameChar(c: char) {
    IsNameStartChar(c) || ('0' <= c <= '9') || c == '-' || c == '.'
  }

  /** The XPath expressions the mapper builds are bare child names; a name that is not an
   *  XML name (a backtick, brackets, "<>") does not compile. */
  predicate IsXPathName(s: string) {
    s != [] && IsNameStartChar(s[0]) && forall i :: 0 <= i < |s| ==> IsNameChar(s[i])
  }

  /** The child elements with the given name, in document order. */
  function ElementsNamed(ns: seq<Node>, name: string): (r: seq<Node>)
    ensures |r| <= |ns|
    ensures forall k :: 0 <= k < |r| ==> r[k].Element? && r[k].name == name && r[k] in ns
  {
    if ns == [] then []
    else
      var init := ElementsNamed(ns[..|ns| - 1], name);
      var last := ns[|ns| - 1];
      if last.Element? && last.name == name then init + [last] else init
  }

  /** SelectNodes(name): the child elements called `name`. */
  function SelectNodes(n: Node, name: string): (r: Result<seq<Node>>)
    ensures r.Err? <==> !IsXPathName(name)
    ensures r.Err? ==> r.error == XPathError
    ensures r.Ok? ==> r.value == ElementsNamed(ChildNodes(n), name)
  {
    if !IsXPathName(name) then Err(XPathError) else Ok(ElementsNamed(ChildNodes(n), name))
  }

  /** The first child element called `name`. */
  function FirstNamed(ns: seq<Node>, name: string): (r: Option<Node>)
    ensures r.Some? ==> r.value in ns && r.value.Element? && r.value.name == name
    ensures r.None? <==> forall c :: c in ns ==> !(c.Element? && c.name == name)
  {
    if ns == [] then None
    else if ns[0].Element? && ns[0].name == name then Some(ns[0])
    else FirstNamed(ns[1..], name)
  }

  /** SelectSingleNode(name): the first child element called `name`, if any. */
  function SelectSingleNode(n: Node, name: string): (r: Result<Option<Node>>)
    ensures r.Err? <==> !IsXPathName(name)
    ensures r.Ok? ==> r.value == FirstNamed(ChildNodes(n), name)
  {
    if !IsXPathName(name) then Err(XPathError) else Ok(FirstNamed(ChildNodes(n), name))
  }

  /** Selecting by name keeps exactly the children with that name: none from a list of
   *  elements all called otherwise, all from a list of elements all called so. */
  lemma {:induction false} ElementsNamedAll(ns: seq<Node>, name: string)
    requires forall k :: 0 <= k < |ns| ==> ns[k].Element? && ns[k].name == name
    ensures ElementsNamed(ns, name) == ns
    decreases |ns|
  {
    if ns != [] {
      ElementsNamedAll(ns[..|ns| - 1], name);
      assert ns == ns[..|ns| - 1] + [ns[|ns| - 1]];
    }
  }

  lemma {:induction false} ElementsNamedNone(ns: seq<Node>, name: string)
    requires forall k :: 0 <= k < |ns| ==> !(ns[k].Element? && ns[k].name == name)
    ensures ElementsNamed(ns, name) == []
    decreases |ns|
  {
    if ns != [] {
      ElementsNamedNone(ns[..|ns| - 1], name);
    }
  }

  //------------------------------------------------------------------
  // StringBuilder
  //------------------------------------------------------------------

  /** System.Text.StringBuilder, as far as the writer uses it. */
  class StringBuilder {
    var text: string

    constructor()
      ensures text == ""
    {
      text := "";
    }

    /** Append(s). */
    method Append(s: string)
      modifies this
      ensures text == old(text) + s
    {
      text := text + s;
    }
  }
}
