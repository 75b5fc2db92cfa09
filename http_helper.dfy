/**
 * The multipart/form-data body that HttpHelper.BuildMultipartFormData writes for an upload
 * (the layout of section 4 of RFC 7578, with the delimiters of section 5.1.1 of RFC 2046).
 * The request itself is not modelled; the caller's Encoding (UTF-8 when none is given) is
 * the parameter `encode`.
 */
module HttpHelper {
  import opened Wrappers
  import Strings

  /** PostFile: the bytes of a file and, optionally, the name and the type to send it under. */
  datatype PostFile = PostFile(file: seq<byte>, fileName: Option<string>, contentType: Option<string>)

  /** A value of the form: a file, or any other object, which is sent as its text. */
  datatype FormValue = FileValue(post: PostFile) | TextValue(text: string)

  /** The dictionary of form fields, in its enumeration order. */
  type FormData = seq<(string, FormValue)>

  const CRLF := "\r\n"
  const OctetStream := "application/octet-stream"

  /** "--boundary", a line break and the Content-Disposition line up to the field's name. */
  function DispositionOpen(boundary: string): string {
    "--" + boundary + CRLF + "Content-Disposition: form-data; name=\""
  }

  function DispositionLine(boundary: string, key: string): string {
    DispositionOpen(boundary) + key + "\""
  }

  const BlankLine := CRLF + CRLF

  /** The file's name and its Content-Type line. */
  function FileLines(fileName: string, contentType: string): string {
    "; filename=\"" + fileName + "\"" + CRLF + "Content-Type: " + contentType
  }

  /** What follows the field's name: a file's name and type lines, or a blank line and the value's text. */
  function PartRest(key: string, value: FormValue): string {
    match value
    case FileValue(f) =>
      var fileName := if f.fileName.Some? then f.fileName.value else key;
      var contentType := if f.contentType.Some? then f.contentType.value else OctetStream;
      FileLines(fileName, contentType) + BlankLine
    case TextValue(t) => BlankLine + t
  }

  /** The header lines of one part; a text part carries its value after the blank line. */
  function PartHeader(boundary: string, key: string, value: FormValue): string {
    DispositionLine(boundary, key) + PartRest(key, value)
  }

  lemma PrefixOfConcat(p: string, x: string)
    ensures Strings.StartsWith(p + x, p) && (p + x)[|p|..] == x
  {
    assert (p + x)[..|p|] == p;
  }

  lemma SuffixOfConcat(x: string, s: string)
    ensures Strings.EndsWith(x + s, s)
  {
    assert (x + s)[|x + s| - |s|..] == s;
  }

  lemma Assoc<T>(a: seq<T>, b: seq<T>, c: seq<T>)
    ensures a + (b + c) == a + b + c
  {
  }

  lemma TakeSnoc<T>(xs: seq<T>, i: nat)
    requires i < |xs|
    ensures xs[..i + 1] == xs[..i] + [xs[i]]
  {
  }

  /**
   * Every part opens with "--boundary", a line break and its Content-Disposition line; a file
   * part ends its header with a blank line, a text part has no Content-Type line: its value
   * follows the Content-Disposition line and a blank line.
   */
  lemma PartHeaderShape(boundary: string, key: string, value: FormValue)
    ensures var h := PartHeader(boundary, key, value);
      Strings.StartsWith(h, "--" + boundary + CRLF + "Content-Disposition: form-data; name=\"" + key + "\"")
      && (value.FileValue? ==> Strings.EndsWith(h, CRLF + CRLF))
      && (value.TextValue? ==> h == DispositionLine(boundary, key) + BlankLine + value.text)
  {
    var line := DispositionLine(boundary, key);
    PrefixOfConcat(line, PartRest(key, value));
    if value.FileValue? {
      var f := value.post;
      var fileName := if f.fileName.Some? then f.fileName.value else key;
      var contentType := if f.contentType.Some? then f.contentType.value else OctetStream;
      Assoc(line, FileLines(fileName, contentType), BlankLine);
      SuffixOfConcat(line + FileLines(fileName, contentType), BlankLine);
    } else {
      Assoc(line, BlankLine, value.text);
    }
  }

  /** A file part names the file (the field's name when it has none) and its type (octet-stream when it has none). */
  lemma FileHeaderDefaults(boundary: string, key: string, file: seq<byte>)
    ensures PartHeader(boundary, key, FileValue(PostFile(file, None, None)))
      == DispositionLine(boundary, key) + FileLines(key, OctetStream) + BlankLine
  {
    Assoc(DispositionLine(boundary, key), FileLines(key, OctetStream), BlankLine);
  }

  /** A file part with a name and a type of its own sends those. */
  lemma FileHeaderGiven(boundary: string, key: string, file: seq<byte>, name: string, contentType: string)
    ensures PartHeader(boundary, key, FileValue(PostFile(file, Some(name), Some(contentType))))
      == DispositionLine(boundary, key) + FileLines(name, contentType) + BlankLine
  {
    Assoc(DispositionLine(boundary, key), FileLines(name, contentType), BlankLine);
  }

  //------------------------------------------------------------------
  // Reading the field's name back out of a part header
  //------------------------------------------------------------------

  /** The text before the first '"', or None when there is none. */
  function ReadQuoted(s: string): (r: Option<string>)
    ensures r.None? <==> '"' !in s
    ensures r.Some? ==> |r.value| < |s| && s[..|r.value|] == r.value && s[|r.value|] == '"' && '"' !in r.value
  {
    if s == [] then None
    else if s[0] == '"' then Some("")
    else
      match ReadQuoted(s[1..])
      case None => None
      case Some(t) =>
        assert s[..|t| + 1] == [s[0]] + s[1..][..|t|];
        Some([s[0]] + t)
  }

  lemma {:induction false} ReadQuotedOf(name: string, rest: string)
    requires '"' !in name
    ensures ReadQuoted(name + "\"" + rest) == Some(name)
  {
    if name != [] {
      assert (name + "\"" + rest)[1..] == name[1..] + "\"" + rest;
      ReadQuotedOf(name[1..], rest);
      assert [name[0]] + name[1..] == name;
    }
  }

  /** The field name a part header announces, as a receiver reads it. */
  function DispositionName(boundary: string, h: string): Option<string> {
    var p := DispositionOpen(boundary);
    if Strings.StartsWith(h, p) then ReadQuoted(h[|p|..]) else None
  }

  /** Every part announces its own field's name, unless that name holds a '"'. */
  lemma PartHeaderName(boundary: string, key: string, value: FormValue)
    requires '"' !in key
    ensures DispositionName(boundary, PartHeader(boundary, key, value)) == Some(key)
  {
    var p := DispositionOpen(boundary);
    var rest := PartRest(key, value);
    var h := PartHeader(boundary, key, value);
    Assoc(p, key, "\"");
    Assoc(p, key + "\"", rest);
    PrefixOfConcat(p, key + "\"" + rest);
    ReadQuotedOf(key, rest);
  }

  //------------------------------------------------------------------
  // The body
  //------------------------------------------------------------------

  /** What one part writes to the stream: its header, then the raw bytes of a file. */
  function PartBytes(boundary: string, encode: string -> seq<byte>, item: (string, FormValue)): seq<byte> {
    encode(PartHeader(boundary, item.0, item.1)) + (if item.1.FileValue? then item.1.post.file else [])
  }

  /** Every field's part, in the dictionary's order. */
  function PartList(data: FormData, boundary: string, encode: string -> seq<byte>): (r: seq<seq<byte>>)
    ensures |r| == |data|
    ensures forall k :: 0 <= k < |data| ==> r[k] == PartBytes(boundary, encode, data[k])
  {
    seq(|data|, k requires 0 <= k < |data| => PartBytes(boundary, encode, data[k]))
  }

  /** Byte strings joined by a separator. */
  function Join(xs: seq<seq<byte>>, sep: seq<byte>): (r: seq<byte>)
    ensures xs == [] ==> r == []
    ensures |xs| == 1 ==> r == xs[0]
  {
    if xs == [] then []
    else if |xs| == 1 then xs[0]
    else xs[0] + sep + Join(xs[1..], sep)
  }

  /** The close delimiter: a line break, "--boundary--" and a line break. */
  function CloseDelimiter(boundary: string): string {
    CRLF + "--" + boundary + "--" + CRLF
  }

  /** The whole body: the parts separated by line breaks, then the close delimiter. */
  function FormBody(data: FormData, boundary: string, encode: string -> seq<byte>): (r: seq<byte>)
    ensures |encode(CloseDelimiter(boundary))| <= |r|
    ensures r[|r| - |encode(CloseDelimiter(boundary))|..] == encode(CloseDelimiter(boundary))
    ensures data == [] ==> r == encode(CloseDelimiter(boundary))
  {
    var r := Join(PartList(data, boundary, encode), encode(CRLF)) + encode(CloseDelimiter(boundary));
    assert r[|r| - |encode(CloseDelimiter(boundary))|..] == encode(CloseDelimiter(boundary));
    r
  }

  /**
   * HttpHelper.BuildMultipartFormData: the loop writes a line break before every part but
   * the first (the `flag`), then the part, and after the loop the close delimiter.
   */
  method BuildMultipartFormData(data: FormData, boundary: string, encode: string -> seq<byte>)
      returns (body: seq<byte>)
    ensures body == FormBody(data, boundary, encode)
  {
    ghost var parts := PartList(data, boundary, encode);
    var flag := false;
    var stream: seq<byte> := [];
    for i := 0 to |data|
      invariant flag <==> i > 0
      invariant stream == Join(parts[..i], encode(CRLF))
    {
      if flag {
        stream := stream + encode(CRLF);
        JoinSnoc(parts[..i], parts[i], encode(CRLF));
      }
      flag := true;
      ghost var before := stream;
      var (key, value) := data[i];
      match value {
        case FileValue(f) =>
          stream := stream + encode(PartHeader(boundary, key, value));
          stream := stream + f.file;
          Assoc(before, encode(PartHeader(boundary, key, value)), f.file);
        case TextValue(_) =>
          stream := stream + encode(PartHeader(boundary, key, value));
      }
      assert stream == before + parts[i];
      TakeSnoc(parts, i);
    }
    assert parts[..|parts|] == parts;
    var s3 := CRLF + "--" + boundary + "--" + CRLF;
    stream := stream + encode(s3);
    body := stream;
  }

  //------------------------------------------------------------------
  // The parts are separated by single line breaks
  //------------------------------------------------------------------

  lemma {:induction false} JoinSnoc(xs: seq<seq<byte>>, x: seq<byte>, sep: seq<byte>)
    requires xs != []
    ensures Join(xs + [x], sep) == Join(xs, sep) + sep + x
    decreases |xs|
  {
    if |xs| == 1 {
      assert xs + [x] == [xs[0], x];
      assert [xs[0], x][1..] == [x];
    } else {
      assert (xs + [x])[1..] == xs[1..] + [x];
      JoinSnoc(xs[1..], x, sep);
    }
  }

  lemma {:induction false} JoinAppend(xs: seq<seq<byte>>, ys: seq<seq<byte>>, sep: seq<byte>)
    requires xs != [] && ys != []
    ensures Join(xs + ys, sep) == Join(xs, sep) + sep + Join(ys, sep)
    decreases |xs|
  {
    if |xs| == 1 {
      assert (xs + ys)[1..] == ys;
    } else {
      assert (xs + ys)[1..] == xs[1..] + ys;
      JoinAppend(xs[1..], ys, sep);
    }
  }

  /**
   * Splitting the fields anywhere splits the body there: the parts before, one encoded line
   * break, the parts after, then the close delimiter.
   */
  lemma FormBodyAppend(a: FormData, b: FormData, boundary: string, encode: string -> seq<byte>)
    requires a != [] && b != []
    ensures FormBody(a + b, boundary, encode)
      == Join(PartList(a, boundary, encode), encode(CRLF)) + encode(CRLF)
         + Join(PartList(b, boundary, encode), encode(CRLF)) + encode(CloseDelimiter(boundary))
  {
    assert PartList(a + b, boundary, encode) == PartList(a, boundary, encode) + PartList(b, boundary, encode);
    JoinAppend(PartList(a, boundary, encode), PartList(b, boundary, encode), encode(CRLF));
  }

  /** One field gives its part and the close delimiter. */
  lemma FormBodyOne(item: (string, FormValue), boundary: string, encode: string -> seq<byte>)
    ensures FormBody([item], boundary, encode)
      == PartBytes(boundary, encode, item) + encode(CloseDelimiter(boundary))
  {
  }
}
