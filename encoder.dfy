/**
 * The text encoders of Convertor (Convertor.Encoder.cs): query strings, hexadecimal and
 * binary text of byte arrays, byte reversal and `\u` escaping of UTF-16 code units.
 * A null argument is `None` where the source tests for null.
 */
module Encoder {
  import opened Wrappers
  import opened Strings
  import opened Numbers
  import StringHelper
  import opened EncryptHelper

  //------------------------------------------------------------------
  // Query strings
  //------------------------------------------------------------------

  /** One `key=value` pair, written without any encoding. */
  function QueryPair(kv: (string, string)): string {
    kv.0 + "=" + kv.1
  }

  function QueryPairs(data: seq<(string, string)>): (r: seq<string>)
    ensures |r| == |data|
    ensures forall i :: 0 <= i < |data| ==> r[i] == QueryPair(data[i])
  {
    seq(|data|, i requires 0 <= i < |data| => QueryPair(data[i]))
  }

  /** The text ToQueryString builds: the pairs in dictionary order joined by `&`. */
  function QueryText(data: seq<(string, string)>): string {
    Join("&", QueryPairs(data))
  }

  lemma QueryPairsSnoc(data: seq<(string, string)>, j: nat)
    requires j < |data|
    ensures QueryPairs(data[..j + 1]) == QueryPairs(data[..j]) + [QueryPair(data[j])]
  {
  }

  /**
   * ToQueryString: appends each pair and, while the counter is below the entry count, an
   * `&` after it.  A null or empty dictionary gives "".
   */
  method ToQueryString(data: Option<seq<(string, string)>>) returns (r: string)
    ensures data.None? || data.value == [] ==> r == ""
    ensures data.Some? ==> r == QueryText(data.value)
  {
    if data.None? || |data.value| == 0 {
      return "";
    }
    var d := data.value;
    var sb := "";
    var i := 0;
    var j := 0;
    while j < |d|
      invariant 0 <= j <= |d| && i == j
      invariant sb == Join("&", QueryPairs(d[..j])) + (if 0 < j < |d| then "&" else "")
    {
      var item := d[j];
      i := i + 1;
      QueryPairsSnoc(d, j);
      if j > 0 {
        StringHelper.JoinSnoc(QueryPairs(d[..j]), QueryPair(item), "&");
      }
      sb := sb + (item.0 + "=" + item.1);
      if i < |d| {
        sb := sb + "&";
      }
      j := j + 1;
    }
    assert d[..j] == d;
    r := sb;
  }

  /**
   * When no key holds `=` or `&` and no value holds `&`, the query text splits back into
   * the pairs, each key being the text before the pair's first `=`.
   */
  lemma QueryTextSplits(data: seq<(string, string)>)
    requires data != []
    requires forall i :: 0 <= i < |data| ==> '&' !in data[i].0 && '=' !in data[i].0 && '&' !in data[i].1
    ensures |Split(QueryText(data), '&')| == |data|
    ensures forall i :: 0 <= i < |data| ==>
      var piece := Split(QueryText(data), '&')[i];
      IndexOfChar(piece, '=') == |data[i].0| && piece[..|data[i].0|] == data[i].0
      && piece[|data[i].0| + 1..] == data[i].1
  {
    var pairs := QueryPairs(data);
    forall i | 0 <= i < |pairs|
      ensures '&' !in pairs[i]
    {
      QueryPairReads(data[i]);
    }
    assert Split(QueryText(data), '&') == pairs by {
      SplitOfJoin(pairs, '&');
    }
    forall i | 0 <= i < |data|
      ensures var kv := data[i]; var p := pairs[i];
        IndexOfChar(p, '=') == |kv.0| && p[..|kv.0|] == kv.0 && p[|kv.0| + 1..] == kv.1
    {
      QueryPairReads(data[i]);
    }
  }

  /** A pair splits at its first `=` when the key holds none, and holds `&` only if a part does. */
  lemma QueryPairReads(kv: (string, string))
    ensures '&' !in kv.0 && '&' !in kv.1 ==> '&' !in QueryPair(kv)
    ensures '=' !in kv.0 ==> var p := QueryPair(kv);
      IndexOfChar(p, '=') == |kv.0| && p[..|kv.0|] == kv.0 && p[|kv.0| + 1..] == kv.1
  {
    var p := QueryPair(kv);
    assert forall m :: 0 <= m < |kv.0| ==> p[m] == kv.0[m];
    assert forall m :: 0 <= m < |kv.1| ==> p[|kv.0| + 1 + m] == kv.1[m];
    assert p[|kv.0|] == '=';
  }

  //------------------------------------------------------------------
  // Hexadecimal text
  //------------------------------------------------------------------

  /**
   * The text ToHexString builds: each byte as two upper-case hexadecimal digits ("{0:X2}"),
   * followed by a space when `insertSpace`.
   */
  function HexText(bytes: seq<byte>, insertSpace: bool): (r: string)
    ensures |r| == |bytes| * (if insertSpace then 3 else 2)
    ensures !insertSpace ==> forall k :: 0 <= k < |r| ==> IsHexDigit(r[k])
    decreases |bytes|
  {
    if bytes == [] then []
    else
      var init := bytes[..|bytes| - 1];
      HexText(init, insertSpace) + HexByteUpper(bytes[|bytes| - 1]) + (if insertSpace then " " else "")
  }

  /** ToHexString: appends each formatted byte; null or empty input gives "". */
  method ToHexString(bytes: Option<seq<byte>>, insertSpace: bool) returns (r: string)
    ensures bytes.None? ==> r == ""
    ensures bytes.Some? ==> r == HexText(bytes.value, insertSpace)
  {
    if bytes.None? || |bytes.value| == 0 {
      return "";
    }
    var b := bytes.value;
    var sb := "";
    var i := 0;
    while i < |b|
      invariant 0 <= i <= |b|
      invariant sb == HexText(b[..i], insertSpace)
    {
      assert b[..i + 1][..i] == b[..i];
      var piece := if insertSpace then HexByteUpper(b[i]) + " " else HexByteUpper(b[i]);
      sb := sb + piece;
      i := i + 1;
    }
    assert b[..i] == b;
    r := sb;
  }

  /** Byte i of the input sits at offset 2i (3i with spaces) of the hexadecimal text. */
  lemma {:induction false} HexTextAt(bytes: seq<byte>, insertSpace: bool, i: nat)
    requires i < |bytes|
    ensures var w := if insertSpace then 3 else 2;
      HexText(bytes, insertSpace)[w * i..w * i + 2] == HexByteUpper(bytes[i])
    decreases |bytes|
  {
    var w := if insertSpace then 3 else 2;
    var init := bytes[..|bytes| - 1];
    var head := HexText(init, insertSpace);
    var t := HexText(bytes, insertSpace);
    assert t == head + HexByteUpper(bytes[|bytes| - 1]) + (if insertSpace then " " else "");
    assert |head| == w * |init|;
    if i < |init| {
      assert head[w * i..w * i + 2] == HexByteUpper(bytes[i]) by {
        HexTextAt(init, insertSpace, i);
      }
      assert t[w * i..w * i + 2] == head[w * i..w * i + 2];
    } else {
      assert w * i == |head|;
    }
  }

  /** Text made only of hexadecimal digits. */
  predicate AllHexDigits(t: string) {
    forall k :: 0 <= k < |t| ==> IsHexDigit(t[k])
  }

  /**
   * byte.Parse(s, NumberStyles.HexNumber): white space around at least one hexadecimal
   * digit, then nothing but '\0' characters (the runtime's number parser accepts trailing
   * nulls); a value above 255 overflows.
   */
  function ParseHexByte(s: string): (r: Result<byte>)
    ensures var t := TrimNumberSpace(TrimNulls(s));
      r == Err(FormatError) <==> t == [] || !AllHexDigits(t)
    ensures var t := TrimNumberSpace(TrimNulls(s));
      r.Ok? <==> t != [] && AllHexDigits(t) && ParseHexDigits(t) <= 255
    ensures var t := TrimNumberSpace(TrimNulls(s));
      r.Ok? ==> AllHexDigits(t) && r.value as int == ParseHexDigits(t)
  {
    var t := TrimNumberSpace(TrimNulls(s));
    if t == [] || !AllHexDigits(t) then Err(FormatError)
    else
      var v := ParseHexDigits(t);
      if v > 255 then Err(OverflowError) else Ok(v as byte)
  }

  /** So "1\0" reads as 1, and a null before white space ends the number. */
  lemma ParseHexByteOfNullTerminated()
    ensures ParseHexByte("1\0") == Ok(1)
    ensures ParseHexByte("1\0 ") == Err(FormatError)
  {
    assert TrimNulls("1\0") == "1" by {
      assert "1\0"[..1] == "1";
    }
    assert TrimNumberSpace("1") == "1";
    assert ParseHexDigits("1") == 1 by {
      assert "1"[..0] == [];
    }
    assert TrimNulls("1\0 ") == "1\0 ";
    assert TrimNumberSpace("1\0 ") == "1\0" by {
      assert "1\0 "[..2] == "1\0";
      assert TrimNumberSpace("1\0") == "1\0";
    }
    assert !IsHexDigit("1\0"[1]);
  }

  /**
   * `(byte)int.Parse(s)`: the integer text forms int.Parse accepts, an overflow outside
   * the 32-bit range, then the unchecked cast that keeps the low eight bits.
   */
  function ParseIntByte(s: string): (r: Result<byte>)
    ensures ParseInteger(s).None? <==> r == Err(FormatError)
    ensures r == Err(OverflowError) <==>
      ParseInteger(s).Some? && !(-0x8000_0000 <= ParseInteger(s).value <= 0x7FFF_FFFF)
    ensures r.Ok? ==> r.value as int == ParseInteger(s).value % 256
  {
    match ParseInteger(s)
    case None => Err(FormatError)
    case Some(v) =>
      if v < -0x8000_0000 || v > 0x7FFF_FFFF then Err(OverflowError)
      else Ok((v % 256) as byte)
  }

  /** Parses every token in order; the first token that fails decides the error. */
  function ParseAll(tokens: seq<string>, parse: string -> Result<byte>): (r: Result<seq<byte>>)
    ensures r.Ok? <==> forall i :: 0 <= i < |tokens| ==> parse(tokens[i]).Ok?
    ensures r.Ok? ==> |r.value| == |tokens|
    ensures r.Ok? ==> forall i :: 0 <= i < |tokens| ==> parse(tokens[i]) == Ok(r.value[i])
    decreases |tokens|
  {
    if tokens == [] then Ok([])
    else match ParseAll(tokens[..|tokens| - 1], parse)
      case Err(e) => Err(e)
      case Ok(init) =>
        match parse(tokens[|tokens| - 1])
        case Err(e) => Err(e)
        case Ok(b) => Ok(init + [b])
  }

  /** Once a prefix of the tokens fails, the whole list fails with the same error. */
  lemma {:induction false} ParseAllErrStays(tokens: seq<string>, parse: string -> Result<byte>, n: nat)
    requires n <= |tokens| && ParseAll(tokens[..n], parse).Err?
    ensures ParseAll(tokens, parse) == ParseAll(tokens[..n], parse)
    decreases |tokens|
  {
    if n < |tokens| {
      var init := tokens[..|tokens| - 1];
      assert init[..n] == tokens[..n];
      ParseAllErrStays(init, parse, n);
    } else {
      assert tokens[..n] == tokens;
    }
  }

  /** A list that parses, extended by a token that parses, parses to the extended bytes. */
  lemma ParseAllOkSnoc(tokens: seq<string>, t: string, parse: string -> Result<byte>, done: seq<byte>, b: byte)
    requires ParseAll(tokens, parse) == Ok(done) && parse(t) == Ok(b)
    ensures ParseAll(tokens + [t], parse) == Ok(done + [b])
  {
    assert (tokens + [t])[..|tokens|] == tokens;
  }

  /** The two-character slices the no-space branch reads; an odd last character is ignored. */
  function HexPairs(hexText: string): (r: seq<string>)
    ensures |r| == |hexText| / 2
    ensures forall i :: 0 <= i < |r| ==> r[i] == hexText[2 * i..2 * i + 2]
  {
    seq(|hexText| / 2, i requires 0 <= i < |hexText| / 2 => hexText[2 * i..2 * i + 2])
  }

  /** The space-separated tokens: the trimmed text split at every space. */
  function SpaceTokens(hexText: string): (r: seq<string>)
    ensures |r| >= 1
  {
    Split(Trim(hexText), ' ')
  }

  /**
   * What ToHexBytes computes, as written: with a space in the text each token is read as a
   * DECIMAL integer and cut to a byte; otherwise consecutive character pairs are read as
   * hexadecimal bytes.
   */
  function HexBytes(hexText: string): (r: Result<seq<byte>>)
    ensures ' ' !in hexText ==> r == ParseAll(HexPairs(hexText), ParseHexByte)
    ensures ' ' in hexText ==> r == ParseAll(SpaceTokens(hexText), ParseIntByte)
  {
    if ' ' in hexText then ParseAll(SpaceTokens(hexText), ParseIntByte)
    else ParseAll(HexPairs(hexText), ParseHexByte)
  }

  /** Parses the tokens into a fresh array, stopping at the first failure. */
  method ParseTokens(tokens: seq<string>, parse: string -> Result<byte>) returns (r: Result<seq<byte>>)
    ensures r == ParseAll(tokens, parse)
  {
    var bytes := new byte[|tokens|];
    var i := 0;
    ghost var done: seq<byte> := [];
    while i < |tokens|
      invariant 0 <= i <= |tokens| && |done| == i
      invariant ParseAll(tokens[..i], parse) == Ok(done)
      invariant forall k :: 0 <= k < i ==> bytes[k] == done[k]
    {
      assert tokens[..i + 1][..i] == tokens[..i];
      match parse(tokens[i]) {
        case Err(e) =>
          ParseAllErrStays(tokens, parse, i + 1);
          return Err(e);
        case Ok(b) =>
          bytes[i] := b;
          done := done + [b];
      }
      i := i + 1;
    }
    assert tokens[..i] == tokens;
    assert bytes[..] == done;
    return Ok(bytes[..]);
  }

  /**
   * ToHexBytes: with a space, trims and splits the text and parses each token as a decimal
   * integer; otherwise reads the two-character slices as hexadecimal bytes.
   */
  method ToHexBytes(hexText: string) returns (r: Result<seq<byte>>)
    ensures r == HexBytes(hexText)
  {
    if ' ' in hexText {
      var hexs := Split(Trim(hexText), ' ');
      r := ParseTokens(hexs, ParseIntByte);
    } else {
      r := ReadHexPairs(hexText);
    }
  }

  /**
   * The no-space branch: |text|/2 slices taken with SubText(i * 2, 2), each byte.Parse'd;
   * the first slice that fails decides the error.
   */
  method ReadHexPairs(hexText: string) returns (r: Result<seq<byte>>)
    ensures r == ParseAll(HexPairs(hexText), ParseHexByte)
  {
    var pairs := SlicePairs(hexText);
    r := ParseTokens(pairs, ParseHexByte);
  }

  /** The slices SubText(i * 2, 2) for i below |text|/2. */
  method SlicePairs(hexText: string) returns (pairs: seq<string>)
    ensures pairs == HexPairs(hexText)
  {
    var n := |hexText| / 2;
    pairs := [];
    var i := 0;
    while i < n
      invariant 0 <= i <= n && |pairs| == i
      invariant forall k :: 0 <= k < i ==> pairs[k] == hexText[2 * k..2 * k + 2]
    {
      var b := StringHelper.SubText(hexText, i * 2, 2);
      SubTextPair(hexText, i);
      pairs := pairs + [b.value];
      i := i + 1;
    }
  }

  lemma SubTextPair(hexText: string, i: nat)
    requires 2 * i + 2 <= |hexText|
    ensures StringHelper.SubText(hexText, i * 2, 2) == Ok(HexPairs(hexText)[i])
  {
  }

  /** Two upper-case hexadecimal digits parse back to their byte. */
  lemma ParseHexByteUpper(b: byte)
    ensures ParseHexByte(HexByteUpper(b)) == Ok(b)
  {
    var s := HexByteUpper(b);
    assert TrimNulls(s) == s;
    assert TrimNumberSpace(s) == s;
    assert s[..1][..0] == [];
    assert ParseHexDigits(s[..1]) == HexValue(s[0]);
    assert s[..|s| - 1] == s[..1];
  }

  /** ToHexBytes undoes ToHexString without spaces. */
  lemma HexBytesOfHexText(bytes: seq<byte>)
    ensures HexBytes(HexText(bytes, false)) == Ok(bytes)
  {
    HexTextNoSpace(bytes);
    HexPairsParse(bytes);
  }

  lemma HexTextNoSpace(bytes: seq<byte>)
    ensures ' ' !in HexText(bytes, false)
  {
    var t := HexText(bytes, false);
    assert forall k :: 0 <= k < |t| ==> IsHexDigit(t[k]);
  }

  /** The digit pairs of the hexadecimal text parse back to the bytes, one pair at a time. */
  lemma {:induction false} HexPairsParse(bytes: seq<byte>)
    ensures ParseAll(HexPairs(HexText(bytes, false)), ParseHexByte) == Ok(bytes)
    decreases |bytes|
  {
    if bytes != [] {
      var init := bytes[..|bytes| - 1];
      var last := bytes[|bytes| - 1];
      assert bytes == init + [last];
      var t0 := HexText(init, false);
      var p := HexByteUpper(last);
      assert HexText(bytes, false) == t0 + p;
      assert HexPairs(t0 + p) == HexPairs(t0) + [p] by {
        HexPairsSnoc(t0, p);
      }
      assert ParseAll(HexPairs(t0) + [p], ParseHexByte) == Ok(init + [last]) by {
        HexPairsParse(init);
        ParseHexByteUpper(last);
        ParseAllOkSnoc(HexPairs(t0), p, ParseHexByte, init, last);
      }
    }
  }

  lemma HexPairsSnoc(t: string, p: string)
    requires |t| % 2 == 0 && |p| == 2
    ensures HexPairs(t + p) == HexPairs(t) + [p]
  {
    var u := t + p;
    assert forall i :: 0 <= i < |t| / 2 ==> u[2 * i..2 * i + 2] == t[2 * i..2 * i + 2];
    assert u[|t|..|t| + 2] == p;
  }

  /** Without a space, a final unpaired character makes no difference. */
  lemma HexBytesIgnoresOddLast(hexText: string, c: char)
    requires |hexText| % 2 == 0 && ' ' !in hexText && c != ' '
    ensures HexBytes(hexText + [c]) == HexBytes(hexText)
  {
    var t := hexText + [c];
    assert forall i :: 0 <= i < |hexText| / 2 ==> t[2 * i..2 * i + 2] == hexText[2 * i..2 * i + 2];
    assert HexPairs(t) == HexPairs(hexText);
  }

  //------------------------------------------------------------------
  // The space-separated form, as evidently intended
  //------------------------------------------------------------------

  /** The hexadecimal digit pairs of the bytes, one item per byte. */
  function HexPieces(bytes: seq<byte>): (r: seq<string>)
    ensures |r| == |bytes|
    ensures forall i :: 0 <= i < |bytes| ==> r[i] == HexByteUpper(bytes[i])
  {
    seq(|bytes|, i requires 0 <= i < |bytes| => HexByteUpper(bytes[i]))
  }

  /**
   * ToHexBytes as its documentation describes it ("86fb26" or "86 fb 26"): the tokens of
   * the space-separated form are read as hexadecimal bytes too.
   */
  function HexBytesFixed(hexText: string): (r: Result<seq<byte>>)
    ensures ' ' !in hexText ==> r == HexBytes(hexText)
  {
    if ' ' in hexText then ParseAll(SpaceTokens(hexText), ParseHexByte)
    else ParseAll(HexPairs(hexText), ParseHexByte)
  }

  /** With spaces, the hexadecimal text is the pieces joined by spaces plus a final space. */
  lemma {:induction false} HexTextSpaced(bytes: seq<byte>)
    requires bytes != []
    ensures HexText(bytes, true) == Join(" ", HexPieces(bytes)) + " "
    decreases |bytes|
  {
    var init := bytes[..|bytes| - 1];
    var last := HexByteUpper(bytes[|bytes| - 1]);
    assert HexText(bytes, true) == HexText(init, true) + last + " ";
    assert HexPieces(bytes) == HexPieces(init) + [last];
    if init != [] {
      assert HexText(init, true) == Join(" ", HexPieces(init)) + " " by {
        HexTextSpaced(init);
      }
      assert Join(" ", HexPieces(init) + [last]) == Join(" ", HexPieces(init)) + " " + last by {
        StringHelper.JoinSnoc(HexPieces(init), last, " ");
      }
    } else {
      assert HexPieces(bytes) == [last];
    }
  }

  /** Trim removes exactly one final space from text that starts and ends in non-blanks. */
  lemma TrimOneSpace(j: string)
    requires j != [] && !IsWhiteSpace(j[0]) && !IsWhiteSpace(j[|j| - 1])
    ensures Trim(j + " ") == j
  {
    var t := j + " ";
    assert t[0] == j[0];
    assert TrimStartWhiteSpace(t) == t;
    assert t[..|t| - 1] == j;
    assert IsWhiteSpace(t[|t| - 1]);
    assert TrimEndWhiteSpace(t) == TrimEndWhiteSpace(j);
    assert TrimEndWhiteSpace(j) == j;
  }

  /** The corrected reader undoes ToHexString in both forms. */
  lemma HexBytesFixedRoundTrip(bytes: seq<byte>, insertSpace: bool)
    ensures HexBytesFixed(HexText(bytes, insertSpace)) == Ok(bytes)
  {
    if !insertSpace {
      HexTextNoSpace(bytes);
      HexBytesOfHexText(bytes);
    } else if bytes == [] {
      assert HexText(bytes, true) == [];
    } else {
      var t := HexText(bytes, true);
      assert ' ' in t by {
        assert t[|t| - 1] == ' ';
      }
      SpacedTokens(bytes);
      PiecesParse(bytes);
    }
  }

  /** The tokens of the spaced hexadecimal text are the bytes' digit pairs. */
  lemma SpacedTokens(bytes: seq<byte>)
    requires bytes != []
    ensures SpaceTokens(HexText(bytes, true)) == HexPieces(bytes)
  {
    var pieces := HexPieces(bytes);
    SpacedTrim(bytes);
    PiecesNoSpace(bytes);
    SplitOfJoin(pieces, ' ');
  }

  /** Trimming the spaced hexadecimal text leaves the digit pairs joined by spaces. */
  lemma SpacedTrim(bytes: seq<byte>)
    requires bytes != []
    ensures Trim(HexText(bytes, true)) == Join(" ", HexPieces(bytes))
  {
    var t := HexText(bytes, true);
    var j := Join(" ", HexPieces(bytes));
    var n := |bytes|;
    assert t == j + " " by {
      HexTextSpaced(bytes);
    }
    assert IsHexDigit(t[0]) by {
      HexTextAt(bytes, true, 0);
    }
    var k := 3 * (n - 1);
    assert IsHexDigit(t[k + 1]) by {
      HexTextAt(bytes, true, n - 1);
      assert t[k..k + 2] == HexByteUpper(bytes[n - 1]);
      assert t[k + 1] == t[k..k + 2][1];
    }
    assert k + 1 == 3 * n - 2;
    assert j[0] == t[0] && j[|j| - 1] == t[3 * n - 2];
    TrimOneSpace(j);
  }

  lemma PiecesNoSpace(bytes: seq<byte>)
    ensures forall i :: 0 <= i < |bytes| ==> ' ' !in HexPieces(bytes)[i]
  {
    var pieces := HexPieces(bytes);
    forall i | 0 <= i < |bytes|
      ensures ' ' !in pieces[i]
    {
      var p := HexByteUpper(bytes[i]);
      assert IsHexDigit(p[0]) && IsHexDigit(p[1]);
      assert p == [p[0], p[1]];
    }
  }

  /** The digit pairs parse back to the bytes. */
  lemma PiecesParse(bytes: seq<byte>)
    ensures ParseAll(HexPieces(bytes), ParseHexByte) == Ok(bytes)
  {
    var pieces := HexPieces(bytes);
    forall i | 0 <= i < |pieces|
      ensures ParseHexByte(pieces[i]) == Ok(bytes[i])
    {
      ParseHexByteUpper(bytes[i]);
    }
    assert ParseAll(pieces, ParseHexByte).value == bytes;
  }

  /**
   * As written, the spaced text of any byte from 10 up is misread: its digit pair is either
   * taken as a decimal number (0x10 reads back as 10) or rejected as a format error (0x1A),
   * so ToHexBytes does not undo ToHexString with spaces; the corrected reader does.
   */
  lemma HexBytesSpacedMisreads(bytes: seq<byte>, i: nat)
    requires i < |bytes| && bytes[i] >= 10
    ensures HexBytes(HexText(bytes, true)) != Ok(bytes)
    ensures HexBytesFixed(HexText(bytes, true)) == Ok(bytes)
  {
    HexBytesFixedRoundTrip(bytes, true);
    SpacedReadsTokens(bytes);
    TokenMisread(bytes[i]);
    var pieces := HexPieces(bytes);
    assert pieces[i] == HexByteUpper(bytes[i]);
  }

  /** As written, the spaced form reads the bytes' digit pairs with `(byte)int.Parse`. */
  lemma SpacedReadsTokens(bytes: seq<byte>)
    requires bytes != []
    ensures HexBytes(HexText(bytes, true)) == ParseAll(HexPieces(bytes), ParseIntByte)
  {
    var t := HexText(bytes, true);
    assert ' ' in t by {
      assert t[|t| - 1] == ' ';
    }
    SpacedTokens(bytes);
  }

  /**
   * `(byte)int.Parse` of a byte's two hexadecimal digits: their decimal value when both are
   * decimal digits, a format error when one is a letter; never the byte itself from 10 up.
   */
  lemma TokenMisread(b: byte)
    ensures b as int / 16 < 10 && b as int % 16 < 10 ==>
      ParseIntByte(HexByteUpper(b)) == Ok((b as int / 16 * 10 + b as int % 16) as byte)
    ensures b as int / 16 >= 10 || b as int % 16 >= 10 ==> ParseIntByte(HexByteUpper(b)) == Err(FormatError)
    ensures b >= 10 ==> ParseIntByte(HexByteUpper(b)) != Ok(b)
  {
    var hi, lo := b as int / 16, b as int % 16;
    var t := HexByteUpper(b);
    if hi < 10 && lo < 10 {
      assert t == [DigitChar(hi), DigitChar(lo)];
      TwoDigits(hi, lo);
    } else {
      assert !AllDigits(t) by {
        assert 'A' <= t[0] <= 'F' || 'A' <= t[1] <= 'F';
      }
      assert t[0] != '-' && t[0] != '+';
      assert TrimNumberSpace(t) == t;
    }
  }

  /** Two decimal digits and their value as `(byte)int.Parse` reads them. */
  lemma TwoDigits(hi: nat, lo: nat)
    requires hi < 10 && lo < 10
    ensures ParseIntByte([DigitChar(hi), DigitChar(lo)]) == Ok((hi * 10 + lo) as byte)
  {
    var t := [DigitChar(hi), DigitChar(lo)];
    assert t[..1][..0] == [];
    assert t[..|t| - 1] == t[..1];
    assert ParseDigits(t[..1]) == hi;
  }

  //------------------------------------------------------------------
  // Binary text
  //------------------------------------------------------------------

  function BitChar(v: nat): (c: char)
    requires v < 2
  {
    if v == 0 then '0' else '1'
  }

  predicate IsBit(c: char) { c == '0' || c == '1' }

  /** Convert.ToString(v, 2): the shortest binary numeral of v. */
  function ToBinary(v: nat): (r: string)
    ensures |r| >= 1 && forall k :: 0 <= k < |r| ==> IsBit(r[k])
  {
    if v < 2 then [BitChar(v)] else ToBinary(v / 2) + [BitChar(v % 2)]
  }

  /** String.PadLeft(width, c). */
  function PadLeft(s: string, width: nat, c: char): (r: string)
    ensures |r| == if |s| >= width then |s| else width
    ensures forall k :: 0 <= k < |s| ==> r[|r| - |s| + k] == s[k]
    ensures forall k :: 0 <= k < |r| - |s| ==> r[k] == c
  {
    if |s| >= width then s else seq(width - |s|, _ => c) + s
  }

  /** The value of a binary numeral. */
  function ParseBinary(s: string): (v: nat)
    requires forall k :: 0 <= k < |s| ==> IsBit(s[k])
  {
    if s == [] then 0 else ParseBinary(s[..|s| - 1]) * 2 + (if s[|s| - 1] == '1' then 1 else 0)
  }

  lemma {:induction false} ParseToBinary(v: nat)
    ensures ParseBinary(ToBinary(v)) == v
    decreases v
  {
    if v >= 2 {
      var r := ToBinary(v);
      assert r[..|r| - 1] == ToBinary(v / 2);
      ParseToBinary(v / 2);
    }
  }

  /** A value below 2^n has at most n binary digits (n >= 1). */
  lemma {:induction false} ToBinaryLength(v: nat, n: nat)
    requires n >= 1 && v < Pow2(n)
    ensures |ToBinary(v)| <= n
    decreases n
  {
    if v >= 2 {
      assert n >= 2;
      ToBinaryLength(v / 2, n - 1);
    }
  }

  /** Leading zeros do not change a binary value. */
  lemma {:induction false} ParseBinaryLeadingZeros(zeros: string, s: string)
    requires forall k :: 0 <= k < |zeros| ==> zeros[k] == '0'
    requires forall k :: 0 <= k < |s| ==> IsBit(s[k])
    ensures ParseBinary(zeros + s) == ParseBinary(s)
    decreases |s|
  {
    if s == [] {
      assert zeros + s == zeros;
      ZerosAreZero(zeros);
    } else {
      var init := s[..|s| - 1];
      assert (zeros + s)[..|zeros + s| - 1] == zeros + init;
      ParseBinaryLeadingZeros(zeros, init);
    }
  }

  lemma {:induction false} ZerosAreZero(zeros: string)
    requires forall k :: 0 <= k < |zeros| ==> zeros[k] == '0'
    ensures ParseBinary(zeros) == 0
    decreases |zeros|
  {
    if zeros != [] {
      ZerosAreZero(zeros[..|zeros| - 1]);
    }
  }

  /** One byte as ToBitString writes it: its binary numeral padded with zeros to 8 digits. */
  function BitsOf(b: byte): (r: string)
    ensures |r| == 8 && forall k :: 0 <= k < 8 ==> IsBit(r[k])
  {
    assert Pow2(8) == 256;
    ToBinaryLength(b as nat, 8);
    PadLeft(ToBinary(b as nat), 8, '0')
  }

  /** The eight digits read back as the byte. */
  lemma BitsOfParses(b: byte)
    ensures ParseBinary(BitsOf(b)) == b as int
  {
    var bin := ToBinary(b as nat);
    ParseToBinary(b as nat);
    var r := BitsOf(b);
    var zeros := r[..8 - |bin|];
    assert r == zeros + bin;
    ParseBinaryLeadingZeros(zeros, bin);
  }

  /** Each byte's eight digits followed by a space, in the order given. */
  function BitGroups(bytes: seq<byte>): (r: string)
    ensures |r| == 9 * |bytes|
    decreases |bytes|
  {
    if bytes == [] then []
    else BitGroups(bytes[..|bytes| - 1]) + BitsOf(bytes[|bytes| - 1]) + " "
  }

  /** The text ToBitString builds: the bytes in reverse order unless `order` is set. */
  function BitText(bytes: seq<byte>, order: bool): (r: string)
    ensures |r| == 9 * |bytes|
  {
    BitGroups(if order then bytes else Reversed(bytes))
  }

  /** ToBitString(byte[]): for each i the i-th byte (or the i-th from the end), 8 digits and a space. */
  method ToBitString(bytes: seq<byte>, order: bool) returns (r: string)
    ensures r == BitText(bytes, order)
  {
    ghost var ordered := if order then bytes else Reversed(bytes);
    var sb := "";
    var i := 0;
    while i < |bytes|
      invariant 0 <= i <= |bytes| && |ordered| == |bytes|
      invariant sb == BitGroups(ordered[..i])
    {
      var bt := if order then bytes[i] else bytes[|bytes| - i - 1];
      assert bt == ordered[i];
      BitGroupsSnoc(ordered, i);
      sb := sb + PadLeft(ToBinary(bt as nat), 8, '0');
      sb := sb + " ";
      i := i + 1;
    }
    assert ordered[..i] == ordered;
    r := sb;
  }

  lemma BitGroupsSnoc(s: seq<byte>, i: nat)
    requires i < |s|
    ensures BitGroups(s[..i + 1]) == BitGroups(s[..i]) + PadLeft(ToBinary(s[i] as nat), 8, '0') + " "
  {
    assert s[..i + 1][..i] == s[..i];
  }

  /** Group i of the bit text is the i-th byte's eight digits and a space. */
  lemma {:induction false} BitGroupsAt(bytes: seq<byte>, i: nat)
    requires i < |bytes|
    ensures BitGroups(bytes)[9 * i..9 * i + 9] == BitsOf(bytes[i]) + " "
    decreases |bytes|
  {
    var init := bytes[..|bytes| - 1];
    var head := BitGroups(init);
    assert BitGroups(bytes) == head + (BitsOf(bytes[|bytes| - 1]) + " ");
    if i < |init| {
      BitGroupsAt(init, i);
      assert 9 * i + 9 <= |head|;
    } else {
      assert 9 * i == |head|;
    }
  }

  /**
   * Group i of ToBitString's text holds the eight digits of byte i when `order` is set,
   * and of byte n - 1 - i otherwise (BitsOfParses reads them back).
   */
  lemma BitTextReads(bytes: seq<byte>, order: bool, i: nat)
    requires i < |bytes|
    ensures BitText(bytes, order)[9 * i..9 * i + 8] == BitsOf(if order then bytes[i] else bytes[|bytes| - 1 - i])
  {
    var ordered := if order then bytes else Reversed(bytes);
    assert ordered[i] == if order then bytes[i] else bytes[|bytes| - 1 - i];
    BitGroupsAt(ordered, i);
    GroupDigits(BitGroups(ordered), i, BitsOf(ordered[i]));
  }

  /** The first eight characters of a group are its digits. */
  lemma GroupDigits(t: string, i: nat, bits: string)
    requires 9 * i + 9 <= |t| && |bits| == 8
    requires t[9 * i..9 * i + 9] == bits + " "
    ensures t[9 * i..9 * i + 8] == bits
  {
    assert t[9 * i..9 * i + 8] == t[9 * i..9 * i + 9][..8];
  }

  //------------------------------------------------------------------
  // Byte reversal
  //------------------------------------------------------------------

  /** The bytes in reverse order. */
  function Reversed(s: seq<byte>): (r: seq<byte>)
    ensures |r| == |s|
    ensures forall i :: 0 <= i < |s| ==> r[i] == s[|s| - 1 - i]
  {
    seq(|s|, i requires 0 <= i < |s| => s[|s| - 1 - i])
  }

  /** ReverseBytes: fills a new array back to front; null gives null. */
  method ReverseBytes(bytes: Option<seq<byte>>) returns (r: Option<seq<byte>>)
    ensures bytes.None? <==> r.None?
    ensures bytes.Some? ==> r == Some(Reversed(bytes.value))
  {
    if bytes.None? {
      return None;
    }
    var b := bytes.value;
    var n := |b|;
    var bs := new byte[n];
    var i := 0;
    while i < n
      invariant 0 <= i <= n
      invariant forall k :: 0 <= k < i ==> bs[k] == b[n - k - 1]
    {
      bs[i] := b[n - i - 1];
      i := i + 1;
    }
    assert bs[..] == Reversed(b);
    return Some(bs[..]);
  }

  /** Reversing twice restores the bytes. */
  lemma ReversedInvolution(s: seq<byte>)
    ensures Reversed(Reversed(s)) == s
  {
    var r := Reversed(s);
    assert forall i :: 0 <= i < |s| ==> r[|s| - 1 - i] == s[i];
  }

  /** Reversal moves the first byte to the end and the last to the front. */
  lemma ReversedEnds(s: seq<byte>)
    requires s != []
    ensures Reversed(s)[0] == s[|s| - 1] && Reversed(s)[|s| - 1] == s[0]
  {
  }

  //------------------------------------------------------------------
  // \u escaping of UTF-16 code units
  //------------------------------------------------------------------

  predicate IsCodeUnit(u: int) { 0 <= u < 0x10000 }

  predicate AllCodeUnits(units: seq<int>) {
    forall k :: 0 <= k < |units| ==> IsCodeUnit(units[k])
  }

  /** UnicodeEncode's piece for one code unit: above 256 `\u` and the value in lower-case hex without padding ("x"). */
  function EscapeUnit(u: int): (r: string)
    requires IsCodeUnit(u)
    ensures u > 256 ==> r == "\\u" + NatToHexLower(u)
    ensures u <= 256 ==> |r| == 1 && r[0] as int == u
  {
    if u > 256 then "\\u" + NatToHexLower(u) else [u as char]
  }

  /** Exactly four lower-case hexadecimal digits of a code unit ("x4"). */
  function Hex4(u: int): (r: string)
    requires IsCodeUnit(u)
    ensures |r| == 4 && forall k :: 0 <= k < 4 ==> IsHexDigit(r[k])
  {
    HexByteLower((u / 256) as byte) + HexByteLower((u % 256) as byte)
  }

  /** The piece for one code unit with the escape padded to four digits. */
  function EscapeUnitPadded(u: int): (r: string)
    requires IsCodeUnit(u)
  {
    if u > 256 then "\\u" + Hex4(u) else [u as char]
  }

  function EscapePiece(u: int, padded: bool): string
    requires IsCodeUnit(u)
  {
    if padded then EscapeUnitPadded(u) else EscapeUnit(u)
  }

  /** The escaped text of a code-unit sequence, unpadded (as written) or padded. */
  function Escaped(units: seq<int>, padded: bool): (r: string)
    requires AllCodeUnits(units)
    decreases |units|
  {
    if units == [] then [] else EscapePiece(units[0], padded) + Escaped(units[1..], padded)
  }

  lemma {:induction false} EscapedSnoc(units: seq<int>, u: int, padded: bool)
    requires AllCodeUnits(units) && IsCodeUnit(u)
    ensures AllCodeUnits(units + [u])
    ensures Escaped(units + [u], padded) == Escaped(units, padded) + EscapePiece(u, padded)
    decreases |units|
  {
    var all := units + [u];
    assert AllCodeUnits(all);
    if units == [] {
      assert all == [u] && all[1..] == [];
    } else {
      var rest := units[1..];
      assert all[0] == units[0] && all[1..] == rest + [u];
      var head := EscapePiece(units[0], padded);
      assert Escaped(all, padded) == head + Escaped(rest + [u], padded);
      assert Escaped(units, padded) == head + Escaped(rest, padded);
      EscapedSnoc(rest, u, padded);
    }
  }

  /**
   * UnicodeEncode: for each code unit, above 256 appends `\u` and the unpadded lower-case
   * hexadecimal value, else the character itself.  Null or empty text gives "".
   */
  method UnicodeEncode(str: Option<string>) returns (r: string)
    ensures str.None? ==> r == ""
    ensures str.Some? ==> r == Escaped(Utf16(str.value), false)
  {
    var sb := "";
    if str.Some? && str.value != [] {
      var units := Utf16(str.value);
      var i := 0;
      while i < |units|
        invariant 0 <= i <= |units|
        invariant sb == Escaped(units[..i], false)
      {
        var c := units[i];
        ghost var before := sb;
        if c > 256 {
          sb := sb + "\\u";
          sb := sb + NatToHexLower(c);
        } else {
          sb := sb + [c as char];
        }
        assert sb == before + EscapePiece(c, false);
        assert Escaped(units[..i + 1], false) == before + EscapePiece(c, false) by {
          assert units[..i + 1] == units[..i] + [c];
          EscapedSnoc(units[..i], c, false);
        }
        i := i + 1;
      }
      assert units[..i] == units;
    }
    r := sb;
  }

  /**
   * The reference decoder the round trip is stated against: `\u` and four hexadecimal
   * digits stand for that code unit, every other character for its own code units.  It
   * agrees with Regex.Unescape on text whose only backslashes begin such escapes, which is
   * all the escaped text of a backslash-free string holds.  Regex.Unescape also reads other
   * escapes (`\n`, `\\`) and throws on a `\u` without four hexadecimal digits, where this
   * decoder keeps the characters as they are.
   */
  function DecodeEscapes(s: string): (r: seq<int>)
    decreases |s|
  {
    if s == [] then []
    else if |s| >= 6 && s[0] == '\\' && s[1] == 'u'
      && forall k :: 2 <= k < 6 ==> IsHexDigit(s[k])
    then [ParseHexDigits(s[2..6])] + DecodeEscapes(s[6..])
    else CodeUnits(s[0]) + DecodeEscapes(s[1..])
  }

  /** Four hexadecimal digits, most significant first. */
  lemma ParseHexDigits4(s: string)
    requires |s| == 4 && forall k :: 0 <= k < 4 ==> IsHexDigit(s[k])
    ensures ParseHexDigits(s) == (HexValue(s[0]) * 16 + HexValue(s[1])) * 256 + HexValue(s[2]) * 16 + HexValue(s[3])
  {
    var a, b, c, d := HexValue(s[0]), HexValue(s[1]), HexValue(s[2]), HexValue(s[3]);
    assert s[..1][..0] == [] && s[..1][0] == s[0];
    assert ParseHexDigits(s[..1]) == a;
    assert s[..2][..1] == s[..1] && s[..2][1] == s[1];
    assert ParseHexDigits(s[..2]) == a * 16 + b;
    assert s[..3][..2] == s[..2] && s[..3][2] == s[2];
    assert ParseHexDigits(s[..3]) == (a * 16 + b) * 16 + c;
    assert s[..3] == s[..|s| - 1];
  }

  lemma Hex4Parses(u: int)
    requires IsCodeUnit(u)
    ensures ParseHexDigits(Hex4(u)) == u
  {
    ParseHexDigits4(Hex4(u));
  }

  /** A code unit's own escape decodes to it and leaves the rest of the text alone. */
  lemma DecodeEscapeUnit(u: int, tail: string, padded: bool)
    requires IsCodeUnit(u) && u != '\\' as int
    requires padded || u <= 256 || u >= 0x1000
    ensures DecodeEscapes(EscapePiece(u, padded) + tail) == [u] + DecodeEscapes(tail)
  {
    var e := EscapePiece(u, padded);
    var s := e + tail;
    if u > 256 {
      var digits := if padded then Hex4(u) else NatToHexLower(u);
      if padded {
        Hex4Parses(u);
      } else {
        NatToHexLowerLength(u);
        ParseHexDigitsOfNatToHexLower(u);
      }
      assert e == "\\u" + digits && |digits| == 4;
      assert s[2..6] == digits && s[6..] == tail;
    } else {
      assert s[0] as int == u && s[1..] == tail;
      assert CodeUnits(s[0]) == [u];
    }
  }

  /**
   * Decoding the padded escapes gives back every code unit of a text without backslashes;
   * the unpadded escapes round-trip only when no unit lies in 257..4095.
   */
  lemma {:induction false} EscapedRoundTrip(units: seq<int>, padded: bool)
    requires AllCodeUnits(units)
    requires forall k :: 0 <= k < |units| ==> units[k] != '\\' as int
    requires padded || forall k :: 0 <= k < |units| ==> units[k] <= 256 || units[k] >= 0x1000
    ensures DecodeEscapes(Escaped(units, padded)) == units
    decreases |units|
  {
    if units != [] {
      EscapedRoundTrip(units[1..], padded);
      DecodeEscapeUnit(units[0], Escaped(units[1..], padded), padded);
    }
  }

  /**
   * As written, U+0101 followed by 'a' is escaped as `\u101a`, which decodes as the single
   * unit U+101A.
   */
  lemma UnicodeEncodeMisreads()
    ensures Escaped([0x101, 0x61], false) == "\\u101a"
    ensures DecodeEscapes("\\u101a") == [0x101A]
  {
    EscapedOf101a();
    DecodeOf101a();
  }

  lemma HexLowerOf101()
    ensures NatToHexLower(0x101) == "101"
  {
    assert NatToHexLower(1) == "1";
    assert NatToHexLower(0x10) == NatToHexLower(1) + [HexDigitLower(0)];
    assert NatToHexLower(0x101) == NatToHexLower(0x10) + [HexDigitLower(1)];
  }

  lemma EscapedOf101a()
    ensures Escaped([0x101, 0x61], false) == "\\u101a"
  {
    HexLowerOf101();
    assert Escaped([0x61], false) == "a" by {
      assert Escaped([0x61], false) == EscapeUnit(0x61) + Escaped([], false);
    }
    assert [0x101, 0x61][1..] == [0x61];
    assert Escaped([0x101, 0x61], false) == EscapeUnit(0x101) + Escaped([0x61], false);
  }

  lemma DecodeOf101a()
    ensures DecodeEscapes("\\u101a") == [0x101A]
  {
    var s := "\\u101a";
    var digits := s[2..6];
    assert digits == "101a";
    assert forall k :: 2 <= k < 6 ==> IsHexDigit(s[k]);
    assert HexValue('1') == 1 && HexValue('0') == 0 && HexValue('a') == 10;
    ParseHexDigits4(digits);
    assert ParseHexDigits(digits) == 0x101A;
    assert s[6..] == [];
  }
}
