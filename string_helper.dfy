/**
 * String extension methods of the library (StringHelper): cutting at the first or last
 * occurrence of a key, safe substrings, quoting and backslash escaping, camel case and
 * separated lists.  Strings are never null here; the source treats null and "" alike
 * through IsEmpty wherever these helpers are called.
 */
module StringHelper {
  import opened Wrappers
  import opened Strings
  import Numbers

  //------------------------------------------------------------------
  // Safe substrings
  //------------------------------------------------------------------

  /**
   * SubText(text, start, length): "" for empty text or a start at or past the end, the
   * whole suffix when `length` is -1 or runs past the end, else `length` characters.
   * The past-the-end test adds start and length as Int32 values, so a sum above
   * Int32.MaxValue wraps to a negative number, fails that test, and reaches
   * Substring(start, length), whose own range checks throw.  Those checks also throw
   * for a negative start or another negative length.  (The unwrapped conjunct of the
   * test matters only for a text longer than Int32.MaxValue, which no string is.)
   */
  function SubText(text: string, start: int, length: int): (r: Result<string>)
    ensures text == [] || start >= |text| ==> r == Ok("")
    ensures 0 <= start < |text| && (length == -1 || |text| < start + length <= Numbers.Int32Max)
            ==> r == Ok(text[start..])
    ensures 0 <= start < |text| && 0 <= length && start + length <= |text| ==> r == Ok(text[start..start + length])
    ensures (|text| <= Numbers.Int32Max && 0 <= start < |text| && 0 <= length <= Numbers.Int32Max
             && start + length > Numbers.Int32Max) ==> r == Err(ArgumentOutOfRange)
    ensures Numbers.Int32Min <= start + length <= Numbers.Int32Max ==>
      (r.Err? <==> text != [] && start < |text| && (start < 0 || (length < -1 && start + length <= |text|)))
  {
    if text == [] then Ok("")
    else if start >= |text| then Ok("")
    else if length == -1 then
      if start < 0 then Err(ArgumentOutOfRange) else Ok(text[start..])
    else if start + length > |text| && Numbers.WrapInt32(start + length) > |text| then
      if start < 0 then Err(ArgumentOutOfRange) else Ok(text[start..])
    else if start < 0 || length < 0 || start + length > |text| then Err(ArgumentOutOfRange)
    else Ok(text[start..start + length])
  }

  /** A length of Int32.MaxValue from index 1 overflows the sum and throws. */
  lemma SubTextOverflow()
    ensures SubText("abc", 1, Numbers.Int32Max) == Err(ArgumentOutOfRange)
    ensures SubText("abc", 1, 5) == Ok("bc")
  {
  }

  /** Summary(text, n): the text when shorter than n, else its first n characters and "....". */
  function Summary(text: string, n: int): (r: Result<string>)
    ensures text == [] || |text| < n ==> r == Ok(text)
    ensures text != [] && 0 <= n <= |text| ==> r == Ok(text[..n] + "....")
    ensures r.Err? <==> text != [] && n < 0
  {
    if text == [] || |text| < n then Ok(text)
    else if n < 0 then Err(ArgumentOutOfRange)
    else Ok(text[..n] + "....")
  }

  //------------------------------------------------------------------
  // Cutting at a key
  //------------------------------------------------------------------

  /**
   * LastIndexOf as the library's runtime (.NET Framework) answers it: an empty key is
   * found at the last index of a non-empty string.
   */
  function LastIndexOfKey(s: string, key: string): (n: int)
    requires s != []
    ensures key == [] ==> n == |s| - 1
    ensures key != [] ==> n == LastIndexOf(s, key)
    ensures n == -1 || OccursAt(s, key, n)
  {
    if key == [] then |s| - 1 else LastIndexOf(s, key)
  }

  /** TrimEnd(name, key, keepKey): cuts `name` at the LAST occurrence of `key`. */
  function TrimEnd(name: string, key: string, keepKey: bool): (r: string)
    ensures name == [] ==> r == ""
    ensures name != [] && LastIndexOfKey(name, key) == -1 ==> r == name
    ensures name != [] && LastIndexOfKey(name, key) != -1 ==>
      var n := LastIndexOfKey(name, key);
      r == if keepKey then name[..n + |key|] else name[..n]
  {
    if name == [] then ""
    else
      var n := LastIndexOfKey(name, key);
      if n != -1 then (if keepKey then name[..n + |key|] else name[..n])
      else name
  }

  /** TrimStart(name, key, keepKey): drops everything before (or up to) the FIRST occurrence. */
  function TrimStart(name: string, key: string, keepKey: bool): (r: string)
    ensures name == [] ==> r == ""
    ensures name != [] && IndexOf(name, key) == -1 ==> r == name
    ensures name != [] && IndexOf(name, key) != -1 ==>
      var n := IndexOf(name, key);
      r == if keepKey then name[n..] else name[n + |key|..]
  {
    if name == [] then ""
    else
      var n := IndexOf(name, key);
      if n != -1 then (if keepKey then SubText(name, n, -1).value else SubText(name, n + |key|, -1).value)
      else name
  }

  /** GetEnd(name, key, keepKey): the part after (or from) the LAST occurrence of `key`. */
  function GetEnd(name: string, key: string, keepKey: bool): (r: string)
    ensures name == [] ==> r == ""
    ensures name != [] && LastIndexOfKey(name, key) == -1 ==> r == name
    ensures name != [] && LastIndexOfKey(name, key) != -1 ==>
      var n := LastIndexOfKey(name, key);
      r == if keepKey then name[n..] else name[n + |key|..]
  {
    if name == [] then ""
    else
      var n := LastIndexOfKey(name, key);
      if n != -1 then (if keepKey then SubText(name, n, -1).value else SubText(name, n + |key|, -1).value)
      else name
  }

  /** GetStart(name, key, keepKey): the part before (or up to) the FIRST occurrence of `key`. */
  function GetStart(name: string, key: string, keepKey: bool): (r: string)
    ensures name == [] ==> r == ""
    ensures name != [] && IndexOf(name, key) == -1 ==> r == name
    ensures name != [] && IndexOf(name, key) != -1 ==>
      var n := IndexOf(name, key);
      r == if keepKey then name[..n + |key|] else name[..n]
  {
    if name == [] then ""
    else
      var n := IndexOf(name, key);
      if n != -1 then (if keepKey then SubText(name, 0, n + |key|).value else SubText(name, 0, n).value)
      else name
  }

  /** Cutting at the last occurrence splits `s` into TrimEnd and GetEnd(keepKey). */
  lemma TrimEndGetEnd(s: string, key: string)
    requires s != [] && LastIndexOfKey(s, key) != -1
    ensures TrimEnd(s, key, false) + GetEnd(s, key, true) == s
  {
    var n := LastIndexOfKey(s, key);
    assert s[..n] + s[n..] == s;
  }

  /** Cutting at the first occurrence splits `s` into GetStart and TrimStart(keepKey). */
  lemma GetStartTrimStart(s: string, key: string)
    requires s != [] && IndexOf(s, key) != -1
    ensures GetStart(s, key, false) + TrimStart(s, key, true) == s
  {
    var n := IndexOf(s, key);
    assert s[..n] + s[n..] == s;
  }

  /** The key itself sits between the two halves, and no later (earlier) copy is cut over. */
  lemma TrimEndIsLastCut(s: string, key: string)
    requires s != [] && |key| > 0 && LastIndexOf(s, key) != -1
    ensures TrimEnd(s, key, true) == TrimEnd(s, key, false) + key
    ensures !Contains(GetEnd(s, key, false), key)
  {
    var n := LastIndexOf(s, key);
    var tail := s[n + |key|..];
    if Contains(tail, key) {
      var j := IndexOf(tail, key);
      assert tail[j..j + |key|] == s[n + |key| + j..n + |key| + j + |key|];
      assert OccursAt(s, key, n + |key| + j);
      assert false;
    }
  }

  //------------------------------------------------------------------
  // Camel case
  //------------------------------------------------------------------

  /** ToLowCamel: lower-cases the WHOLE string, not only its first letter. */
  function ToLowCamel(text: string): (r: string)
    ensures |r| == |text|
    ensures forall i :: 0 <= i < |text| ==> r[i] == ToLowerChar(text[i])
  {
    if text == [] then "" else ToLower(text[..1]) + ToLower(text[1..])
  }

  /** ToHighCamel: upper-cases the first character and lower-cases the rest. */
  function ToHighCamel(text: string): (r: string)
    ensures |r| == |text|
    ensures text != [] ==> r[0] == ToUpperChar(text[0])
    ensures forall i :: 1 <= i < |text| ==> r[i] == ToLowerChar(text[i])
  {
    if text == [] then "" else ToUpper(text[..1]) + ToLower(text[1..])
  }

  //------------------------------------------------------------------
  // Backslash escaping
  //------------------------------------------------------------------

  /** One character as Escape writes it: preceded by `\` when it is listed in `cs`. */
  function EscapeChar(c: char, cs: seq<char>): (r: string)
    ensures c in cs ==> r == ['\\', c]
    ensures c !in cs ==> r == [c]
  {
    if c in cs then ['\\', c] else [c]
  }

  /** The text Escape produces: a backslash before every character listed in `cs`. */
  function EscapeText(s: string, cs: seq<char>): (r: string)
    ensures |s| <= |r| <= 2 * |s|
  {
    if s == [] then [] else EscapeChar(s[0], cs) + EscapeText(s[1..], cs)
  }

  /** Escaping one more character appends its escaped form. */
  lemma {:induction false} EscapeTextSnoc(s: string, c: char, cs: seq<char>)
    ensures EscapeText(s + [c], cs) == EscapeText(s, cs) + EscapeChar(c, cs)
  {
    if s != [] {
      assert (s + [c])[1..] == s[1..] + [c];
      EscapeTextSnoc(s[1..], c, cs);
    } else {
      assert [c][1..] == [];
    }
  }

  /** Escaping the suffix from `i` on: the character at `i`, then the rest. */
  lemma EscapeTextAt(s: string, i: nat, cs: seq<char>)
    requires i < |s|
    ensures EscapeText(s[i..], cs) == EscapeChar(s[i], cs) + EscapeText(s[i + 1..], cs)
  {
    assert s[i..][1..] == s[i + 1..];
  }

  /**
   * The text Unescape produces from `s` when the previous character was an unconsumed
   * escaping backslash (`escaped`): every escaping backslash is dropped and the character
   * after it is kept literally.
   */
  function UnescapeText(s: string, escaped: bool): (r: string)
    ensures |r| <= |s|
  {
    if s == [] then []
    else if !escaped && s[0] == '\\' then UnescapeText(s[1..], true)
    else [s[0]] + UnescapeText(s[1..], false)
  }

  /** Unescape undoes Escape whenever a backslash in the text is itself escaped. */
  lemma {:induction false} UnescapeEscape(s: string, cs: seq<char>)
    requires '\\' in cs || '\\' !in s
    ensures UnescapeText(EscapeText(s, cs), false) == s
  {
    if s != [] {
      UnescapeEscape(s[1..], cs);
      var rest := EscapeText(s[1..], cs);
      if s[0] in cs {
        assert EscapeText(s, cs) == ['\\', s[0]] + rest;
        assert (['\\', s[0]] + rest)[1..] == [s[0]] + rest;
        assert ([s[0]] + rest)[1..] == rest;
      } else {
        assert s[0] != '\\';
        assert EscapeText(s, cs) == [s[0]] + rest;
        assert ([s[0]] + rest)[1..] == rest;
      }
    }
  }

  /** A backslash that is not itself escaped is dropped: Unescape is not injective. */
  lemma UnescapeDropsLoneBackslash()
    ensures UnescapeText("a\\b", false) == UnescapeText("ab", false) == "ab"
  {
    assert "a\\b"[1..] == "\\b" && "\\b"[1..] == "b" && "ab"[1..] == "b";
  }

  lemma EscapePrefixStep(s: string, i: nat, cs: seq<char>)
    requires i < |s|
    ensures EscapeText(s[..i + 1], cs) == EscapeText(s[..i], cs) + EscapeChar(s[i], cs)
  {
    assert s[..i + 1] == s[..i] + [s[i]];
    EscapeTextSnoc(s[..i], s[i], cs);
  }

  /** Escape: fills a buffer of twice the length, inserting `\` before each listed character. */
  method Escape(text: string, charsToEscape: seq<char>) returns (r: string)
    ensures r == EscapeText(text, charsToEscape)
    ensures |r| <= 2 * |text|
  {
    var buffer := new char[|text| * 2];
    var nChars := 0;
    var i := 0;
    ghost var written := [];
    while i < |text|
      invariant 0 <= i <= |text|
      invariant written == EscapeText(text[..i], charsToEscape)
      invariant nChars == |written| <= 2 * i
      invariant forall j :: 0 <= j < nChars ==> buffer[j] == written[j]
    {
      var c := text[i];
      ghost var piece := EscapeChar(c, charsToEscape);
      assert EscapeText(text[..i + 1], charsToEscape) == written + piece by {
        EscapePrefixStep(text, i, charsToEscape);
      }
      if c in charsToEscape {
        buffer[nChars] := '\\';
        nChars := nChars + 1;
      }
      buffer[nChars] := c;
      nChars := nChars + 1;
      written := written + piece;
      assert forall j :: 0 <= j < nChars ==> buffer[j] == written[j];
      i := i + 1;
    }
    assert text[..i] == text;
    r := buffer[..nChars];
    assert r == written;
  }

  /**
   * One step of Unescape's scan: with `done` written so far and the flag `escaped`, the
   * character at `i` is either consumed as an escape or appended.
   */
  lemma UnescapeStep(s: string, i: nat, escaped: bool, done: string, whole: string)
    requires i < |s| && done + UnescapeText(s[i..], escaped) == whole
    ensures !escaped && s[i] == '\\' ==> done + UnescapeText(s[i + 1..], true) == whole
    ensures escaped || s[i] != '\\' ==> (done + [s[i]]) + UnescapeText(s[i + 1..], false) == whole
  {
    assert s[i..][1..] == s[i + 1..];
    if escaped || s[i] != '\\' {
      var rest := UnescapeText(s[i + 1..], false);
      assert UnescapeText(s[i..], escaped) == [s[i]] + rest;
      assert (done + [s[i]]) + rest == done + ([s[i]] + rest);
    }
  }

  /** Unescape: copies every character that is not an escaping backslash. */
  method Unescape(text: string) returns (r: string)
    ensures r == UnescapeText(text, false)
  {
    var buffer := new char[|text|];
    var nChars := 0;
    var escaped := false;
    var i := 0;
    ghost var written := [];
    while i < |text|
      invariant 0 <= i <= |text|
      invariant written + UnescapeText(text[i..], escaped) == UnescapeText(text, false)
      invariant nChars == |written| <= i
      invariant forall j :: 0 <= j < nChars ==> buffer[j] == written[j]
    {
      var c := text[i];
      UnescapeStep(text, i, escaped, written, UnescapeText(text, false));
      if !escaped && c == '\\' {
        escaped := true;
      } else {
        buffer[nChars] := c;
        nChars := nChars + 1;
        written := written + [c];
        escaped := false;
      }
      i := i + 1;
    }
    assert text[i..] == [];
    r := buffer[..nChars];
    assert r == written;
  }

  //------------------------------------------------------------------
  // Quotes
  //------------------------------------------------------------------

  /** `text` starts and ends with a double quote (a single `"` does both). */
  predicate IsQuoted(text: string) {
    StartsWith(text, "\"") && EndsWith(text, "\"")
  }

  /** The characters Quote escapes. */
  const QuoteEscapes: seq<char> := ['\\', '"']

  lemma QuoteEscapeChar(c: char)
    ensures EscapeChar(c, QuoteEscapes) ==
      (if c == '\\' then "\\\\" else if c == '"' then "\\\"" else [c])
  {
    assert QuoteEscapes[0] == '\\' && QuoteEscapes[1] == '"';
  }

  /** Quote: wraps in double quotes, escaping `\` and `"`; already quoted text is returned as is. */
  method Quote(text: string) returns (r: string)
    ensures IsQuoted(text) ==> r == text
    ensures !IsQuoted(text) ==> r == "\"" + EscapeText(text, QuoteEscapes) + "\""
  {
    if IsQuoted(text) {
      return text;
    }
    var escaped := "";
    var i := 0;
    while i < |text|
      invariant 0 <= i <= |text|
      invariant escaped == EscapeText(text[..i], QuoteEscapes)
    {
      var c := text[i];
      EscapePrefixStep(text, i, QuoteEscapes);
      QuoteEscapeChar(c);
      if c == '\\' {
        escaped := escaped + "\\\\";
      } else if c == '"' {
        escaped := escaped + "\\\"";
      } else {
        escaped := escaped + [c];
      }
      i := i + 1;
    }
    assert text[..i] == text;
    r := "\"" + escaped + "\"";
  }

  predicate IsBlank(c: char) { c == ' ' || c == '\t' }

  /** Where Unquote's first trimming loop stops: the number of leading blanks. */
  function LeadingBlanks(s: string): (n: nat)
    ensures n <= |s|
    ensures forall i :: 0 <= i < n ==> IsBlank(s[i])
    ensures n < |s| ==> !IsBlank(s[n])
  {
    if s != [] && IsBlank(s[0]) then 1 + LeadingBlanks(s[1..]) else 0
  }

  /**
   * Where Unquote's second trimming loop stops: it walks back from the last index while
   * blanks are seen, but never inspects index 0.
   */
  function TrimmedEnd(s: string): (e: nat)
    ensures 1 <= e <= |s| || e == |s| == 0
    ensures forall i :: e <= i < |s| ==> IsBlank(s[i])
    ensures e > 1 ==> !IsBlank(s[e - 1])
  {
    if |s| > 1 && IsBlank(s[|s| - 1]) then TrimmedEnd(s[..|s| - 1]) else |s|
  }

  /**
   * The text Unquote produces: blanks trimmed, one leading and one trailing `"` removed
   * independently, escape backslashes dropped.
   */
  function UnquoteText(text: string): string
  {
    UnquoteBetween(text, LeadingBlanks(text), TrimmedEnd(text))
  }

  /** Unquote's steps after trimming, on the trimmed range [start, end) of `text`. */
  function UnquoteBetween(text: string, start: nat, end: nat): string
    requires start <= |text| && end <= |text|
  {
    if end - start <= 0 then ""
    else
      var start1 := if text[start] == '"' then start + 1 else start;
      var end1 := if text[end - 1] == '"' then end - 1 else end;
      if end1 == start1 - 1 then ""
      else UnescapeText(text[start1..end1], false)
  }

  /** Unquote inverts Quote on every text that is not already quoted. */
  lemma UnquoteQuote(s: string)
    requires !IsQuoted(s)
    ensures UnquoteText("\"" + EscapeText(s, QuoteEscapes) + "\"") == s
  {
    var q := "\"" + EscapeText(s, QuoteEscapes) + "\"";
    assert q[0] == '"' && q[|q| - 1] == '"';
    assert LeadingBlanks(q) == 0;
    assert TrimmedEnd(q) == |q|;
    assert q[1..|q| - 1] == EscapeText(s, QuoteEscapes);
    UnescapeEscape(s, QuoteEscapes);
  }

  /** A lone `"` unquotes to the empty text. */
  lemma UnquoteLoneQuote()
    ensures UnquoteText("\"") == ""
  {
    assert LeadingBlanks("\"") == 0 && TrimmedEnd("\"") == 1;
  }

  lemma {:induction false} LeadingBlanksIs(s: string, n: nat)
    requires n <= |s| && (n == |s| || !IsBlank(s[n]))
    requires forall k :: 0 <= k < n ==> IsBlank(s[k])
    ensures LeadingBlanks(s) == n
  {
    if n > 0 {
      LeadingBlanksIs(s[1..], n - 1);
    }
  }

  lemma {:induction false} TrimmedEndIs(s: string, e: nat)
    requires 1 <= e <= |s| && (e == 1 || !IsBlank(s[e - 1]))
    requires forall k :: e <= k < |s| ==> IsBlank(s[k])
    ensures TrimmedEnd(s) == e
  {
    if e < |s| {
      TrimmedEndIs(s[..|s| - 1], e);
    }
  }

  /** Unquote's two trimming loops: the first non-blank index and the trimmed end. */
  method BlankBounds(text: string) returns (start: nat, end: nat)
    ensures start == LeadingBlanks(text) && end == TrimmedEnd(text)
    ensures start <= |text| && end <= |text|
  {
    start := 0;
    end := |text|;
    var i := 0;
    while i < end
      invariant start == i <= |text| == end
      invariant forall k :: 0 <= k < i ==> IsBlank(text[k])
    {
      if IsBlank(text[i]) {
        start := start + 1;
      } else {
        break;
      }
      i := i + 1;
    }
    LeadingBlanksIs(text, start);
    i := end - 1;
    while i > 0
      invariant end == i + 1 && 0 <= end <= |text|
      invariant |text| > 0 ==> end >= 1
      invariant forall k :: end <= k < |text| ==> IsBlank(text[k])
    {
      if IsBlank(text[i]) {
        end := end - 1;
      } else {
        break;
      }
      i := i - 1;
    }
    if |text| > 0 {
      TrimmedEndIs(text, end);
    }
  }

  /** Unquote: trims blanks, strips the outer quotes and drops escape backslashes. */
  method Unquote(text: string) returns (r: string)
    ensures r == UnquoteText(text)
  {
    var start, end := BlankBounds(text);
    ghost var spec := UnquoteBetween(text, start, end);
    if end - start <= 0 {
      return "";
    }
    if text[start] == '"' {
      start := start + 1;
    }
    if text[end - 1] == '"' {
      end := end - 1;
    }
    if end == start - 1 {
      return "";
    }
    // the remaining loop is Unescape's, run over text[start..end]
    r := Unescape(text[start..end]);
  }

  //------------------------------------------------------------------
  // Repetition and separated lists
  //------------------------------------------------------------------

  /** `c` written `n` times. */
  function Repeated(c: string, n: nat): (r: string)
    ensures |r| == n * |c|
  {
    if n == 0 then "" else Repeated(c, n - 1) + c
  }

  /** Repeat(c, n): appends `c` n times; a non-positive count gives "". */
  method Repeat(c: string, n: int) returns (r: string)
    ensures n <= 0 ==> r == ""
    ensures n > 0 ==> r == Repeated(c, n) && |r| == n * |c|
  {
    var sb := "";
    var i := 0;
    while i < n
      invariant 0 <= i && (n > 0 ==> i <= n) && (n <= 0 ==> i == 0)
      invariant sb == Repeated(c, i)
    {
      sb := sb + c;
      i := i + 1;
    }
    r := sb;
  }

  /** Every item followed by the separator. */
  function Terminated(items: seq<string>, sep: string): (r: string)
  {
    if items == [] then "" else Terminated(items[..|items| - 1], sep) + items[|items| - 1] + sep
  }

  /**
   * The text ToSeparatedString produces: each item followed by the separator, then cut at
   * the last occurrence of the separator.  A null source gives "".
   */
  function SeparatedText(source: Option<seq<string>>, sep: string): (r: string)
  {
    if source.None? then "" else TrimEnd(Terminated(source.value, sep), sep, false)
  }

  lemma {:induction false} TerminatedIsJoin(items: seq<string>, sep: string)
    requires items != []
    ensures Terminated(items, sep) == Join(sep, items) + sep
  {
    if |items| > 1 {
      var init := items[..|items| - 1];
      TerminatedIsJoin(init, sep);
      JoinSnoc(init, items[|items| - 1], sep);
      assert init + [items[|items| - 1]] == items;
    }
  }

  lemma {:induction false} JoinSnoc(items: seq<string>, last: string, sep: string)
    requires items != []
    ensures Join(sep, items + [last]) == Join(sep, items) + sep + last
    decreases |items|
  {
    if |items| > 1 {
      assert (items + [last])[1..] == items[1..] + [last];
      JoinSnoc(items[1..], last, sep);
    }
  }

  /** With a non-empty separator the trailing cut removes exactly the final separator. */
  lemma SeparatedTextIsJoin(items: seq<string>, sep: string)
    requires |sep| > 0
    ensures SeparatedText(Some(items), sep) == Join(sep, items)
  {
    if items != [] {
      TerminatedIsJoin(items, sep);
      var t := Terminated(items, sep);
      var n := |t| - |sep|;
      assert OccursAt(t, sep, n);
      assert LastIndexOf(t, sep) == n;
    }
  }

  /** ToSeparatedString: appends item + separator in a loop, then trims the last separator. */
  method ToSeparatedString(source: Option<seq<string>>, sep: string) returns (r: string)
    ensures r == SeparatedText(source, sep)
    ensures |sep| > 0 && source.Some? ==> r == Join(sep, source.value)
  {
    if source.None? {
      return "";
    }
    var items := source.value;
    var txt := "";
    var i := 0;
    while i < |items|
      invariant 0 <= i <= |items|
      invariant txt == Terminated(items[..i], sep)
    {
      assert items[..i + 1][..i] == items[..i];
      txt := txt + items[i] + sep;
      i := i + 1;
    }
    assert items[..i] == items;
    r := TrimEnd(txt, sep, false);
    if |sep| > 0 {
      SeparatedTextIsJoin(items, sep);
    }
  }
}
