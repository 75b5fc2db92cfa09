/**
 * The System.String and System.Char operations the library relies on.  A string is a
 * sequence of characters, each counted as one element (the runtime counts UTF-16 code
 * units, so a character outside the Basic Multilingual Plane counts twice there).  Searches
 * and prefix/suffix tests compare characters ordinally; case mapping covers ASCII letters.
 */
module Strings {

  /** `key` occurs in `s` starting at index `i`. */
  predicate OccursAt(s: string, key: string, i: int) {
    0 <= i && i + |key| <= |s| && s[i..i + |key|] == key
  }

  /** First occurrence of `key` at or after `from`, or -1. */
  function IndexOfFrom(s: string, key: string, from: nat): (n: int)
    ensures n == -1 || (from <= n && OccursAt(s, key, n))
    ensures forall i :: from <= i && (n == -1 || i < n) ==> !OccursAt(s, key, i)
    decreases |s| - from
  {
    if from + |key| > |s| then -1
    else if s[from..from + |key|] == key then from
    else IndexOfFrom(s, key, from + 1)
  }

  /** String.IndexOf(string), ordinal: the first occurrence of `key`, or -1. */
  function IndexOf(s: string, key: string): (n: int)
    ensures n == -1 || OccursAt(s, key, n)
    ensures forall i :: (n == -1 || i < n) ==> !OccursAt(s, key, i)
  {
    IndexOfFrom(s, key, 0)
  }

  /** Last occurrence of `key` starting at or below `i`, or -1. */
  function LastIndexAtOrBelow(s: string, key: string, i: int): (n: int)
    requires i + |key| <= |s|
    ensures n == -1 || (n <= i && OccursAt(s, key, n))
    ensures forall j :: n < j <= i ==> !OccursAt(s, key, j)
    decreases i + 1
  {
    if i < 0 then -1
    else if s[i..i + |key|] == key then i
    else LastIndexAtOrBelow(s, key, i - 1)
  }

  /** String.LastIndexOf(string), ordinal, for a non-empty key: the last occurrence, or -1. */
  function LastIndexOf(s: string, key: string): (n: int)
    requires |key| > 0
    ensures n == -1 || OccursAt(s, key, n)
    ensures forall j :: n < j ==> !OccursAt(s, key, j)
  {
    LastIndexAtOrBelow(s, key, |s| - |key|)
  }

  predicate Contains(s: string, key: string) {
    IndexOf(s, key) >= 0
  }

  /** String.IndexOf(char): the first index holding `c`, or -1. */
  function IndexOfChar(s: string, c: char): (n: int)
    ensures -1 <= n < |s|
    ensures n >= 0 ==> s[n] == c
    ensures forall i :: 0 <= i < |s| && (n == -1 || i < n) ==> s[i] != c
  {
    if s == [] then -1
    else if s[0] == c then 0
    else var k := IndexOfChar(s[1..], c); if k == -1 then -1 else k + 1
  }

  /** String.LastIndexOf(char): the last index holding `c`, or -1. */
  function LastIndexOfChar(s: string, c: char): (n: int)
    ensures -1 <= n < |s|
    ensures n >= 0 ==> s[n] == c
    ensures forall i :: n < i < |s| ==> s[i] != c
  {
    if s == [] then -1
    else if s[|s| - 1] == c then |s| - 1
    else LastIndexOfChar(s[..|s| - 1], c)
  }

  /** IndexOfAny(cs) != -1: some character of `s` is in `cs`. */
  predicate ContainsAny(s: string, cs: set<char>) {
    exists i :: 0 <= i < |s| && s[i] in cs
  }

  predicate StartsWith(s: string, prefix: string) {
    |prefix| <= |s| && s[..|prefix|] == prefix
  }

  predicate EndsWith(s: string, suffix: string) {
    |suffix| <= |s| && s[|s| - |suffix|..] == suffix
  }

  /** String.TrimEnd(char): removes every trailing copy of `c`. */
  function TrimEndChar(s: string, c: char): (r: string)
    ensures |r| <= |s| && r == s[..|r|]
    ensures r == [] || r[|r| - 1] != c
    ensures forall i :: |r| <= i < |s| ==> s[i] == c
  {
    if s != [] && s[|s| - 1] == c then TrimEndChar(s[..|s| - 1], c) else s
  }

  /** String.TrimStart(char): removes every leading copy of `c`. */
  function TrimStartChar(s: string, c: char): (r: string)
    ensures |r| <= |s| && r == s[|s| - |r|..]
    ensures r == [] || r[0] != c
    ensures forall i :: 0 <= i < |s| - |r| ==> s[i] == c
  {
    if s != [] && s[0] == c then TrimStartChar(s[1..], c) else s
  }

  /** Char.IsWhiteSpace. */
  predicate IsWhiteSpace(c: char) {
    var n := c as int;
    (0x09 <= n <= 0x0D) || n == 0x20 || n == 0x85 || n == 0xA0 || n == 0x1680
    || (0x2000 <= n <= 0x200A) || n == 0x2028 || n == 0x2029 || n == 0x202F
    || n == 0x205F || n == 0x3000
  }

  function TrimStartWhiteSpace(s: string): (r: string)
    ensures |r| <= |s| && r == s[|s| - |r|..]
    ensures r == [] || !IsWhiteSpace(r[0])
  {
    if s != [] && IsWhiteSpace(s[0]) then TrimStartWhiteSpace(s[1..]) else s
  }

  function TrimEndWhiteSpace(s: string): (r: string)
    ensures |r| <= |s| && r == s[..|r|]
    ensures r == [] || !IsWhiteSpace(r[|r| - 1])
  {
    if s != [] && IsWhiteSpace(s[|s| - 1]) then TrimEndWhiteSpace(s[..|s| - 1]) else s
  }

  /** String.Trim(): removes leading and trailing white space. */
  function Trim(s: string): (r: string)
    ensures |r| <= |s|
    ensures r == [] || (!IsWhiteSpace(r[0]) && !IsWhiteSpace(r[|r| - 1]))
  {
    TrimEndWhiteSpace(TrimStartWhiteSpace(s))
  }

  function ToLowerChar(c: char): (r: char)
    ensures 'A' <= c <= 'Z' ==> r as int == c as int + 32
    ensures !('A' <= c <= 'Z') ==> r == c
  {
    if 'A' <= c <= 'Z' then (c as int + 32) as char else c
  }

  function ToUpperChar(c: char): (r: char)
    ensures 'a' <= c <= 'z' ==> r as int == c as int - 32
    ensures !('a' <= c <= 'z') ==> r == c
  {
    if 'a' <= c <= 'z' then (c as int - 32) as char else c
  }

  /** String.ToLower() restricted to ASCII letters. */
  function ToLower(s: string): (r: string)
    ensures |r| == |s|
    ensures forall i :: 0 <= i < |s| ==> r[i] == ToLowerChar(s[i])
  {
    if s == [] then [] else [ToLowerChar(s[0])] + ToLower(s[1..])
  }

  /** String.ToUpper() restricted to ASCII letters. */
  function ToUpper(s: string): (r: string)
    ensures |r| == |s|
    ensures forall i :: 0 <= i < |s| ==> r[i] == ToUpperChar(s[i])
  {
    if s == [] then [] else [ToUpperChar(s[0])] + ToUpper(s[1..])
  }

  /** Ordinal comparison ignoring (ASCII) case. */
  predicate EqualsIgnoreCase(a: string, b: string) {
    ToLower(a) == ToLower(b)
  }

  /** String.Replace(char, char). */
  function ReplaceChar(s: string, a: char, b: char): (r: string)
    ensures |r| == |s|
    ensures forall i :: 0 <= i < |s| ==> r[i] == (if s[i] == a then b else s[i])
  {
    seq(|s|, i requires 0 <= i < |s| => if s[i] == a then b else s[i])
  }

  /** String.Split(char): every piece, empty ones included. */
  function Split(s: string, c: char): (r: seq<string>)
    ensures |r| >= 1
    ensures forall i :: 0 <= i < |r| ==> c !in r[i]
    decreases |s|
  {
    var k := IndexOfChar(s, c);
    if k == -1 then [s] else [s[..k]] + Split(s[k + 1..], c)
  }

  /** String.Join(sep, items). */
  function Join(sep: string, items: seq<string>): (r: string)
    ensures |items| == 1 ==> r == items[0]
  {
    if items == [] then []
    else if |items| == 1 then items[0]
    else items[0] + sep + Join(sep, items[1..])
  }

  lemma JoinCons(sep: string, head: string, items: seq<string>)
    requires items != []
    ensures Join(sep, [head] + items) == head + sep + Join(sep, items)
  {
    assert ([head] + items)[1..] == items;
  }

  lemma SplitJoinStep(s: string, c: char, k: nat)
    requires IndexOfChar(s, c) == k
    ensures Join([c], Split(s, c)) == s[..k] + [c] + Join([c], Split(s[k + 1..], c))
  {
    var rest := Split(s[k + 1..], c);
    assert Split(s, c) == [s[..k]] + rest;
    JoinCons([c], s[..k], rest);
  }

  lemma {:induction false} SplitJoin(s: string, c: char)
    ensures Join([c], Split(s, c)) == s
    decreases |s|
  {
    var k := IndexOfChar(s, c);
    if k != -1 {
      var head, tail := s[..k], s[k + 1..];
      var rest := Split(tail, c);
      assert Join([c], Split(s, c)) == head + [c] + Join([c], rest) by {
        SplitJoinStep(s, c, k);
      }
      assert Join([c], rest) == tail by {
        SplitJoin(tail, c);
      }
      PieceAround(s, k);
    }
  }

  /** Splitting a join on a separator no item contains gives the items back. */
  lemma {:induction false} SplitOfJoin(items: seq<string>, c: char)
    requires items != []
    requires forall i :: 0 <= i < |items| ==> c !in items[i]
    ensures Split(Join([c], items), c) == items
    decreases |items|
  {
    var head := items[0];
    if |items| == 1 {
      assert IndexOfChar(head, c) == -1;
    } else {
      var rest := items[1..];
      var tail := Join([c], rest);
      var s := head + [c] + tail;
      assert Join([c], items) == s;
      var k := IndexOfChar(s, c);
      assert s[|head|] == c;
      assert k == |head| by {
        assert forall i :: 0 <= i < |head| ==> s[i] == head[i];
      }
      assert s[..k] == head && s[k + 1..] == tail;
      SplitOfJoin(rest, c);
      assert items == [head] + rest;
    }
  }

  /** A join starts with the first item's first character and ends with the last item's
   *  last character. */
  lemma {:induction false} JoinEnds(sep: string, items: seq<string>)
    requires items != [] && items[0] != [] && items[|items| - 1] != []
    ensures var r := Join(sep, items);
      r != [] && r[0] == items[0][0] && r[|r| - 1] == items[|items| - 1][|items[|items| - 1]| - 1]
  {
    JoinLast(sep, items);
  }

  lemma {:induction false} JoinLast(sep: string, items: seq<string>)
    requires items != [] && items[|items| - 1] != []
    ensures var r := Join(sep, items);
      r != [] && r[|r| - 1] == items[|items| - 1][|items[|items| - 1]| - 1]
    decreases |items|
  {
    if |items| > 1 {
      var rest := items[1..];
      JoinLast(sep, rest);
      assert rest[|rest| - 1] == items[|items| - 1];
      assert Join(sep, items) == items[0] + sep + Join(sep, rest);
    }
  }

  //------------------------------------------------------------------
  // UTF-16: a .NET string is a sequence of 16-bit code units
  //------------------------------------------------------------------

  /** The UTF-16 code units of one character: itself below U+10000, else a surrogate pair. */
  function CodeUnits(c: char): (r: seq<int>)
    ensures 1 <= |r| <= 2
    ensures forall k :: 0 <= k < |r| ==> 0 <= r[k] < 0x10000
    ensures c as int < 0x10000 <==> r == [c as int]
  {
    var n := c as int;
    if n < 0x10000 then [n]
    else [0xD800 + (n - 0x10000) / 0x400, 0xDC00 + (n - 0x10000) % 0x400]
  }

  /** The code units of a string, in order (what `str.Length` counts and `str[i]` reads). */
  function Utf16(s: string): (r: seq<int>)
    ensures |s| <= |r| <= 2 * |s|
    ensures forall k :: 0 <= k < |r| ==> 0 <= r[k] < 0x10000
    decreases |s|
  {
    if s == [] then [] else CodeUnits(s[0]) + Utf16(s[1..])
  }

  /** A string of characters below U+10000 has one code unit per character. */
  lemma {:induction false} Utf16OfBasic(s: string)
    requires forall k :: 0 <= k < |s| ==> s[k] as int < 0x10000
    ensures |Utf16(s)| == |s|
    ensures forall k :: 0 <= k < |s| ==> Utf16(s)[k] == s[k] as int
    decreases |s|
  {
    if s != [] {
      Utf16OfBasic(s[1..]);
    }
  }

  lemma PieceAround(s: string, k: nat)
    requires k < |s|
    ensures s == s[..k] + [s[k]] + s[k + 1..]
  {
  }
}
