/**
 * The path and file-name helpers of IO (IO.File.cs): joining two paths with one
 * separator, a path relative to a root, cutting off the query, the extension or the
 * folder, the extension and the MIME type of a file name, and the next name in a numbered
 * series.  Strings are never null here: the source maps null to "" before use.
 */
module IOFile {
  import opened Wrappers
  import opened Strings
  import Numbers
  import StringHelper
  import Types
  import ConvertorParse

  predicate IsSeparator(c: char) { c == '/' || c == '\\' }

  predicate NoSeparator(s: string) {
    forall i :: 0 <= i < |s| ==> !IsSeparator(s[i])
  }

  //------------------------------------------------------------------
  // Joining paths
  //------------------------------------------------------------------

  /** The first part of a join: every `other` made `sep`, trailing `sep`s removed. */
  function JoinHead(path: string, sep: char, other: char): (r: string)
    requires sep != other
    ensures |r| <= |path| && other !in r
    ensures r == [] || r[|r| - 1] != sep
  {
    var s := ReplaceChar(path, other, sep);
    var r := TrimEndChar(s, sep);
    NotInPrefix(s, |r|, other);
    r
  }

  /** The second part of a join: every `other` made `sep`, leading `sep`s removed. */
  function JoinTail(path: string, sep: char, other: char): (r: string)
    requires sep != other
    ensures |r| <= |path| && other !in r
    ensures r == [] || r[0] != sep
  {
    var s := ReplaceChar(path, other, sep);
    var r := TrimStartChar(s, sep);
    NotInSuffix(s, |s| - |r|, other);
    r
  }

  /**
   * CombinePath: every '/' becomes '\', the first part loses its trailing and the second
   * its leading separators, and one '\' joins them; with nothing left of the first part
   * the result is the second part alone.
   */
  function CombinePath(path1: string, path2: string): (r: string)
    ensures '/' !in r
  {
    var a := JoinHead(path1, '\\', '/');
    var b := JoinTail(path2, '\\', '/');
    if a == [] then b else a + "\\" + b
  }

  /** CombineWebPath: the mirror image of CombinePath, with '/' as the separator. */
  function CombineWebPath(path1: string, path2: string): (r: string)
    ensures '\\' !in r
  {
    var a := JoinHead(path1, '/', '\\');
    var b := JoinTail(path2, '/', '\\');
    if a == [] then b else a + "/" + b
  }

  lemma NotInPrefix(s: string, n: nat, c: char)
    requires c !in s && n <= |s|
    ensures c !in s[..n]
  {
    forall i | 0 <= i < n ensures s[..n][i] != c {
      assert s[..n][i] == s[i];
    }
  }

  lemma NotInSuffix(s: string, n: nat, c: char)
    requires c !in s && n <= |s|
    ensures c !in s[n..]
  {
    forall i | 0 <= i < |s| - n ensures s[n..][i] != c {
      assert s[n..][i] == s[n + i];
    }
  }

  lemma ReplaceCharIdentity(s: string, a: char, b: char)
    requires a !in s
    ensures ReplaceChar(s, a, b) == s
  {
  }

  /** Parts that are already clean are joined by exactly one '/'. */
  lemma CombineWebPathSeam(a: string, b: string)
    requires a != [] && a[|a| - 1] != '/' && '\\' !in a
    requires (b == [] || b[0] != '/') && '\\' !in b
    ensures CombineWebPath(a, b) == a + "/" + b
  {
    ReplaceCharIdentity(a, '\\', '/');
    ReplaceCharIdentity(b, '\\', '/');
    assert JoinHead(a, '/', '\\') == a;
    assert JoinTail(b, '/', '\\') == b;
  }

  /** A first part made only of separators leaves the normalised second part alone. */
  lemma CombineWebPathEmptyFirst(path1: string, path2: string)
    requires forall i :: 0 <= i < |path1| ==> IsSeparator(path1[i])
    ensures CombineWebPath(path1, path2) == TrimStartChar(ReplaceChar(path2, '\\', '/'), '/')
  {
    assert JoinHead(path1, '/', '\\') == [];
  }

  lemma TrimEndExtra(s: string, c: char)
    ensures TrimEndChar(s + [c], c) == TrimEndChar(s, c)
  {
    assert (s + [c])[..|s|] == s;
  }

  lemma TrimStartExtra(s: string, c: char)
    ensures TrimStartChar([c] + s, c) == TrimStartChar(s, c)
  {
    assert ([c] + s)[1..] == s;
  }

  /** A separator at the end of the first part or the start of the second makes no difference. */
  lemma CombineWebPathExtraSeparators(path1: string, path2: string)
    ensures CombineWebPath(path1 + "\\", path2) == CombineWebPath(path1, path2)
    ensures CombineWebPath(path1, "/" + path2) == CombineWebPath(path1, path2)
  {
    ReplaceConcat(path1, "\\", '\\', '/');
    assert ReplaceChar("\\", '\\', '/') == "/";
    TrimEndExtra(ReplaceChar(path1, '\\', '/'), '/');
    assert JoinHead(path1 + "\\", '/', '\\') == JoinHead(path1, '/', '\\');
    ReplaceConcat("/", path2, '\\', '/');
    assert ReplaceChar("/", '\\', '/') == "/";
    TrimStartExtra(ReplaceChar(path2, '\\', '/'), '/');
    assert JoinTail("/" + path2, '/', '\\') == JoinTail(path2, '/', '\\');
  }

  /** Two strings with their separators at the same places trim to the same length. */
  lemma {:induction false} TrimEndAlike(s: string, t: string, c: char, d: char)
    requires |s| == |t|
    requires forall i :: 0 <= i < |s| ==> (s[i] == c <==> t[i] == d)
    ensures |TrimEndChar(s, c)| == |TrimEndChar(t, d)|
  {
    if s != [] && s[|s| - 1] == c {
      TrimEndAlike(s[..|s| - 1], t[..|t| - 1], c, d);
    }
  }

  lemma {:induction false} TrimStartAlike(s: string, t: string, c: char, d: char)
    requires |s| == |t|
    requires forall i :: 0 <= i < |s| ==> (s[i] == c <==> t[i] == d)
    ensures |TrimStartChar(s, c)| == |TrimStartChar(t, d)|
  {
    if s != [] && s[0] == c {
      TrimStartAlike(s[1..], t[1..], c, d);
    }
  }

  /** Normalising to '/' and then to '\' gives the normalisation to '\', on any slice. */
  lemma ReplaceSlice(path: string, n: nat, m: nat)
    requires n <= m <= |path|
    ensures ReplaceChar(ReplaceChar(path, '\\', '/')[n..m], '/', '\\') == ReplaceChar(path, '/', '\\')[n..m]
  {
    var s, t := ReplaceChar(path, '\\', '/'), ReplaceChar(path, '/', '\\');
    forall i | 0 <= i < m - n ensures ReplaceChar(s[n..m], '/', '\\')[i] == t[n..m][i] {
      assert s[n..m][i] == s[n + i] && t[n..m][i] == t[n + i];
    }
  }

  /** The web join's first part, with '/' made '\', is the path join's first part. */
  lemma HeadMirror(path: string)
    ensures ReplaceChar(JoinHead(path, '/', '\\'), '/', '\\') == JoinHead(path, '\\', '/')
  {
    var s, t := ReplaceChar(path, '\\', '/'), ReplaceChar(path, '/', '\\');
    TrimEndAlike(s, t, '/', '\\');
    ReplaceSlice(path, 0, |TrimEndChar(s, '/')|);
  }

  lemma TailMirror(path: string)
    ensures ReplaceChar(JoinTail(path, '/', '\\'), '/', '\\') == JoinTail(path, '\\', '/')
  {
    var s, t := ReplaceChar(path, '\\', '/'), ReplaceChar(path, '/', '\\');
    TrimStartAlike(s, t, '/', '\\');
    ReplaceSlice(path, |path| - |TrimStartChar(s, '/')|, |path|);
  }

  lemma ReplaceConcat(s: string, t: string, x: char, y: char)
    ensures ReplaceChar(s + t, x, y) == ReplaceChar(s, x, y) + ReplaceChar(t, x, y)
  {
    var r := ReplaceChar(s, x, y) + ReplaceChar(t, x, y);
    forall i | 0 <= i < |s + t| ensures ReplaceChar(s + t, x, y)[i] == r[i] {
      if i < |s| { assert (s + t)[i] == s[i]; } else { assert (s + t)[i] == t[i - |s|]; }
    }
  }

  /** CombinePath is CombineWebPath with every '/' turned into '\'. */
  lemma CombinePathMirror(path1: string, path2: string)
    ensures CombinePath(path1, path2) == ReplaceChar(CombineWebPath(path1, path2), '/', '\\')
  {
    var a, b := JoinHead(path1, '/', '\\'), JoinTail(path2, '/', '\\');
    var a2, b2 := JoinHead(path1, '\\', '/'), JoinTail(path2, '\\', '/');
    HeadMirror(path1);
    TailMirror(path2);
    assert CombinePath(path1, path2) == if a2 == [] then b2 else a2 + "\\" + b2;
    assert CombineWebPath(path1, path2) == if a == [] then b else a + "/" + b;
    if a != [] {
      ReplaceConcat(a + "/", b, '/', '\\');
      ReplaceConcat(a, "/", '/', '\\');
      assert ReplaceChar("/", '/', '\\') == "\\";
    }
  }

  /**
   * ToRelativePath: "\" and the rest of the path when the path starts with the root,
   * compared ignoring case; "" otherwise, and for an empty path or root.
   */
  function ToRelativePath(physicalPath: string, root: string): (r: string)
    ensures r != [] <==> physicalPath != [] && root != [] && |root| <= |physicalPath|
                         && EqualsIgnoreCase(physicalPath[..|root|], root)
    ensures r != [] ==> r == "\\" + physicalPath[|root|..]
  {
    if physicalPath == [] || root == [] then ""
    else
      var lowRoot := ToLower(root);
      var lowPath := ToLower(physicalPath);
      var head := StringHelper.SubText(lowPath, 0, |lowRoot|);
      LowerPrefix(physicalPath, |root|);
      if head == Ok(lowRoot) then "\\" + physicalPath[|root|..] else ""
  }

  lemma LowerPrefix(s: string, k: nat)
    ensures k <= |s| ==> ToLower(s[..k]) == ToLower(s)[..k]
  {
  }

  /** A path below the root is the root's path with the rest after a backslash. */
  lemma ToRelativePathOfJoin(root: string, rest: string)
    requires root != []
    ensures ToRelativePath(root + rest, root) == "\\" + rest
  {
    assert (root + rest)[..|root|] == root;
    assert (root + rest)[|root|..] == rest;
  }

  //------------------------------------------------------------------
  // Cutting a name
  //------------------------------------------------------------------

  /** `r` is `s` cut before the last `c` in it, or all of `s` when there is none. */
  predicate CutBeforeLast(s: string, c: char, r: string) {
    |r| <= |s| && r == s[..|r|]
    && ((c !in s && r == s) || (|r| < |s| && s[|r|] == c && c !in s[|r| + 1..]))
  }

  function CutAtLast(s: string, c: char): (r: string)
    ensures CutBeforeLast(s, c, r)
  {
    var n := LastIndexOfChar(s, c);
    if n != -1 then s[..n] else s
  }

  /** TrimQuery: the URL without the text from its last '?' on. */
  function TrimQuery(url: string): (r: string)
    ensures CutBeforeLast(url, '?', r)
  {
    if url == [] then "" else CutAtLast(url, '?')
  }

  /** TrimExtension: the name without the text from its last '.' on. */
  function TrimExtension(url: string): (r: string)
    ensures CutBeforeLast(url, '.', r)
  {
    if url == [] then "" else CutAtLast(url, '.')
  }

  /** The cut is determined: a query without '?' is cut off exactly. */
  lemma TrimQueryOfQuery(path: string, query: string)
    requires '?' !in query
    ensures TrimQuery(path + "?" + query) == path
  {
    var url := path + "?" + query;
    var r := TrimQuery(url);
    assert url[|path|] == '?' && url[|path| + 1..] == query;
    assert url[..|path|] == path;
  }

  /** A URL without '?' keeps all of it. */
  lemma TrimQueryNone(url: string)
    requires '?' !in url
    ensures TrimQuery(url) == url
  {
  }

  /**
   * TrimFolder: the text after the last '/', then after the last '\' of that: the
   * longest end of the URL with no separator.
   */
  function TrimFolder(url: string): (r: string)
    ensures |r| <= |url| && r == url[|url| - |r|..]
    ensures NoSeparator(r)
    ensures |r| == |url| || IsSeparator(url[|url| - |r| - 1])
  {
    if url == [] then ""
    else
      var n := LastIndexOfChar(url, '/');
      var u := if n != -1 then url[n + 1..] else url;
      var m := LastIndexOfChar(u, '\\');
      var r := if m != -1 then u[m + 1..] else u;
      assert r == url[|url| - |r|..];
      r
  }

  /** GetFileName: the file name without its folder and its query. */
  function GetFileName(url: string): (r: string)
    ensures NoSeparator(r)
    ensures var t := TrimQuery(url); |r| <= |t| && r == t[|t| - |r|..]
  {
    if url == [] then "" else TrimFolder(TrimQuery(url))
  }

  /** The name between the last separator and the query is the file name. */
  lemma GetFileNameOf(folder: string, name: string, query: string)
    requires NoSeparator(name) && '?' !in query
    ensures GetFileName(folder + "/" + name + "?" + query) == name
  {
    var path := folder + "/" + name;
    TrimQueryOfQuery(path, query);
    var r := TrimFolder(path);
    assert path[|folder|] == '/' && path[|folder| + 1..] == name;
  }

  /**
   * GetFileFolder: the URL before its last '/', or when it has none before its last '\',
   * or "" when it has neither.
   */
  function GetFileFolder(url: string): (r: string)
    ensures |r| <= |url| && r == url[..|r|]
    ensures '/' in url ==> |r| < |url| && url[|r|] == '/' && '/' !in url[|r| + 1..]
    ensures '/' !in url && '\\' in url ==> |r| < |url| && url[|r|] == '\\' && '\\' !in url[|r| + 1..]
    ensures '/' !in url && '\\' !in url ==> r == []
  {
    if url == [] then ""
    else
      var n := LastIndexOfChar(url, '/');
      if n != -1 then url[..n]
      else
        var m := LastIndexOfChar(url, '\\');
        if m != -1 then url[..m] else ""
  }

  /** A web path is its folder and its file name joined by '/'. */
  lemma FolderAndName(url: string)
    requires '/' in url && '\\' !in url
    ensures GetFileFolder(url) + "/" + TrimFolder(url) == url
  {
    var f, n := GetFileFolder(url), TrimFolder(url);
    var k := |f|;
    PieceAround(url, k);
  }

  //------------------------------------------------------------------
  // Extensions and MIME types
  //------------------------------------------------------------------

  /**
   * GetFileExtension: after the query is removed, the lower-cased text from the last '.'
   * on, or "" when there is no '.' or that text holds a separator.
   */
  function GetFileExtension(fileName: string): (r: string)
    ensures r != [] ==> r[0] == '.' && NoSeparator(r) && '.' !in r[1..]
    ensures r != [] ==> var t := TrimQuery(fileName); |r| <= |t| && r == ToLower(t[|t| - |r|..])
  {
    if fileName == [] then "" else ExtensionAfterLastDot(TrimQuery(fileName))
  }

  /** The lower-cased text from the last '.' of `t` on, unless it holds a separator. */
  function ExtensionAfterLastDot(t: string): (r: string)
    ensures r != [] ==> r[0] == '.' && NoSeparator(r) && '.' !in r[1..]
    ensures r != [] ==> |r| <= |t| && r == ToLower(t[|t| - |r|..])
  {
    var n := LastIndexOfChar(t, '.');
    if n == -1 then ""
    else
      var ext := ToLower(t[n..]);
      ExtensionChars(t, n);
      if '/' !in ext && '\\' !in ext then ext else ""
  }

  lemma ExtensionChars(t: string, n: nat)
    requires n < |t| && t[n] == '.'
    requires forall i :: n < i < |t| ==> t[i] != '.'
    ensures var ext := ToLower(t[n..]);
      ext[0] == '.' && '.' !in ext[1..]
      && (NoSeparator(ext) <==> NoSeparator(t[n..]))
      && (NoSeparator(ext) <==> '/' !in ext && '\\' !in ext)
  {
    var ext := ToLower(t[n..]);
    assert forall i :: 0 <= i < |ext| ==> (IsSeparator(ext[i]) <==> IsSeparator(t[n + i]));
    assert forall i :: 0 < i < |ext| ==> ext[i] != '.' by {
      forall i | 0 < i < |ext| ensures ext[i] != '.' {
        assert t[n..][i] == t[n + i];
      }
    }
  }

  /** Every '.' is followed by a separator exactly when the cut at the last one holds one. */
  lemma ExtensionCut(t: string, n: nat)
    requires n < |t| && t[n] == '.'
    requires forall i :: n < i < |t| ==> t[i] != '.'
    ensures (forall k :: 0 <= k < |t| && t[k] == '.' ==> !NoSeparator(t[k..])) <==> !NoSeparator(t[n..])
  {
    forall k | 0 <= k < |t| && t[k] == '.' && !NoSeparator(t[n..])
      ensures !NoSeparator(t[k..])
    {
      var j :| 0 <= j < |t| - n && IsSeparator(t[n..][j]);
      assert k <= n;
      assert t[k..][n - k + j] == t[n + j];
    }
  }

  /**
   * No extension is found exactly when, after the query is removed, every '.' is followed
   * by a separator somewhere (there is no '.' at all, or the last one is in a folder name).
   */
  lemma GetFileExtensionEmpty(fileName: string)
    requires fileName != []
    ensures var t := TrimQuery(fileName);
      GetFileExtension(fileName) == [] <==> forall k :: 0 <= k < |t| && t[k] == '.' ==> !NoSeparator(t[k..])
  {
    var t := TrimQuery(fileName);
    var n := LastIndexOfChar(t, '.');
    if n != -1 {
      ExtensionChars(t, n);
      ExtensionCut(t, n);
    }
  }

  lemma LowerDotExtension(ext: string)
    ensures ToLower("." + ext) == "." + ToLower(ext)
  {
    assert ("." + ext)[1..] == ext;
  }

  /** The last '.' of a name, a '.' and an extension without '.' is the one in between. */
  lemma LastDot(name: string, ext: string)
    requires '.' !in ext
    ensures LastIndexOfChar(name + "." + ext, '.') == |name|
  {
    var f := name + "." + ext;
    var n := LastIndexOfChar(f, '.');
    assert f[|name|] == '.';
  }

  lemma DotLowerNoSeparator(s: string)
    requires NoSeparator(s)
    ensures '/' !in "." + ToLower(s) && '\\' !in "." + ToLower(s)
  {
    var r := "." + ToLower(s);
    forall i | 0 <= i < |r| ensures !IsSeparator(r[i]) {
      if i > 0 { assert r[i] == ToLowerChar(s[i - 1]); }
    }
  }

  /** A name and an extension with no '.', separator or '?' give "." and the lower-cased extension. */
  lemma ExtensionOf(name: string, ext: string)
    requires '?' !in name && '?' !in ext
    requires '.' !in ext && NoSeparator(ext)
    ensures GetFileExtension(name + "." + ext) == "." + ToLower(ext)
  {
    var f := name + "." + ext;
    TrimQueryNone(f);
    assert GetFileExtension(f) == ExtensionAfterLastDot(f);
    LastDot(name, ext);
    assert f[|name|..] == "." + ext;
    LowerDotExtension(ext);
    DotLowerNoSeparator(ext);
  }

  /** The query does not take part in the extension. */
  lemma ExtensionIgnoresQuery(path: string, query: string)
    requires path != [] && '?' !in path && '?' !in query
    ensures GetFileExtension(path + "?" + query) == GetFileExtension(path)
  {
    TrimQueryOfQuery(path, query);
    TrimQueryNone(path);
  }

  //------------------------------------------------------------------
  // The next name in a numbered series
  //------------------------------------------------------------------

  /** A name split at its last '.': the part before it and the extension from it on. */
  function SplitName(url: string): (r: (string, string))
    ensures r.0 + r.1 == url
    ensures r.1 == [] ==> '.' !in url
    ensures r.1 != [] ==> r.1[0] == '.' && '.' !in r.1[1..]
  {
    var n := LastIndexOfChar(url, '.');
    if n != -1 then
      assert url[..n] + url[n..] == url;
      (url[..n], url[n..])
    else (url, "")
  }

  /** `ext` is what SplitName cuts off `u + ext`: nothing, when `u` has no '.', or a '.' and no other. */
  predicate ExtensionPart(u: string, ext: string) {
    (ext == [] && '.' !in u) || (ext != [] && ext[0] == '.' && '.' !in ext[1..])
  }

  lemma SplitNameOf(u: string, ext: string)
    requires ExtensionPart(u, ext)
    ensures SplitName(u + ext) == (u, ext)
  {
    var url := u + ext;
    var n := LastIndexOfChar(url, '.');
    if ext != [] {
      assert url[|u|] == '.';
      assert url[..n] == u && url[n..] == ext;
    } else {
      assert url == u;
    }
  }

  /** The length of the run of ASCII digits that ends `s`. */
  function TrailingDigits(s: string): (n: nat)
    ensures n <= |s|
    ensures forall i :: |s| - n <= i < |s| ==> Numbers.IsDigit(s[i])
    ensures n == |s| || !Numbers.IsDigit(s[|s| - n - 1])
  {
    if s != [] && Numbers.IsDigit(s[|s| - 1]) then TrailingDigits(s[..|s| - 1]) + 1 else 0
  }

  /** `s` ends with '_' and at least one digit: the default format "_{0}" matches. */
  predicate EndsNumbered(s: string) {
    exists p :: 0 <= p < |s| - 1 && s[p] == '_' && Numbers.AllDigits(s[p + 1..])
  }

  /**
   * Where the regular expression `_(\d+)$`, made from the default format "_{0}", matches
   * `front`: the index of its '_', followed by nothing but digits to the end.
   */
  function NumberSuffixAt(front: string): (r: Option<nat>)
    ensures r.Some? ==> r.value < |front| - 1 && front[r.value] == '_' && Numbers.AllDigits(front[r.value + 1..])
    ensures r.None? <==> !EndsNumbered(front)
  {
    var d := TrailingDigits(front);
    if 0 < d < |front| && front[|front| - d - 1] == '_' then
      var p := |front| - d - 1;
      assert forall i :: p + 1 <= i < |front| ==> front[p + 1..][i - p - 1] == front[i];
      Some(p)
    else
      assert !EndsNumbered(front) by {
        forall p | 0 <= p < |front| - 1 && front[p] == '_'
          ensures !Numbers.AllDigits(front[p + 1..])
        {
          if p + 1 < |front| - d {
            assert front[p + 1..][|front| - d - 1 - (p + 1)] == front[|front| - d - 1];
          }
        }
      }
      None
  }

  /**
   * The number after the matched digits: ParseInt (Int32.TryParse) of them plus one,
   * wrapping at Int32.MaxValue; 2 when they do not fit an Int32.
   */
  function NextNumber(digits: string): (num: int)
    ensures Numbers.Int32Min <= num <= Numbers.Int32Max
  {
    match ConvertorParse.ParseIntegral(Types.Int32, digits)
    case Some(k) => Numbers.WrapInt32(k + 1)
    case None => 2
  }

  /**
   * GetNextName with the default format "_{0}": before the extension, a trailing '_' and
   * digits become '_' and the next number, and a name without them gets "_2".
   */
  function GetNextName(url: string): (r: string)
  {
    var (front, last) := SplitName(url);
    match NumberSuffixAt(front)
    case Some(p) => front[..p] + "_" + Numbers.IntToString(NextNumber(front[p + 1..])) + last
    case None => front + "_" + Numbers.IntToString(2) + last
  }

  /** A name not yet numbered gets "_2" before its extension. */
  lemma NextNameFirst(name: string, ext: string)
    requires ExtensionPart(name, ext) && !EndsNumbered(name)
    ensures GetNextName(name + ext) == name + "_2" + ext
  {
    SplitNameOf(name, ext);
    assert Numbers.IntToString(2) == "2";
  }

  /** A numbered name gets the next number in place of its own. */
  lemma NextNameNumbered(name: string, digits: string, ext: string)
    requires digits != [] && Numbers.AllDigits(digits)
    requires ExtensionPart(name + "_" + digits, ext)
    ensures GetNextName(name + "_" + digits + ext) == name + "_" + Numbers.IntToString(NextNumber(digits)) + ext
  {
    var front := name + "_" + digits;
    SplitNameOf(front, ext);
    assert front[|name|] == '_' && front[|name| + 1..] == digits;
    var p := NumberSuffixAt(front);
    assert p.Some? && p.value == |name| by {
      assert EndsNumbered(front);
    }
    assert front[..|name|] == name;
  }

  /** The number after the numeral of `k`: k + 1, wrapped to Int32.MinValue after Int32.MaxValue, and 2 past the Int32 range. */
  lemma NextNumberOf(k: nat)
    ensures k < Numbers.Int32Max ==> NextNumber(Numbers.NatToString(k)) == k + 1
    ensures k == Numbers.Int32Max ==> NextNumber(Numbers.NatToString(k)) == Numbers.Int32Min
    ensures k > Numbers.Int32Max ==> NextNumber(Numbers.NatToString(k)) == 2
  {
    ParseNumeral(k);
    if k < Numbers.Int32Max {
      assert Numbers.WrapInt32(k + 1) == k + 1;
    } else if k == Numbers.Int32Max {
      assert Numbers.WrapInt32(k + 1) == Numbers.Int32Min;
    }
  }

  /** ParseInt of the numeral of `k` is `k` within the Int32 range, null past it. */
  lemma ParseNumeral(k: nat)
    ensures ConvertorParse.ParseIntegral(Types.Int32, Numbers.NatToString(k))
      == if k <= Numbers.Int32Max then Some(k) else None
  {
    Numbers.ParseDigitsOfNatToString(k);
    assert Numbers.ParseInteger(Numbers.NatToString(k)) == Some(k);
  }

  /** "a_7.txt" becomes "a_8.txt". */
  lemma NextNameIncrements(name: string, k: nat, ext: string)
    requires k < Numbers.Int32Max
    requires ExtensionPart(name + "_" + Numbers.NatToString(k), ext)
    ensures GetNextName(name + "_" + Numbers.NatToString(k) + ext) == name + "_" + Numbers.NatToString(k + 1) + ext
  {
    NextNameNumbered(name, Numbers.NatToString(k), ext);
    NextNumberOf(k);
  }

  const ImageExtensions: seq<string> := [".jpg", ".png", ".gif", ".jpeg", ".bmp", ".tif", ".tiff"]

  /** IsImageFile: the extension is one of the image extensions. */
  function IsImageFile(fileName: string): (r: bool)
    ensures r ==> GetFileExtension(fileName) != []
    ensures r <==> GetFileExtension(fileName) in ImageExtensions
  {
    var ext := GetFileExtension(fileName);
    if ext == [] then false else ext in ImageExtensions
  }

  /** An image extension in any case makes an image file. */
  lemma IsImageFileOf(name: string, ext: string)
    requires '?' !in name && '?' !in ext
    requires '.' !in ext && NoSeparator(ext)
    ensures IsImageFile(name + "." + ext) <==> "." + ToLower(ext) in ImageExtensions
  {
    ExtensionOf(name, ext);
  }

  const OctetStream := "application/octet-stream"

  /** The MIME table filled by IO's static constructor. */
  const Mimes: map<string, string> := map[
    ".jpg" := "image/jpeg",
    ".jpeg" := "image/jpeg",
    ".png" := "image/png",
    ".bmp" := "image/bmp",
    ".gif" := "image/gif",
    ".html" := "text/html",
    ".json" := "text/json",
    ".txt" := "text/plain",
    ".doc" := "application/msword",
    ".docx" := "application/application/vnd.openxmlformats-officedocument.wordprocessingml.document",
    ".xls" := "application/vnd.ms-excel",
    ".xlsx" := "application/vnd.openxmlformats-officedocument.spreadsheetml.sheet",
    ".ppt" := "application/vnd.ms-powerpoint",
    ".pptx" := "application/vnd.openxmlformats-officedocument.presentationml.presentation",
    ".exe" := OctetStream,
    ".pdf" := "application/pdf",
    ".js" := "application/x-javascript",
    ".mp3" := "audio/mp3",
    ".mp4" := "vedio/mp4",
    ".cdr" := "application/x-cdr"
  ]

  /**
   * GetMimeType: "" for an empty name; the table's entry for the extension; the generic
   * binary type for a name without extension or with one the table lacks.
   */
  function GetMimeType(fileName: string): (r: string)
    ensures fileName == [] ==> r == []
    ensures fileName != [] && GetFileExtension(fileName) in Mimes ==> r == Mimes[GetFileExtension(fileName)]
    ensures fileName != [] && GetFileExtension(fileName) !in Mimes ==> r == OctetStream
  {
    if fileName == [] then ""
    else
      var ext := GetFileExtension(fileName);
      if ext == [] then OctetStream
      else if ext in Mimes then Mimes[ext] else OctetStream
  }

  /** Every entry of the table is a non-empty type. */
  lemma MimesNotEmpty()
    ensures forall e :: e in Mimes ==> Mimes[e] != []
  {
  }

  /** A non-empty name always has a MIME type. */
  lemma MimeTypeNotEmpty(fileName: string)
    requires fileName != []
    ensures GetMimeType(fileName) != []
  {
    MimesNotEmpty();
  }

  /** One image extension the table knows: its entry is an image type. */
  lemma ImageMimeOf(e: string)
    requires e == ".jpg" || e == ".png" || e == ".gif" || e == ".jpeg" || e == ".bmp"
    ensures e in Mimes && StartsWith(Mimes[e], "image/")
  {
    if e == ".jpg" || e == ".jpeg" {
      assert Mimes[e] == "image/jpeg";
    } else if e == ".png" {
      assert Mimes[e] == "image/png";
    } else if e == ".gif" {
      assert Mimes[e] == "image/gif";
    } else {
      assert Mimes[e] == "image/bmp";
    }
  }

  /** The table maps the image extensions to image types, except that it lacks .tif and .tiff. */
  lemma ImageMimes()
    ensures forall e :: e in ImageExtensions && e != ".tif" && e != ".tiff" ==> e in Mimes && StartsWith(Mimes[e], "image/")
    ensures ".tif" !in Mimes && ".tiff" !in Mimes
  {
    forall e | e in ImageExtensions && e != ".tif" && e != ".tiff"
      ensures e in Mimes && StartsWith(Mimes[e], "image/")
    {
      ImageMimeOf(e);
    }
    TiffNotInMimes();
  }

  lemma TiffNotInMimes()
    ensures ".tif" !in Mimes && ".tiff" !in Mimes
  {
  }

  /** An image file has an image MIME type, except a TIFF file, which is served as binary data. */
  lemma MimeTypeOfImage(fileName: string)
    requires IsImageFile(fileName)
    ensures var ext := GetFileExtension(fileName);
      if ext == ".tif" || ext == ".tiff" then GetMimeType(fileName) == OctetStream
      else StartsWith(GetMimeType(fileName), "image/")
  {
    ImageMimes();
  }
}
