/**
 * The code shared by the WeChat official-account and mini-program clients (Wechat.cs):
 * the sorted query string that signatures are computed over, the push-message
 * signature, the access-token expiry and the template-message constructor.
 * SHA-1 (FIPS 180-4), the UTF-8 encoder and the string comparer are parameters.
 */
module Wechat {
  import opened Wrappers
  import opened Strings
  import opened Numbers
  import opened Ordering
  import StringHelper
  import Encoder
  import Values
  import Util
  import DateTimeHelper

  //------------------------------------------------------------------
  // Sorted query string
  //------------------------------------------------------------------

  /** An entry of a Dictionary<string, string>: the key and a value that may be null. */
  type Entry = (string, Option<string>)

  function EntryKey(e: Entry): string { e.0 }

  /** The keys of a dictionary are distinct. */
  predicate DistinctKeys(d: seq<Entry>) {
    forall i, j :: 0 <= i < j < |d| ==> d[i].0 != d[j].0
  }

  /** A value that takes part in the query string: IsNotEmpty, so neither null nor "". */
  predicate Signed(v: Option<string>) {
    v.Some? && v.value != ""
  }

  /** The entries with a signed value, as key/value text pairs, in their order. */
  function Kept(items: seq<Entry>): (r: seq<(string, string)>)
    ensures |r| <= |items|
    ensures forall i :: 0 <= i < |r| ==> r[i].1 != ""
  {
    if items == [] then []
    else
      var e := items[|items| - 1];
      Kept(items[..|items| - 1]) + if Signed(e.1) then [(e.0, e.1.value)] else []
  }

  /** Kept lists exactly the entries whose value is neither null nor "". */
  lemma {:induction false} KeptMembers(items: seq<Entry>)
    ensures forall k, v :: (k, v) in Kept(items) <==> (k, Some(v)) in items && v != ""
  {
    if items != [] {
      var e := items[|items| - 1];
      KeptMembers(items[..|items| - 1]);
      assert forall x :: x in items <==> x in items[..|items| - 1] || x == e by {
        assert items == items[..|items| - 1] + [e];
      }
    }
  }

  /**
   * The text BuildSortQueryString returns: the entries ordered by key with `cmp`, each
   * entry with a signed value appended as `key=value&`, and then every trailing `&` cut.
   */
  function SortQuery(dict: seq<Entry>, cmp: Comparer): string {
    var items := SortBy(dict, EntryKey, cmp);
    TrimEndChar(StringHelper.Terminated(Encoder.QueryPairs(Kept(items)), "&"), '&')
  }

  lemma KeptSnoc(items: seq<Entry>, j: nat)
    requires j < |items|
    ensures Kept(items[..j + 1]) == Kept(items[..j])
      + if Signed(items[j].1) then [(items[j].0, items[j].1.value)] else []
  {
    assert items[..j + 1][..j] == items[..j];
  }

  lemma QueryPairsSnoc(data: seq<(string, string)>, kv: (string, string))
    ensures Encoder.QueryPairs(data + [kv]) == Encoder.QueryPairs(data) + [Encoder.QueryPair(kv)]
  {
  }

  lemma TerminatedSnoc(items: seq<string>, last: string, sep: string)
    ensures StringHelper.Terminated(items + [last], sep) == StringHelper.Terminated(items, sep) + (last + sep)
  {
    assert (items + [last])[..|items|] == items;
  }

  /** IsNotEmpty of a boxed string value holds exactly for a signed value. */
  lemma NotEmptyIsSigned(v: Option<string>)
    ensures var boxed := if v.None? then Values.Null else Values.Str(v.value);
      !(boxed.Null? || Util.Enumerated(boxed) == Some(0)) <==> Signed(v)
  {
  }

  /**
   * BuildSortQueryString: orders the entries by key, appends `key=value&` for each entry
   * whose value IsNotEmpty, and trims the trailing `&` characters.
   */
  method BuildSortQueryString(dict: seq<Entry>, cmp: Comparer) returns (r: string)
    ensures r == SortQuery(dict, cmp)
  {
    var items := SortBy(dict, EntryKey, cmp);
    var sb := "";
    var j := 0;
    while j < |items|
      invariant 0 <= j <= |items|
      invariant sb == StringHelper.Terminated(Encoder.QueryPairs(Kept(items[..j])), "&")
    {
      var item := items[j];
      var boxed := if item.1.None? then Values.Null else Values.Str(item.1.value);
      var notEmpty := Util.IsNotEmpty(boxed);
      NotEmptyIsSigned(item.1);
      KeptSnoc(items, j);
      assert notEmpty == Signed(item.1);
      if notEmpty {
        var pair := (item.0, item.1.value);
        assert Kept(items[..j + 1]) == Kept(items[..j]) + [pair];
        QueryPairsSnoc(Kept(items[..j]), pair);
        TerminatedSnoc(Encoder.QueryPairs(Kept(items[..j])), Encoder.QueryPair(pair), "&");
        assert Encoder.QueryPair(pair) + "&" == item.0 + "=" + item.1.value + "&";
        sb := sb + (item.0 + "=" + item.1.value + "&");
      } else {
        assert Kept(items[..j + 1]) == Kept(items[..j]);
      }
      j := j + 1;
    }
    assert items[..j] == items;
    r := TrimEndChar(sb, '&');
  }

  /**
   * The query string does not depend on the order the dictionary enumerates its entries
   * in, when the comparer is a total order: it is a canonical form of the dictionary.
   */
  lemma SortQueryCanonical(d1: seq<Entry>, d2: seq<Entry>, cmp: Comparer)
    requires TotalOrder(cmp)
    requires DistinctKeys(d1)
    requires multiset(d1) == multiset(d2)
    ensures SortQuery(d1, cmp) == SortQuery(d2, cmp)
  {
    assert KeyDetermines(d1, EntryKey) by {
      forall a, b | a in d1 && b in d1 && EntryKey(a) == EntryKey(b) ensures a == b {
        var i :| 0 <= i < |d1| && d1[i] == a;
        var j :| 0 <= j < |d1| && d1[j] == b;
      }
    }
    SortByCanonical(d1, d2, EntryKey, cmp);
  }

  /**
   * The query string is the `key=value` pairs of the signed entries, in key order, joined
   * by `&`, with trailing `&` cut; exactly the entries whose value is neither null nor ""
   * are listed.  No signed entry gives "".
   */
  lemma SortQueryPairs(dict: seq<Entry>, cmp: Comparer)
    ensures var kept := Kept(SortBy(dict, EntryKey, cmp));
      && (forall k, v :: (k, v) in kept <==> (k, Some(v)) in dict && v != "")
      && (kept == [] ==> SortQuery(dict, cmp) == "")
      && (kept != [] ==> SortQuery(dict, cmp) == TrimEndChar(Encoder.QueryText(kept), '&'))
  {
    var items := SortBy(dict, EntryKey, cmp);
    var kept := Kept(items);
    KeptMembers(items);
    forall x ensures x in items <==> x in dict {
      assert x in items <==> x in multiset(items);
    }
    if kept != [] {
      var t := Encoder.QueryPairs(kept);
      StringHelper.TerminatedIsJoin(t, "&");
      assert Encoder.QueryText(kept) == Join("&", t);
      var s := Join("&", t);
      assert TrimEndChar(s + "&", '&') == TrimEndChar(s, '&') by {
        assert (s + "&")[..|s|] == s;
      }
    }
  }

  predicate EndsWithAmpersand(s: string) {
    s != [] && s[|s| - 1] == '&'
  }

  /** A join ends as its last item does. */
  lemma JoinEnd(items: seq<string>, sep: string)
    requires items != [] && items[|items| - 1] != []
    ensures var s := Join(sep, items); s != [] && s[|s| - 1] == items[|items| - 1][|items[|items| - 1]| - 1]
  {
    if |items| > 1 {
      assert items == items[..|items| - 1] + [items[|items| - 1]];
      StringHelper.JoinSnoc(items[..|items| - 1], items[|items| - 1], sep);
    }
  }

  /**
   * When the last signed value (in key order) does not end with `&`, the query string is
   * exactly the joined pairs; the trim removes only the final separator.
   */
  lemma SortQueryIsQueryText(dict: seq<Entry>, cmp: Comparer)
    requires var kept := Kept(SortBy(dict, EntryKey, cmp));
      kept != [] && !EndsWithAmpersand(kept[|kept| - 1].1)
    ensures SortQuery(dict, cmp) == Encoder.QueryText(Kept(SortBy(dict, EntryKey, cmp)))
  {
    var kept := Kept(SortBy(dict, EntryKey, cmp));
    SortQueryPairs(dict, cmp);
    var last := kept[|kept| - 1];
    var t := Encoder.QueryPairs(kept);
    assert t[|t| - 1] == last.0 + "=" + last.1;
    JoinEnd(t, "&");
  }

  /** A last value ending in `&` loses that `&`: {"a": "x&"} gives "a=x". */
  lemma TrailingAmpersandCut(cmp: Comparer)
    ensures SortQuery([("a", Some("x&"))], cmp) == "a=x"
  {
    var d := [("a", Some("x&"))];
    assert SortBy(d, EntryKey, cmp) == d by {
      assert d[..0] == [];
    }
    assert Kept(d) == [("a", "x&")] by {
      assert d[..0] == [];
    }
    var t := Encoder.QueryPairs([("a", "x&")]);
    assert Encoder.QueryPair(("a", "x&")) == "a=x&";
    assert t == ["a=x&"];
    assert StringHelper.Terminated(t, "&") == "a=x&&" by {
      assert t[..0] == [];
    }
    assert "a=x&&"[..4] == "a=x&" && "a=x&"[..3] == "a=x";
  }

  /** Kept of a sequence with a first element: that element's pair, if signed, then the rest. */
  lemma {:induction false} KeptCons(x: Entry, s: seq<Entry>)
    ensures Kept([x] + s) == (if Signed(x.1) then [(x.0, x.1.value)] else []) + Kept(s)
  {
    if s != [] {
      var n := |s| - 1;
      KeptCons(x, s[..n]);
      assert ([x] + s)[..|[x] + s| - 1] == [x] + s[..n];
    } else {
      assert ([x] + s)[..0] == [];
    }
  }

  /** Inserting an entry whose value is null or "" leaves the kept pairs as they were. */
  lemma {:induction false} KeptInsertUnsigned(e: Entry, s: seq<Entry>, cmp: Comparer)
    requires !Signed(e.1)
    ensures Kept(Insert(e, s, EntryKey, cmp)) == Kept(s)
  {
    if s == [] {
      KeptCons(e, []);
    } else if cmp(EntryKey(e), EntryKey(s[0])) < 0 {
      KeptCons(e, s);
    } else {
      KeptInsertUnsigned(e, s[1..], cmp);
      KeptCons(s[0], Insert(e, s[1..], EntryKey, cmp));
      KeptCons(s[0], s[1..]);
      assert s == [s[0]] + s[1..];
    }
  }

  /** An entry whose value is null or "" does not change the query string. */
  lemma SortQueryIgnoresUnsigned(dict: seq<Entry>, e: Entry, cmp: Comparer)
    requires !Signed(e.1)
    ensures SortQuery(dict + [e], cmp) == SortQuery(dict, cmp)
  {
    var d := dict + [e];
    assert d[..|d| - 1] == dict;
    assert SortBy(d, EntryKey, cmp) == Insert(e, SortBy(dict, EntryKey, cmp), EntryKey, cmp);
    KeptInsertUnsigned(e, SortBy(dict, EntryKey, cmp), cmp);
  }

  /** An empty dictionary, or one whose values are all null or "", gives "". */
  lemma {:induction false} SortQueryAllUnsigned(dict: seq<Entry>, cmp: Comparer)
    requires forall i :: 0 <= i < |dict| ==> !Signed(dict[i].1)
    ensures SortQuery(dict, cmp) == ""
  {
    if dict == [] {
      assert Kept(SortBy(dict, EntryKey, cmp)) == [];
    } else {
      var front, last := dict[..|dict| - 1], dict[|dict| - 1];
      assert dict == front + [last];
      SortQueryAllUnsigned(front, cmp);
      SortQueryIgnoresUnsigned(front, last, cmp);
    }
  }

  //------------------------------------------------------------------
  // Push-message signature
  //------------------------------------------------------------------

  function Self(s: string): string { s }

  /** The signed text: token, timestamp and nonce ordered with `cmp`, concatenated. */
  function PushSignInput(timestamp: string, nonce: string, token: string, cmp: Comparer): string {
    Join("", SortBy([token, timestamp, nonce], Self, cmp))
  }

  /** Each byte as two lower-case hexadecimal digits ("{0:x2}"). */
  function HexLower(bytes: seq<byte>): (r: string)
    ensures |r| == 2 * |bytes|
  {
    if bytes == [] then "" else HexLower(bytes[..|bytes| - 1]) + HexByteLower(bytes[|bytes| - 1])
  }

  /** The push signature: the SHA-1 of the UTF-8 signed text, as lower-case hex. */
  function PushSign(timestamp: string, nonce: string, token: string, cmp: Comparer,
                    sha1: seq<byte> -> seq<byte>, utf8: string -> seq<byte>): string {
    HexLower(sha1(utf8(PushSignInput(timestamp, nonce, token, cmp))))
  }

  /**
   * The hex text holds only digits and the letters a-f, and each pair of characters reads
   * back as the byte it was written from.
   */
  lemma {:induction false} HexLowerReads(bytes: seq<byte>)
    ensures var r := HexLower(bytes);
      forall i :: 0 <= i < |r| ==> IsHexDigit(r[i]) && !('A' <= r[i] <= 'Z')
    ensures var r := HexLower(bytes);
      forall i :: 0 <= i < |bytes| ==> HexValue(r[2 * i]) * 16 + HexValue(r[2 * i + 1]) == bytes[i] as int
  {
    if bytes != [] {
      var n := |bytes| - 1;
      var init := HexLower(bytes[..n]);
      var last := HexByteLower(bytes[n]);
      HexLowerReads(bytes[..n]);
      var r := init + last;
      assert HexLower(bytes) == r;
      forall i | 0 <= i < |r| ensures IsHexDigit(r[i]) && !('A' <= r[i] <= 'Z') {
        if i >= |init| {
          assert r[i] == last[i - |init|];
        }
      }
      forall i | 0 <= i < |bytes| ensures HexValue(r[2 * i]) * 16 + HexValue(r[2 * i + 1]) == bytes[i] as int {
        if i < n {
          assert r[2 * i] == init[2 * i] && r[2 * i + 1] == init[2 * i + 1];
        } else {
          assert r[2 * i] == last[0] && r[2 * i + 1] == last[1];
        }
      }
    }
  }

  lemma LowerOfHexLower(bytes: seq<byte>)
    ensures ToLower(HexLower(bytes)) == HexLower(bytes)
  {
    HexLowerReads(bytes);
  }

  /**
   * CalcPushMessageSign: sorts token, timestamp and nonce, joins them, hashes the UTF-8
   * bytes with SHA-1 and appends each hash byte as "{0:x2}"; the final ToLower changes
   * nothing.
   */
  method CalcPushMessageSign(timestamp: string, nonce: string, token: string, cmp: Comparer,
                             sha1: seq<byte> -> seq<byte>, utf8: string -> seq<byte>) returns (r: string)
    ensures r == PushSign(timestamp, nonce, token, cmp, sha1, utf8)
  {
    var arr := SortBy([token, timestamp, nonce], Self, cmp);
    var arrString := Join("", arr);
    var bytes := sha1(utf8(arrString));
    var sb := "";
    var j := 0;
    while j < |bytes|
      invariant 0 <= j <= |bytes|
      invariant sb == HexLower(bytes[..j])
    {
      assert bytes[..j + 1][..j] == bytes[..j];
      sb := sb + HexByteLower(bytes[j]);
      j := j + 1;
    }
    assert bytes[..j] == bytes;
    LowerOfHexLower(bytes);
    r := ToLower(sb);
  }

  lemma SelfDetermines(s: seq<string>)
    ensures KeyDetermines(s, Self)
  {
  }

  /**
   * The push signature does not depend on which argument carries which text: any
   * permutation of (timestamp, nonce, token) gives the same signature.
   */
  lemma PushSignSymmetric(t1: string, n1: string, k1: string, t2: string, n2: string, k2: string,
                          cmp: Comparer, sha1: seq<byte> -> seq<byte>, utf8: string -> seq<byte>)
    requires TotalOrder(cmp)
    requires multiset([k1, t1, n1]) == multiset([k2, t2, n2])
    ensures PushSign(t1, n1, k1, cmp, sha1, utf8) == PushSign(t2, n2, k2, cmp, sha1, utf8)
  {
    var s1, s2 := [k1, t1, n1], [k2, t2, n2];
    SelfDetermines(s1);
    SortByCanonical(s1, s2, Self, cmp);
  }

  //------------------------------------------------------------------
  // Access-token expiry
  //------------------------------------------------------------------

  /** DateTime.AddSeconds / AddMinutes with whole values: out of the DateTime range throws. */
  function AddTicks(dt: int, ticks: int): (r: Result<DateTimeHelper.DateTime>)
    ensures r.Ok? <==> 0 <= dt + ticks <= DateTimeHelper.MaxTicks
    ensures r.Ok? ==> r.value == dt + ticks
  {
    var t := dt + ticks;
    if 0 <= t <= DateTimeHelper.MaxTicks then Ok(t) else Err(ArgumentOutOfRange)
  }

  const RefreshEarly: int := 10 * DateTimeHelper.TicksPerMinute

  /**
   * The expiry CalcExpireDt computes: `expiresIn` seconds after the fetch, less ten minutes,
   * so the token is refreshed ten minutes before it lapses.
   */
  function ExpireTicks(fetchDt: DateTimeHelper.DateTime, expiresIn: int): (r: Result<DateTimeHelper.DateTime>)
    ensures r.Ok? ==> r.value + RefreshEarly == fetchDt + expiresIn * DateTimeHelper.TicksPerSecond
    ensures r.Ok? && expiresIn >= 600 ==> fetchDt <= r.value
    ensures r.Err? ==> r.error == ArgumentOutOfRange
    ensures (var later := fetchDt + expiresIn * DateTimeHelper.TicksPerSecond;
             RefreshEarly <= later <= DateTimeHelper.MaxTicks) ==> r.Ok?
  {
    var later := AddTicks(fetchDt, expiresIn * DateTimeHelper.TicksPerSecond);
    if later.Err? then Err(later.error) else AddTicks(later.value, -RefreshEarly)
  }

  /** The reply to GetAccessToken; the model keeps the fields CalcExpireDt reads and writes. */
  class GetAccessTokenReply {
    var access_token: string
    var expires_in: int
    var FetchDt: DateTimeHelper.DateTime
    var ExpireDt: DateTimeHelper.DateTime

    constructor (accessToken: string, expiresIn: int)
      ensures access_token == accessToken && expires_in == expiresIn
      ensures FetchDt == 0 && ExpireDt == 0
    {
      access_token := accessToken;
      expires_in := expiresIn;
      FetchDt := 0;
      ExpireDt := 0;
    }

    /**
     * CalcExpireDt: records the fetch time, then the expiry; when the expiry is out of the
     * DateTime range the exception leaves ExpireDt unchanged.
     */
    method CalcExpireDt(fetchDt: DateTimeHelper.DateTime) returns (r: Result<()>)
      modifies this
      ensures FetchDt == fetchDt
      ensures access_token == old(access_token) && expires_in == old(expires_in)
      ensures var e := ExpireTicks(fetchDt, old(expires_in));
        if e.Ok? then r == Ok(()) && ExpireDt == e.value
        else r == Err(e.error) && ExpireDt == old(ExpireDt)
    {
      FetchDt := fetchDt;
      var e := ExpireTicks(fetchDt, expires_in);
      if e.Err? {
        return Err(e.error);
      }
      ExpireDt := e.value;
      r := Ok(());
    }
  }

  //------------------------------------------------------------------
  // Template messages
  //------------------------------------------------------------------

  const DefaultColor: string := "#173177"

  /** A template-message item: its text and its colour. */
  datatype TMessageItem = TMessageItem(value: string, color: string)

  /** A template message: the template, the link, and its eight items. */
  class TMessage {
    var TemplateId: string
    var Url: string
    var first: TMessageItem
    var remark: TMessageItem
    var keyword1: TMessageItem
    var keyword2: TMessageItem
    var keyword3: TMessageItem
    var keyword4: TMessageItem
    var keyword5: TMessageItem
    var keyword6: TMessageItem

    /** The items in declaration order. */
    function Items(): seq<TMessageItem>
      reads this
    {
      [first, remark, keyword1, keyword2, keyword3, keyword4, keyword5, keyword6]
    }

    /** Every item is created, holding its argument (default "") in the default colour. */
    constructor (templateId: string, url: string, first: string := "", remark: string := "",
                 keyword1: string := "", keyword2: string := "", keyword3: string := "",
                 keyword4: string := "", keyword5: string := "", keyword6: string := "")
      ensures TemplateId == templateId && Url == url
      ensures Items() == [TMessageItem(first, DefaultColor), TMessageItem(remark, DefaultColor),
                          TMessageItem(keyword1, DefaultColor), TMessageItem(keyword2, DefaultColor),
                          TMessageItem(keyword3, DefaultColor), TMessageItem(keyword4, DefaultColor),
                          TMessageItem(keyword5, DefaultColor), TMessageItem(keyword6, DefaultColor)]
      ensures forall i :: 0 <= i < |Items()| ==> Items()[i].color == DefaultColor
    {
      TemplateId := templateId;
      Url := url;
      this.first := TMessageItem(first, DefaultColor);
      this.remark := TMessageItem(remark, DefaultColor);
      this.keyword1 := TMessageItem(keyword1, DefaultColor);
      this.keyword2 := TMessageItem(keyword2, DefaultColor);
      this.keyword3 := TMessageItem(keyword3, DefaultColor);
      this.keyword4 := TMessageItem(keyword4, DefaultColor);
      this.keyword5 := TMessageItem(keyword5, DefaultColor);
      this.keyword6 := TMessageItem(keyword6, DefaultColor);
    }
  }
}
