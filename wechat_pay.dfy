/**
 * WeChat Pay signing (Pay/WechatPay.cs): the MD5 pay signature over the sorted query
 * string, the check of a signed XML reply, the signed unified-order request and the
 * success flag of a reply.  MD5 (RFC 1321, as lower- or upper-case hex text) is a
 * parameter; the XML document is given as the list of its root's child elements.
 */
module WechatPay {
  import opened Wrappers
  import opened Strings
  import opened Ordering
  import StringHelper
  import Wechat

  const KeyTag := "&key="
  const SignName := "sign"
  const SuccessCode := "SUCCESS"

  //------------------------------------------------------------------
  // The pay signature
  //------------------------------------------------------------------

  /** The text that is hashed: the sorted query string, then "&key=" and the merchant key. */
  function PayPreimage(dict: seq<Wechat.Entry>, mchKey: string, cmp: Comparer): string {
    Wechat.SortQuery(dict, cmp) + KeyTag + mchKey
  }

  /** BuildPaySign's result: the MD5 text of the pre-image, upper-cased. */
  function PaySign(dict: seq<Wechat.Entry>, mchKey: string, cmp: Comparer, md5: string -> string): string {
    ToUpper(md5(PayPreimage(dict, mchKey, cmp)))
  }

  /**
   * BuildPaySign(dict, mchKey): hashes the sorted query string followed by "&key=" and the
   * merchant key, and upper-cases the hash text.
   */
  method BuildPaySign(dict: seq<Wechat.Entry>, mchKey: string, cmp: Comparer, md5: string -> string)
    returns (r: string)
    ensures r == PaySign(dict, mchKey, cmp, md5)
  {
    var query := Wechat.BuildSortQueryString(dict, cmp);
    var txt := query + KeyTag + mchKey;
    r := ToUpper(md5(txt));
  }

  /** The signature holds no lower-case letter, and has as many characters as the hash text. */
  lemma PaySignUpper(dict: seq<Wechat.Entry>, mchKey: string, cmp: Comparer, md5: string -> string)
    ensures var r := PaySign(dict, mchKey, cmp, md5);
      |r| == |md5(PayPreimage(dict, mchKey, cmp))| && forall i :: 0 <= i < |r| ==> !('a' <= r[i] <= 'z')
  {
  }

  /**
   * A dictionary with no entry whose value is neither null nor "" (an empty one, say)
   * signs "&key=" + key alone.
   */
  lemma UnsignedDictPreimage(dict: seq<Wechat.Entry>, mchKey: string, cmp: Comparer)
    requires forall i :: 0 <= i < |dict| ==> !Wechat.Signed(dict[i].1)
    ensures PayPreimage(dict, mchKey, cmp) == KeyTag + mchKey
  {
    Wechat.SortQueryAllUnsigned(dict, cmp);
  }

  /**
   * The pay signature is a function of the dictionary's contents, not of the order it is
   * enumerated in, and entries with a null or empty value do not change it.
   */
  lemma PaySignCanonical(d1: seq<Wechat.Entry>, d2: seq<Wechat.Entry>, mchKey: string, cmp: Comparer,
                         md5: string -> string)
    requires TotalOrder(cmp)
    requires Wechat.DistinctKeys(d1)
    requires multiset(d1) == multiset(d2)
    ensures PaySign(d1, mchKey, cmp, md5) == PaySign(d2, mchKey, cmp, md5)
  {
    Wechat.SortQueryCanonical(d1, d2, cmp);
  }

  lemma PaySignIgnoresUnsigned(dict: seq<Wechat.Entry>, e: Wechat.Entry, mchKey: string, cmp: Comparer,
                               md5: string -> string)
    requires !Wechat.Signed(e.1)
    ensures PaySign(dict + [e], mchKey, cmp, md5) == PaySign(dict, mchKey, cmp, md5)
  {
    Wechat.SortQueryIgnoresUnsigned(dict, e, cmp);
  }

  //------------------------------------------------------------------
  // Checking a signed reply
  //------------------------------------------------------------------

  /** A direct child element of the document's root: its name and its inner text. */
  type Child = (string, string)

  /** The inner text of the last `sign` child; "" when there is none. */
  function HeldSign(children: seq<Child>): (r: string)
    ensures (forall i :: 0 <= i < |children| ==> children[i].0 != SignName) ==> r == ""
    ensures r != "" ==> (SignName, r) in children
  {
    if children == [] then ""
    else
      var c := children[|children| - 1];
      if c.0 == SignName then c.1 else HeldSign(children[..|children| - 1])
  }

  /** The children other than `sign`, in document order, as dictionary entries. */
  function Unsigned(children: seq<Child>): (r: seq<Wechat.Entry>)
    ensures |r| <= |children|
    ensures forall i :: 0 <= i < |r| ==> r[i].0 != SignName && r[i].1.Some?
  {
    if children == [] then []
    else
      var c := children[|children| - 1];
      Unsigned(children[..|children| - 1]) + if c.0 == SignName then [] else [(c.0, Some(c.1))]
  }

  /**
   * What CheckPaySign answers: Dictionary.Add throws on the second child with a name
   * already present; otherwise the held signature is compared with the pay signature of
   * the other children.
   */
  function CheckResult(children: seq<Child>, mchKey: string, cmp: Comparer, md5: string -> string): Result<bool> {
    var dict := Unsigned(children);
    if !Wechat.DistinctKeys(dict) then Err(DuplicateKey)
    else Ok(HeldSign(children) == PaySign(dict, mchKey, cmp, md5))
  }

  lemma {:induction false} UnsignedAppend(a: seq<Child>, b: seq<Child>)
    ensures Unsigned(a + b) == Unsigned(a) + Unsigned(b)
  {
    if b != [] {
      var n := |b| - 1;
      UnsignedAppend(a, b[..n]);
      assert (a + b)[..|a + b| - 1] == a + b[..n];
    } else {
      assert a + b == a;
    }
  }

  lemma UnsignedSnoc(children: seq<Child>, j: nat)
    requires j < |children|
    ensures Unsigned(children[..j + 1]) == Unsigned(children[..j])
      + if children[j].0 == SignName then [] else [(children[j].0, Some(children[j].1))]
    ensures HeldSign(children[..j + 1]) == if children[j].0 == SignName then children[j].1 else HeldSign(children[..j])
  {
    assert children[..j + 1][..j] == children[..j];
  }

  /** A name that is already a key stays a duplicate in every longer document. */
  lemma DuplicateStays(children: seq<Child>, j: nat, k: nat)
    requires j < |children| && children[j].0 != SignName
    requires k < |Unsigned(children[..j])| && Unsigned(children[..j])[k].0 == children[j].0
    ensures !Wechat.DistinctKeys(Unsigned(children))
  {
    var before := Unsigned(children[..j]);
    UnsignedSnoc(children, j);
    var pre := before + [(children[j].0, Some(children[j].1))];
    assert children == children[..j + 1] + children[j + 1..];
    UnsignedAppend(children[..j + 1], children[j + 1..]);
    var all := pre + Unsigned(children[j + 1..]);
    assert all[k] == before[k];
    assert all[|before|].0 == children[j].0;
  }

  lemma DistinctSnoc(dict: seq<Wechat.Entry>, e: Wechat.Entry)
    requires Wechat.DistinctKeys(dict)
    requires forall i :: 0 <= i < |dict| ==> dict[i].0 != e.0
    ensures Wechat.DistinctKeys(dict + [e])
  {
  }

  /**
   * CheckPaySign over the root's children: each child other than `sign` is added to a
   * dictionary under its name (a repeated name throws), the `sign` child is held aside,
   * and the held text is compared with BuildPaySign of the dictionary.
   */
  method CheckPaySign(children: seq<Child>, mchKey: string, cmp: Comparer, md5: string -> string)
    returns (r: Result<bool>)
    ensures r == CheckResult(children, mchKey, cmp, md5)
  {
    var sign := "";
    var dict: seq<Wechat.Entry> := [];
    var j := 0;
    while j < |children|
      invariant 0 <= j <= |children|
      invariant dict == Unsigned(children[..j])
      invariant Wechat.DistinctKeys(dict)
      invariant sign == HeldSign(children[..j])
    {
      var name, value := children[j].0, children[j].1;
      UnsignedSnoc(children, j);
      if name == SignName {
        sign := value;
      } else {
        var k := 0;
        while k < |dict|
          invariant 0 <= k <= |dict|
          invariant forall i :: 0 <= i < k ==> dict[i].0 != name
        {
          if dict[k].0 == name {
            DuplicateStays(children, j, k);
            return Err(DuplicateKey);
          }
          k := k + 1;
        }
        DistinctSnoc(dict, (name, Some(value)));
        dict := dict + [(name, Some(value))];
      }
      j := j + 1;
    }
    assert children[..j] == children;
    var sign2 := BuildPaySign(dict, mchKey, cmp, md5);
    r := Ok(sign == sign2);
  }

  /** A document without a `sign` child is compared against "". */
  lemma MissingSignComparesEmpty(children: seq<Child>, mchKey: string, cmp: Comparer, md5: string -> string)
    requires forall i :: 0 <= i < |children| ==> children[i].0 != SignName
    requires Wechat.DistinctKeys(Unsigned(children))
    ensures CheckResult(children, mchKey, cmp, md5) == Ok(PaySign(Unsigned(children), mchKey, cmp, md5) == "")
  {
  }

  /** Two children with the same name other than `sign` make the check throw. */
  lemma DuplicateNameFails(children: seq<Child>, i: nat, j: nat, mchKey: string, cmp: Comparer,
                           md5: string -> string)
    requires i < j < |children|
    requires children[i].0 == children[j].0 != SignName
    ensures CheckResult(children, mchKey, cmp, md5) == Err(DuplicateKey)
  {
    var pre := children[..j];
    assert children[..j] == children[..i] + children[i..j];
    UnsignedAppend(children[..i], children[i..j]);
    assert children[i..j] == [children[i]] + children[i + 1..j];
    UnsignedAppend([children[i]], children[i + 1..j]);
    assert Unsigned([children[i]]) == [(children[i].0, Some(children[i].1))] by {
      assert [children[i]][..0] == [];
    }
    var k := |Unsigned(children[..i])|;
    assert Unsigned(children[..j])[k].0 == children[j].0;
    DuplicateStays(children, j, k);
  }

  /**
   * A reply whose `sign` child carries the pay signature of its other children, taken in
   * any order, passes the check.
   */
  lemma SignedReplyVerifies(children: seq<Child>, signed: seq<Wechat.Entry>, mchKey: string, cmp: Comparer,
                            md5: string -> string)
    requires TotalOrder(cmp)
    requires Wechat.DistinctKeys(Unsigned(children))
    requires multiset(Unsigned(children)) == multiset(signed)
    requires HeldSign(children) == PaySign(signed, mchKey, cmp, md5)
    ensures CheckResult(children, mchKey, cmp, md5) == Ok(true)
  {
    PaySignCanonical(Unsigned(children), signed, mchKey, cmp, md5);
  }

  //------------------------------------------------------------------
  // The unified-order request
  //------------------------------------------------------------------

  /** The ten request fields in the order UnifiedOrder adds them; `sign` is added after. */
  function OrderFields(appId: Option<string>, body: Option<string>, mchId: Option<string>,
                       nonceStr: Option<string>, notifyUrl: Option<string>, openId: Option<string>,
                       orderNo: Option<string>, ip: Option<string>, totalFee: string,
                       tradeType: string): seq<Wechat.Entry> {
    [("appid", appId), ("body", body), ("mch_id", mchId), ("nonce_str", nonceStr),
     ("notify_url", notifyUrl), ("openid", openId), ("out_trade_no", orderNo),
     ("spbill_create_ip", ip), ("total_fee", Some(totalFee)), ("trade_type", Some(tradeType))]
  }

  /**
   * The dictionary UnifiedOrder sends: the ten fields, then `sign` holding the pay
   * signature of those ten.  The total fee arrives as its text (the product fee * 100
   * and its rounding are not modelled).
   */
  method UnifiedOrderDict(appId: Option<string>, body: Option<string>, mchId: Option<string>,
                          nonceStr: Option<string>, notifyUrl: Option<string>, openId: Option<string>,
                          orderNo: Option<string>, ip: Option<string>, totalFee: string,
                          mchKey: string, cmp: Comparer, md5: string -> string)
    returns (dict: seq<Wechat.Entry>)
    ensures var fields := OrderFields(appId, body, mchId, nonceStr, notifyUrl, openId, orderNo, ip, totalFee, "JSAPI");
      dict == fields + [(SignName, Some(PaySign(fields, mchKey, cmp, md5)))]
  {
    var tradeType := "JSAPI";
    dict := [];
    dict := dict + [("appid", appId)];
    dict := dict + [("body", body)];
    dict := dict + [("mch_id", mchId)];
    dict := dict + [("nonce_str", nonceStr)];
    dict := dict + [("notify_url", notifyUrl)];
    dict := dict + [("openid", openId)];
    dict := dict + [("out_trade_no", orderNo)];
    dict := dict + [("spbill_create_ip", ip)];
    dict := dict + [("total_fee", Some(totalFee))];
    dict := dict + [("trade_type", Some(tradeType))];
    assert dict == OrderFields(appId, body, mchId, nonceStr, notifyUrl, openId, orderNo, ip, totalFee, tradeType);
    var sign := BuildPaySign(dict, mchKey, cmp, md5);
    dict := dict + [(SignName, Some(sign))];
  }

  /** The names of the ten fields are distinct and none is `sign`. */
  lemma OrderFieldsNames(appId: Option<string>, body: Option<string>, mchId: Option<string>,
                         nonceStr: Option<string>, notifyUrl: Option<string>, openId: Option<string>,
                         orderNo: Option<string>, ip: Option<string>, totalFee: string, tradeType: string)
    ensures var fields := OrderFields(appId, body, mchId, nonceStr, notifyUrl, openId, orderNo, ip, totalFee, tradeType);
      Wechat.DistinctKeys(fields) && forall i :: 0 <= i < |fields| ==> fields[i].0 != SignName
  {
  }

  /**
   * The children a receiver reads back from a dictionary written as XML: one element per
   * entry, named by the key, whose inner text is the value ("" for a null value).
   */
  function AsChildren(dict: seq<Wechat.Entry>): (r: seq<Child>)
    ensures |r| == |dict|
  {
    if dict == [] then []
    else
      var e := dict[|dict| - 1];
      AsChildren(dict[..|dict| - 1]) + [(e.0, if e.1.Some? then e.1.value else "")]
  }

  lemma {:induction false} AsChildrenUnsigned(dict: seq<Wechat.Entry>)
    requires forall i :: 0 <= i < |dict| ==> dict[i].1.Some? && dict[i].0 != SignName
    ensures Unsigned(AsChildren(dict)) == dict
    ensures HeldSign(AsChildren(dict)) == ""
  {
    if dict != [] {
      var n := |dict| - 1;
      AsChildrenUnsigned(dict[..n]);
      assert AsChildren(dict)[..n] == AsChildren(dict[..n]);
      assert dict == dict[..n] + [dict[n]];
    }
  }

  /** Reading back entries without `sign` followed by `sign`: the entries, and that sign. */
  lemma ReadBack(fields: seq<Wechat.Entry>, sign: string)
    requires forall i :: 0 <= i < |fields| ==> fields[i].1.Some? && fields[i].0 != SignName
    ensures var children := AsChildren(fields + [(SignName, Some(sign))]);
      Unsigned(children) == fields && HeldSign(children) == sign
  {
    var dict := fields + [(SignName, Some(sign))];
    AsChildrenUnsigned(fields);
    assert dict[..|fields|] == fields;
    var children := AsChildren(dict);
    assert children == AsChildren(fields) + [(SignName, sign)];
    UnsignedAppend(AsChildren(fields), [(SignName, sign)]);
    assert Unsigned([(SignName, sign)]) == [] by {
      assert [(SignName, sign)][..0] == [];
    }
  }

  /**
   * Signing a dictionary and then adding `sign` (BuildPaySign before Add("sign", ...)):
   * when no value is null and the keys are distinct, the receiver's check of the written
   * document accepts it, because `sign` is not part of its own pre-image.
   */
  lemma SignedDictChecks(fields: seq<Wechat.Entry>, mchKey: string, cmp: Comparer, md5: string -> string)
    requires forall i :: 0 <= i < |fields| ==> fields[i].1.Some? && fields[i].0 != SignName
    requires Wechat.DistinctKeys(fields)
    ensures var dict := fields + [(SignName, Some(PaySign(fields, mchKey, cmp, md5)))];
      CheckResult(AsChildren(dict), mchKey, cmp, md5) == Ok(true)
  {
    ReadBack(fields, PaySign(fields, mchKey, cmp, md5));
  }

  /** The unified-order request, with every field non-null, passes the receiver's check. */
  lemma UnifiedOrderChecks(appId: string, body: string, mchId: string, nonceStr: string, notifyUrl: string,
                           openId: string, orderNo: string, ip: string, totalFee: string,
                           mchKey: string, cmp: Comparer, md5: string -> string)
    ensures var fields := OrderFields(Some(appId), Some(body), Some(mchId), Some(nonceStr), Some(notifyUrl),
                                      Some(openId), Some(orderNo), Some(ip), totalFee, "JSAPI");
      var dict := fields + [(SignName, Some(PaySign(fields, mchKey, cmp, md5)))];
      CheckResult(AsChildren(dict), mchKey, cmp, md5) == Ok(true)
  {
    var fields := OrderFields(Some(appId), Some(body), Some(mchId), Some(nonceStr), Some(notifyUrl),
                              Some(openId), Some(orderNo), Some(ip), totalFee, "JSAPI");
    OrderFieldsNames(Some(appId), Some(body), Some(mchId), Some(nonceStr), Some(notifyUrl),
                     Some(openId), Some(orderNo), Some(ip), totalFee, "JSAPI");
    SignedDictChecks(fields, mchKey, cmp, md5);
  }

  //------------------------------------------------------------------
  // The nonce
  //------------------------------------------------------------------

  /**
   * BuildNonceStr as written: the 32-digit text of a new GUID ("N" format), cut with
   * SubText(32), i.e. from index 32 to the end.
   */
  function NonceAsWritten(guid: string): Result<string> {
    StringHelper.SubText(guid, 32, -1)
  }

  /** The start index equals the text's length, so the nonce is always "". */
  lemma NonceAlwaysEmpty(guid: string)
    requires |guid| == 32
    ensures NonceAsWritten(guid) == Ok("")
  {
  }

  /** The evidently intended nonce: the first 32 characters, SubText(0, 32). */
  function Nonce(guid: string): Result<string> {
    StringHelper.SubText(guid, 0, 32)
  }

  lemma NonceIsGuid(guid: string)
    requires |guid| == 32
    ensures Nonce(guid) == Ok(guid)
  {
    assert guid[0..32] == guid;
  }

  //------------------------------------------------------------------
  // Replies
  //------------------------------------------------------------------

  /** PayReply.IsSuccess: the return code is exactly "SUCCESS" (a null code is not). */
  function IsSuccess(returnCode: Option<string>): (r: bool)
    ensures r <==> returnCode == Some(SuccessCode)
  {
    returnCode.Some? && returnCode.value == SuccessCode
  }
}
