/**
 * Cyclic XOR of a byte array with a key (EncryptHelper.XOR over byte arrays): the same
 * routine encrypts and decrypts.
 */
module EncryptHelper {
  import opened Wrappers

  function Pow2(n: nat): (p: nat)
    ensures p >= 1
  {
    if n == 0 then 1 else 2 * Pow2(n - 1)
  }

  /** Exclusive or of the low `n` bits of `a` and `b`, least significant bit first. */
  function XorBits(a: nat, b: nat, n: nat): (r: nat)
    ensures r < Pow2(n)
  {
    if n == 0 then 0
    else (if a % 2 == b % 2 then 0 else 1) + 2 * XorBits(a / 2, b / 2, n - 1)
  }

  /** Bitwise exclusive or of two bytes. */
  function XorByte(a: byte, b: byte): byte {
    assert Pow2(8) == 256;
    XorBits(a as nat, b as nat, 8) as byte
  }

  /** XOR with the same operand twice is the identity on n-bit values. */
  lemma {:induction false} XorBitsTwice(a: nat, b: nat, n: nat)
    requires a < Pow2(n)
    ensures XorBits(XorBits(a, b, n), b, n) == a
  {
    if n > 0 {
      var rest := XorBits(a / 2, b / 2, n - 1);
      var x := XorBits(a, b, n);
      assert x % 2 == (if a % 2 == b % 2 then 0 else 1) && x / 2 == rest;
      XorBitsTwice(a / 2, b / 2, n - 1);
    }
  }

  /** The bytes XOR produces: byte i of `src` combined with key byte i mod |key|. */
  function XorBytes(src: seq<byte>, key: seq<byte>): (r: seq<byte>)
    requires |key| > 0
    ensures |r| == |src|
  {
    seq(|src|, i requires 0 <= i < |src| => XorByte(src[i], key[i % |key|]))
  }

  /**
   * XOR: fills a new array of the source's length by index.  With an empty key the
   * remainder `i % key.Length` divides by zero as soon as there is a byte to encrypt.
   */
  method Xor(src: seq<byte>, key: seq<byte>) returns (r: Result<seq<byte>>)
    ensures |key| == 0 && |src| > 0 <==> r == Err(DivideByZero)
    ensures |key| > 0 ==> r == Ok(XorBytes(src, key))
    ensures |key| == 0 && |src| == 0 ==> r.Ok? && r.value == []
  {
    var ret := new byte[|src|];
    var i := 0;
    while i < |src|
      invariant 0 <= i <= |src|
      invariant |key| == 0 ==> i == 0
      invariant forall k :: 0 <= k < i ==> ret[k] == XorByte(src[k], key[k % |key|])
    {
      if |key| == 0 {
        return Err(DivideByZero);
      }
      var j := i % |key|;
      ret[i] := XorByte(src[i], key[j]);
      i := i + 1;
    }
    if |key| > 0 {
      assert ret[..] == XorBytes(src, key);
    } else {
      assert ret.Length == 0;
    }
    return Ok(ret[..]);
  }

  /** Every output byte is the source byte combined with the key byte at i mod |key|. */
  lemma XorBytesAt(src: seq<byte>, key: seq<byte>, i: nat)
    requires |key| > 0 && i < |src|
    ensures XorBytes(src, key)[i] == XorByte(src[i], key[i % |key|])
  {
  }

  /** Applying XOR twice with the same key gives the source back. */
  lemma XorInvolution(src: seq<byte>, key: seq<byte>)
    requires |key| > 0
    ensures XorBytes(XorBytes(src, key), key) == src
  {
    var once := XorBytes(src, key);
    var twice := XorBytes(once, key);
    forall i | 0 <= i < |src|
      ensures twice[i] == src[i]
    {
      XorByteTwice(src[i], key[i % |key|]);
    }
  }

  lemma XorByteTwice(a: byte, b: byte)
    ensures XorByte(XorByte(a, b), b) == a
  {
    assert Pow2(8) == 256;
    XorBitsTwice(a as nat, b as nat, 8);
  }
}
