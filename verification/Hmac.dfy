/** HMAC-SHA256 (kernel/net/tls.c:102-115) against section 2 of RFC 2104. */
module Hmac {
  import opened Bytes
  import opened Bits
  import opened Sha256
  import opened Sha256Context

  /** The key brought to the length of a block. */
  function BlockKey(key: seq<byte>): (k: seq<byte>)
    ensures |k| == 64
  {
    if |key| > 64 then Hash(key) + Zeros(32) else key + Zeros(64 - |key|)
  }

  function XorPad(k: seq<byte>, pad: byte): (r: seq<byte>)
    ensures |r| == |k|
  {
    seq(|k|, i requires 0 <= i < |k| => Xor8(k[i], pad))
  }

  /** H((K0 xor opad) || H((K0 xor ipad) || m)). */
  function Mac(key: seq<byte>, msg: seq<byte>): (t: seq<byte>)
    ensures |t| == 32
  {
    Hash(XorPad(BlockKey(key), 0x5C) + Hash(XorPad(BlockKey(key), 0x36) + msg))
  }

  /** Octet j of the key as RFC 2104 brings it to a block of 64: hashed if longer, then padded with zeros. */
  function KeyOctet(key: seq<byte>, j: nat): (b: byte)
    requires j < 64
  {
    var k := if |key| <= 64 then key else Hash(key);
    if j < |k| then k[j] else 0
  }

  /** inner and outer are the two padded keys when XORing them with 0x36 and 0x5C gives the key: the tag is the
      hash of outer and the hash of inner and the message. */
  lemma MacIsTwoHashes(key: seq<byte>, msg: seq<byte>, inner: seq<byte>, outer: seq<byte>)
    requires |inner| == |outer| == 64
    requires forall j :: 0 <= j < 64 ==> Xor8(inner[j], 0x36) == KeyOctet(key, j)
    requires forall j :: 0 <= j < 64 ==> Xor8(outer[j], 0x5C) == KeyOctet(key, j)
    ensures Mac(key, msg) == Hash(outer + Hash(inner + msg))
  {
    hide Hash, Xor8;
    var k := BlockKey(key);
    forall j | 0 <= j < 64
      ensures inner[j] == XorPad(k, 0x36)[j] && outer[j] == XorPad(k, 0x5C)[j]
    {
      assert k[j] == KeyOctet(key, j);
      Xor8Involution(inner[j], 0x36);
      Xor8Involution(outer[j], 0x5C);
    }
    assert inner == XorPad(k, 0x36) && outer == XorPad(k, 0x5C);
  }

  /** sha256. */
  method HashOf(data: seq<byte>) returns (digest: seq<byte>)
    requires |data| < 0x1_0000_0000
    ensures digest == Hash(data)
  {
    hide Hash, Fold, Whole, Rest, Over, Iv;
    var ctx := new Context();
    ctx.Update(data);
    digest := ctx.Final();
    assert [] + data == data;
  }

  /** Any way of cutting a message into updates gives the hash of the message. */
  method HashOfChunks(chunks: seq<seq<byte>>) returns (digest: seq<byte>)
    requires forall k :: 0 <= k < |chunks| ==> |chunks[k]| < 0x1_0000_0000
    requires |Concat(chunks)| < 0x2000_0000_0000_0000
    ensures digest == Hash(Concat(chunks))
  {
    hide Hash, Fold, Whole, Rest, Over, Iv;
    var ctx := new Context();
    var k := 0;
    assert chunks[..0] == [];
    while k < |chunks|
      invariant 0 <= k <= |chunks| && ctx.Valid() && fresh(ctx) && fresh(ctx.buf)
      invariant ctx.msg == Concat(chunks[..k])
    {
      ConcatNext(chunks, k);
      ctx.Update(chunks[k]);
      k := k + 1;
    }
    assert chunks[..k] == chunks;
    digest := ctx.Final();
  }

  function Concat(chunks: seq<seq<byte>>): (m: seq<byte>)
  {
    if chunks == [] then [] else Concat(chunks[..|chunks| - 1]) + chunks[|chunks| - 1]
  }

  lemma ConcatNext(chunks: seq<seq<byte>>, k: nat)
    requires k < |chunks|
    ensures Concat(chunks[..k + 1]) == Concat(chunks[..k]) + chunks[k]
    ensures |Concat(chunks[..k + 1])| <= |Concat(chunks)|
  {
    assert chunks[..k + 1][..k] == chunks[..k];
    ConcatGrows(chunks, k + 1);
  }

  lemma {:induction false} ConcatGrows(chunks: seq<seq<byte>>, k: nat)
    requires k <= |chunks|
    ensures |Concat(chunks[..k])| <= |Concat(chunks)|
    decreases |chunks|
  {
    if k == |chunks| {
      assert chunks[..k] == chunks;
    } else {
      ConcatGrows(chunks[..|chunks| - 1], k);
      assert chunks[..|chunks| - 1][..k] == chunks[..k];
    }
  }

  /** hmac_sha256. */
  method HmacSha256(key: seq<byte>, msg: seq<byte>) returns (mac: seq<byte>)
    requires |key| < 0x1_0000_0000 && |msg| < 0x1_0000_0000
    ensures mac == Mac(key, msg)
  {
    hide Hash, Xor8;
    var k0 := Zeros(64);
    if |key| > 64 {
      var d := HashOf(key);
      k0 := d + k0[32..];
      assert k0 == BlockKey(key);
    } else {
      k0 := key + k0[|key|..];
      assert k0 == BlockKey(key);
    }
    var ipad, opad := [], [];
    var i := 0;
    while i < 64
      invariant 0 <= i <= 64
      invariant ipad == XorPad(k0, 0x36)[..i] && opad == XorPad(k0, 0x5C)[..i]
    {
      ipad := ipad + [Xor8(k0[i], 0x36)];
      opad := opad + [Xor8(k0[i], 0x5C)];
      i := i + 1;
    }
    var inner := HashTwo(XorPad(k0, 0x36), ipad, msg);
    mac := HashTwo(XorPad(k0, 0x5C), opad, inner);
  }

  /** One context, a padded key and then the rest. */
  method HashTwo(ghost p: seq<byte>, pad: seq<byte>, rest: seq<byte>) returns (digest: seq<byte>)
    requires |p| == 64 && pad == p[..64] && |rest| < 0x1_0000_0000
    ensures digest == Hash(p + rest)
  {
    hide Hash, Fold, Whole, Rest, Over, Iv;
    var ctx := new Context();
    ctx.Update(pad);
    ctx.Update(rest);
    digest := ctx.Final();
    assert [] + pad + rest == p + rest;
  }
}
