/** ChaCha20-Poly1305 as kernel/net/tls.c:256-316 composes it. The source shifts 32-bit lengths by 32 and
    more, which C leaves undefined: the upper half of each length is therefore an arbitrary function, the
    same one for sealing and opening. */
module Aead {
  import opened Bytes
  import opened Bits
  import opened ChaCha20
  import P = Poly1305

  /** mac_input. */
  const BUFFER: nat := 4160

  /** Octet i of a shifted length, for i from 4 on. */
  type Upper = (nat, nat) -> byte

  function PadCount(n: nat): (k: nat)
    ensures k < 16 && (n + k) % 16 == 0
  {
    (16 - n % 16) % 16
  }

  function Padded(s: seq<byte>): (r: seq<byte>)
    ensures |r| % 16 == 0
  {
    s + Zeros(PadCount(|s|))
  }

  function Length(n: nat, up: Upper): (r: seq<byte>)
    ensures |r| == 8
  {
    LeBytes(n, 4) + [up(n, 4), up(n, 5), up(n, 6), up(n, 7)]
  }

  /** What is authenticated: both parts padded, then both lengths. */
  function MacInput(aad: seq<byte>, cipher: seq<byte>, up: Upper): (s: seq<byte>)
  {
    Padded(aad) + Padded(cipher) + Length(|aad|, up) + Length(|cipher|, up)
  }

  predicate Fits(aad: seq<byte>, n: nat)
  {
    |aad| + PadCount(|aad|) + n + PadCount(n) + 16 <= BUFFER
  }

  function OneTimeKey(key: seq<byte>, nonce: seq<byte>): (k: seq<byte>)
    requires |key| == 32 && |nonce| == 12
    ensures |k| == 32
  {
    Crypt(key, nonce, 0, Zeros(32))
  }

  function TagOf(key: seq<byte>, nonce: seq<byte>, aad: seq<byte>, cipher: seq<byte>, up: Upper): (t: seq<byte>)
    requires |key| == 32 && |nonce| == 12
    ensures |t| == 16
  {
    LeBytes(P.Tag(OneTimeKey(key, nonce), MacInput(aad, cipher, up)), 16)
  }

  datatype Sealed = Sealed(cipher: seq<byte>, tag: seq<byte>)

  datatype Opened = Rejected | Plain(plain: seq<byte>)

  function Seal(key: seq<byte>, nonce: seq<byte>, aad: seq<byte>, plain: seq<byte>, up: Upper): (s: Sealed)
    requires |key| == 32 && |nonce| == 12
  {
    var cipher := Crypt(key, nonce, 1, plain);
    Sealed(cipher, TagOf(key, nonce, aad, cipher, up))
  }

  function Open(key: seq<byte>, nonce: seq<byte>, aad: seq<byte>, s: Sealed, up: Upper): (o: Opened)
    requires |key| == 32 && |nonce| == 12
  {
    if s.tag == TagOf(key, nonce, aad, s.cipher, up) then Plain(Crypt(key, nonce, 1, s.cipher)) else Rejected
  }

  /** What was sealed opens to the plaintext. */
  lemma SealThenOpen(key: seq<byte>, nonce: seq<byte>, aad: seq<byte>, plain: seq<byte>, up: Upper)
    requires |key| == 32 && |nonce| == 12
    ensures Open(key, nonce, aad, Seal(key, nonce, aad, plain, up), up) == Plain(plain)
  {
    hide TagOf, Crypt;
    CryptTwice(key, nonce, 1, plain);
  }

  /** Different pairs of associated data and ciphertext are authenticated as different strings. */
  lemma MacInputInjective(aad: seq<byte>, cipher: seq<byte>, aad': seq<byte>, cipher': seq<byte>, up: Upper)
    requires |aad| < 0x1_0000_0000 && |cipher| < 0x1_0000_0000
    requires |aad'| < 0x1_0000_0000 && |cipher'| < 0x1_0000_0000
    requires MacInput(aad, cipher, up) == MacInput(aad', cipher', up)
    ensures aad == aad' && cipher == cipher'
  {
    hide PadCount, Length, LeBytes;
    var s, s' := MacInput(aad, cipher, up), MacInput(aad', cipher', up);
    LengthsAtEnd(aad, cipher, up);
    LengthsAtEnd(aad', cipher', up);
    LengthInjective(|aad|, |aad'|, up);
    LengthInjective(|cipher|, |cipher'|, up);
    assert aad == s[..|aad|] && aad' == s'[..|aad|];
    var k := |Padded(aad)|;
    assert cipher == s[k..k + |cipher|] && cipher' == s'[k..k + |cipher|];
  }

  /** What is sealed is the key stream of counter 0: its first 32 octets are the key of the authenticator, and
      the ciphertext begins behind its first 64. */
  lemma SealIsOneStream(key: seq<byte>, nonce: seq<byte>, aad: seq<byte>, plain: seq<byte>, up: Upper)
    requires |key| == 32 && |nonce| == 12
    ensures var stream := Crypt(key, nonce, 0, Zeros(64) + plain); var sealed := Seal(key, nonce, aad, plain, up);
      && sealed.cipher == stream[64..]
      && sealed.tag == LeBytes(P.Tag(stream[..32], MacInput(aad, stream[64..], up)), 16)
  {
    hide P.Tag, MacInput, Xor8, KeyStream, LeBytes, Advance;
    CryptSplits(key, nonce, 0, 1, Zeros(64), plain);
    FirstAdvance();
    var stream := Crypt(key, nonce, 0, Zeros(64) + plain);
    assert stream[64..] == Crypt(key, nonce, 1, plain);
    assert stream[..32] == OneTimeKey(key, nonce);
  }

  lemma FirstAdvance()
    ensures Advance(0, 1) == 1
  {
    assert Advance(0, 1) == Add(Advance(0, 0), 1);
  }

  /** The string to authenticate, octet by octet: section 2.8 of RFC 7539. */
  lemma MacInputLayout(aad: seq<byte>, cipher: seq<byte>, up: Upper)
    requires |aad| < 0x1_0000_0000 && |cipher| < 0x1_0000_0000
    ensures var s, a, c := MacInput(aad, cipher, up), 16 * ((|aad| + 15) / 16), 16 * ((|cipher| + 15) / 16);
      && |s| == a + c + 16 && |aad| <= a && |cipher| <= c
      && s[..|aad|] == aad && (forall k :: |aad| <= k < a ==> s[k] == 0)
      && s[a..a + |cipher|] == cipher && (forall k :: a + |cipher| <= k < a + c ==> s[k] == 0)
      && Le(s[a + c..a + c + 4]) == |aad| && Le(s[a + c + 8..a + c + 12]) == |cipher|
  {
    hide PadCount, Le, LeBytes;
    RoundUp(|aad|);
    RoundUp(|cipher|);
    LengthRead(|aad|, up);
    LengthRead(|cipher|, up);
    var s, a, c := MacInput(aad, cipher, up), 16 * ((|aad| + 15) / 16), 16 * ((|cipher| + 15) / 16);
    assert |Padded(aad)| == a && |Padded(cipher)| == c;
    hide Length;
    assert s[a + c..a + c + 8] == Length(|aad|, up) && s[a + c + 8..] == Length(|cipher|, up);
    assert s[a + c..a + c + 4] == Length(|aad|, up)[..4];
    assert s[a + c + 8..a + c + 12] == Length(|cipher|, up)[..4];
  }

  lemma RoundUp(n: nat)
    ensures n + PadCount(n) == 16 * ((n + 15) / 16)
  {
  }

  lemma LengthRead(n: nat, up: Upper)
    requires n < 0x1_0000_0000
    ensures Le(Length(n, up)[..4]) == n
  {
    hide Le, LeBytes;
    assert Length(n, up)[..4] == LeBytes(n, 4);
    LeOfLeBytes(n, 4);
    assert Pow256(4) == 0x1_0000_0000;
  }

  lemma LengthsAtEnd(aad: seq<byte>, cipher: seq<byte>, up: Upper)
    ensures var s := MacInput(aad, cipher, up);
      |s| >= 16 && s[|s| - 16..|s| - 8] == Length(|aad|, up) && s[|s| - 8..] == Length(|cipher|, up)
  {
    hide Padded, Length;
  }

  lemma LengthInjective(n: nat, m: nat, up: Upper)
    requires n < 0x1_0000_0000 && m < 0x1_0000_0000 && Length(n, up) == Length(m, up)
    ensures n == m
  {
    hide LeBytes;
    assert Length(n, up)[..4] == LeBytes(n, 4) && Length(m, up)[..4] == LeBytes(m, 4);
    LeOfLeBytes(n, 4);
    LeOfLeBytes(m, 4);
    assert Pow256(4) == 0x1_0000_0000;
  }

  /** ---- The program ---- */

  /** The first loop of both functions: the string to authenticate, in a buffer of 4160 octets. */
  method BuildMacInput(aad: seq<byte>, cipher: seq<byte>, up: Upper) returns (input: seq<byte>)
    requires Fits(aad, |cipher|)
    ensures input == MacInput(aad, cipher, up) && |input| <= BUFFER
  {
    hide Length;
    var mi: array<byte> := new byte[BUFFER](_ => 0);
    var n := Append(mi, 0, aad);
    n := PadTo16(mi, n);
    assert mi[..n] == Padded(aad);
    n := Append(mi, n, cipher);
    PadCountShift(|Padded(aad)|, |cipher|);
    n := PadTo16(mi, n);
    assert mi[..n] == Padded(aad) + Padded(cipher);
    var l1 := LengthOctets(|aad|, up);
    n := Append(mi, n, l1);
    var l2 := LengthOctets(|cipher|, up);
    n := Append(mi, n, l2);
    input := mi[..n];
  }

  lemma PadCountShift(a: nat, n: nat)
    requires a % 16 == 0
    ensures PadCount(a + n) == PadCount(n)
  {
    ModShift(a, n);
  }

  lemma ModShift(a: nat, n: nat)
    requires a % 16 == 0
    ensures (a + n) % 16 == n % 16
  {
    assert a + n == 16 * (a / 16 + n / 16) + n % 16;
  }

  /** Zeros up to a multiple of sixteen. */
  method PadTo16(buf: array<byte>, at: nat) returns (end: nat)
    requires at + PadCount(at) <= buf.Length
    modifies buf
    ensures end == at + PadCount(at) && buf[..end] == old(buf[..at]) + Zeros(PadCount(at))
  {
    end := at;
    while end % 16 != 0
      invariant at <= end <= at + PadCount(at) && buf[..end] == old(buf[..at]) + Zeros(end - at)
      decreases at + PadCount(at) - end
    {
      PadNotDone(at, end);
      buf[end] := 0;
      end := end + 1;
    }
    PadDone(at, end);
  }

  lemma PadNotDone(at: nat, end: nat)
    requires at <= end <= at + PadCount(at) && end % 16 != 0
    ensures end < at + PadCount(at)
  {
  }

  lemma PadDone(at: nat, end: nat)
    requires at <= end <= at + PadCount(at) && end % 16 == 0
    ensures end == at + PadCount(at)
  {
    assert PadCount(at) < 16;
  }

  /** Eight octets of a length, shifted out one by one. */
  method LengthOctets(n: nat, up: Upper) returns (s: seq<byte>)
    ensures s == Length(n, up)
  {
    var i := 0;
    s := [];
    while i < 8
      invariant 0 <= i <= 8 && s == Length(n, up)[..i]
    {
      if i < 4 { LeBytesAt(n, 4, i); }
      s := s + [if i < 4 then (n / Pow256(i)) % 256 else up(n, i)];
      i := i + 1;
    }
  }

  /** The key of the authenticator: 32 octets of the block with counter 0. */
  method DeriveKey(key: seq<byte>, nonce: seq<byte>) returns (otk: seq<byte>)
    requires |key| == 32 && |nonce| == 12
    ensures otk == OneTimeKey(key, nonce)
  {
    var zero32 := new byte[32](_ => 0);
    var out := new byte[32](_ => 0);
    Encrypt(key, nonce, 0, zero32, out, 32);
    assert zero32[..32] == Zeros(32);
    otk := out[..32];
  }

  /** chacha20poly1305_encrypt; the ciphertext may replace the plaintext. */
  method SealInto(key: seq<byte>, nonce: seq<byte>, aad: seq<byte>, plain: array<byte>, n: nat, cipherOut: array<byte>,
      tagOut: array<byte>, up: Upper) returns (ret: int)
    requires |key| == 32 && |nonce| == 12 && n <= plain.Length && n <= cipherOut.Length && Fits(aad, n)
    requires tagOut.Length == 16 && tagOut != cipherOut && tagOut != plain
    modifies cipherOut, tagOut
    ensures ret == 0
    ensures Sealed(cipherOut[..n], tagOut[..]) == Seal(key, nonce, aad, old(plain[..n]), up)
    ensures cipherOut[n..] == old(cipherOut[n..])
  {
    hide Crypt, P.Tag, MacInput, OneTimeKey;
    var otk := DeriveKey(key, nonce);
    Encrypt(key, nonce, 1, plain, cipherOut, n);
    var input := BuildMacInput(aad, cipherOut[..n], up);
    var tag := P.Poly1305Mac(otk, input);
    forall k | 0 <= k < 16 { tagOut[k] := tag[k]; }
    assert tagOut[..] == tag;
    ret := 0;
  }

  /** chacha20poly1305_decrypt: -1 and no output exactly when the tag is not the recomputed one. */
  method OpenInto(key: seq<byte>, nonce: seq<byte>, aad: seq<byte>, cipher: array<byte>, n: nat, tag: seq<byte>,
      plainOut: array<byte>, up: Upper) returns (ret: int)
    requires |key| == 32 && |nonce| == 12 && |tag| == 16
    requires n <= cipher.Length && n <= plainOut.Length && Fits(aad, n)
    modifies plainOut
    ensures var o := Open(key, nonce, aad, Sealed(old(cipher[..n]), tag), up);
      if o == Rejected then ret == -1 && plainOut[..] == old(plainOut[..])
      else ret == 0 && plainOut[..n] == o.plain && plainOut[n..] == old(plainOut[n..])
  {
    hide Crypt, P.Tag, MacInput, OneTimeKey;
    var otk := DeriveKey(key, nonce);
    var input := BuildMacInput(aad, cipher[..n], up);
    var expected := P.Poly1305Mac(otk, input);
    var same := SameTag(expected, tag);
    if !same { return -1; }
    Encrypt(key, nonce, 1, cipher, plainOut, n);
    ret := 0;
  }

  /** The comparison in constant time: no difference is left after all sixteen octets. */
  method SameTag(expected: seq<byte>, tag: seq<byte>) returns (same: bool)
    requires |expected| == |tag| == 16
    ensures same <==> expected == tag
  {
    hide Bitwise;
    var diff: byte := 0;
    var i := 0;
    assert Pow2(8) == 256;
    while i < 16
      invariant 0 <= i <= 16 && (diff == 0 <==> expected[..i] == tag[..i])
    {
      XorZeroIffEqual(expected[i], tag[i], 8);
      var x := Xor8(expected[i], tag[i]);
      OrZeroIffBothZero(diff, x, 8);
      diff := Bitwise(Or, diff, x, 8);
      assert expected[..i + 1] == expected[..i] + [expected[i]] && tag[..i + 1] == tag[..i] + [tag[i]];
      i := i + 1;
    }
    assert expected[..i] == expected && tag[..i] == tag;
    same := diff == 0;
  }
}
