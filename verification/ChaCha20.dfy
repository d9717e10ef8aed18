/** ChaCha20 of section 2.3 and 2.4 of RFC 7539, and kernel/net/tls.c:121-157 that computes it. */
module ChaCha20 {
  import opened Bytes
  import opened Bits

  type word = bv32

  /** ---- The RFC ---- */

  /** Addition modulo 2^32. */
  function Add(x: word, y: word): (r: word) { x + y }

  function Rotl(v: word, n: bv6): (r: word) requires 0 < n < 32 { (v << n) | (v >> (32 - n)) }

  function Xor(x: word, y: word): (r: word) { x ^ y }

  datatype Four = Four(a: word, b: word, c: word, d: word)

  function HalfRound(q: Four, m: bv6, n: bv6): (r: Four)
    requires 0 < m < 32 && 0 < n < 32
  {
    var a := Add(q.a, q.b);
    var d := Rotl(Xor(q.d, a), m);
    var c := Add(q.c, d);
    Four(a, Rotl(Xor(q.b, c), n), c, d)
  }

  function QuarterRound(q: Four): (r: Four)
  {
    HalfRound(HalfRound(q, 16, 12), 8, 7)
  }

  type State = s: seq<word> | |s| == 16 witness seq(16, _ => 0)

  function Quarter(s: State, i: nat, j: nat, k: nat, l: nat): (r: State)
    requires i < 16 && j < 16 && k < 16 && l < 16
  {
    PutFour(s, i, j, k, l, QuarterRound(Four(s[i], s[j], s[k], s[l])))
  }

  function PutFour(s: State, i: nat, j: nat, k: nat, l: nat, q: Four): (r: State)
    requires i < 16 && j < 16 && k < 16 && l < 16
  {
    s[i := q.a][j := q.b][k := q.c][l := q.d]
  }

  function ColumnRound(s: State): (r: State)
  {
    Quarter(Quarter(Quarter(Quarter(s, 0, 4, 8, 12), 1, 5, 9, 13), 2, 6, 10, 14), 3, 7, 11, 15)
  }

  function DiagonalRound(s: State): (r: State)
  {
    Quarter(Quarter(Quarter(Quarter(s, 0, 5, 10, 15), 1, 6, 11, 12), 2, 7, 8, 13), 3, 4, 9, 14)
  }

  function DoubleRounds(s: State, n: nat): (r: State)
  {
    if n == 0 then s else DiagonalRound(ColumnRound(DoubleRounds(s, n - 1)))
  }

  function AddStates(x: State, s: State): (r: State)
  {
    seq(16, i requires 0 <= i < 16 => Add(x[i], s[i]))
  }

  function Block(s: State): (r: State)
  {
    AddStates(DoubleRounds(s, 10), s)
  }

  /** The octets of a word, least significant first. */
  function OctetOf(w: word, k: nat): (b: byte)
    requires k < 4
  {
    ((w >> (8 * k)) & 0xFF) as int
  }

  /** Four octets as a word, least significant first. */
  function LittleEndian(a: byte, b: byte, c: byte, d: byte): (w: word)
  {
    (a as word) | ((b as word) << 8) | ((c as word) << 16) | ((d as word) << 24)
  }

  function WordOf(s: seq<byte>): (w: word)
    requires |s| == 4
  {
    LittleEndian(s[0], s[1], s[2], s[3])
  }

  function WordsOf(s: seq<byte>, n: nat): (w: seq<word>)
    requires |s| == 4 * n
    ensures |w| == n
  {
    seq(n, i requires 0 <= i < n => WordOf(s[4 * i..4 * i + 4]))
  }

  /** "expand 32-byte k". */
  function Sigma(): (s: seq<byte>)
    ensures |s| == 16
  {
    [0x65, 0x78, 0x70, 0x61, 0x6e, 0x64, 0x20, 0x33, 0x32, 0x2d, 0x62, 0x79, 0x74, 0x65, 0x20, 0x6b]
  }

  function Setup(key: seq<byte>, nonce: seq<byte>, counter: word): (s: State)
    requires |key| == 32 && |nonce| == 12
  {
    WordsOf(Sigma(), 4) + WordsOf(key, 8) + [counter] + WordsOf(nonce, 3)
  }

  /** counter + n modulo 2^32. */
  function Advance(counter: word, n: nat): (c: word)
  {
    if n == 0 then counter else Add(Advance(counter, n - 1), 1)
  }

  /** Octet i of the key stream: octet i mod 64 of the block with counter + i / 64. */
  function KeyStream(key: seq<byte>, nonce: seq<byte>, counter: word, i: nat): (b: byte)
    requires |key| == 32 && |nonce| == 12
  {
    StreamOctet(Block(Setup(key, nonce, Advance(counter, i / 64))), i % 64)
  }

  function StreamOctet(block: State, j: nat): (b: byte)
    requires j < 64
  {
    OctetOf(block[j / 4], j % 4)
  }

  function Crypt(key: seq<byte>, nonce: seq<byte>, counter: word, m: seq<byte>): (c: seq<byte>)
    requires |key| == 32 && |nonce| == 12
    ensures |c| == |m|
  {
    seq(|m|, i requires 0 <= i < |m| => Xor8(m[i], KeyStream(key, nonce, counter, i)))
  }

  /** Encrypting twice is decrypting. */
  lemma CryptTwice(key: seq<byte>, nonce: seq<byte>, counter: word, m: seq<byte>)
    requires |key| == 32 && |nonce| == 12
    ensures Crypt(key, nonce, counter, Crypt(key, nonce, counter, m)) == m
  {
    hide KeyStream, Xor8;
    var c := Crypt(key, nonce, counter, m);
    forall i | 0 <= i < |m| ensures Crypt(key, nonce, counter, c)[i] == m[i] {
      Xor8Involution(m[i], KeyStream(key, nonce, counter, i));
    }
  }

  lemma AdvanceZero(counter: word)
    ensures Advance(counter, 0) == counter
  {
  }

  lemma {:induction false} AdvanceTwice(counter: word, a: nat, b: nat)
    ensures Advance(Advance(counter, a), b) == Advance(counter, a + b)
  {
    hide Add;
    if b > 0 { AdvanceTwice(counter, a, b - 1); }
  }

  /** Whole blocks can be encrypted on their own, the rest with the counter moved on. */
  lemma CryptSplits(key: seq<byte>, nonce: seq<byte>, counter: word, n: nat, a: seq<byte>, b: seq<byte>)
    requires |key| == 32 && |nonce| == 12 && |a| == 64 * n
    ensures Crypt(key, nonce, counter, a + b)
         == Crypt(key, nonce, counter, a) + Crypt(key, nonce, Advance(counter, n), b)
  {
    hide Xor8, Block, StreamOctet, Advance;
    forall i | 0 <= i < |b|
      ensures KeyStream(key, nonce, counter, |a| + i) == KeyStream(key, nonce, Advance(counter, n), i)
    {
      AdvanceTwice(counter, n, i / 64);
      assert (64 * n + i) / 64 == n + i / 64 && (64 * n + i) % 64 == i % 64;
    }
  }

  /** ---- The program ---- */

  /** Half of the macro QR on four words of an array. */
  method HalfAt(x: array<word>, i: nat, j: nat, k: nat, l: nat, m: bv6, n: bv6)
    requires x.Length == 16 && i < 16 && j < 16 && k < 16 && l < 16 && 0 < m < 32 && 0 < n < 32
    requires i != j && i != k && i != l && j != k && j != l && k != l
    modifies x
    ensures x[..] == PutFour(old(x[..]), i, j, k, l, HalfRound(old(Four(x[i], x[j], x[k], x[l])), m, n))
  {
    hide Add, Rotl, Xor;
    x[i] := Add(x[i], x[j]);
    x[l] := Rotl(Xor(x[l], x[i]), m);
    x[k] := Add(x[k], x[l]);
    x[j] := Rotl(Xor(x[j], x[k]), n);
  }

  /** Four words put and read, and put once more. */
  lemma PutTwice(s: State, i: nat, j: nat, k: nat, l: nat, q: Four, r: Four)
    requires i < 16 && j < 16 && k < 16 && l < 16
    requires i != j && i != k && i != l && j != k && j != l && k != l
    ensures var s1 := PutFour(s, i, j, k, l, q);
      Four(s1[i], s1[j], s1[k], s1[l]) == q && PutFour(s1, i, j, k, l, r) == PutFour(s, i, j, k, l, r)
  {
  }

  /** The macro QR. */
  method QuarterAt(x: array<word>, i: nat, j: nat, k: nat, l: nat)
    requires x.Length == 16 && i < 16 && j < 16 && k < 16 && l < 16
    requires i != j && i != k && i != l && j != k && j != l && k != l
    modifies x
    ensures x[..] == Quarter(old(x[..]), i, j, k, l)
  {
    hide HalfRound, PutFour;
    ghost var s := x[..];
    HalfAt(x, i, j, k, l, 16, 12);
    ghost var q := HalfRound(Four(s[i], s[j], s[k], s[l]), 16, 12);
    PutTwice(s, i, j, k, l, q, HalfRound(q, 8, 7));
    HalfAt(x, i, j, k, l, 8, 7);
  }

  /** chacha20_block. */
  method BlockInto(out: array<word>, input: array<word>)
    requires out.Length == 16 && input.Length == 16 && out != input
    modifies out
    ensures out[..] == Block(input[..])
  {
    hide Quarter, Add;
    var x := new word[16](i requires 0 <= i < 16 reads input => input[i]);
    assert x[..] == input[..];
    var i := 0;
    while i < 10
      invariant 0 <= i <= 10 && x[..] == DoubleRounds(input[..], i)
    {
      QuarterAt(x, 0, 4, 8, 12);
      QuarterAt(x, 1, 5, 9, 13);
      QuarterAt(x, 2, 6, 10, 14);
      QuarterAt(x, 3, 7, 11, 15);
      QuarterAt(x, 0, 5, 10, 15);
      QuarterAt(x, 1, 6, 11, 12);
      QuarterAt(x, 2, 7, 8, 13);
      QuarterAt(x, 3, 4, 9, 14);
      i := i + 1;
    }
    i := 0;
    while i < 16
      invariant 0 <= i <= 16 && x[..] == DoubleRounds(input[..], 10)
      invariant forall k :: 0 <= k < i ==> out[k] == Add(x[k], input[k])
    {
      out[i] := Add(x[i], input[i]);
      i := i + 1;
    }
  }

  /** The inner loop of chacha20_encrypt: up to 64 octets from at on. */
  method XorBlock(keystream: array<word>, input: array<byte>, out: array<byte>, at: nat, len: nat) returns (i: nat)
    requires keystream.Length == 16 && at < len <= input.Length && len <= out.Length
    requires keystream as object != out as object
    modifies out
    ensures i == if at + 64 < len then at + 64 else len
    ensures forall k :: at <= k < i ==> out[k] == Xor8(old(input[k]), StreamOctet(keystream[..], k - at))
    ensures forall k :: 0 <= k < at || i <= k < out.Length ==> out[k] == old(out[k])
  {
    hide Xor8, OctetOf;
    i := at;
    var j: nat := 0;
    ghost var block := keystream[..];
    while j < 64 && i < len
      invariant 0 <= j <= 64 && at <= i <= len && i == at + j && keystream[..] == block
      invariant forall k :: at <= k < i ==> out[k] == Xor8(old(input[k]), StreamOctet(keystream[..], k - at))
      invariant forall k :: 0 <= k < at || i <= k < out.Length ==> out[k] == old(out[k])
      decreases 64 - j
    {
      assert out[i] == old(out[i]) && input[i] == old(input[i]) && keystream[j / 4] == block[j / 4];
      out[i] := Xor8(input[i], OctetOf(keystream[j / 4], j % 4));
      j := j + 1;
      i := i + 1;
    }
  }

  /** chacha20_encrypt; the output may be the input. */
  method Encrypt(key: seq<byte>, nonce: seq<byte>, counter: word, input: array<byte>, out: array<byte>, len: nat)
    requires |key| == 32 && |nonce| == 12 && len <= input.Length && len <= out.Length && len < 0x1_0000_0000
    modifies out
    ensures out[..len] == Crypt(key, nonce, counter, old(input[..len]))
    ensures out[len..] == old(out[len..])
  {
    hide Block, Setup, Xor8, Advance, StreamOctet;
    ghost var m := input[..len];
    var s := Setup(key, nonce, counter);
    var state := new word[16](i requires 0 <= i < 16 => s[i]);
    var keystream := new word[16];
    AdvanceZero(counter);
    assert state[..] == s;
    var i: nat := 0;
    ghost var n: nat := 0;
    while i < len
      invariant 0 <= i <= len && (i == 64 * n || i == len)
      invariant state[..] == Setup(key, nonce, Advance(counter, n))
      invariant forall k :: 0 <= k < i ==> out[k] == Xor8(m[k], KeyStream(key, nonce, counter, k))
      invariant forall k :: i <= k < out.Length ==> out[k] == old(out[k])
      invariant forall k :: i <= k < len ==> input[k] == m[k]
      decreases len - i
    {
      BlockInto(keystream, state);
      NextCounter(key, nonce, counter, n);
      state[12] := Add(state[12], 1);
      assert state[..] == Setup(key, nonce, Advance(counter, n + 1));
      i := XorBlock(keystream, input, out, i, len);
      forall k | 64 * n <= k < i ensures out[k] == Xor8(m[k], KeyStream(key, nonce, counter, k)) {
        StreamPlace(n, k - 64 * n);
      }
      n := n + 1;
    }
    assert out[..len] == Crypt(key, nonce, counter, m);
  }

  lemma NextCounter(key: seq<byte>, nonce: seq<byte>, counter: word, n: nat)
    requires |key| == 32 && |nonce| == 12
    ensures var s := Setup(key, nonce, Advance(counter, n));
      s[12 := Add(s[12], 1)] == Setup(key, nonce, Advance(counter, n + 1))
  {
    hide WordOf, Add;
  }

  lemma StreamPlace(n: nat, j: nat)
    requires j < 64
    ensures (64 * n + j) / 64 == n && (64 * n + j) % 64 == j
  {
  }
}
