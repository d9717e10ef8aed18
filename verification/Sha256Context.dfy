/** The streaming context of kernel/net/tls.c:36-96: any sequence of updates hashes the concatenated
    message. */
module Sha256Context {
  import opened Bytes
  import opened Bits
  import opened Sha256

  function VarsOf(s: seq<word>): (v: Vars)
    requires |s| == 8
  {
    Vars(s[0], s[1], s[2], s[3], s[4], s[5], s[6], s[7])
  }

  /** How many octets of n are past the last whole block. */
  function Over(n: nat): (k: nat)
    ensures k < 64
  {
    n % 64
  }

  lemma OverNext(n: nat)
    ensures Over(n + 1) == if Over(n) == 63 then 0 else Over(n) + 1
  {
  }

  /** The octets of m in whole blocks, and those after the last whole block. */
  function Whole(m: seq<byte>): (s: seq<byte>)
    ensures |s| % 64 == 0 && |m| - 64 < |s| <= |m|
  {
    m[..|m| - Over(|m|)]
  }

  function Rest(m: seq<byte>): (s: seq<byte>)
    ensures |s| == Over(|m|) && m == Whole(m) + s
  {
    m[|m| - Over(|m|)..]
  }

  lemma ScheduleFirst(block: seq<byte>, t: nat)
    requires |block| == 64 && t < 16
    ensures Schedule(block, t) == BigEndian(block[t * 4], block[t * 4 + 1], block[t * 4 + 2], block[t * 4 + 3])
  {
    hide BigEndian;
  }

  lemma ScheduleNext(block: seq<byte>, t: nat)
    requires |block| == 64 && t >= 16
    ensures Schedule(block, t) == Add(Add(Add(SmallSigma1(Schedule(block, t - 2)), Schedule(block, t - 7)),
      SmallSigma0(Schedule(block, t - 15))), Schedule(block, t - 16))
  {
    hide Add, SmallSigma0, SmallSigma1;
  }

  lemma RoundsStart(v: Vars, block: seq<byte>)
    requires |block| == 64
    ensures Rounds(v, block, 0) == v
  {
  }

  lemma RoundsNext(v: Vars, block: seq<byte>, t: nat)
    requires |block| == 64 && t < 64
    ensures Rounds(v, block, t + 1) == Round(Rounds(v, block, t), Constants()[t], Schedule(block, t))
  {
    hide Round, Constants, Schedule;
  }

  /** The schedule and the rounds of sha256_transform. */
  method ExpandSchedule(block: seq<byte>) returns (w: array<word>)
    requires |block| == 64
    ensures fresh(w) && w.Length == 64 && forall t :: 0 <= t < 64 ==> w[t] == Schedule(block, t)
  {
    hide Add, BigEndian, SmallSigma0, SmallSigma1, Schedule;
    w := new word[64];
    var i := 0;
    while i < 16
      invariant 0 <= i <= 16 && forall t :: 0 <= t < i ==> w[t] == Schedule(block, t)
    {
      ScheduleFirst(block, i);
      w[i] := BigEndian(block[i * 4], block[i * 4 + 1], block[i * 4 + 2], block[i * 4 + 3]);
      i := i + 1;
    }
    while i < 64
      invariant 16 <= i <= 64 && forall t :: 0 <= t < i ==> w[t] == Schedule(block, t)
    {
      ScheduleNext(block, i);
      w[i] := Add(Add(Add(SmallSigma1(w[i - 2]), w[i - 7]), SmallSigma0(w[i - 15])), w[i - 16]);
      i := i + 1;
    }
  }

  method RunRounds(v: Vars, block: seq<byte>, w: array<word>) returns (r: Vars)
    requires |block| == 64 && w.Length == 64 && forall t :: 0 <= t < 64 ==> w[t] == Schedule(block, t)
    ensures r == Rounds(v, block, 64)
  {
    hide Add, Constants, Schedule, BigSigma0, BigSigma1, Ch, Maj, Rounds;
    var a, b, c, d, e, f, g, h := v.a, v.b, v.c, v.d, v.e, v.f, v.g, v.h;
    var i := 0;
    RoundsStart(v, block);
    while i < 64
      invariant 0 <= i <= 64 && Vars(a, b, c, d, e, f, g, h) == Rounds(v, block, i)
    {
      RoundsNext(v, block, i);
      var t1 := Add(Add(Add(Add(h, BigSigma1(e)), Ch(e, f, g)), Constants()[i]), w[i]);
      var t2 := Add(BigSigma0(a), Maj(a, b, c));
      h, g, f, e, d, c, b, a := g, f, e, Add(d, t1), c, b, a, Add(t1, t2);
      i := i + 1;
    }
    r := Vars(a, b, c, d, e, f, g, h);
  }

  lemma AddVarsIs(v: Vars, w: Vars)
    ensures AddVars(v, w) == Vars(Add(v.a, w.a), Add(v.b, w.b), Add(v.c, w.c), Add(v.d, w.d),
                                  Add(v.e, w.e), Add(v.f, w.f), Add(v.g, w.g), Add(v.h, w.h))
  {
    hide Add;
  }

  lemma CompressIs(v: Vars, block: seq<byte>)
    requires |block| == 64
    ensures Compress(v, block) == AddVars(v, Rounds(v, block, 64))
  {
    hide AddVars, Rounds;
  }

  class Context {
    var state: seq<word>
    var count: nat
    const buf: array<byte>
    ghost var msg: seq<byte>

    /** The chaining value covers the whole blocks of the message so far, the buffer holds the rest. */
    ghost predicate Valid()
      reads this, buf
    {
      && buf.Length == 64 && |state| == 8 && |msg| < 0x2000_0000_0000_0000 && count == |msg|
      && VarsOf(state) == Fold(Iv(), Whole(msg)) && buf[..Over(|msg|)] == Rest(msg)
    }

    /** sha256_init. */
    constructor ()
      ensures Valid() && fresh(buf) && msg == []
    {
      buf := new byte[64](_ => 0);
      count := 0;
      state := [0x6a09e667, 0xbb67ae85, 0x3c6ef372, 0xa54ff53a, 0x510e527f, 0x9b05688c, 0x1f83d9ab, 0x5be0cd19];
      msg := [];
    }

    /** sha256_transform of the buffer. */
    method Transform()
      requires |state| == 8 && buf.Length == 64
      modifies this`state
      ensures |state| == 8 && VarsOf(state) == Compress(VarsOf(old(state)), buf[..])
    {
      hide Add, Rounds, Compress, AddVars;
      ghost var v := VarsOf(state);
      var w := ExpandSchedule(buf[..]);
      var r := RunRounds(VarsOf(state), buf[..], w);
      state := [Add(state[0], r.a), Add(state[1], r.b), Add(state[2], r.c), Add(state[3], r.d),
                Add(state[4], r.e), Add(state[5], r.f), Add(state[6], r.g), Add(state[7], r.h)];
      AddVarsIs(v, r);
      CompressIs(v, buf[..]);
    }

    /** sha256_update: the message grows by data. */
    method Update(data: seq<byte>)
      requires Valid() && |data| < 0x1_0000_0000 && |msg| + |data| < 0x2000_0000_0000_0000
      modifies this, buf
      ensures Valid() && msg == old(msg) + data
    {
      hide Compress, Fold, Over, Whole, Rest;
      var i := Over(count);
      count := U64(count + |data|);
      ghost var m := msg;
      var j := 0;
      while j < |data|
        invariant 0 <= j <= |data| && msg == m + data[..j] && i == Over(|msg|)
        invariant buf.Length == 64 && |state| == 8 && count == |m| + |data|
        invariant VarsOf(state) == Fold(Iv(), Whole(msg)) && buf[..i] == Rest(msg)
      {
        i := TakeOctet(i, data[j]);
        assert m + data[..j + 1] == m + data[..j] + [data[j]];
        j := j + 1;
      }
      msg := m + data;
      assert data[..j] == data;
    }

    /** One octet goes to the buffer, and a full buffer to the chaining value. */
    method TakeOctet(at: nat, x: byte) returns (i: nat)
      requires buf.Length == 64 && |state| == 8 && at == Over(|msg|)
      requires VarsOf(state) == Fold(Iv(), Whole(msg)) && buf[..at] == Rest(msg)
      modifies this`state, this`msg, buf
      ensures |state| == 8 && i == Over(|msg|) && msg == old(msg) + [x]
      ensures VarsOf(state) == Fold(Iv(), Whole(msg)) && buf[..i] == Rest(msg)
    {
      hide Compress, Fold;
      hide Over, Whole, Rest;
      ghost var v := VarsOf(state);
      buf[at] := x;
      i := at + 1;
      if i == 64 {
        BlockFilled(msg, x, v, buf[..]);
        Transform();
        i := 0;
      } else {
        OctetAdded(msg, x);
        assert buf[..i] == Rest(msg) + [x];
      }
      msg := msg + [x];
    }

    /** sha256_final: the hash of the message; the context is spent. */
    method Final() returns (digest: seq<byte>)
      requires Valid()
      modifies this, buf
      ensures digest == Hash(old(msg))
    {
      hide Compress, Fold, Be, Padding, Serialize;
      ghost var m, v, tail := msg, VarsOf(state), Rest(msg) + [0x80];
      FinalFold(m, v);
      var bits := U64(count * 8);
      var i := CloseMessage(Over(count));
      FillZeros(i, 56);
      assert buf[..56] == buf[..i] + buf[i..56];
      StoreLength(bits);
      assert buf[..] == buf[..56] + buf[56..];
      Transform();
      digest := Emit();
    }

    /** The octet 0x80, and a block of its own if the length no longer fits. */
    method CloseMessage(at: nat) returns (i: nat)
      requires buf.Length == 64 && |state| == 8 && at < 64
      modifies this`state, buf
      ensures |state| == 8
      ensures var tail := old(buf[..at]) + [0x80];
        if |tail| > 56 then i == 0 && VarsOf(state) == Compress(VarsOf(old(state)), tail + Zeros(64 - |tail|))
        else i == |tail| && buf[..i] == tail && state == old(state)
    {
      hide Compress;
      i := at;
      buf[i] := 0x80;
      i := i + 1;
      ghost var tail := old(buf[..at]) + [0x80];
      assert buf[..i] == tail;
      if i > 56 {
        FillZeros(i, 64);
        assert buf[..] == tail + Zeros(64 - |tail|) by { assert buf[..] == buf[..i] + buf[i..64]; }
        Transform();
        i := 0;
      }
    }

    /** A loop of sha256_final that clears the buffer from i to end. */
    method FillZeros(i: nat, end: nat)
      requires buf.Length == 64 && i <= end <= 64
      modifies buf
      ensures buf[..i] == old(buf[..i]) && buf[i..end] == Zeros(end - i) && buf[end..] == old(buf[end..])
    {
      var k := i;
      while k < end
        invariant i <= k <= end && buf[..i] == old(buf[..i]) && buf[i..k] == Zeros(k - i)
        invariant buf[end..] == old(buf[end..])
      {
        buf[k] := 0;
        k := k + 1;
      }
    }

    /** The length in bits, most significant octet first: stored by one loop, and once more by another,
        which changes nothing. */
    method StoreLength(bits: nat)
      requires buf.Length == 64 && bits < 0x1_0000_0000_0000_0000
      modifies buf
      ensures buf[..56] == old(buf[..56]) && buf[56..] == Be(bits, 8)
    {
      StoreLengthDown(bits);
      StoreLengthAgain(bits);
    }

    /** From the last octet to the first, shifting the length as it goes. */
    method StoreLengthDown(bits: nat)
      requires buf.Length == 64
      modifies buf
      ensures buf[..56] == old(buf[..56]) && buf[56..] == Be(bits, 8)
    {
      var left := bits;
      var k := 8;
      while k > 0
        invariant 0 <= k <= 8 && buf[..56] == old(buf[..56]) && Be(bits, 8) == Be(left, k) + buf[56 + k..]
      {
        ghost var stored := buf[56 + k..];
        k := k - 1;
        buf[56 + k] := left % 256;
        assert buf[56 + k..] == [left % 256] + stored;
        left := left / 256;
      }
    }

    /** From the first to the last, each octet by its own shift: they are there already. */
    method StoreLengthAgain(bits: nat)
      requires buf.Length == 64 && buf[56..] == Be(bits, 8)
      modifies buf
      ensures buf[..] == old(buf[..])
    {
      var k := 0;
      while k < 8
        invariant 0 <= k <= 8 && buf[..] == old(buf[..])
      {
        BeAt(bits, 8, k);
        assert old(buf[56..])[k] == buf[56 + k];
        buf[56 + k] := (bits / Pow256(7 - k)) % 256;
        k := k + 1;
      }
    }

    /** The last loop of sha256_final. */
    method Emit() returns (digest: seq<byte>)
      requires |state| == 8
      ensures digest == Serialize(VarsOf(state))
    {
      hide Octets;
      digest := [];
      var k := 0;
      while k < 8
        invariant 0 <= k <= 8
        invariant digest == Joined(state, k)
      {
        digest := digest + Octets(state[k]);
        k := k + 1;
      }
      JoinedIsSerialized(state);
    }
  }

  function Joined(s: seq<word>, k: nat): (d: seq<byte>)
    requires k <= |s|
  {
    if k == 0 then [] else Joined(s, k - 1) + Octets(s[k - 1])
  }

  lemma JoinedIsSerialized(s: seq<word>)
    requires |s| == 8
    ensures Joined(s, 8) == Serialize(VarsOf(s))
  {
    hide Octets;
    assert Joined(s, 1) == Octets(s[0]);
    assert Joined(s, 2) == Octets(s[0]) + Octets(s[1]);
    assert Joined(s, 4) == Joined(s, 2) + Octets(s[2]) + Octets(s[3]);
    assert Joined(s, 6) == Joined(s, 4) + Octets(s[4]) + Octets(s[5]);
    assert Joined(s, 8) == Joined(s, 6) + Octets(s[6]) + Octets(s[7]);
  }

  lemma OctetAdded(m: seq<byte>, x: byte)
    requires Over(|m|) != 63
    ensures Over(|m| + 1) == Over(|m|) + 1
    ensures Whole(m + [x]) == Whole(m) && Rest(m + [x]) == Rest(m) + [x]
  {
    OverNext(|m|);
    hide Over;
    var n := |m| - Over(|m|);
    assert (m + [x])[..n] == m[..n] && (m + [x])[n..] == m[n..] + [x];
  }

  lemma BlockFilled(m: seq<byte>, x: byte, v: Vars, block: seq<byte>)
    requires Over(|m|) == 63 && v == Fold(Iv(), Whole(m))
    requires |block| == 64 && block[..63] == Rest(m) && block[63] == x
    ensures Over(|m| + 1) == 0
    ensures Fold(Iv(), Whole(m + [x])) == Compress(v, block) && Rest(m + [x]) == []
  {
    hide Compress, Fold;
    OverNext(|m|);
    hide Over;
    assert block == Rest(m) + [x];
    assert Whole(m + [x]) == Whole(m) + block;
    FoldBlock(Iv(), Whole(m), block);
  }

  /** The one or two blocks that end the message. */
  lemma FinalFold(m: seq<byte>, v: Vars)
    requires v == Fold(Iv(), Whole(m))
    ensures var tail := Rest(m) + [0x80];
      Fold(Iv(), m + Padding(|m|)) ==
        if |tail| > 56 then Compress(Compress(v, tail + Zeros(64 - |tail|)), Zeros(56) + Be(8 * |m|, 8))
        else Compress(v, tail + Zeros(56 - |tail|) + Be(8 * |m|, 8))
  {
    hide Compress, Fold, Be, Padding, Whole, Rest, Over;
    var tail, len := Rest(m) + [0x80], Be(8 * |m|, 8);
    PaddedBlocks(m);
    if |tail| > 56 {
      var b1, b2 := tail + Zeros(64 - |tail|), Zeros(56) + len;
      FoldBlock(Iv(), Whole(m) + b1, b2);
      FoldBlock(Iv(), Whole(m), b1);
    } else {
      FoldBlock(Iv(), Whole(m), tail + Zeros(56 - |tail|) + len);
    }
  }

  lemma PaddedBlocks(m: seq<byte>)
    ensures var tail, len := Rest(m) + [0x80], Be(8 * |m|, 8);
      m + Padding(|m|) ==
        if |tail| > 56 then Whole(m) + (tail + Zeros(64 - |tail|)) + (Zeros(56) + len)
        else Whole(m) + (tail + Zeros(56 - |tail|) + len)
  {
    hide Be;
    var tail, len := Rest(m) + [0x80], Be(8 * |m|, 8);
    assert ZeroCount(|m|) == if |tail| > 56 then 64 - |tail| + 56 else 56 - |tail|;
    hide ZeroCount, Whole, Rest, Over;
    if |tail| > 56 { ZerosConcat(64 - |tail|, 56); }
    assert m + Padding(|m|) == Whole(m) + tail + Zeros(ZeroCount(|m|)) + len;
  }

  lemma ZerosConcat(a: nat, b: nat)
    ensures Zeros(a) + Zeros(b) == Zeros(a + b)
  {
  }
}
