/** SHA-256 as FIPS 180-4 defines it, and what its padding is for. */
module Sha256 {
  import opened Bytes

  type word = bv32

  /** ---- Sections 4 to 6 of FIPS 180-4 ---- */

  /** Addition modulo 2^32. */
  function Add(x: word, y: word): (r: word) { x + y }

  function Ror(x: word, n: bv6): (r: word) requires 0 < n < 32 { (x >> n) | (x << (32 - n)) }

  function Ch(e: word, f: word, g: word): (r: word) { (e & f) ^ (!e & g) }

  function Maj(a: word, b: word, c: word): (r: word) { (a & b) ^ (a & c) ^ (b & c) }

  function BigSigma0(x: word): (r: word) { Ror(x, 2) ^ Ror(x, 13) ^ Ror(x, 22) }

  function BigSigma1(x: word): (r: word) { Ror(x, 6) ^ Ror(x, 11) ^ Ror(x, 25) }

  function SmallSigma0(x: word): (r: word) { Ror(x, 7) ^ Ror(x, 18) ^ (x >> 3) }

  function SmallSigma1(x: word): (r: word) { Ror(x, 17) ^ Ror(x, 19) ^ (x >> 10) }

  function ConstantRow(r: nat): (k: seq<word>)
    requires r < 8
    ensures |k| == 8
  {
    match r
    case 0 => [0x428a2f98, 0x71374491, 0xb5c0fbcf, 0xe9b5dba5, 0x3956c25b, 0x59f111f1, 0x923f82a4, 0xab1c5ed5]
    case 1 => [0xd807aa98, 0x12835b01, 0x243185be, 0x550c7dc3, 0x72be5d74, 0x80deb1fe, 0x9bdc06a7, 0xc19bf174]
    case 2 => [0xe49b69c1, 0xefbe4786, 0x0fc19dc6, 0x240ca1cc, 0x2de92c6f, 0x4a7484aa, 0x5cb0a9dc, 0x76f988da]
    case 3 => [0x983e5152, 0xa831c66d, 0xb00327c8, 0xbf597fc7, 0xc6e00bf3, 0xd5a79147, 0x06ca6351, 0x14292967]
    case 4 => [0x27b70a85, 0x2e1b2138, 0x4d2c6dfc, 0x53380d13, 0x650a7354, 0x766a0abb, 0x81c2c92e, 0x92722c85]
    case 5 => [0xa2bfe8a1, 0xa81a664b, 0xc24b8b70, 0xc76c51a3, 0xd192e819, 0xd6990624, 0xf40e3585, 0x106aa070]
    case 6 => [0x19a4c116, 0x1e376c08, 0x2748774c, 0x34b0bcb5, 0x391c0cb3, 0x4ed8aa4a, 0x5b9cca4f, 0x682e6ff3]
    case _ => [0x748f82ee, 0x78a5636f, 0x84c87814, 0x8cc70208, 0x90befffa, 0xa4506ceb, 0xbef9a3f7, 0xc67178f2]
  }

  /** The 64 round constants. */
  function Constants(): (k: seq<word>)
    ensures |k| == 64
  {
    seq(64, t requires 0 <= t < 64 => ConstantRow(t / 8)[t % 8])
  }

  /** The eight working variables, and the chaining value in the same order. */
  datatype Vars = Vars(a: word, b: word, c: word, d: word, e: word, f: word, g: word, h: word)

  function Iv(): (v: Vars)
  {
    Vars(0x6a09e667, 0xbb67ae85, 0x3c6ef372, 0xa54ff53a, 0x510e527f, 0x9b05688c, 0x1f83d9ab, 0x5be0cd19)
  }

  /** Four octets, most significant first. */
  function BigEndian(a: byte, b: byte, c: byte, d: byte): (w: word)
  {
    ((a as word) << 24) | ((b as word) << 16) | ((c as word) << 8) | (d as word)
  }

  /** The message schedule of a block. */
  function Schedule(block: seq<byte>, t: nat): (w: word)
    requires |block| == 64
  {
    if t < 16 then BigEndian(block[4 * t], block[4 * t + 1], block[4 * t + 2], block[4 * t + 3])
    else
      Add(Add(Add(SmallSigma1(Schedule(block, t - 2)), Schedule(block, t - 7)), SmallSigma0(Schedule(block, t - 15))),
          Schedule(block, t - 16))
  }

  function Round(v: Vars, k: word, w: word): (r: Vars)
  {
    var t1 := Add(Add(Add(Add(v.h, BigSigma1(v.e)), Ch(v.e, v.f, v.g)), k), w);
    var t2 := Add(BigSigma0(v.a), Maj(v.a, v.b, v.c));
    Vars(Add(t1, t2), v.a, v.b, v.c, Add(v.d, t1), v.e, v.f, v.g)
  }

  /** The working variables after t rounds. */
  function Rounds(v: Vars, block: seq<byte>, t: nat): (r: Vars)
    requires |block| == 64 && t <= 64
  {
    if t == 0 then v else Round(Rounds(v, block, t - 1), Constants()[t - 1], Schedule(block, t - 1))
  }

  function AddVars(v: Vars, w: Vars): (r: Vars)
  {
    Vars(Add(v.a, w.a), Add(v.b, w.b), Add(v.c, w.c), Add(v.d, w.d),
         Add(v.e, w.e), Add(v.f, w.f), Add(v.g, w.g), Add(v.h, w.h))
  }

  function Compress(v: Vars, block: seq<byte>): (r: Vars)
    requires |block| == 64
  {
    AddVars(v, Rounds(v, block, 64))
  }

  /** The chaining value after whole blocks. */
  function Fold(v: Vars, s: seq<byte>): (r: Vars)
    requires |s| % 64 == 0
    decreases |s|
  {
    if s == [] then v else BlockLess(|s|); Fold(Compress(v, s[..64]), s[64..])
  }

  lemma BlockLess(n: nat)
    requires n % 64 == 0 && n > 0
    ensures n >= 64 && (n - 64) % 64 == 0
  {
  }

  /** Section 5.1.1: a one bit, zeros, and the length in bits in the last 64 bits of a block. */
  function Padding(n: nat): (p: seq<byte>)
    ensures (n + |p|) % 64 == 0
  {
    PaddingFills(n);
    [0x80] + Zeros(ZeroCount(n)) + Be(8 * n, 8)
  }

  /** The least number of zeros that leaves 64 bits for the length. */
  function ZeroCount(n: nat): (k: nat)
  {
    if n % 64 < 56 then 55 - n % 64 else 119 - n % 64
  }

  lemma PaddingFills(n: nat)
    ensures (n + 1 + ZeroCount(n) + 8) % 64 == 0 && ZeroCount(n) < 64
  {
    var t := n + 1 + ZeroCount(n) + 8;
    assert t == 64 * (n / 64) + if n % 64 < 56 then 64 else 128;
  }

  function Serialize(v: Vars): (s: seq<byte>)
    ensures |s| == 32
  {
    Octets(v.a) + Octets(v.b) + Octets(v.c) + Octets(v.d) + Octets(v.e) + Octets(v.f) + Octets(v.g) + Octets(v.h)
  }

  function LowByte(w: word): (b: byte)
  {
    (w & 0xFF) as int
  }

  function Octets(w: word): (s: seq<byte>)
    ensures |s| == 4
  {
    [LowByte(w >> 24), LowByte(w >> 16), LowByte(w >> 8), LowByte(w)]
  }

  function Hash(m: seq<byte>): (d: seq<byte>)
    ensures |d| == 32
  {
    Serialize(Fold(Iv(), m + Padding(|m|)))
  }

  /** ---- Properties ---- */

  lemma {:induction false} FoldConcat(v: Vars, s: seq<byte>, t: seq<byte>)
    requires |s| % 64 == 0 && |t| % 64 == 0
    ensures Fold(v, s + t) == Fold(Fold(v, s), t)
    decreases |s|
  {
    hide Compress;
    if s == [] {
      assert s + t == t;
    } else {
      assert (s + t)[..64] == s[..64] && (s + t)[64..] == s[64..] + t;
      FoldConcat(Compress(v, s[..64]), s[64..], t);
    }
  }

  lemma FoldBlock(v: Vars, s: seq<byte>, block: seq<byte>)
    requires |s| % 64 == 0 && |block| == 64
    ensures Fold(v, s + block) == Compress(Fold(v, s), block)
  {
    hide Compress;
    FoldConcat(v, s, block);
    assert block[..64] == block && block[64..] == [];
  }

  lemma LengthAtEnd(m: seq<byte>)
    ensures var s := m + Padding(|m|); s[|s| - 8..] == Be(8 * |m|, 8)
  {
    hide Be;
    var head := m + ([0x80] + Zeros(ZeroCount(|m|)));
    assert m + Padding(|m|) == head + Be(8 * |m|, 8);
  }

  /** Different messages are padded to different block sequences. */
  lemma PaddingInjective(m: seq<byte>, m': seq<byte>)
    requires |m| < 0x2000_0000_0000_0000 && |m'| < 0x2000_0000_0000_0000
    requires m + Padding(|m|) == m' + Padding(|m'|)
    ensures m == m'
  {
    hide Be, FromBe, Padding;
    var s, s' := m + Padding(|m|), m' + Padding(|m'|);
    LengthAtEnd(m);
    LengthAtEnd(m');
    SameLength(|m|, |m'|);
    assert m == s[..|m|] && m' == s'[..|m'|];
  }

  lemma SameLength(n: nat, n': nat)
    requires n < 0x2000_0000_0000_0000 && n' < 0x2000_0000_0000_0000 && Be(8 * n, 8) == Be(8 * n', 8)
    ensures n == n'
  {
    hide Be, FromBe;
    FromBeOfBe(8 * n, 8);
    FromBeOfBe(8 * n', 8);
    assert Pow256(8) == 0x1_0000_0000_0000_0000;
  }

  /** ---- Collisions ---- */

  /** A chaining value and a block. */
  datatype Step = Step(v: Vars, block: seq<byte>)

  /** Two different steps that the compression function takes to the same value. */
  ghost predicate Collide(x: Step, y: Step)
  {
    x != y && |x.block| == |y.block| == 64 && Compress(x.v, x.block) == Compress(y.v, y.block)
  }

  /** The step that ends a fold. */
  function LastStep(s: seq<byte>): (x: Step)
    requires |s| % 64 == 0 && s != []
    ensures |x.block| == 64
  {
    BlockLess(|s|);
    Step(Fold(Iv(), s[..|s| - 64]), s[|s| - 64..])
  }

  lemma LastStepFolds(s: seq<byte>)
    requires |s| % 64 == 0 && s != []
    ensures Fold(Iv(), s) == Compress(LastStep(s).v, LastStep(s).block)
  {
    hide Compress, Fold;
    BlockLess(|s|);
    assert s == s[..|s| - 64] + s[|s| - 64..];
    FoldBlock(Iv(), s[..|s| - 64], s[|s| - 64..]);
  }

  /** Different blocks of equal length that fold to the same value meet in a collision. */
  lemma {:induction false} FoldCollision(s: seq<byte>, s': seq<byte>) returns (x: Step, y: Step)
    requires |s| == |s'| && |s| % 64 == 0 && s != s' && Fold(Iv(), s) == Fold(Iv(), s')
    ensures Collide(x, y)
    decreases |s|
  {
    hide Compress, Fold;
    LastStepFolds(s);
    LastStepFolds(s');
    x, y := LastStep(s), LastStep(s');
    if x == y {
      BlockLess(|s|);
      assert s == s[..|s| - 64] + x.block && s' == s'[..|s| - 64] + y.block;
      x, y := FoldCollision(s[..|s| - 64], s'[..|s| - 64]);
    }
  }

  /** A collision of the hash is one of the compression function: two different messages with the same
      hash lead to two different steps with the same outcome. */
  lemma HashCollision(m: seq<byte>, m': seq<byte>) returns (x: Step, y: Step)
    requires |m| < 0x2000_0000_0000_0000 && |m'| < 0x2000_0000_0000_0000
    requires m != m' && Hash(m) == Hash(m')
    ensures Collide(x, y)
  {
    hide Be, Padding, Compress, Fold, Serialize;
    var s, s' := m + Padding(|m|), m' + Padding(|m'|);
    SerializeInjective(Fold(Iv(), s), Fold(Iv(), s'));
    if |m| == |m'| {
      if s == s' { PaddingInjective(m, m'); }
      x, y := FoldCollision(s, s');
    } else {
      LengthAtEnd(m);
      LengthAtEnd(m');
      PaddingEnds(|m|);
      PaddingEnds(|m'|);
      LastStepFolds(s);
      LastStepFolds(s');
      x, y := LastStep(s), LastStep(s');
      assert x.block[56..] == Be(8 * |m|, 8) && y.block[56..] == Be(8 * |m'|, 8);
      if x == y { SameLength(|m|, |m'|); }
    }
  }

  lemma PaddingEnds(n: nat)
    ensures |Padding(n)| >= 9
  {
  }

  lemma SameLowByte(x: word, y: word)
    requires LowByte(x) == LowByte(y)
    ensures x & 0xFF == y & 0xFF
  {
  }

  function First(w: word): (f: word) { (w >> 24) & 0xFF }

  function Second(w: word): (f: word) { (w >> 16) & 0xFF }

  function Third(w: word): (f: word) { (w >> 8) & 0xFF }

  function Fourth(w: word): (f: word) { w & 0xFF }

  lemma SameFields(x: word, y: word)
    requires First(x) == First(y) && Second(x) == Second(y) && Third(x) == Third(y) && Fourth(x) == Fourth(y)
    ensures x == y
  {
  }

  lemma FirstSame(x: word, y: word)
    requires Octets(x) == Octets(y)
    ensures First(x) == First(y)
  {
    assert Octets(x)[0] == Octets(y)[0];
    hide LowByte;
    SameLowByte(x >> 24, y >> 24);
  }

  lemma SecondSame(x: word, y: word)
    requires Octets(x) == Octets(y)
    ensures Second(x) == Second(y)
  {
    assert Octets(x)[1] == Octets(y)[1];
    hide LowByte;
    SameLowByte(x >> 16, y >> 16);
  }

  lemma ThirdSame(x: word, y: word)
    requires Octets(x) == Octets(y)
    ensures Third(x) == Third(y)
  {
    assert Octets(x)[2] == Octets(y)[2];
    hide LowByte;
    SameLowByte(x >> 8, y >> 8);
  }

  lemma FourthSame(x: word, y: word)
    requires Octets(x) == Octets(y)
    ensures Fourth(x) == Fourth(y)
  {
    assert Octets(x)[3] == Octets(y)[3];
    hide LowByte;
    SameLowByte(x, y);
  }

  lemma OctetsInjective(x: word, y: word)
    requires Octets(x) == Octets(y)
    ensures x == y
  {
    hide Octets, First, Second, Third, Fourth;
    FirstSame(x, y);
    SecondSame(x, y);
    ThirdSame(x, y);
    FourthSame(x, y);
    SameFields(x, y);
  }

  lemma SerializeInjective(v: Vars, w: Vars)
    requires Serialize(v) == Serialize(w)
    ensures v == w
  {
    hide Octets;
    var s := Serialize(v);
    EightWords(s, Octets(v.a), Octets(v.b), Octets(v.c), Octets(v.d), Octets(v.e), Octets(v.f), Octets(v.g),
      Octets(v.h));
    EightWords(s, Octets(w.a), Octets(w.b), Octets(w.c), Octets(w.d), Octets(w.e), Octets(w.f), Octets(w.g),
      Octets(w.h));
    OctetsInjective(v.a, w.a);
    OctetsInjective(v.b, w.b);
    OctetsInjective(v.c, w.c);
    OctetsInjective(v.d, w.d);
    OctetsInjective(v.e, w.e);
    OctetsInjective(v.f, w.f);
    OctetsInjective(v.g, w.g);
    OctetsInjective(v.h, w.h);
  }

  lemma FourWords(s: seq<byte>, a: seq<byte>, b: seq<byte>, c: seq<byte>, d: seq<byte>)
    requires |a| == |b| == |c| == |d| == 4 && s == a + b + c + d
    ensures s[..4] == a && s[4..8] == b && s[8..12] == c && s[12..] == d
  {
  }

  lemma EightWords(s: seq<byte>, a: seq<byte>, b: seq<byte>, c: seq<byte>, d: seq<byte>,
                   e: seq<byte>, f: seq<byte>, g: seq<byte>, h: seq<byte>)
    requires |a| == |b| == |c| == |d| == |e| == |f| == |g| == |h| == 4 && s == a + b + c + d + e + f + g + h
    ensures var x, y := s[..16], s[16..];
      && x[..4] == a && x[4..8] == b && x[8..12] == c && x[12..] == d
      && y[..4] == e && y[4..8] == f && y[8..12] == g && y[12..] == h
  {
    var x, y := a + b + c + d, e + f + g + h;
    assert s == x + y;
    FourWords(x, a, b, c, d);
    FourWords(y, e, f, g, h);
  }
}
