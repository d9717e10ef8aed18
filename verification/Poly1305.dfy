/** Poly1305 as kernel/net/tls.c computes it: 130-bit arithmetic in five 26-bit limbs held in 32-bit
    words with 64-bit products. Every word operation is written with the wrap-around C gives it; the
    contracts relate the limbs to integers modulo 2^130 - 5. */
module Poly1305 {
  import opened Bytes
  import opened Bits

  const P: nat := 0x3_FFFF_FFFF_FFFF_FFFF_FFFF_FFFF_FFFF_FFFB
  const B1: int := 0x400_0000
  const B2: int := 0x10_0000_0000_0000
  const B3: int := 0x4000_0000_0000_0000_0000
  const B4: int := 0x100_0000_0000_0000_0000_0000_0000
  const B5: int := 0x4_0000_0000_0000_0000_0000_0000_0000_0000
  const TWO128: nat := 0x1_0000_0000_0000_0000_0000_0000_0000_0000

  /** ---- Section 2.5 of RFC 7539 ---- */

  /** A chunk of at most 16 octets with the extra one appended, as a number. */
  function Coefficient(chunk: seq<byte>): (c: nat)
  {
    Le(chunk + [1])
  }

  function LastChunkStart(n: nat): (k: nat)
    requires n > 0
    ensures k < n <= k + 16 && k % 16 == 0
  {
    (n - 1) / 16 * 16
  }

  /** One step of the recurrence of the RFC: add the coefficient, multiply by r, reduce. */
  function Step(a: int, c: int, r: int): (s: nat)
    ensures s < P
  {
    ((a + c) * r) % P
  }

  /** The accumulator after all chunks of msg. */
  function Accumulate(msg: seq<byte>, r: nat): (a: nat)
    ensures a < P
    decreases |msg|
  {
    if msg == [] then 0
    else
      var k := LastChunkStart(|msg|);
      Step(Accumulate(msg[..k], r), Coefficient(msg[k..]), r)
  }

  /** The octets of r with the bits the RFC clears cleared. */
  function ClampOctets(s: seq<byte>): (c: seq<byte>)
    requires |s| == 16
    ensures |c| == 16
  {
    seq(16, i requires 0 <= i < 16 =>
      if i == 3 || i == 7 || i == 11 || i == 15 then s[i] % 16
      else if i == 4 || i == 8 || i == 12 then s[i] - s[i] % 4
      else s[i])
  }

  function Tag(key: seq<byte>, msg: seq<byte>): (t: nat)
    requires |key| == 32
    ensures t < TWO128
  {
    (Accumulate(msg, Le(ClampOctets(key[..16]))) + Le(key[16..])) % TWO128
  }

  /** ---- Limbs ---- */

  datatype Limbs = Limbs(l0: int, l1: int, l2: int, l3: int, l4: int) {
    function Val(): int { l0 + B1 * l1 + B2 * l2 + B3 * l3 + B4 * l4 }

    /** What holds of the accumulator at every loop head. */
    predicate Carried() { 0 <= l0 < B1 && 0 <= l1 < B1 + 64 && 0 <= l2 < B1 && 0 <= l3 < B1 && 0 <= l4 < B1 }

    predicate Reduced() { 0 <= l0 < B1 && 0 <= l1 < B1 && 0 <= l2 < B1 && 0 <= l3 < B1 && 0 <= l4 < B1 }
  }

  /** x + m * (b + 2^8 c + 2^16 d). */
  function Window(x: nat, m: nat, b: nat, c: nat, d: nat): (w: nat)
  {
    x + m * (b + 0x100 * c + 0x1_0000 * d)
  }

  /** x | b << k | c << (k + 8) | d << (k + 16), the way four adjacent octets meet in a word. */
  function Join(x: nat, k: nat, b: byte, c: byte, d: byte): (w: nat)
    requires k <= 8 && x < Pow2(k)
    ensures w == Window(x, Pow2(k), b, c, d)
    ensures w < Pow2(k) * 0x100_0000
  {
    JoinIsSum(x, k, b, c, d);
    Or32(Or32(Or32(x, Shl32(b, k)), Shl32(c, k + 8)), Shl32(d, k + 16))
  }

  lemma {:induction false} Pow2Add(a: nat, b: nat)
    ensures Pow2(a + b) == Pow2(a) * Pow2(b)
  {
    if a > 0 {
      Pow2Add(a - 1, b);
      assert Pow2(a + b) == 2 * Pow2(a + b - 1);
    }
  }

  lemma {:induction false} Pow2Monotone(a: nat, b: nat)
    requires a <= b
    ensures Pow2(a) <= Pow2(b)
  {
    if a < b { Pow2Monotone(a, b - 1); }
  }

  /** One octet shifted onto a word that ends below it. */
  lemma OrOctet(x: nat, b: byte, k: nat, p: nat)
    requires k <= 24 && x < p == Pow2(k)
    ensures Or32(x, Shl32(b, k)) == x + p * b < 0x100 * p == Pow2(k + 8)
  {
    assert Pow2(k + 8) == 0x100 * p by { Pow2Add(8, k); Pow2Values(); }
    assert Pow2(k + 8) <= Pow2(32) == 0x1_0000_0000 by { Pow2Monotone(k + 8, 32); Pow2Values(); }
    ShiftFits(p, b);
    DisjointOr(x, Shl32(b, k), k, 32);
  }

  lemma ShiftFits(p: nat, b: byte)
    requires 0 < p && 0x100 * p <= 0x1_0000_0000
    ensures (b * p) % 0x1_0000_0000 == p * b && (p * b) % p == 0 && p * b + p <= 0x100 * p
  {
    var y := p * b;
    assert y + p <= 0x100 * p by { assert p * (255 - b) >= 0; }
    DivModUnique(y, p, b, 0);
  }

  lemma JoinIsSum(x: nat, k: nat, b: byte, c: byte, d: byte)
    requires k <= 8 && x < Pow2(k)
    ensures Or32(Or32(Or32(x, Shl32(b, k)), Shl32(c, k + 8)), Shl32(d, k + 16))
         == Window(x, Pow2(k), b, c, d) < Pow2(k) * 0x100_0000
  {
    var p := Pow2(k);
    OrOctet(x, b, k, p);
    var y := Or32(x, Shl32(b, k));
    OrOctet(y, c, k + 8, 0x100 * p);
    var z := Or32(y, Shl32(c, k + 8));
    OrOctet(z, d, k + 16, 0x1_0000 * p);
    JoinAlgebra(p, b, c, d);
  }

  lemma JoinAlgebra(p: nat, b: nat, c: nat, d: nat)
    ensures p * b + 0x100 * p * c + 0x1_0000 * p * d == p * (b + 0x100 * c + 0x1_0000 * d)
  {
    assert 0x100 * p * c == p * (0x100 * c);
    assert 0x1_0000 * p * d == p * (0x1_0000 * d);
  }

  /** A 26-bit limb is the word modulo 2^26. */
  function Mask26(x: nat): (r: nat)
    ensures r == x % B1
  {
    Pow2Values();
    LowMask(x, 26, 32);
    And32(x, 0x3FF_FFFF)
  }

  lemma LeQuad(s: seq<byte>)
    requires |s| >= 4
    ensures Le(s) == s[0] + 0x100 * s[1] + 0x1_0000 * s[2] + 0x100_0000 * s[3] + 0x1_0000_0000 * Le(s[4..])
  {
    var a, b, c := s[1..], s[2..], s[3..];
    assert a[1..] == b && b[1..] == c && c[1..] == s[4..];
    assert Le(s) == s[0] + 0x100 * Le(a) && Le(a) == s[1] + 0x100 * Le(b);
    assert Le(b) == s[2] + 0x100 * Le(c) && Le(c) == s[3] + 0x100 * Le(s[4..]);
  }

  /** a >> n for an octet a and a power of two n. */
  function Shr(a: byte, n: nat): (r: nat)
    requires n > 0
  {
    a / n
  }

  /** The five windows of sixteen octets and one more, each cut to 26 bits. */
  function Windows(s: seq<byte>, top: byte): (l: Limbs)
    requires |s| == 16 && top <= 1
    ensures l.Reduced() && l.l4 < B1 / 2
  {
    Limbs(Window(s[0], 0x100, s[1], s[2], s[3]) % B1,
          Window(Shr(s[3], 4), 64, s[4], s[5], s[6]) % B1,
          Window(Shr(s[6], 16), 16, s[7], s[8], s[9]) % B1,
          Window(Shr(s[9], 64), 4, s[10], s[11], s[12]) % B1,
          Window(s[13], 0x100, s[14], s[15], top))
  }

  lemma WindowCut(x: nat, m: nat, b: byte, c: byte, d: byte)
    requires x < m && (m == 0x100 || m == 64 || m == 16 || m == 4)
    ensures m == 0x100 ==> Window(x, m, b, c, d) % B1 == x + 0x100 * b + 0x1_0000 * c + 0x100_0000 * (d % 4)
    ensures m == 64 ==> Window(x, m, b, c, d) % B1 == x + 64 * b + 0x4000 * c + 0x40_0000 * (d % 16)
    ensures m == 16 ==> Window(x, m, b, c, d) % B1 == x + 16 * b + 0x1000 * c + 0x10_0000 * (d % 64)
    ensures m == 4 ==> Window(x, m, b, c, d) % B1 == x + 4 * b + 0x400 * c + 0x4_0000 * d
  {
    var v := Window(x, m, b, c, d);
    if m == 0x100 {
      DivModUnique(v, B1, d / 4, x + 0x100 * b + 0x1_0000 * c + 0x100_0000 * (d % 4));
    } else if m == 64 {
      DivModUnique(v, B1, d / 16, x + 64 * b + 0x4000 * c + 0x40_0000 * (d % 16));
    } else if m == 16 {
      DivModUnique(v, B1, d / 64, x + 16 * b + 0x1000 * c + 0x10_0000 * (d % 64));
    } else {
      DivModUnique(v, B1, 0, x + 4 * b + 0x400 * c + 0x4_0000 * d);
    }
  }

  /** The windows overlap exactly where the masks cut. */
  lemma WindowsCover(s: seq<byte>, top: byte)
    requires |s| == 16 && top <= 1
    ensures Windows(s, top).Val() == Le(s) + TWO128 * top
  {
    LeQuad(s);
    LeQuad(s[4..]);
    LeQuad(s[4..][4..]);
    LeQuad(s[4..][4..][4..]);
    assert s[4..][4..][4..][4..] == [];
    WindowCut(s[0], 0x100, s[1], s[2], s[3]);
    WindowCut(Shr(s[3], 4), 64, s[4], s[5], s[6]);
    WindowCut(Shr(s[6], 16), 16, s[7], s[8], s[9]);
    WindowCut(Shr(s[9], 64), 4, s[10], s[11], s[12]);
  }

  /** blk[12] >> 8 | blk[13]: the first operand has no bits left. */
  function TopOctet(a: byte, b: byte): (r: nat)
    ensures r == b
  {
    ZeroIsNeutral(Or, b, 32);
    Or32(Shr(a, 0x100), b)
  }

  /** One limb from four adjacent octets. */
  method LoadLimb(x: nat, k: nat, b: byte, c: byte, d: byte) returns (l: nat)
    requires k <= 8 && x < Pow2(k)
    ensures l == Window(x, Pow2(k), b, c, d) % B1
  {
    l := Mask26(Join(x, k, b, c, d));
  }

  /** One limb of r: the source ors in one octet more than for a message block, e << sh, whose bits
      lie above the mask. */
  method LoadLimbR(x: nat, k: nat, b: byte, c: byte, d: byte, e: byte, sh: nat) returns (l: nat)
    requires (k == 2 || k == 4 || k == 6) && x < Pow2(k) && sh == k + 24
    ensures l == Window(x, Pow2(k), b, c, d) % B1
  {
    JoinFits(x, k, b, c, d);
    HighOctetMasked(Join(x, k, b, c, d), e, sh);
    l := Mask26(Or32(Join(x, k, b, c, d), Shl32(e, sh)));
  }

  /** A message block in limbs, by the overlapping 32-bit windows of the source. */
  method LoadBlock(blk: seq<byte>) returns (l: Limbs)
    requires |blk| == 17 && blk[16] <= 1
    ensures l.Reduced() && l.l4 < B1 / 2
    ensures l.Val() == Le(blk)
  {
    Pow2Values();
    var l0 := LoadLimb(blk[0], 8, blk[1], blk[2], blk[3]);
    var l1 := LoadLimb(Shr(blk[3], 4), 6, blk[4], blk[5], blk[6]);
    var l2 := LoadLimb(Shr(blk[6], 16), 4, blk[7], blk[8], blk[9]);
    var l3 := LoadLimb(Shr(blk[9], 64), 2, blk[10], blk[11], blk[12]);
    var l4 := Join(TopOctet(blk[12], blk[13]), 8, blk[14], blk[15], blk[16]);
    l := Limbs(l0, l1, l2, l3, l4);
    assert l == Windows(blk[..16], blk[16]);
    WindowsOfBlock(blk);
  }

  lemma WindowsOfBlock(blk: seq<byte>)
    requires |blk| == 17 && blk[16] <= 1
    ensures Windows(blk[..16], blk[16]).Val() == Le(blk)
  {
    WindowsCover(blk[..16], blk[16]);
    var low, top := blk[..16], [blk[16]];
    assert blk == low + top && Le(top) == blk[16];
    LeConcat(low, top);
    Pow256Of16();
  }

  lemma Pow256Of16()
    ensures Pow256(16) == TWO128
  {
    assert Pow256(4) == 0x1_0000_0000;
    assert Pow256(8) == 0x1_0000_0000_0000_0000;
  }

  /** r in limbs. */
  method LoadR(rb: seq<byte>) returns (l: Limbs)
    requires |rb| == 16
    ensures l.Reduced() && l.Val() == Le(rb)
  {
    Pow2Values();
    var l0 := LoadLimb(rb[0], 8, rb[1], rb[2], rb[3]);
    var l1 := LoadLimbR(Shr(rb[3], 4), 6, rb[4], rb[5], rb[6], rb[7], 30);
    var l2 := LoadLimbR(Shr(rb[6], 16), 4, rb[7], rb[8], rb[9], rb[10], 28);
    var l3 := LoadLimbR(Shr(rb[9], 64), 2, rb[10], rb[11], rb[12], rb[13], 26);
    var l4 := LoadLimb(TopOctet(rb[12], rb[13]), 8, rb[14], rb[15], 0);
    l := Limbs(l0, l1, l2, l3, l4);
    DivModUnique(l4, B1, 0, l4);
    ghost var top := Window(rb[13], 0x100, rb[14], rb[15], 0);
    DivModUnique(top, B1, 0, top);
    WindowsCover(rb, 0);
    assert l == Windows(rb, 0);
  }

  lemma JoinFits(x: nat, k: nat, b: byte, c: byte, d: byte)
    requires k <= 8 && x < Pow2(k)
    ensures Join(x, k, b, c, d) < Pow2(k + 24)
  {
    Pow2Add(24, k);
    Pow2Values();
  }

  lemma HighOctetMasked(x: nat, b: byte, k: nat)
    requires (k == 26 || k == 28 || k == 30) && x < Pow2(k)
    ensures Or32(x, Shl32(b, k)) % B1 == x % B1
  {
    Pow2Values();
    hide Pow2, Bitwise;
    if k == 26 {
      HighOctetAt(x, b, 26, 64, 1);
    } else if k == 28 {
      HighOctetAt(x, b, 28, 16, 4);
    } else {
      HighOctetAt(x, b, 30, 4, 16);
    }
  }

  /** The octet shifted by k keeps its value modulo m: the rest leaves the word. */
  lemma HighOctetAt(x: nat, b: byte, k: nat, m: nat, f: nat)
    requires (k == 26 && m == 64 && f == 1) || (k == 28 && m == 16 && f == 4) || (k == 30 && m == 4 && f == 16)
    requires x < Pow2(k) == B1 * f
    ensures Or32(x, Shl32(b, k)) % B1 == x % B1
  {
    hide Pow2, Bitwise;
    var unit, top := B1 * f, b % m;
    assert Shl32(b, k) == unit * top by { ShiftedOut(b, m, f); }
    assert unit * top % unit == 0 && unit * top < 0x1_0000_0000 by { UnitMultiple(f, top, m); }
    assert Pow2(32) == 0x1_0000_0000 by { Pow2Values(); }
    DisjointOr(x, unit * top, k, 32);
    AboveLimb(x, f * top);
  }

  lemma ShiftedOut(b: byte, m: nat, f: nat)
    requires (m == 64 && f == 1) || (m == 16 && f == 4) || (m == 4 && f == 16)
    ensures b * (B1 * f) % 0x1_0000_0000 == B1 * f * (b % m)
  {
    DivModUnique(b * (B1 * f), 0x1_0000_0000, b / m, B1 * f * (b % m));
  }

  lemma UnitMultiple(f: nat, top: nat, m: nat)
    requires (m == 64 && f == 1) || (m == 16 && f == 4) || (m == 4 && f == 16)
    requires top < m
    ensures B1 * f * top % (B1 * f) == 0 && B1 * f * top < 0x1_0000_0000
  {
    DivModUnique(B1 * f * top, B1 * f, top, 0);
  }

  lemma AboveLimb(x: nat, q: nat)
    ensures (x + B1 * q) % B1 == x % B1
  {
    ModOfShift(x + B1 * q, x, q, B1);
  }

  /** ---- Multiplication ---- */

  function Scale(x: int, r: Limbs): (l: Limbs)
    ensures l.Val() == x * r.Val()
  {
    assert x * (B1 * r.l1) == B1 * (x * r.l1);
    assert x * (B2 * r.l2) == B2 * (x * r.l2);
    assert x * (B3 * r.l3) == B3 * (x * r.l3);
    assert x * (B4 * r.l4) == B4 * (x * r.l4);
    Limbs(x * r.l0, x * r.l1, x * r.l2, x * r.l3, x * r.l4)
  }

  /** The columns of the schoolbook product whose rows are h0*r .. h4*r; a partial product that
      would land at 2^130 or above is folded in times 5. */
  function Columns(h: Limbs, r: Limbs): (d: Limbs)
  {
    var a, b, c, d, e := Scale(h.l0, r), Scale(h.l1, r), Scale(h.l2, r), Scale(h.l3, r), Scale(h.l4, r);
    Limbs(a.l0 + 5 * b.l4 + 5 * c.l3 + 5 * d.l2 + 5 * e.l1,
          a.l1 + b.l0 + 5 * c.l4 + 5 * d.l3 + 5 * e.l2,
          a.l2 + b.l1 + c.l0 + 5 * d.l4 + 5 * e.l3,
          a.l3 + b.l2 + c.l1 + d.l0 + 5 * e.l4,
          a.l4 + b.l3 + c.l2 + d.l1 + e.l0)
  }

  /** What the folding drops, in units of P. */
  function Dropped(a: Limbs, b: Limbs, c: Limbs, d: Limbs, e: Limbs): (k: int)
  {
    b.l4 + c.l3 + d.l2 + e.l1 + B1 * (c.l4 + d.l3 + e.l2) + B2 * (d.l4 + e.l3) + B3 * e.l4
  }

  /** The columns represent the full product modulo P. */
  lemma ColumnsAreTheProduct(h: Limbs, r: Limbs)
    ensures Columns(h, r).Val() % P == (h.Val() * r.Val()) % P
  {
    var a, b, c, d, e := Scale(h.l0, r), Scale(h.l1, r), Scale(h.l2, r), Scale(h.l3, r), Scale(h.l4, r);
    assert Scale(r.Val(), h) == Limbs(a.Val(), b.Val(), c.Val(), d.Val(), e.Val());
    ModOfShift(h.Val() * r.Val(), Columns(h, r).Val(), Dropped(a, b, c, d, e), P);
  }

  lemma ScaleBound(x: nat, a: nat, r: Limbs)
    requires x <= a && r.Reduced()
    ensures var s := Scale(x, r);
      0 <= s.l0 <= a * B1 && 0 <= s.l1 <= a * B1 && 0 <= s.l2 <= a * B1 && 0 <= s.l3 <= a * B1 && 0 <= s.l4 <= a * B1
  {
    ProductBound(x, r.l0, a, B1);
    ProductBound(x, r.l1, a, B1);
    ProductBound(x, r.l2, a, B1);
    ProductBound(x, r.l3, a, B1);
    ProductBound(x, r.l4, a, B1);
  }

  lemma ProductBound(x: nat, y: nat, a: nat, b: nat)
    requires x <= a && y <= b
    ensures 0 <= x * y <= a * b
  {
    assert x * y <= a * y;
    assert a * y <= a * b;
  }

  /** What a message block may add to limbs that were Carried. */
  predicate Absorbed(h: Limbs)
  {
    0 <= h.l0 < 2 * B1 && 0 <= h.l1 < 2 * B1 + 64 && 0 <= h.l2 < 2 * B1 && 0 <= h.l3 < 2 * B1 && 0 <= h.l4 < B1 + B1 / 2
  }

  /** No column overflows 64 bits, and its carry out of 26 bits fits 32. */
  lemma ColumnsFit(h: Limbs, r: Limbs)
    requires r.Reduced() && Absorbed(h)
    ensures var d := Columns(h, r);
      0 <= d.l0 < 60 * B2 && 0 <= d.l1 < 60 * B2 && 0 <= d.l2 < 60 * B2 && 0 <= d.l3 < 60 * B2 && 0 <= d.l4 < 10 * B2
  {
    ScaleBound(h.l0, 2 * B1, r);
    ScaleBound(h.l1, 2 * B1 + 64, r);
    ScaleBound(h.l2, 2 * B1, r);
    ScaleBound(h.l3, 2 * B1, r);
    ScaleBound(h.l4, B1 + B1 / 2, r);
  }

  /** The column sums as the source writes them, with the precomputed multiples s0 .. s3. */
  lemma ColumnSums(h: Limbs, r: Limbs, s0: int, s1: int, s2: int, s3: int)
    requires s0 == r.l1 * 5 && s1 == r.l2 * 5 && s2 == r.l3 * 5 && s3 == r.l4 * 5
    ensures Columns(h, r) ==
      Limbs(h.l0 * r.l0 + h.l1 * s3 + h.l2 * s2 + h.l3 * s1 + h.l4 * s0,
            h.l0 * r.l1 + h.l1 * r.l0 + h.l2 * s3 + h.l3 * s2 + h.l4 * s1,
            h.l0 * r.l2 + h.l1 * r.l1 + h.l2 * r.l0 + h.l3 * s3 + h.l4 * s2,
            h.l0 * r.l3 + h.l1 * r.l2 + h.l2 * r.l1 + h.l3 * r.l0 + h.l4 * s3,
            h.l0 * r.l4 + h.l1 * r.l3 + h.l2 * r.l2 + h.l3 * r.l1 + h.l4 * r.l0)
  {
    Times5(h.l1, r.l4);
    Times5(h.l2, r.l3);
    Times5(h.l3, r.l2);
    Times5(h.l4, r.l1);
    Times5(h.l2, r.l4);
    Times5(h.l3, r.l3);
    Times5(h.l4, r.l2);
    Times5(h.l3, r.l4);
    Times5(h.l4, r.l3);
    Times5(h.l4, r.l4);
  }

  lemma Times5(x: int, y: int)
    ensures x * (y * 5) == 5 * (x * y)
  {
  }

  /** One multiplication by r with the carry chain of the source. */
  method MulCarry(h: Limbs, r: Limbs) returns (q: Limbs)
    requires r.Reduced() && Absorbed(h)
    ensures q.Carried()
    ensures q.Val() % P == (h.Val() * r.Val()) % P
  {
    var s0, s1, s2, s3 := U32(r.l1 * 5), U32(r.l2 * 5), U32(r.l3 * 5), U32(r.l4 * 5);
    ColumnsFit(h, r);
    ColumnSums(h, r, s0, s1, s2, s3);
    var d0 := U64(h.l0 * r.l0 + h.l1 * s3 + h.l2 * s2 + h.l3 * s1 + h.l4 * s0);
    var d1 := U64(h.l0 * r.l1 + h.l1 * r.l0 + h.l2 * s3 + h.l3 * s2 + h.l4 * s1);
    var d2 := U64(h.l0 * r.l2 + h.l1 * r.l1 + h.l2 * r.l0 + h.l3 * s3 + h.l4 * s2);
    var d3 := U64(h.l0 * r.l3 + h.l1 * r.l2 + h.l2 * r.l1 + h.l3 * r.l0 + h.l4 * s3);
    var d4 := U64(h.l0 * r.l4 + h.l1 * r.l3 + h.l2 * r.l2 + h.l3 * r.l1 + h.l4 * r.l0);
    assert Limbs(d0, d1, d2, d3, d4) == Columns(h, r);
    q := CarryChain(d0, d1, d2, d3, d4);
    ColumnsAreTheProduct(h, r);
  }

  /** The low 26 bits of a 64-bit sum and the carry above them survive the casts to 32 bits. */
  lemma CarrySplit(x: nat)
    requires x < 64 * B2
    ensures U64(x) == x && U32(x / B1) == x / B1 && Mask26(U32(x)) == x % B1
  {
    var w := 0x1_0000_0000;
    DivModUnique(x, B1, 64 * (x / w) + (x % w) / B1, (x % w) % B1);
  }

  /** Adds the incoming carry to a 64-bit column and splits off its limb. */
  method CarryColumn(d: nat, c: nat) returns (limb: nat, out: nat)
    requires d + c < 64 * B2
    ensures limb < B1 && out < 64 * B1 && d + c == limb + B1 * out
  {
    CarrySplit(d + c);
    var sum := U64(d + c);
    limb, out := Mask26(U32(sum)), U32(sum / B1);
  }

  /** The same on 32-bit words. */
  method CarryWord(h: nat, c: nat) returns (limb: nat, out: nat)
    requires h + c < 0x1_0000_0000
    ensures limb < B1 && out < 64 && h + c == limb + B1 * out
  {
    var sum := U32(h + c);
    limb, out := Mask26(sum), sum / B1;
  }

  method CarryChain(d0: nat, d1: nat, d2: nat, d3: nat, d4: nat) returns (q: Limbs)
    requires d0 < 60 * B2 && d1 < 60 * B2 && d2 < 60 * B2 && d3 < 60 * B2 && d4 < 10 * B2
    ensures q.Carried()
    ensures q.Val() % P == Limbs(d0, d1, d2, d3, d4).Val() % P
  {
    var h0, h1, h2, h3, h4, c;
    h0, c := CarryColumn(d0, 0);
    h1, c := CarryColumn(d1, c);
    h2, c := CarryColumn(d2, c);
    h3, c := CarryColumn(d3, c);
    h4, c := CarryColumn(d4, c);
    ghost var top := c;
    h0, c := CarryWord(h0, U32(c * 5));
    h1 := U32(h1 + c);
    q := Limbs(h0, h1, h2, h3, h4);
    ModOfShift(Limbs(d0, d1, d2, d3, d4).Val(), q.Val(), top, P);
  }

  /** The carry chain after the last block. It leaves every limb within 26 bits: the top limb only
      carries out when limb 1 had carried in, and then limb 1 is small. */
  method FinalCarry(h: Limbs) returns (q: Limbs)
    requires h.Carried()
    ensures q.Reduced()
    ensures q.Val() % P == h.Val() % P
  {
    var h0, h1, h2, h3, h4, c;
    h1, c := CarryWord(h.l1, 0);
    h2, c := CarryWord(h.l2, c);
    h3, c := CarryWord(h.l3, c);
    h4, c := CarryWord(h.l4, c);
    ghost var top := c;
    assert top <= 1 && (top == 1 ==> h1 < 64);
    h0, c := CarryWord(h.l0, U32(c * 5));
    h1 := U32(h1 + c);
    q := Limbs(h0, h1, h2, h3, h4);
    ModOfShift(h.Val(), q.Val(), top, P);
  }

  /** h + 5 in limbs, with 2^26 taken off the top one: negative exactly when h < P. */
  method PlusFive(h: Limbs) returns (g: Limbs)
    requires h.Reduced()
    ensures 0 <= g.l0 < B1 && 0 <= g.l1 < B1 && 0 <= g.l2 < B1 && 0 <= g.l3 < B1 && -B1 <= g.l4 <= 0
    ensures g.Val() + B5 == h.Val() + 5
  {
    var g0, g1, g2, g3, c;
    g0, c := CarryWord(h.l0, 5);
    g1, c := CarryWord(h.l1, c);
    g2, c := CarryWord(h.l2, c);
    g3, c := CarryWord(h.l3, c);
    g := Limbs(g0, g1, g2, g3, h.l4 + (c as int - B1 as int));
  }

  /** All ones when the 32-bit wrapped word has a clear sign bit, else zero. */
  method SignMask(x: int) returns (mask: nat)
    requires -B1 <= x < B1
    ensures mask == if x < 0 then 0 else 0xFFFF_FFFF
  {
    var bit31: int := U32(x) / 0x8000_0000;
    mask := U32(bit31 - 1);
  }

  /** One conditional subtraction of P, chosen by the borrow out of h + 5 - 2^130. */
  method SubtractOnce(h: Limbs) returns (q: Limbs)
    requires h.Reduced()
    ensures q.Reduced()
    ensures q.Val() == h.Val() % P
  {
    var g := PlusFive(h);
    var mask := SignMask(g.l4);
    q := Limbs(Select(h.l0, g.l0, mask), Select(h.l1, g.l1, mask), Select(h.l2, g.l2, mask),
               Select(h.l3, g.l3, mask), Select(h.l4, U32(g.l4), mask));
    assert q == if g.l4 < 0 then h else g;
    DivModUnique(h.Val(), P, if g.l4 < 0 then 0 else 1, q.Val());
  }

  /** (a & ~mask) | (b & mask) for a mask of all zeros or all ones. */
  function Select(a: nat, b: nat, mask: nat): (r: nat)
    requires a < 0x1_0000_0000 && b < 0x1_0000_0000 && (mask == 0 || mask == 0xFFFF_FFFF)
    ensures r == if mask == 0 then a else b
  {
    SelectWhole(a, b);
    SelectWhole(b, a);
    Or32(And32(a, Not32(mask)), And32(b, mask))
  }

  lemma SelectWhole(a: nat, b: nat)
    requires a < 0x1_0000_0000
    ensures And32(a, 0xFFFF_FFFF) == a && And32(b, 0) == 0 && Or32(a, 0) == a && Or32(0, a) == a
  {
    Pow2Values();
    LowMask(a, 32, 32);
    DivModUnique(a, 0x1_0000_0000, 0, a);
    ZeroAbsorbs(b, 32);
    ZeroIsNeutral(Or, a, 32);
  }

  /** ---- Adding s and storing the tag ---- */

  /** A 32-bit word from the high bits x of one limb and the low bits of the next one, y. */
  method PackWord(x: nat, y: nat, k: nat) returns (w: nat)
    requires (k == 26 && x < 0x400_0000) || (k == 20 && x < 0x10_0000) || (k == 14 && x < 0x4000)
             || (k == 8 && x < 0x100)
    ensures k == 26 ==> w == x + 0x400_0000 * (y % 0x40)
    ensures k == 20 ==> w == x + 0x10_0000 * (y % 0x1000)
    ensures k == 14 ==> w == x + 0x4000 * (y % 0x4_0000)
    ensures k == 8 ==> w == x + 0x100 * (y % 0x100_0000)
  {
    PackIsSum(x, y, k);
    w := Or32(x, Shl32(y, k));
  }

  lemma PackIsSum(x: nat, y: nat, k: nat)
    requires (k == 26 && x < 0x400_0000) || (k == 20 && x < 0x10_0000) || (k == 14 && x < 0x4000)
             || (k == 8 && x < 0x100)
    ensures k == 26 ==> Or32(x, Shl32(y, k)) == x + 0x400_0000 * (y % 0x40)
    ensures k == 20 ==> Or32(x, Shl32(y, k)) == x + 0x10_0000 * (y % 0x1000)
    ensures k == 14 ==> Or32(x, Shl32(y, k)) == x + 0x4000 * (y % 0x4_0000)
    ensures k == 8 ==> Or32(x, Shl32(y, k)) == x + 0x100 * (y % 0x100_0000)
  {
    Pow2Values();
    assert Pow2(20) == 0x10_0000;
    var m := if k == 26 then 0x40 else if k == 20 then 0x1000 else if k == 14 then 0x4_0000 else 0x100_0000;
    var unit := if k == 26 then 0x400_0000 else if k == 20 then 0x10_0000 else if k == 14 then 0x4000 else 0x100;
    assert unit == Pow2(k);
    DivModUnique(y * unit, 0x1_0000_0000, y / m, unit * (y % m));
    DivModUnique(unit * (y % m), unit, y % m, 0);
    DisjointOr(x, unit * (y % m), k, 32);
  }

  const W: nat := 0x1_0000_0000

  /** Four words as a 128-bit number. */
  function Words(a: nat, b: nat, c: nat, d: nat): (v: nat)
  {
    a + W * b + W * W * c + W * W * W * d
  }

  lemma LeOfWords(s: seq<byte>)
    requires |s| == 16
    ensures Le(s) == Words(Le(s[..4]), Le(s[4..8]), Le(s[8..12]), Le(s[12..]))
  {
    LeSplit(s);
    LeSplit(s[4..]);
    LeSplit(s[8..]);
    assert s[4..][..4] == s[4..8] && s[4..][4..] == s[8..] && s[8..][..4] == s[8..12] && s[8..][4..] == s[12..];
  }

  lemma LeSplit(s: seq<byte>)
    requires |s| >= 4
    ensures Le(s) == Le(s[..4]) + W * Le(s[4..])
  {
    assert Pow256(4) == W;
    assert s == s[..4] + s[4..];
    LeConcat(s[..4], s[4..]);
  }

  /** Four octets of the source's little-endian load and store. */
  lemma WordOctets(f: nat)
    ensures Le(LeBytes(f, 4)) == f % W
  {
    LeOfLeBytes(f, 4);
    assert Pow256(4) == W;
  }

  /** The low 128 bits of the accumulator as four words. */
  method PackWords(h: Limbs) returns (w0: nat, w1: nat, w2: nat, w3: nat)
    requires h.Reduced()
    ensures w0 < W && w1 < W && w2 < W && w3 < W
    ensures Words(w0, w1, w2, w3) == h.Val() % TWO128
  {
    w0 := PackWord(h.l0, h.l1, 26);
    w1 := PackWord(h.l1 / 64, h.l2, 20);
    w2 := PackWord(h.l2 / 0x1000, h.l3, 14);
    w3 := PackWord(h.l3 / 0x4_0000, h.l4, 8);
    ghost var q1, q2, q3, q4 := h.l1 / 64, h.l2 / 0x1000, h.l3 / 0x4_0000, h.l4 / 0x100_0000;
    ghost var a1, a2, a3, a4 := h.l1 % 64, h.l2 % 0x1000, h.l3 % 0x4_0000, h.l4 % 0x100_0000;
    assert h == Limbs(h.l0, 64 * q1 + a1, 0x1000 * q2 + a2, 0x4_0000 * q3 + a3, 0x100_0000 * q4 + a4);
    Repack(h.l0, a1, q1, a2, q2, a3, q3, a4, q4);
    assert h.Val() == TWO128 * q4 + Words(w0, w1, w2, w3);
    DivModUnique(h.Val(), TWO128, q4, Words(w0, w1, w2, w3));
  }

  lemma Repack(l0: nat, a1: nat, q1: nat, a2: nat, q2: nat, a3: nat, q3: nat, a4: nat, q4: nat)
    requires l0 < B1 && a1 < 64 && q1 < 0x10_0000 && a2 < 0x1000 && q2 < 0x4000 && a3 < 0x4_0000 && q3 < 0x100
             && a4 < 0x100_0000
    ensures Limbs(l0, 64 * q1 + a1, 0x1000 * q2 + a2, 0x4_0000 * q3 + a3, 0x100_0000 * q4 + a4).Val()
         == TWO128 * q4 + Words(l0 + 0x400_0000 * a1, q1 + 0x10_0000 * a2, q2 + 0x4000 * a3, q3 + 0x100 * a4)
    ensures Words(l0 + 0x400_0000 * a1, q1 + 0x10_0000 * a2, q2 + 0x4000 * a3, q3 + 0x100 * a4) < TWO128
  {
  }

  /** s as four words. */
  method LoadS(sk: seq<byte>) returns (f0: nat, f1: nat, f2: nat, f3: nat)
    requires |sk| == 16
    ensures f0 < W && f1 < W && f2 < W && f3 < W
    ensures Words(f0, f1, f2, f3) == Le(sk)
  {
    f0, f1, f2, f3 := Le(sk[..4]), Le(sk[4..8]), Le(sk[8..12]), Le(sk[12..]);
    LeOfWords(sk);
    assert Pow256(4) == W;
    LeBound(sk[..4]);
    LeBound(sk[4..8]);
    LeBound(sk[8..12]);
    LeBound(sk[12..]);
  }

  lemma WordsFit(r0: nat, r1: nat, r2: nat, r3: nat)
    requires r0 < W && r1 < W && r2 < W && r3 < W
    ensures Words(r0, r1, r2, r3) < TWO128
  {
  }

  lemma CarriesAdd(a0: nat, a1: nat, a2: nat, a3: nat, b0: nat, b1: nat, b2: nat, b3: nat,
      c0: nat, c1: nat, c2: nat, c3: nat, r0: nat, r1: nat, r2: nat, r3: nat)
    requires a0 + b0 == W * c0 + r0 && c0 + a1 + b1 == W * c1 + r1
    requires c1 + a2 + b2 == W * c2 + r2 && c2 + a3 + b3 == W * c3 + r3
    ensures Words(a0, a1, a2, a3) + Words(b0, b1, b2, b3) == TWO128 * c3 + Words(r0, r1, r2, r3)
  {
  }

  /** A 64-bit sum of two words and a carry does not wrap. */
  method AddWord(a: nat, b: nat, carry: nat) returns (s: nat)
    requires a < W && b < W && carry <= 1
    ensures carry + a + b == W * (s / W) + s % W && s / W <= 1
  {
    s := U64(carry + a + b);
  }

  /** Adding word by word, the carry kept in a 64-bit sum, is adding modulo 2^128. */
  method AddWords(a0: nat, a1: nat, a2: nat, a3: nat, b0: nat, b1: nat, b2: nat, b3: nat)
    returns (s0: nat, s1: nat, s2: nat, s3: nat)
    requires a0 < W && a1 < W && a2 < W && a3 < W && b0 < W && b1 < W && b2 < W && b3 < W
    ensures Words(s0 % W, s1 % W, s2 % W, s3 % W) == (Words(a0, a1, a2, a3) + Words(b0, b1, b2, b3)) % TWO128
  {
    hide Words;
    s0 := AddWord(a0, b0, 0);
    s1 := AddWord(a1, b1, s0 / W);
    s2 := AddWord(a2, b2, s1 / W);
    s3 := AddWord(a3, b3, s2 / W);
    CarriesAdd(a0, a1, a2, a3, b0, b1, b2, b3, s0 / W, s1 / W, s2 / W, s3 / W, s0 % W, s1 % W, s2 % W, s3 % W);
    WordsFit(s0 % W, s1 % W, s2 % W, s3 % W);
    DivModUnique(Words(a0, a1, a2, a3) + Words(b0, b1, b2, b3), TWO128, s3 / W, Words(s0 % W, s1 % W, s2 % W, s3 % W));
  }

  /** The low 32 bits of four sums, little endian. */
  method StoreWords(a: nat, b: nat, c: nat, d: nat) returns (tag: seq<byte>)
    ensures |tag| == 16
    ensures Le(tag) == Words(a % W, b % W, c % W, d % W)
  {
    tag := LeBytes(a, 4) + LeBytes(b, 4) + LeBytes(c, 4) + LeBytes(d, 4);
    WordOctets(a);
    WordOctets(b);
    WordOctets(c);
    WordOctets(d);
    LeOfWords(tag);
    assert tag[..4] == LeBytes(a, 4) && tag[4..8] == LeBytes(b, 4);
    assert tag[8..12] == LeBytes(c, 4) && tag[12..] == LeBytes(d, 4);
  }

  /** h + s modulo 2^128, little endian. */
  method StoreTag(h: Limbs, sk: seq<byte>) returns (tag: seq<byte>)
    requires h.Reduced() && |sk| == 16
    ensures tag == LeBytes((h.Val() + Le(sk)) % TWO128, 16)
  {
    var f0, f1, f2, f3 := LoadS(sk);
    var w0, w1, w2, w3 := PackWords(h);
    var s0, s1, s2, s3 := AddWords(w0, w1, w2, w3, f0, f1, f2, f3);
    tag := StoreWords(s0, s1, s2, s3);
    AddMod(h.Val(), Le(sk), TWO128);
    LeBytesOfLe(tag);
  }

  /** Adds a padded chunk to the accumulator, limb by limb. */
  method AddChunk(h: Limbs, chunk: seq<byte>) returns (q: Limbs)
    requires h.Carried() && 1 <= |chunk| <= 16
    ensures Absorbed(q) && q.Val() == h.Val() + Coefficient(chunk)
  {
    var blk := chunk + [1] + Zeros(16 - |chunk|);
    assert blk[16] == if |chunk| == 16 then 1 else 0;
    var m := LoadBlock(blk);
    BlockIsCoefficient(chunk, 16 - |chunk|);
    q := Limbs(U32(h.l0 + m.l0), U32(h.l1 + m.l1), U32(h.l2 + m.l2), U32(h.l3 + m.l3), U32(h.l4 + m.l4));
  }

  /** One pass of the loop over the message. */
  method AbsorbChunk(h: Limbs, msg: seq<byte>, off: nat, chunk: nat, r: Limbs, ghost blocks: nat) returns (q: Limbs)
    requires r.Reduced() && r.Val() >= 0 && h.Carried()
    requires off == 16 * blocks && 1 <= chunk <= 16 && off + chunk <= |msg|
    requires h.Val() % P == Accumulate(msg[..off], r.Val())
    ensures q.Carried()
    ensures q.Val() % P == Accumulate(msg[..off + chunk], r.Val())
  {
    hide Accumulate, Coefficient;
    AccumulateStep(msg, blocks, chunk, r.Val(), h.Val());
    q := AddChunk(h, msg[off..off + chunk]);
    q := MulCarry(q, r);
  }

  /** The loop over the message. */
  method Absorb(msg: seq<byte>, r: Limbs) returns (h: Limbs)
    requires r.Reduced() && r.Val() >= 0
    ensures h.Carried()
    ensures h.Val() % P == Accumulate(msg, r.Val())
  {
    h := Limbs(0, 0, 0, 0, 0);
    var off, len := 0, |msg|;
    ghost var blocks := 0;
    while len > 0
      invariant 0 <= off && 0 <= len && off + len == |msg| && 0 <= blocks && (len > 0 ==> off == 16 * blocks)
      invariant h.Carried()
      invariant h.Val() % P == Accumulate(msg[..off], r.Val())
    {
      var chunk := if len >= 16 then 16 else len;
      h := AbsorbChunk(h, msg, off, chunk, r, blocks);
      off, len, blocks := off + chunk, len - chunk, blocks + 1;
    }
    assert msg[..off] == msg;
  }

  /** The MAC of section 2.5 of RFC 7539. */
  method Poly1305Mac(key: seq<byte>, msg: seq<byte>) returns (tag: seq<byte>)
    requires |key| == 32 && |msg| < 0x1_0000_0000
    ensures tag == LeBytes(Tag(key, msg), 16)
    ensures var q := (|msg| + 15) / 16;
      var r := Bitwise(And, Le(key[..16]), 0x0FFF_FFFC_0FFF_FFFC_0FFF_FFFC_0FFF_FFFF, 128);
      Le(tag) == (Terms(msg, r, q, q) % 0x3_FFFF_FFFF_FFFF_FFFF_FFFF_FFFF_FFFF_FFFB + Le(key[16..]))
        % 0x1_0000_0000_0000_0000_0000_0000_0000_0000
  {
    var rb := ClampKey(key);
    var r := LoadR(rb);
    var h := Absorb(msg, r);
    h := FinalCarry(h);
    h := SubtractOnce(h);
    tag := StoreTag(h, key[16..]);
    TagRead(key, msg);
  }

  lemma TagRead(key: seq<byte>, msg: seq<byte>)
    requires |key| == 32
    ensures var q := (|msg| + 15) / 16;
      16 * q >= |msg| && (q > 0 ==> 16 * (q - 1) < |msg|)
    ensures var q := (|msg| + 15) / 16;
      var r := Bitwise(And, Le(key[..16]), 0x0FFF_FFFC_0FFF_FFFC_0FFF_FFFC_0FFF_FFFF, 128);
      Le(LeBytes(Tag(key, msg), 16)) ==
        (Terms(msg, r, q, q) % 0x3_FFFF_FFFF_FFFF_FFFF_FFFF_FFFF_FFFF_FFFB + Le(key[16..]))
          % 0x1_0000_0000_0000_0000_0000_0000_0000_0000
  {
    hide Bitwise, Le, LeBytes, Terms, Tag;
    ChunkCount(|msg|);
    TagIsPolynomial(key, msg, (|msg| + 15) / 16);
    TagOctetsRead(Tag(key, msg));
  }

  lemma ChunkCount(n: nat)
    ensures var q := (n + 15) / 16; 16 * q >= n && (q > 0 ==> 16 * (q - 1) < n)
  {
  }

  lemma TagOctetsRead(t: nat)
    requires t < TWO128
    ensures Le(LeBytes(t, 16)) == t
  {
    hide Le, LeBytes;
    LeOfLeBytes(t, 16);
    assert Pow256(8) == 0x1_0000_0000_0000_0000;
    assert Pow256(16) == TWO128;
  }

  /** The clamping masks of the source. */
  method ClampKey(key: seq<byte>) returns (rb: seq<byte>)
    requires |key| == 32
    ensures rb == ClampOctets(key[..16])
    ensures Le(rb) == Bitwise(And, Le(key[..16]), 0x0FFF_FFFC_0FFF_FFFC_0FFF_FFFC_0FFF_FFFF, 128)
  {
    hide Bitwise, Le;
    ClampIsMask(key[..16]);
    rb := key[..16];
    ClampMasks(key[3], key[4]);
    ClampMasks(key[7], key[8]);
    ClampMasks(key[11], key[12]);
    ClampMasks(key[15], 0);
    rb := rb[3 := Bitwise(And, rb[3], 15, 8)][7 := Bitwise(And, rb[7], 15, 8)];
    rb := rb[11 := Bitwise(And, rb[11], 15, 8)][15 := Bitwise(And, rb[15], 15, 8)];
    rb := rb[4 := Bitwise(And, rb[4], 252, 8)][8 := Bitwise(And, rb[8], 252, 8)][12 := Bitwise(And, rb[12], 252, 8)];
  }

  lemma ClampMasks(x: byte, y: byte)
    ensures Bitwise(And, x, 15, 8) == x % 16
    ensures Bitwise(And, y, 252, 8) == y - y % 4
  {
    Pow2Values();
    LowMask(x, 4, 8);
    HighMask(y, 2, 8);
  }

  lemma BlockIsCoefficient(c: seq<byte>, n: nat)
    ensures Le(c + [1] + Zeros(n)) == Coefficient(c)
  {
    LeConcat(c + [1], Zeros(n));
    LeZeros(n);
  }

  lemma AccumulateLast(msg: seq<byte>, r: nat)
    requires msg != []
    ensures var k := LastChunkStart(|msg|);
      k <= |msg| && Accumulate(msg, r) == Step(Accumulate(msg[..k], r), Coefficient(msg[k..]), r)
  {
    hide Coefficient, Step;
  }

  lemma AccumulateStep(msg: seq<byte>, blocks: nat, chunk: nat, r: nat, h: int)
    requires 1 <= chunk <= 16 && 16 * blocks + chunk <= |msg|
    requires h % P == Accumulate(msg[..16 * blocks], r)
    ensures Accumulate(msg[..16 * blocks + chunk], r)
         == Step(h, Coefficient(msg[16 * blocks..16 * blocks + chunk]), r)
  {
    hide Le, Coefficient, Step, Accumulate;
    var off := 16 * blocks;
    var pre, c := msg[..off + chunk], Coefficient(msg[off..off + chunk]);
    DivModUnique(|pre| - 1, 16, blocks, chunk - 1);
    AccumulateLast(pre, r);
    assert pre[..off] == msg[..off] && pre[off..] == msg[off..off + chunk];
    StepIsCongruent(h, Accumulate(msg[..off], r), c, r);
  }

  lemma StepIsCongruent(h: int, a: int, c: int, r: int)
    requires h % P == a
    ensures Step(h, c, r) == Step(a, c, r)
  {
    var q := h / P;
    assert h == P * q + a;
    assert (h + c) * r == (a + c) * r + P * (q * r) by {
      assert (P * q) * r == P * (q * r);
    }
    ModOfShift((h + c) * r, (a + c) * r, q * r, P);
  }

  /** ---- The closed form ---- */

  function Pow(r: nat, n: nat): (p: nat)
  {
    if n == 0 then 1 else r * Pow(r, n - 1)
  }

  /** Octets 16 i up to 16 i + 15, or fewer at the end. */
  function Chunk(msg: seq<byte>, i: nat): (c: seq<byte>)
    requires 16 * i < |msg|
  {
    if 16 * i + 16 <= |msg| then msg[16 * i..16 * i + 16] else msg[16 * i..]
  }

  /** c_0 r^n + c_1 r^(n-1) + ... over the first i chunks. */
  function Terms(msg: seq<byte>, r: nat, n: nat, i: nat): (s: nat)
    requires i <= n && (i > 0 ==> 16 * (i - 1) < |msg|)
  {
    if i == 0 then 0 else Terms(msg, r, n, i - 1) + Coefficient(Chunk(msg, i - 1)) * Pow(r, n - (i - 1))
  }

  lemma {:induction false} TermsShift(msg: seq<byte>, r: nat, n: nat, i: nat)
    requires i <= n && (i > 0 ==> 16 * (i - 1) < |msg|)
    ensures Terms(msg, r, n + 1, i) == r * Terms(msg, r, n, i)
  {
    hide Coefficient, Chunk;
    if i > 0 {
      TermsShift(msg, r, n, i - 1);
      var c, p := Coefficient(Chunk(msg, i - 1)), Pow(r, n - (i - 1));
      assert Pow(r, n + 1 - (i - 1)) == r * p;
      hide Terms, Pow;
      TermsStep(msg, r, n, i);
      TermsStep(msg, r, n + 1, i);
      Distribute(r, Terms(msg, r, n, i - 1), c, p);
    }
  }

  lemma TermsStep(msg: seq<byte>, r: nat, n: nat, i: nat)
    requires 0 < i <= n && 16 * (i - 1) < |msg|
    ensures Terms(msg, r, n, i) == Terms(msg, r, n, i - 1) + Coefficient(Chunk(msg, i - 1)) * Pow(r, n - (i - 1))
  {
  }

  lemma Distribute(r: nat, t: nat, c: nat, p: nat)
    ensures r * (t + c * p) == r * t + c * (r * p)
  {
    assert r * (c * p) == c * (r * p);
  }

  /** The accumulator is the polynomial sum of section 2.5 of RFC 7539 reduced once at the end: with
      q chunks, c_1 r^q + c_2 r^(q-1) + ... + c_q r modulo 2^130 - 5. */
  lemma {:induction false} AccumulateIsPolynomial(msg: seq<byte>, r: nat, q: nat)
    requires 16 * q >= |msg| && (q > 0 ==> 16 * (q - 1) < |msg|)
    ensures Accumulate(msg, r) == Terms(msg, r, q, q) % P
  {
    if q > 0 {
      hide Coefficient, Step, Accumulate, Terms;
      var k := 16 * (q - 1);
      AccumulateUnfold(msg, r, q);
      AccumulateIsPolynomial(msg[..k], r, q - 1);
      TermsUnfold(msg, r, q);
      HornerStep(Terms(msg[..k], r, q - 1, q - 1), Coefficient(msg[k..]), r);
    }
  }

  lemma AccumulateUnfold(msg: seq<byte>, r: nat, q: nat)
    requires q > 0 && 16 * (q - 1) < |msg| <= 16 * q
    ensures Accumulate(msg, r) == Step(Accumulate(msg[..16 * (q - 1)], r), Coefficient(msg[16 * (q - 1)..]), r)
  {
    hide Step, Coefficient;
    DivModUnique(|msg| - 1, 16, q - 1, |msg| - 1 - 16 * (q - 1));
  }

  lemma TermsUnfold(msg: seq<byte>, r: nat, q: nat)
    requires q > 0 && 16 * (q - 1) < |msg| <= 16 * q
    ensures Terms(msg, r, q, q)
         == r * Terms(msg[..16 * (q - 1)], r, q - 1, q - 1) + Coefficient(msg[16 * (q - 1)..]) * Pow(r, 1)
  {
    hide Coefficient;
    assert Chunk(msg, q - 1) == msg[16 * (q - 1)..];
    TermsOfPrefix(msg, msg[..16 * (q - 1)], r, q - 1, q - 1);
    TermsShift(msg, r, q - 1, q - 1);
  }

  lemma HornerStep(t: nat, c: nat, r: nat)
    ensures Step(t % P, c, r) == (r * t + c * Pow(r, 1)) % P
  {
    StepIsCongruent(t, t % P, c, r);
    assert Pow(r, 1) == r * Pow(r, 0) == r;
    assert (t + c) * r == r * t + c * r;
  }

  lemma {:induction false} TermsOfPrefix(msg: seq<byte>, front: seq<byte>, r: nat, n: nat, i: nat)
    requires i <= n && front <= msg && 16 * i <= |front|
    ensures Terms(msg, r, n, i) == Terms(front, r, n, i)
  {
    if i > 0 {
      hide Coefficient;
      TermsOfPrefix(msg, front, r, n, i - 1);
      assert Chunk(msg, i - 1) == Chunk(front, i - 1);
    }
  }

  /** ---- The tag as one formula ---- */

  /** A chunk is the number of its octets with one bit on top of them. */
  lemma CoefficientIs(chunk: seq<byte>)
    ensures Coefficient(chunk) == Le(chunk) + Pow256(|chunk|)
  {
    LeOfOne();
    hide Le, Pow256;
    LeConcat(chunk, [1]);
    assert Pow256(|chunk|) * 1 == Pow256(|chunk|);
  }

  lemma LeOfOne()
    ensures Le([1]) == 1
  {
    LeStep([1]);
    assert [1][1..] == [];
  }

  lemma MaskRow()
    ensures Le([252, 255, 255, 15]) == 0x0FFF_FFFC && Le([255, 255, 255, 15]) == 0x0FFF_FFFF
  {
  }

  /** The octets of the mask of section 2.5 of RFC 7539. */
  function Mask(): (m: seq<byte>)
    ensures |m| == 16 && Le(m) == 0x0FFF_FFFC_0FFF_FFFC_0FFF_FFFC_0FFF_FFFF
  {
    var row := [252, 255, 255, 15];
    MaskRow();
    hide Le;
    LeConcat(row, row);
    LeConcat(row, row + row);
    LeConcat([255, 255, 255, 15], row + (row + row));
    assert Pow256(4) == 0x1_0000_0000;
    [255, 255, 255, 15] + (row + (row + row))
  }

  lemma OctetMasks(x: byte)
    ensures And8(x, 255) == x && And8(x, 15) == x % 16 && And8(x, 252) == x - x % 4
  {
    hide Bitwise;
    Pow2Values();
    LowMask(x, 8, 8);
    ClampMasks(x, x);
  }

  /** Clamping the octets of r is one And of the number they make. */
  lemma ClampIsMask(s: seq<byte>)
    requires |s| == 16
    ensures Le(ClampOctets(s)) == Bitwise(And, Le(s), 0x0FFF_FFFC_0FFF_FFFC_0FFF_FFFC_0FFF_FFFF, 128)
  {
    hide Bitwise, Le, And8;
    var c, m := ClampOctets(s), Mask();
    forall i | 0 <= i < 16 ensures c[i] == And8(s[i], m[i]) {
      OctetMasks(s[i]);
    }
    AndOctets(s, m, c);
  }

  /** The tag in numbers alone: the polynomial of the q chunks at the masked first half of the key, modulo
      2^130 - 5, plus the second half, modulo 2^128. */
  lemma TagIsPolynomial(key: seq<byte>, msg: seq<byte>, q: nat)
    requires |key| == 32 && 16 * q >= |msg| && (q > 0 ==> 16 * (q - 1) < |msg|)
    ensures var r := Bitwise(And, Le(key[..16]), 0x0FFF_FFFC_0FFF_FFFC_0FFF_FFFC_0FFF_FFFF, 128);
      Tag(key, msg) == (Terms(msg, r, q, q) % 0x3_FFFF_FFFF_FFFF_FFFF_FFFF_FFFF_FFFF_FFFB + Le(key[16..]))
        % 0x1_0000_0000_0000_0000_0000_0000_0000_0000
  {
    hide Bitwise, Le, Terms, Accumulate;
    ClampIsMask(key[..16]);
    AccumulateIsPolynomial(msg, Le(ClampOctets(key[..16])), q);
  }
}
