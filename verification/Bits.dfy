/** Bitwise operators on n-bit unsigned words held as numbers, and the facts that turn the masks,
    shifts and disjoint ors of the kernel's C into arithmetic. */
module Bits {
  import opened Bytes

  datatype Op = And | Or | Xor {
    predicate Apply(a: bool, b: bool) {
      match this
      case And => a && b
      case Or => a || b
      case Xor => a != b
    }
  }

  function Pow2(n: nat): (p: nat)
    ensures p > 0
  {
    if n == 0 then 1 else 2 * Pow2(n - 1)
  }

  lemma Pow2Values()
    ensures Pow2(2) == 4 && Pow2(4) == 16 && Pow2(6) == 64 && Pow2(8) == 0x100
    ensures Pow2(10) == 0x400 && Pow2(12) == 0x1000 && Pow2(14) == 0x4000 && Pow2(16) == 0x1_0000
    ensures Pow2(18) == 0x4_0000 && Pow2(20) == 0x10_0000 && Pow2(22) == 0x40_0000
    ensures Pow2(24) == 0x100_0000 && Pow2(26) == 0x400_0000 && Pow2(28) == 0x1000_0000 && Pow2(30) == 0x4000_0000
    ensures Pow2(32) == 0x1_0000_0000
  {
  }

  /** The n-bit word whose every bit is op of the bits of x and y. */
  function Bitwise(op: Op, x: nat, y: nat, n: nat): (r: nat)
    ensures r < Pow2(n)
    decreases n, x, y
  {
    if n == 0 then 0
    else (if op.Apply(x % 2 == 1, y % 2 == 1) then 1 else 0) + 2 * Bitwise(op, x / 2, y / 2, n - 1)
  }

  function And32(x: nat, y: nat): (r: nat) { Bitwise(And, x, y, 32) }

  function Or32(x: nat, y: nat): (r: nat) { Bitwise(Or, x, y, 32) }

  function Not32(x: nat): (r: nat) requires x < 0x1_0000_0000 { 0xFFFF_FFFF - x }

  function Shl32(x: nat, k: nat): (r: nat) { (x * Pow2(k)) % 0x1_0000_0000 }

  /** A C assignment to uint32_t. */
  function U32(x: int): (r: nat)
    ensures r < 0x1_0000_0000
    ensures 0 <= x < 0x1_0000_0000 ==> r == x
  {
    x % 0x1_0000_0000
  }

  /** A C assignment to uint64_t. */
  function U64(x: int): (r: nat)
    ensures r < 0x1_0000_0000_0000_0000
    ensures 0 <= x < 0x1_0000_0000_0000_0000 ==> r == x
  {
    x % 0x1_0000_0000_0000_0000
  }

  function Xor8(x: byte, y: byte): (r: byte)
  {
    assert Pow2(8) == 256;
    Bitwise(Xor, x, y, 8)
  }

  function And8(x: byte, y: byte): (r: byte)
  {
    assert Pow2(8) == 256;
    Bitwise(And, x, y, 8)
  }

  lemma AndBit(x: nat, y: nat, n: nat)
    requires n > 0
    ensures Bitwise(And, x, y, n) == (if x % 2 == 1 && y % 2 == 1 then 1 else 0) + 2 * Bitwise(And, x / 2, y / 2, n - 1)
  {
  }

  /** And of two numbers goes field by field. */
  lemma {:induction false} AndField(x: nat, y: nat, xs: nat, ys: nat, k: nat, n: nat)
    requires x < Pow2(k) && y < Pow2(k)
    ensures Bitwise(And, x + Pow2(k) * xs, y + Pow2(k) * ys, k + n)
         == Bitwise(And, x, y, k) + Pow2(k) * Bitwise(And, xs, ys, n)
  {
    if k == 0 {
      assert x == 0 && y == 0;
    } else {
      var p := Pow2(k - 1);
      assert Pow2(k) == 2 * p;
      hide Bitwise, Pow2;
      AndField(x / 2, y / 2, xs, ys, k - 1, n);
      AndFieldStep(x, y, xs, ys, p, k, n);
    }
  }

  lemma AndFieldStep(x: nat, y: nat, xs: nat, ys: nat, p: nat, k: nat, n: nat)
    requires k > 0
    requires Bitwise(And, x / 2 + p * xs, y / 2 + p * ys, k - 1 + n)
          == Bitwise(And, x / 2, y / 2, k - 1) + p * Bitwise(And, xs, ys, n)
    ensures Bitwise(And, x + 2 * p * xs, y + 2 * p * ys, k + n)
         == Bitwise(And, x, y, k) + 2 * p * Bitwise(And, xs, ys, n)
  {
    hide Bitwise;
    TwiceTimes(p, xs);
    TwiceTimes(p, ys);
    TwiceTimes(p, Bitwise(And, xs, ys, n));
    AndTwice(x, y, p * xs, p * ys, p * Bitwise(And, xs, ys, n), k, n);
  }

  lemma TwiceTimes(p: nat, y: nat)
    ensures 2 * p * y == 2 * (p * y) && p * y >= 0
  {
  }

  lemma AndTwice(x: nat, y: nat, u: nat, v: nat, w: nat, k: nat, n: nat)
    requires k > 0 && Bitwise(And, x / 2 + u, y / 2 + v, k - 1 + n) == Bitwise(And, x / 2, y / 2, k - 1) + w
    ensures Bitwise(And, x + 2 * u, y + 2 * v, k + n) == Bitwise(And, x, y, k) + 2 * w
  {
    hide Bitwise;
    AndBit(x + 2 * u, y + 2 * v, k + n);
    AndBit(x, y, k);
    assert (x + 2 * u) / 2 == x / 2 + u && (y + 2 * v) / 2 == y / 2 + v;
  }

  lemma AndOneOctet(x: byte, y: byte, xs: nat, ys: nat, n: nat)
    ensures Bitwise(And, x + 256 * xs, y + 256 * ys, 8 + n) == And8(x, y) + 256 * Bitwise(And, xs, ys, n)
  {
    assert Pow2(8) == 256;
    hide Bitwise, Pow2;
    AndField(x, y, xs, ys, 8, n);
  }

  /** And octet by octet is And of the numbers the octets make. */
  lemma {:induction false} AndOctets(s: seq<byte>, m: seq<byte>, r: seq<byte>)
    requires |s| == |m| == |r| && forall i :: 0 <= i < |s| ==> r[i] == And8(s[i], m[i])
    ensures Le(r) == Bitwise(And, Le(s), Le(m), 8 * |s|)
  {
    hide Bitwise, And8;
    if s == [] {
      AndNothing();
    } else {
      hide Le;
      AndOctets(s[1..], m[1..], r[1..]);
      AndFirstOctet(s, m, r);
    }
  }

  lemma AndNothing()
    ensures Bitwise(And, 0, 0, 0) == 0
  {
  }

  lemma AndFirstOctet(s: seq<byte>, m: seq<byte>, r: seq<byte>)
    requires |s| == |m| == |r| > 0 && r[0] == And8(s[0], m[0])
    requires Le(r[1..]) == Bitwise(And, Le(s[1..]), Le(m[1..]), 8 * (|s| - 1))
    ensures Le(r) == Bitwise(And, Le(s), Le(m), 8 * |s|)
  {
    hide *;
    var n := 8 * (|s| - 1);
    assert 8 + n == 8 * |s|;
    LeStep(s);
    LeStep(m);
    LeStep(r);
    AndOneOctet(s[0], m[0], Le(s[1..]), Le(m[1..]), n);
  }

  lemma HalveMod(x: nat, m: nat)
    requires m > 0
    ensures x % (2 * m) == x % 2 + 2 * ((x / 2) % m)
  {
    var q, r := (x / 2) / m, (x / 2) % m;
    assert x / 2 == q * m + r;
    assert x == (2 * m) * q + (x % 2 + 2 * r);
    DivModUnique(x, 2 * m, q, x % 2 + 2 * r);
  }

  lemma {:induction false} ZeroAbsorbs(x: nat, n: nat)
    ensures Bitwise(And, x, 0, n) == 0
  {
    if n > 0 { ZeroAbsorbs(x / 2, n - 1); }
  }

  lemma {:induction false} ZeroIsNeutral(op: Op, x: nat, n: nat)
    requires op != And && x < Pow2(n)
    ensures Bitwise(op, x, 0, n) == x && Bitwise(op, 0, x, n) == x
  {
    if n > 0 { ZeroIsNeutral(op, x / 2, n - 1); }
  }

  /** A mask of k ones is the remainder modulo 2^k. */
  lemma {:induction false} LowMask(x: nat, k: nat, n: nat)
    requires k <= n
    ensures Bitwise(And, x, Pow2(k) - 1, n) == x % Pow2(k)
  {
    hide Bitwise, Pow2;
    if k == 0 {
      NoMask(x, n);
    } else {
      LowMask(x / 2, k - 1, n - 1);
      OnesHalved(x, k, n);
      HalvePow(x, k);
    }
  }

  lemma NoMask(x: nat, n: nat)
    ensures Bitwise(And, x, Pow2(0) - 1, n) == x % Pow2(0)
  {
    ZeroAbsorbs(x, n);
  }

  lemma OnesHalved(x: nat, k: nat, n: nat)
    requires 0 < k && 0 < n
    ensures Bitwise(And, x, Pow2(k) - 1, n) == x % 2 + 2 * Bitwise(And, x / 2, Pow2(k - 1) - 1, n - 1)
  {
    OddMask(x, Pow2(k - 1) - 1, n);
  }

  lemma HalvePow(x: nat, k: nat)
    requires k > 0
    ensures x % Pow2(k) == x % 2 + 2 * ((x / 2) % Pow2(k - 1))
  {
    HalveMod(x, Pow2(k - 1));
  }

  /** A mask whose low bit is set keeps the low bit. */
  lemma OddMask(x: nat, y: nat, n: nat)
    requires n >= 1
    ensures Bitwise(And, x, 1 + 2 * y, n) == x % 2 + 2 * Bitwise(And, x / 2, y, n - 1)
  {
    OddHalf(y);
  }

  lemma OddHalf(y: nat)
    ensures (1 + 2 * y) / 2 == y && (1 + 2 * y) % 2 == 1
  {
  }

  lemma Half(m: nat, y: nat)
    requires m == 2 * y
    ensures m % 2 == 0 && m / 2 == y
  {
  }

  /** A mask whose low bit is clear looks at the number without it. */
  lemma MaskOverOne(x: nat, m: nat, y: nat, n: nat)
    requires n >= 1 && m == 2 * y
    ensures Bitwise(And, x, m, n) == 2 * Bitwise(And, x / 2, y, n - 1)
  {
    Half(m, y);
  }

  lemma MaskOverFour(x: nat, m: nat, y: nat, n: nat)
    requires n >= 4 && m == 16 * y
    ensures Bitwise(And, x, m, n) == 16 * Bitwise(And, x / 16, y, n - 4)
  {
    hide Bitwise;
    MaskOverOne(x, m, 8 * y, n);
    MaskOverOne(x / 2, 8 * y, 4 * y, n - 1);
    MaskOverOne(x / 4, 4 * y, 2 * y, n - 2);
    MaskOverOne(x / 8, 2 * y, y, n - 3);
  }

  /** The same of an octet. */
  lemma MaskOverOctet(x: nat, m: nat, y: nat, n: nat)
    requires n >= 8 && m == 0x100 * y
    ensures Bitwise(And, x, m, n) == 0x100 * Bitwise(And, x / 0x100, y, n - 8)
  {
    hide Bitwise;
    MaskOverFour(x, m, 16 * y, n);
    MaskOverFour(x / 16, 16 * y, y, n - 4);
  }

  lemma {:induction false} AndComplement(x: nat, y: nat, n: nat)
    requires x < Pow2(n) && y < Pow2(n)
    ensures Bitwise(And, x, y, n) + Bitwise(And, x, Pow2(n) - 1 - y, n) == x
  {
    if n > 0 {
      AndComplement(x / 2, y / 2, n - 1);
      assert (Pow2(n) - 1 - y) / 2 == Pow2(n - 1) - 1 - y / 2;
    }
  }

  /** A mask that clears the low k bits rounds down to a multiple of 2^k. */
  lemma HighMask(x: nat, k: nat, n: nat)
    requires k <= n && x < Pow2(n) && Pow2(k) <= Pow2(n)
    ensures Bitwise(And, x, Pow2(n) - Pow2(k), n) == x - x % Pow2(k)
  {
    AndComplement(x, Pow2(k) - 1, n);
    LowMask(x, k, n);
  }

  /** Or of bit fields that do not overlap is their sum. */
  lemma {:induction false} DisjointOr(x: nat, y: nat, k: nat, n: nat)
    requires k <= n && x < Pow2(k) && y % Pow2(k) == 0 && y < Pow2(n)
    ensures Bitwise(Or, x, y, n) == x + y
  {
    if k == 0 {
      ZeroIsNeutral(Or, y, n);
    } else {
      HalveMod(y, Pow2(k - 1));
      DisjointOr(x / 2, y / 2, k - 1, n - 1);
    }
  }

  /** Or with a low field leaves the high part. */
  lemma {:induction false} OrLowField(h: nat, l: nat, m: nat, k: nat, n: nat)
    requires k <= n && h % Pow2(k) == 0 && h < Pow2(n) && l < Pow2(k) && m < Pow2(k)
    ensures Bitwise(Or, h + l, m, n) == h + Bitwise(Or, l, m, n)
  {
    if k == 0 {
      ZeroIsNeutral(Or, h, n);
      ZeroIsNeutral(Or, 0, n);
    } else {
      HalveMod(h, Pow2(k - 1));
      OrLowField(h / 2, l / 2, m / 2, k - 1, n - 1);
      assert (h + l) / 2 == h / 2 + l / 2 && (h + l) % 2 == l % 2;
    }
  }

  lemma OrOne(l: nat, n: nat)
    requires n > 0 && l < Pow2(n)
    ensures Bitwise(Or, l, 1, n) == l - l % 2 + 1
  {
    ZeroIsNeutral(Or, l / 2, n - 1);
  }

  lemma {:induction false} XorCancels(x: nat, y: nat, n: nat)
    requires x < Pow2(n)
    ensures Bitwise(Xor, Bitwise(Xor, x, y, n), y, n) == x
  {
    if n > 0 {
      XorCancels(x / 2, y / 2, n - 1);
      var b := if (x % 2 == 1) != (y % 2 == 1) then 1 else 0;
      var rest := Bitwise(Xor, x / 2, y / 2, n - 1);
      assert (b + 2 * rest) / 2 == rest && (b + 2 * rest) % 2 == b;
    }
  }

  lemma {:induction false} XorZeroIffEqual(x: nat, y: nat, n: nat)
    requires x < Pow2(n) && y < Pow2(n)
    ensures Bitwise(Xor, x, y, n) == 0 <==> x == y
  {
    if n > 0 { XorZeroIffEqual(x / 2, y / 2, n - 1); }
  }

  lemma {:induction false} OrZeroIffBothZero(x: nat, y: nat, n: nat)
    requires x < Pow2(n) && y < Pow2(n)
    ensures Bitwise(Or, x, y, n) == 0 <==> x == 0 && y == 0
  {
    if n > 0 { OrZeroIffBothZero(x / 2, y / 2, n - 1); }
  }

  lemma Xor8Involution(x: byte, y: byte)
    ensures Xor8(Xor8(x, y), y) == x
  {
    assert Pow2(8) == 256;
    XorCancels(x, y, 8);
  }
}
