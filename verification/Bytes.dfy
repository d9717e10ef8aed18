/** Octets, their little-endian value, and fixed-width little-endian fields. */
module Bytes {

  type byte = x: int | 0 <= x < 256

  /** The number whose little-endian octets are s. */
  function Le(s: seq<byte>): (v: nat)
  {
    if s == [] then 0 else s[0] + 256 * Le(s[1..])
  }

  /** The low n octets of v, least significant first. */
  function LeBytes(v: nat, n: nat): (s: seq<byte>)
    ensures |s| == n
  {
    if n == 0 then [] else [v % 256] + LeBytes(v / 256, n - 1)
  }

  function Pow256(n: nat): (p: nat)
    ensures p > 0
  {
    if n == 0 then 1 else 256 * Pow256(n - 1)
  }

  function Zeros(n: nat): (s: seq<byte>)
    ensures |s| == n && forall i :: 0 <= i < n ==> s[i] == 0
  {
    seq(n, _ => 0)
  }

  lemma {:induction false} LeBound(s: seq<byte>)
    ensures Le(s) < Pow256(|s|)
  {
    if s != [] { LeBound(s[1..]); }
  }

  lemma {:induction false} LeConcat(a: seq<byte>, b: seq<byte>)
    ensures Le(a + b) == Le(a) + Pow256(|a|) * Le(b)
  {
    if a == [] {
      assert a + b == b;
    } else {
      LeConcat(a[1..], b);
      assert (a + b)[1..] == a[1..] + b;
      assert 256 * (Pow256(|a| - 1) * Le(b)) == Pow256(|a|) * Le(b);
    }
  }

  lemma {:induction false} LeZeros(n: nat)
    ensures Le(Zeros(n)) == 0
  {
    if n > 0 {
      assert Zeros(n)[1..] == Zeros(n - 1);
      LeZeros(n - 1);
    }
  }

  /** Decoding after encoding keeps a number that fits. */
  lemma {:induction false} LeOfLeBytes(v: nat, n: nat)
    ensures Le(LeBytes(v, n)) == v % Pow256(n)
  {
    if n > 0 {
      LeOfLeBytes(v / 256, n - 1);
      assert LeBytes(v, n)[1..] == LeBytes(v / 256, n - 1);
      ModStep(v, Pow256(n - 1));
    }
  }

  /** Encoding after decoding keeps every octet, so Le is injective at a given length. */
  lemma {:induction false} LeBytesOfLe(s: seq<byte>)
    ensures LeBytes(Le(s), |s|) == s
  {
    if s != [] {
      hide Le, LeBytes;
      LeBytesOfLe(s[1..]);
      LowOctetOut(s[0], Le(s[1..]));
      LeStep(s);
      LeBytesStep(Le(s), |s|);
      assert s == [s[0]] + s[1..];
    }
  }

  lemma LeStep(s: seq<byte>)
    requires s != []
    ensures Le(s) == s[0] + 256 * Le(s[1..])
  {
  }

  /** Four octets as one number, least significant first. */
  function FromOctets(a: nat, b: nat, c: nat, d: nat): (n: nat)
  {
    a + 0x100 * b + 0x1_0000 * c + 0x100_0000 * d
  }

  /** The 32-bit word at an octet of s. */
  function WordIn(s: seq<byte>, at: nat): (n: nat)
    requires at + 4 <= |s|
  {
    FromOctets(s[at], s[at + 1], s[at + 2], s[at + 3])
  }

  lemma LeIsWord(s: seq<byte>, at: nat)
    requires at + 4 <= |s|
    ensures Le(s[at..at + 4]) == WordIn(s, at)
  {
    LeOfFour(s[at..at + 4]);
  }

  lemma LeOfTwo(s: seq<byte>)
    requires |s| == 2
    ensures Le(s) == s[0] as nat + 0x100 * s[1] as nat
  {
    assert Le(s[1..]) == s[1];
  }

  lemma LeOfFour(s: seq<byte>)
    requires |s| == 4
    ensures Le(s) == FromOctets(s[0], s[1], s[2], s[3])
    ensures Le(s) == s[0] as nat + 0x100 * s[1] as nat + 0x1_0000 * s[2] as nat + 0x100_0000 * s[3] as nat
  {
    var t := s[1..];
    LeStep(s);
    LeStep(t);
    LeOfTwo(t[1..]);
  }

  lemma LeBytesStep(v: nat, n: nat)
    requires n > 0
    ensures LeBytes(v, n) == [v % 256] + LeBytes(v / 256, n - 1)
  {
  }

  lemma LowOctetOut(b: byte, v: nat)
    ensures (b + 256 * v) % 256 == b && (b + 256 * v) / 256 == v
  {
  }

  lemma ModStep(v: nat, m: nat)
    requires m > 0
    ensures v % (256 * m) == v % 256 + 256 * ((v / 256) % m)
  {
    var q, r := (v / 256) / m, (v / 256) % m;
    assert v / 256 == q * m + r;
    assert v == (256 * m) * q + (v % 256 + 256 * r);
    DivModUnique(v, 256 * m, q, v % 256 + 256 * r);
  }

  /** The quotient and remainder of a division are the only ones. */
  lemma DivModUnique(v: int, m: int, q: int, r: int)
    requires m > 0 && 0 <= r < m && v == m * q + r
    ensures v / m == q && v % m == r
  {
    var q', r' := v / m, v % m;
    var d := q - q';
    assert m * d == r' - r by {
      assert v == m * q' + r';
      assert m * d == m * q - m * q';
    }
    MultipleGrows(m, d);
  }

  lemma MultipleGrows(m: int, d: int)
    requires m > 0
    ensures d >= 1 ==> m * d >= m
    ensures d <= -1 ==> m * d <= -m
  {
    if d >= 1 {
      assert m * (d - 1) >= 0;
    } else if d <= -1 {
      assert m * (-d - 1) >= 0;
    }
  }

  lemma ModOfShift(a: int, b: int, k: int, m: int)
    requires m > 0 && a == b + m * k
    ensures a % m == b % m
  {
    assert b == m * (b / m) + b % m;
    assert a == m * (b / m + k) + b % m;
    DivModUnique(a, m, b / m + k, b % m);
  }

  lemma AddMod(v: int, s: int, m: int)
    requires m > 0
    ensures (v % m + s) % m == (v + s) % m
  {
    ModOfShift(v + s, v % m + s, v / m, m);
  }

  lemma DivTwice(n: nat, p: nat)
    requires p > 0
    ensures n / 256 / p == n / (256 * p)
  {
    var q, r := n / 256 / p, n / 256 % p;
    assert n / 256 == p * q + r;
    assert n == (256 * p) * q + (256 * r + n % 256);
    DivModUnique(n, 256 * p, q, 256 * r + n % 256);
  }

  /** Shifting an octet out. */
  lemma {:induction false} LeBytesAt(n: nat, count: nat, i: nat)
    requires i < count
    ensures LeBytes(n, count)[i] == (n / Pow256(i)) % 256
    decreases i
  {
    if i > 0 {
      LeBytesAt(n / 256, count - 1, i - 1);
      DivTwice(n, Pow256(i - 1));
    }
  }

  /** Equal strides one behind the other. */
  lemma Spread(i: nat, d: nat, size: nat)
    ensures (i + 1 + d) * size == i * size + size + d * size && d * size >= 0
  {
  }

  /** The index of the first c in s, |s| if there is none. */
  function Until(s: seq<byte>, c: byte): (k: nat)
    ensures k <= |s|
    ensures k < |s| ==> s[k] == c
    ensures forall i :: 0 <= i < k ==> s[i] != c
  {
    if s == [] || s[0] == c then 0 else 1 + Until(s[1..], c)
  }

  lemma UntilIs(s: seq<byte>, c: byte, k: nat)
    requires k <= |s| && (k < |s| ==> s[k] == c) && forall i :: 0 <= i < k ==> s[i] != c
    ensures Until(s, c) == k
  {
  }

  /** A C string in a buffer ends at its first NUL. */
  function CString(s: seq<byte>): (r: seq<byte>)
    ensures |r| <= |s| && forall i :: 0 <= i < |r| ==> r[i] != 0
  {
    s[..Until(s, 0)]
  }

  /** A string padded with NULs reads back. */
  lemma CStringOfPadded(s: seq<byte>, n: nat)
    requires forall i :: 0 <= i < |s| ==> s[i] != 0
    ensures CString(s + Zeros(n)) == s
  {
    UntilIs(s + Zeros(n), 0, |s|);
  }

  /** k_memcpy to the end of what a buffer holds. */
  method Append(buf: array<byte>, at: nat, src: seq<byte>) returns (end: nat)
    requires at + |src| <= buf.Length
    modifies buf
    ensures end == at + |src|
    ensures buf[..end] == old(buf[..at]) + src && forall k :: end <= k < buf.Length ==> buf[k] == old(buf[k])
  {
    end := at + |src|;
    forall k | 0 <= k < |src| { buf[at + k] := src[k]; }
  }

  /** n as count octets, most significant first. */
  function Be(n: nat, count: nat): (s: seq<byte>)
    ensures |s| == count
  {
    if count == 0 then [] else Be(n / 256, count - 1) + [n % 256]
  }

  lemma {:induction false} BeAt(n: nat, count: nat, j: nat)
    requires j < count
    ensures Be(n, count)[j] == (n / Pow256(count - 1 - j)) % 256
    decreases count
  {
    if j < count - 1 {
      BeAt(n / 256, count - 1, j);
      DivTwice(n, Pow256(count - 2 - j));
    }
  }

  /** The number whose octets, most significant first, are s. */
  function FromBe(s: seq<byte>): (n: nat)
  {
    if s == [] then 0 else 256 * FromBe(s[..|s| - 1]) + s[|s| - 1]
  }

  lemma {:induction false} FromBeOfBe(n: nat, count: nat)
    ensures FromBe(Be(n, count)) == n % Pow256(count)
  {
    if count > 0 {
      FromBeOfBe(n / 256, count - 1);
      assert Be(n, count)[..count - 1] == Be(n / 256, count - 1);
      ModStep(n, Pow256(count - 1));
    }
  }

  lemma FromBeTwo(s: seq<byte>)
    requires |s| == 2
    ensures FromBe(s) == s[1] as nat + 0x100 * s[0] as nat
  {
    assert s[..1][..0] == [] && FromBe(s[..1]) == s[0];
  }

  lemma FromBeFour(s: seq<byte>)
    requires |s| == 4
    ensures FromBe(s) == FromOctets(s[3], s[2], s[1], s[0])
  {
    hide FromBe;
    FromBeStep(s);
    FromBeStep(s[..3]);
    FromBeTwo(s[..2]);
    assert s[..3][..2] == s[..2];
  }

  lemma FromBeStep(s: seq<byte>)
    requires s != []
    ensures FromBe(s) == 256 * FromBe(s[..|s| - 1]) + s[|s| - 1]
  {
  }
}
