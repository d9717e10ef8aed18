/** Where the constants of SHA-256 come from (sections 4.2.2 and 5.3.3 of FIPS 180-4): the first 32 bits of the
    fractions of the cube roots of the first 64 primes, and of the square roots of the first eight. */
module Sha256Roots {
  import opened Bytes
  import opened Sha256

  /** ---- Primes ---- */

  ghost predicate IsPrime(n: nat)
  {
    n >= 2 && forall d :: 2 <= d < n ==> n % d != 0
  }

  /** How many primes there are from a up to b, b excluded. */
  ghost function Primes(a: nat, b: nat): (n: nat)
    decreases b - a
  {
    if a >= b then 0 else (if IsPrime(a) then 1 else 0) + Primes(a + 1, b)
  }

  /** p is the prime with t primes below it. */
  ghost predicate Nth(t: nat, p: nat)
  {
    IsPrime(p) && Primes(0, p) == t
  }

  lemma {:induction false} PrimesSplit(a: nat, m: nat, b: nat)
    requires a <= m <= b
    ensures Primes(a, b) == Primes(a, m) + Primes(m, b)
    decreases m - a
  {
    hide IsPrime;
    if a < m { PrimesSplit(a + 1, m, b); }
  }

  lemma {:induction false} NoPrimes(a: nat, b: nat)
    requires forall n :: a <= n < b ==> !IsPrime(n)
    ensures Primes(a, b) == 0
    decreases b - a
  {
    hide IsPrime;
    if a < b { NoPrimes(a + 1, b); }
  }

  lemma NthUnique(t: nat, p: nat, q: nat)
    requires Nth(t, p) && Nth(t, q)
    ensures p == q
  {
    if p < q { NthGrows(p, q); }
    if q < p { NthGrows(q, p); }
  }

  lemma NthGrows(p: nat, q: nat)
    requires IsPrime(p) && p < q
    ensures Primes(0, p) < Primes(0, q)
  {
    hide IsPrime;
    PrimesSplit(0, p, q);
  }

  /** One of the primes below 18 divides n properly. */
  predicate HasFactor(n: nat)
  {
    || (n > 2 && n % 2 == 0) || (n > 3 && n % 3 == 0) || (n > 5 && n % 5 == 0) || (n > 7 && n % 7 == 0)
    || (n > 11 && n % 11 == 0) || (n > 13 && n % 13 == 0) || (n > 17 && n % 17 == 0)
  }

  /** A divisor below 18 has a prime factor below 18. */
  lemma SmallDivisor(n: nat, d: nat)
    requires 2 <= d < 18 && d < n && n % d == 0
    ensures HasFactor(n)
  {
    var e := n / d;
    assert n == d * e;
    if d % 2 == 0 {
      Multiple(n, 2, d / 2, e);
    } else if d % 3 == 0 {
      Multiple(n, 3, d / 3, e);
    } else if d == 5 || d == 7 || d == 11 || d == 13 || d == 17 {
    }
  }

  lemma Multiple(n: nat, k: nat, a: nat, e: nat)
    requires k > 0 && n == (k * a) * e
    ensures n % k == 0
  {
    assert n == k * (a * e);
    DivModUnique(n, k, a * e, 0);
  }

  /** Below 18 squared having no such factor is being prime. */
  lemma FactorOrPrime(n: nat)
    requires 2 <= n < 324
    ensures HasFactor(n) <==> !IsPrime(n)
  {
    if !HasFactor(n) {
      forall d | 2 <= d < n ensures n % d != 0 {
        if n % d == 0 {
          var e := n / d;
          assert n == d * e;
          OtherDivisor(n, d, e);
          if d < 18 { SmallDivisor(n, d); } else { SmallDivisor(n, e); }
        }
      }
    }
  }

  lemma OtherDivisor(n: nat, d: nat, e: nat)
    requires n == d * e && 2 <= d < n < 324
    ensures 2 <= e < n && n % e == 0 && (d < 18 || e < 18)
  {
    assert d * 1 == d && d * 0 == 0;
    DivModUnique(n, e, d, 0);
    assert d * e >= 2 * e;
    assert d >= 18 ==> d * e >= 18 * e;
  }

  /** Every number from a up to b, b excluded, has such a factor. */
  predicate Factored(a: nat, b: nat)
    decreases b - a
  {
    a >= b || (HasFactor(a) && Factored(a + 1, b))
  }

  lemma {:induction false} FactoredAt(a: nat, b: nat, n: nat)
    requires Factored(a, b) && a <= n < b
    ensures HasFactor(n)
    decreases b - a
  {
    hide HasFactor;
    if a < n { FactoredAt(a + 1, b, n); }
  }

  /** q has none, but everything between p and q. */
  predicate Gap(p: nat, q: nat)
  {
    2 <= p < q < 324 && !HasFactor(q) && Factored(p + 1, q)
  }

  lemma NextPrime(t: nat, p: nat, q: nat)
    requires Nth(t, p) && Gap(p, q)
    ensures Nth(t + 1, q)
  {
    hide HasFactor, IsPrime, Factored;
    FactorOrPrime(q);
    forall n | p < n < q ensures !IsPrime(n) {
      FactoredAt(p + 1, q, n);
      FactorOrPrime(n);
    }
    PrimesSplit(0, p, q);
    NoPrimes(p + 1, q);
  }

  function PrimeRow(r: nat): (s: seq<nat>)
    requires r < 8
    ensures |s| == 8
  {
    match r
    case 0 => [2, 3, 5, 7, 11, 13, 17, 19]
    case 1 => [23, 29, 31, 37, 41, 43, 47, 53]
    case 2 => [59, 61, 67, 71, 73, 79, 83, 89]
    case 3 => [97, 101, 103, 107, 109, 113, 127, 131]
    case 4 => [137, 139, 149, 151, 157, 163, 167, 173]
    case 5 => [179, 181, 191, 193, 197, 199, 211, 223]
    case 6 => [227, 229, 233, 239, 241, 251, 257, 263]
    case _ => [269, 271, 277, 281, 283, 293, 307, 311]
  }

  ghost predicate Gaps(r: nat)
    requires r < 8
  {
    var s := PrimeRow(r);
    && (r > 0 ==> Gap(PrimeRow(r - 1)[7], s[0]))
    && Gap(s[0], s[1]) && Gap(s[1], s[2]) && Gap(s[2], s[3]) && Gap(s[3], s[4]) && Gap(s[4], s[5])
    && Gap(s[5], s[6]) && Gap(s[6], s[7])
  }

  lemma GapsOne()
    ensures Gaps(0)
  {
    assert Gap(2, 3);
    assert Gap(3, 5);
    assert Gap(5, 7);
    assert Gap(7, 11);
    assert Gap(11, 13);
    assert Gap(13, 17);
    assert Gap(17, 19);
    hide Gap, HasFactor, Factored;
  }

  lemma GapsTwo()
    ensures Gaps(1)
  {
    assert Gap(19, 23);
    assert Gap(23, 29);
    assert Gap(29, 31);
    assert Gap(31, 37);
    assert Gap(37, 41);
    assert Gap(41, 43);
    assert Gap(43, 47);
    assert Gap(47, 53);
    hide Gap, HasFactor, Factored;
  }

  lemma GapsThree()
    ensures Gaps(2)
  {
    assert Gap(53, 59);
    assert Gap(59, 61);
    assert Gap(61, 67);
    assert Gap(67, 71);
    assert Gap(71, 73);
    assert Gap(73, 79);
    assert Gap(79, 83);
    assert Gap(83, 89);
    hide Gap, HasFactor, Factored;
  }

  lemma GapsFour()
    ensures Gaps(3)
  {
    assert Gap(89, 97);
    assert Gap(97, 101);
    assert Gap(101, 103);
    assert Gap(103, 107);
    assert Gap(107, 109);
    assert Gap(109, 113);
    assert Factored(121, 127);
    assert Gap(113, 127);
    assert Gap(127, 131);
    hide Gap, HasFactor, Factored;
  }

  lemma GapsFive()
    ensures Gaps(4)
  {
    assert Gap(131, 137);
    assert Gap(137, 139);
    assert Factored(143, 149);
    assert Gap(139, 149);
    assert Gap(149, 151);
    assert Gap(151, 157);
    assert Gap(157, 163);
    assert Gap(163, 167);
    assert Gap(167, 173);
    hide Gap, HasFactor, Factored;
  }

  lemma GapsSix()
    ensures Gaps(5)
  {
    assert Gap(173, 179);
    assert Gap(179, 181);
    assert Factored(185, 191);
    assert Gap(181, 191);
    assert Gap(191, 193);
    assert Gap(193, 197);
    assert Gap(197, 199);
    assert Factored(205, 211);
    assert Gap(199, 211);
    assert Factored(217, 223);
    assert Gap(211, 223);
    hide Gap, HasFactor, Factored;
  }

  lemma GapsSeven()
    ensures Gaps(6)
  {
    assert Gap(223, 227);
    assert Gap(227, 229);
    assert Gap(229, 233);
    assert Gap(233, 239);
    assert Gap(239, 241);
    assert Factored(245, 251);
    assert Gap(241, 251);
    assert Gap(251, 257);
    assert Gap(257, 263);
    hide Gap, HasFactor, Factored;
  }

  lemma GapsEight()
    ensures Gaps(7)
  {
    assert Gap(263, 269);
    assert Gap(269, 271);
    assert Gap(271, 277);
    assert Gap(277, 281);
    assert Gap(281, 283);
    assert Factored(287, 293);
    assert Gap(283, 293);
    assert Factored(301, 307);
    assert Gap(293, 307);
    assert Gap(307, 311);
    hide Gap, HasFactor, Factored;
  }

  /** ---- Roots ---- */

  function Cube(n: nat): (c: nat) { n * n * n }

  function Square(n: nat): (s: nat) { n * n }

  /** w is the whole part of the cube root of p, and k the first 32 bits of its fraction. */
  predicate CubeRoot(p: nat, w: nat, k: nat)
  {
    && k < 0x1_0000_0000
    && Cube(w * 0x1_0000_0000 + k) < p * 0x1_0000_0000_0000_0000_0000_0000 < Cube(w * 0x1_0000_0000 + k + 1)
  }

  predicate SquareRoot(p: nat, w: nat, k: nat)
  {
    && k < 0x1_0000_0000
    && Square(w * 0x1_0000_0000 + k) < p * 0x1_0000_0000_0000_0000 < Square(w * 0x1_0000_0000 + k + 1)
  }

  function Whole(p: nat): (w: nat)
  {
    if p < 8 then 1 else if p < 27 then 2 else if p < 64 then 3 else if p < 125 then 4 else if p < 216 then 5 else 6
  }

  function WholeRoot(p: nat): (w: nat) { if p < 4 then 1 else if p < 9 then 2 else if p < 16 then 3 else 4 }

  predicate Root(r: nat, i: nat)
    requires r < 8 && i < 8
  {
    CubeRoot(PrimeRow(r)[i], Whole(PrimeRow(r)[i]), ConstantRow(r)[i] as nat)
  }

  lemma RootsOne()
    ensures Root(0, 0) && Root(0, 1) && Root(0, 2) && Root(0, 3)
    ensures Root(0, 4) && Root(0, 5) && Root(0, 6) && Root(0, 7)
  {
  }

  lemma RootsTwo()
    ensures Root(1, 0) && Root(1, 1) && Root(1, 2) && Root(1, 3)
    ensures Root(1, 4) && Root(1, 5) && Root(1, 6) && Root(1, 7)
  {
  }

  lemma RootsThree()
    ensures Root(2, 0) && Root(2, 1) && Root(2, 2) && Root(2, 3)
    ensures Root(2, 4) && Root(2, 5) && Root(2, 6) && Root(2, 7)
  {
  }

  lemma RootsFour()
    ensures Root(3, 0) && Root(3, 1) && Root(3, 2) && Root(3, 3)
    ensures Root(3, 4) && Root(3, 5) && Root(3, 6) && Root(3, 7)
  {
  }

  lemma RootsFive()
    ensures Root(4, 0) && Root(4, 1) && Root(4, 2) && Root(4, 3)
    ensures Root(4, 4) && Root(4, 5) && Root(4, 6) && Root(4, 7)
  {
  }

  lemma RootsSix()
    ensures Root(5, 0) && Root(5, 1) && Root(5, 2) && Root(5, 3)
    ensures Root(5, 4) && Root(5, 5) && Root(5, 6) && Root(5, 7)
  {
  }

  lemma RootsSeven()
    ensures Root(6, 0) && Root(6, 1) && Root(6, 2) && Root(6, 3)
    ensures Root(6, 4) && Root(6, 5) && Root(6, 6) && Root(6, 7)
  {
  }

  lemma RootsEight()
    ensures Root(7, 0) && Root(7, 1) && Root(7, 2) && Root(7, 3)
    ensures Root(7, 4) && Root(7, 5) && Root(7, 6) && Root(7, 7)
  {
  }

  /** ---- The constants ---- */

  lemma AllGaps(r: nat)
    requires r < 8
    ensures Gaps(r)
  {
    hide Gaps;
    match r
    case 0 => GapsOne();
    case 1 => GapsTwo();
    case 2 => GapsThree();
    case 3 => GapsFour();
    case 4 => GapsFive();
    case 5 => GapsSix();
    case 6 => GapsSeven();
    case _ => GapsEight();
  }

  lemma AllRoots(r: nat, i: nat)
    requires r < 8 && i < 8
    ensures Root(r, i)
  {
    hide Root;
    match r
    case 0 => RootsOne();
    case 1 => RootsTwo();
    case 2 => RootsThree();
    case 3 => RootsFour();
    case 4 => RootsFive();
    case 5 => RootsSix();
    case 6 => RootsSeven();
    case _ => RootsEight();
  }

  lemma RowGap(r: nat, i: nat)
    requires r < 8 && i < 8 && (r > 0 || i > 0)
    ensures Gap(if i > 0 then PrimeRow(r)[i - 1] else PrimeRow(r - 1)[7], PrimeRow(r)[i])
  {
    hide Gap, PrimeRow;
    AllGaps(r);
  }

  /** The table holds the first 64 primes in order. */
  lemma {:induction false} TableIsNth(r: nat, i: nat)
    requires r < 8 && i < 8
    ensures Nth(8 * r + i, PrimeRow(r)[i])
    decreases r, i
  {
    if r == 0 && i == 0 {
      NoPrimes(0, 2);
    } else {
      hide Gap, PrimeRow, Nth;
      RowGap(r, i);
      if i > 0 {
        TableIsNth(r, i - 1);
        NextPrime(8 * r + i - 1, PrimeRow(r)[i - 1], PrimeRow(r)[i]);
      } else {
        TableIsNth(r - 1, 7);
        NextPrime(8 * r - 1, PrimeRow(r - 1)[7], PrimeRow(r)[i]);
      }
    }
  }

  /** Round constant t is the first 32 bits of the fraction of the cube root of the prime with t primes below
      it. */
  lemma ConstantIsRoot(t: nat, p: nat) returns (w: nat)
    requires t < 64 && Nth(t, p)
    ensures CubeRoot(p, w, Constants()[t] as nat)
  {
    hide PrimeRow, Nth, CubeRoot, ConstantRow;
    var r, i := t / 8, t % 8;
    assert t == 8 * r + i;
    TableIsNth(r, i);
    NthUnique(t, p, PrimeRow(r)[i]);
    AllRoots(r, i);
    assert Constants()[t] == ConstantRow(r)[i];
    w := Whole(p);
  }

  /** The initial value in the order of the standard. */
  function IvWord(i: nat): (w: word)
    requires i < 8
  {
    var v := Iv();
    [v.a, v.b, v.c, v.d, v.e, v.f, v.g, v.h][i]
  }

  lemma FirstRoots(i: nat)
    requires i < 8
    ensures SquareRoot(PrimeRow(0)[i], WholeRoot(PrimeRow(0)[i]), IvWord(i) as nat)
  {
    match i

    case 0 => assert SquareRoot(2, 1, 0x6a09e667);
    case 1 => assert SquareRoot(3, 1, 0xbb67ae85);
    case 2 => assert SquareRoot(5, 2, 0x3c6ef372);
    case 3 => assert SquareRoot(7, 2, 0xa54ff53a);
    case 4 => assert SquareRoot(11, 3, 0x510e527f);
    case 5 => assert SquareRoot(13, 3, 0x9b05688c);
    case 6 => assert SquareRoot(17, 4, 0x1f83d9ab);
    case _ => assert SquareRoot(19, 4, 0x5be0cd19);
  }

  /** Word i of the initial value is the first 32 bits of the fraction of the square root of the prime with i
      primes below it. */
  lemma IvIsRoot(i: nat, p: nat) returns (w: nat)
    requires i < 8 && Nth(i, p)
    ensures SquareRoot(p, w, IvWord(i) as nat)
  {
    hide PrimeRow, Nth, SquareRoot, IvWord;
    TableIsNth(0, i);
    NthUnique(i, p, PrimeRow(0)[i]);
    FirstRoots(i);
    w := WholeRoot(p);
  }
}
