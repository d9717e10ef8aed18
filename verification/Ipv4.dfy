/** The Internet checksum of RFC 1071 and the IPv4 header built and checked with it
    (kernel/net/ipv4.c:23-35, 39-57, 84-106). */
module Ipv4 {
  import opened Bytes
  import opened Bits

  const ONES: nat := 65535

  /** The longest data whose sum of words cannot leave 32 bits. */
  const LONGEST: nat := 131074

  function Word(low: nat, high: nat): (w: nat) { low + 256 * high }

  /** The sum of the little-endian 16-bit words, a last odd octet on its own. */
  function Sum(s: seq<byte>): (n: nat)
  {
    if s == [] then 0 else if |s| == 1 then s[0] else Word(s[0], s[1]) + Sum(s[2..])
  }

  /** The one's complement sum: carries out of 16 bits added back in. */
  function Folded(n: nat): (f: nat)
    ensures f <= ONES
  {
    if n == 0 then 0 else (n - 1) % ONES + 1
  }

  function Checksum(s: seq<byte>): (c: nat)
    ensures c <= ONES
  {
    ONES - Folded(Sum(s))
  }

  lemma {:induction false} SumBound(s: seq<byte>)
    ensures Sum(s) <= ONES * ((|s| + 1) / 2)
  {
    if |s| >= 2 { SumBound(s[2..]); }
  }

  lemma {:induction false} SumConcat(a: seq<byte>, b: seq<byte>)
    requires |a| % 2 == 0
    ensures Sum(a + b) == Sum(a) + Sum(b)
    decreases |a|
  {
    if a == [] {
      assert a + b == b;
    } else {
      assert (a + b)[2..] == a[2..] + b;
      SumConcat(a[2..], b);
    }
  }

  /** Folding a carry keeps the number modulo 65535 and never makes a sum vanish. */
  lemma FoldStep(n: nat)
    requires n > ONES
    ensures Folded(n % 0x1_0000 + n / 0x1_0000) == Folded(n) && n % 0x1_0000 + n / 0x1_0000 < n
  {
    var q, r := n / 0x1_0000, n % 0x1_0000;
    assert n == 0x1_0000 * q + r && q >= 1;
    ModOfShift(n - 1, q + r - 1, q, ONES);
  }

  lemma FoldDone(n: nat)
    requires n <= ONES
    ensures Folded(n) == n
  {
  }

  /** ip_checksum. */
  method IpChecksum(data: seq<byte>) returns (c: nat)
    requires |data| <= LONGEST
    ensures c == Checksum(data)
  {
    var sum := SumWords(data);
    while sum / 0x1_0000 != 0
      invariant sum < 0x1_0000_0000 && Folded(sum) == Folded(Sum(data))
      decreases sum
    {
      FoldStep(sum);
      sum := U32(sum % 0x1_0000 + sum / 0x1_0000);
    }
    FoldDone(sum);
    c := Not32(sum) % 0x1_0000;
  }

  /** The first loop of ip_checksum; the 32-bit sum does not overflow. */
  method SumWords(data: seq<byte>) returns (sum: nat)
    requires |data| <= LONGEST
    ensures sum == Sum(data) < 0x1_0000_0000
  {
    sum := 0;
    var at, len: nat := 0, |data|;
    SumBound(data);
    assert data[..0] == [];
    while len > 1
      invariant at + len == |data| && at % 2 == 0 && sum == Sum(data[..at])
      decreases len
    {
      WordAdded(data, at);
      sum := U32(sum + Word(data[at], data[at + 1]));
      at := at + 2;
      len := len - 2;
    }
    SumConcat(data[..at], data[at..]);
    assert data == data[..at] + data[at..];
    if len != 0 {
      sum := U32(sum + data[at]);
    }
  }

  lemma SumOfTwo(w: seq<byte>)
    requires |w| == 2
    ensures Sum(w) == Word(w[0], w[1])
  {
    assert w[2..] == [];
  }

  lemma SumSplit(s: seq<byte>, at: nat)
    requires at + 2 <= |s| && at % 2 == 0
    ensures Sum(s) == Sum(s[..at]) + Word(s[at], s[at + 1]) + Sum(s[at + 2..])
  {
    hide Sum, Word;
    var w := [s[at], s[at + 1]];
    SumOfTwo(w);
    assert s == s[..at] + (w + s[at + 2..]);
    SumConcat(s[..at], w + s[at + 2..]);
    SumConcat(w, s[at + 2..]);
  }

  lemma WordAdded(s: seq<byte>, at: nat)
    requires at + 2 <= |s| && at % 2 == 0
    ensures Sum(s[..at + 2]) == Sum(s[..at]) + Word(s[at], s[at + 1]) <= Sum(s)
  {
    SumSplit(s, at);
    var t := s[..at + 2];
    SumSplit(t, at);
    assert t[..at] == s[..at] && t[at + 2..] == [];
  }

  /** ---- Storing and checking ---- */

  /** The word at an even place. */
  function WordAt(s: seq<byte>, p: nat): (w: nat)
    requires p + 2 <= |s|
    ensures w <= ONES
  {
    Word(s[p], s[p + 1])
  }

  /** A 16-bit store at p, least significant octet first. */
  function StoreWord(s: seq<byte>, p: nat, w: nat): (r: seq<byte>)
    requires p + 2 <= |s| && w <= ONES
    ensures |r| == |s| && WordAt(r, p) == w
  {
    s[p := w % 256][p + 1 := w / 256]
  }

  lemma SumOfStore(s: seq<byte>, p: nat, w: nat)
    requires p + 2 <= |s| && p % 2 == 0 && w <= ONES
    ensures Sum(StoreWord(s, p, w)) == Sum(s) - WordAt(s, p) + w
  {
    hide Sum;
    var r := StoreWord(s, p, w);
    SumSplit(s, p);
    SumSplit(r, p);
    assert r[..p] == s[..p] && r[p + 2..] == s[p + 2..];
  }

  /** The check passes exactly when the sum is a positive multiple of 65535. */
  lemma PassesIff(s: seq<byte>)
    ensures Checksum(s) == 0 <==> Sum(s) > 0 && Sum(s) % ONES == 0
  {
    var n := Sum(s);
    if n > 0 {
      var q, r := (n - 1) / ONES, (n - 1) % ONES;
      assert n - 1 == ONES * q + r;
      if r == ONES - 1 {
        DivModUnique(n, ONES, q + 1, 0);
      } else {
        DivModUnique(n, ONES, q, r + 1);
      }
    }
  }

  /** For every header: storing the checksum computed over a zero field makes the receiver's checksum
      zero. */
  lemma StoredPasses(s: seq<byte>, p: nat)
    requires p + 2 <= |s| && p % 2 == 0 && WordAt(s, p) == 0
    ensures Checksum(StoreWord(s, p, Checksum(s))) == 0
  {
    hide Sum, StoreWord;
    var c, n := Checksum(s), Sum(s);
    SumOfStore(s, p, c);
    PassesIff(StoreWord(s, p, c));
    if n > 0 {
      var q, r := (n - 1) / ONES, (n - 1) % ONES;
      assert n - 1 == ONES * q + r;
      assert n + c == ONES * (q + 1);
      DivModUnique(n + c, ONES, q + 1, 0);
    }
  }

  /** A change of one word goes unnoticed exactly when it turns 0 into 0xFFFF, or 0xFFFF into 0 while another
      word is not 0. */
  lemma OneWordChange(s: seq<byte>, p: nat, w: nat)
    requires p + 2 <= |s| && p % 2 == 0 && w <= ONES && w != WordAt(s, p) && Checksum(s) == 0
    ensures Checksum(StoreWord(s, p, w)) == 0 <==>
      (WordAt(s, p) == 0 && w == ONES) || (WordAt(s, p) == ONES && w == 0 && Sum(s) > ONES)
  {
    hide Checksum, Sum, WordAt, StoreWord;
    SumOfStore(s, p, w);
    PassesIff(s);
    PassesIff(StoreWord(s, p, w));
    WordInSum(s, p);
    ChangedSum(Sum(s), WordAt(s, p), w);
  }

  lemma ChangedSum(n: nat, v: nat, w: nat)
    requires n > 0 && n % ONES == 0 && v <= n && v <= ONES && w <= ONES && v != w
    ensures n - v + w > 0 && (n - v + w) % ONES == 0 <==> (v == 0 && w == ONES) || (v == ONES && w == 0 && n > ONES)
  {
    var q := n / ONES;
    assert n == ONES * q;
    if w - v == ONES {
      DivModUnique(n - v + w, ONES, q + 1, 0);
    } else if w > v {
      DivModUnique(n - v + w, ONES, q, w - v);
    } else if v - w == ONES {
      DivModUnique(n - v + w, ONES, q - 1, 0);
    } else {
      DivModUnique(n - v + w, ONES, q - 1, ONES - (v - w));
    }
  }

  lemma WordInSum(s: seq<byte>, p: nat)
    requires p + 2 <= |s| && p % 2 == 0
    ensures WordAt(s, p) <= Sum(s)
  {
    hide Sum;
    WordAdded(s, p);
  }

  /** ---- Byte order ---- */

  /** htons. */
  function Htons(v: nat): (r: nat)
    requires v <= ONES
    ensures r <= ONES
  {
    Or32(v / 0x100, v * 0x100) % 0x1_0000
  }

  /** htonl. */
  function Htonl(v: nat): (r: nat)
    requires v < 0x1_0000_0000
  {
    Or32(Or32(Or32(And32(v, 0xFF00_0000) / 0x100_0000, And32(v, 0xFF_0000) / 0x100), Shl32(And32(v, 0xFF00), 8)),
         Shl32(And32(v, 0xFF), 24))
  }

  lemma LowOctet(q: nat, n: nat)
    requires n >= 8
    ensures Bitwise(And, q, 0xFF, n) == q % 0x100
  {
    Pow2Values();
    hide Bitwise, Pow2;
    LowMask(q, 8, n);
  }

  /** The octets of a word, cut out with masks. */
  lemma SecondOctet(v: nat, n: nat)
    requires n >= 16
    ensures Bitwise(And, v, 0xFF00, n) == 0x100 * (v / 0x100 % 0x100)
  {
    hide Bitwise;
    MaskOverOctet(v, 0xFF00, 0xFF, n);
    LowOctet(v / 0x100, n - 8);
  }

  lemma ThirdOctet(v: nat, n: nat)
    requires n >= 24
    ensures Bitwise(And, v, 0xFF_0000, n) == 0x1_0000 * (v / 0x1_0000 % 0x100)
  {
    hide Bitwise;
    MaskOverOctet(v, 0xFF_0000, 0xFF00, n);
    SecondOctet(v / 0x100, n - 8);
    assert v / 0x100 / 0x100 == v / 0x1_0000;
  }

  lemma FourthOctet(v: nat, n: nat)
    requires n >= 32
    ensures Bitwise(And, v, 0xFF00_0000, n) == 0x100_0000 * (v / 0x100_0000 % 0x100)
  {
    hide Bitwise;
    MaskOverOctet(v, 0xFF00_0000, 0xFF_0000, n);
    ThirdOctet(v / 0x100, n - 8);
    assert v / 0x100 / 0x1_0000 == v / 0x100_0000;
  }

  lemma BeTwo(v: nat)
    ensures Be(v, 2) == [v / 0x100 % 0x100, v % 0x100]
  {
    assert Be(v / 0x100, 1) == Be(v / 0x100 / 0x100, 0) + [v / 0x100 % 0x100];
  }

  lemma BeFour(v: nat)
    requires v < 0x1_0000_0000
    ensures Be(v, 4) == [v / 0x100_0000, v / 0x1_0000 % 0x100, v / 0x100 % 0x100, v % 0x100]
  {
    var w := v / 0x100 / 0x100;
    assert Be(v, 4) == Be(v / 0x100, 3) + [v % 0x100];
    assert Be(v / 0x100, 3) == Be(w, 2) + [v / 0x100 % 0x100];
    BeTwo(w);
    assert w == v / 0x1_0000;
    assert w / 0x100 == v / 0x100_0000 < 0x100;
  }

  /** Stored least significant octet first, the converted word is the word most significant octet first. */
  lemma HtonsStores(v: nat)
    requires v <= ONES
    ensures LeBytes(Htons(v), 2) == Be(v, 2)
  {
    hide Htons, LeBytes, Be;
    HtonsIs(v);
    BeTwo(v);
    var a, b: byte := v / 0x100, v % 0x100;
    TwoOctets(a, b, Htons(v));
    assert a % 0x100 == a;
  }

  lemma HtonsIs(v: nat)
    requires v <= ONES
    ensures Htons(v) == v / 0x100 + 0x100 * (v % 0x100)
  {
    hide Or32;
    var h, l: byte := v / 0x100, v % 0x100;
    OverlayOctet(h, v);
    assert h + v * 0x100 == 0x1_0000 * h + (h + 0x100 * l);
    DivModUnique(h + v * 0x100, 0x1_0000, h, h + 0x100 * l);
  }

  lemma OverlayOctet(h: byte, v: nat)
    requires v <= ONES
    ensures Or32(h, v * 0x100) == h + v * 0x100
  {
    hide Bitwise, Pow2;
    SmallPowers();
    var y := v * 0x100;
    DivModUnique(y, 0x100, v, 0);
    DisjointOr(h, y, 8, 32);
  }

  lemma SmallPowers()
    ensures Pow2(8) == 0x100 && Pow2(32) == 0x1_0000_0000
  {
    Pow2Values();
  }

  lemma TwoOctets(a: byte, b: byte, w: nat)
    requires w == a + 0x100 * b
    ensures LeBytes(w, 2) == [a, b]
  {
    assert w % 0x100 == a && w / 0x100 == b;
    assert LeBytes(w / 0x100, 1) == [b];
  }

  lemma FourOctets(a: byte, b: byte, c: byte, d: byte, w: nat)
    requires w == a + 0x100 * b + 0x1_0000 * c + 0x100_0000 * d
    ensures LeBytes(w, 4) == [a, b, c, d]
  {
    var w1 := b + 0x100 * c + 0x1_0000 * d;
    var w2 := c + 0x100 * d;
    assert w % 0x100 == a && w / 0x100 == w1;
    assert w1 % 0x100 == b && w1 / 0x100 == w2;
    TwoOctets(c, d, w2);
    assert LeBytes(w1, 3) == [b] + LeBytes(w2, 2);
    assert LeBytes(w, 4) == [a] + LeBytes(w1, 3);
  }

  lemma HtonlStores(v: nat)
    requires v < 0x1_0000_0000
    ensures LeBytes(Htonl(v), 4) == Be(v, 4)
  {
    hide Htonl, LeBytes, Be;
    HtonlIs(v);
    FourOctets(v / 0x100_0000, v / 0x1_0000 % 0x100, v / 0x100 % 0x100, v % 0x100, Htonl(v));
    BeFour(v);
  }

  lemma HtonlIs(v: nat)
    requires v < 0x1_0000_0000
    ensures Htonl(v) == v / 0x100_0000 + 0x100 * (v / 0x1_0000 % 0x100) + 0x1_0000 * (v / 0x100 % 0x100)
            + 0x100_0000 * (v % 0x100)
  {
    hide And32, Or32, Shl32;
    Masks(v);
    var a, b, c, d: byte := v / 0x100_0000, v / 0x1_0000 % 0x100, v / 0x100 % 0x100, v % 0x100;
    MaskedJoin(And32(v, 0xFF00_0000), And32(v, 0xFF_0000), And32(v, 0xFF00), And32(v, 0xFF), a, b, c, d);
  }

  lemma Masks(v: nat)
    requires v < 0x1_0000_0000
    ensures And32(v, 0xFF00_0000) == 0x100_0000 * (v / 0x100_0000) && v / 0x100_0000 < 0x100
    ensures And32(v, 0xFF_0000) == 0x1_0000 * (v / 0x1_0000 % 0x100)
    ensures And32(v, 0xFF00) == 0x100 * (v / 0x100 % 0x100)
    ensures And32(v, 0xFF) == v % 0x100
  {
    hide Bitwise;
    LowOctet(v, 32);
    SecondOctet(v, 32);
    ThirdOctet(v, 32);
    FourthOctet(v, 32);
    var a := v / 0x100_0000;
    assert a < 0x100;
    assert a % 0x100 == a;
  }

  lemma MaskedJoin(p: nat, q: nat, r: nat, s: nat, a: byte, b: byte, c: byte, d: byte)
    requires p == 0x100_0000 * a && q == 0x1_0000 * b && r == 0x100 * c && s == d
    ensures Or32(Or32(Or32(p / 0x100_0000, q / 0x100), Shl32(r, 8)), Shl32(s, 24))
            == a + 0x100 * b + 0x1_0000 * c + 0x100_0000 * d
  {
    assert Pow2(8) == 0x100 && Pow2(24) == 0x100_0000 by { Pow2Values(); }
    hide Bitwise, Pow2;
    assert p / 0x100_0000 == a && q / 0x100 == 0x100 * b;
    assert Shl32(r, 8) == 0x1_0000 * c && Shl32(s, 24) == 0x100_0000 * d;
    JoinOctets(a, b, c, d);
  }

  lemma JoinOctets(a: byte, b: byte, c: byte, d: byte)
    ensures Or32(Or32(Or32(a, 0x100 * b), 0x1_0000 * c), 0x100_0000 * d)
            == a + 0x100 * b + 0x1_0000 * c + 0x100_0000 * d
  {
    Pow2Values();
    hide Bitwise, Pow2;
    DisjointOr(a, 0x100 * b, 8, 32);
    DisjointOr(a + 0x100 * b, 0x1_0000 * c, 16, 32);
    DisjointOr(a + 0x100 * b + 0x1_0000 * c, 0x100_0000 * d, 24, 32);
  }

  /** ---- The header ---- */

  const HEADER: nat := 20
  const BROADCAST: nat := 0xFFFF_FFFF

  /** The header before its checksum is stored. */
  function Blank(length: nat, id: nat, proto: byte, src: nat, dst: nat): (h: seq<byte>)
    requires length <= ONES && id <= ONES && src < 0x1_0000_0000 && dst < 0x1_0000_0000
    ensures |h| == HEADER
  {
    [0x45, 0] + Be(length, 2) + Be(id, 2) + [0, 0, 64, proto, 0, 0] + Be(src, 4) + Be(dst, 4)
  }

  datatype Verdict = Dropped | Delivered(proto: byte, source: nat)

  /** ip_recv up to the dispatch; ours is 0 before the host has an address. */
  function Receive(h: seq<byte>, ours: nat): (v: Verdict)
  {
    if |h| < HEADER then Dropped
    else if h[0] / 16 != 4 || h[0] % 16 != 5 then Dropped
    else if Checksum(h[..HEADER]) != 0 then Dropped
    else
      var dst := FromBe(h[16..20]);
      if ours != 0 && dst != ours && dst != BROADCAST then Dropped
      else Delivered(h[9], FromBe(h[12..16]))
  }

  /** The sending side: the static packet buffer, the counter of identifications, the host's address. */
  class Sender {
    const packet: array<byte>
    var id: nat
    var ours: nat

    ghost predicate Valid()
      reads this
    {
      packet.Length == 1500 && id <= ONES && ours < 0x1_0000_0000
    }

    constructor ()
      ensures Valid() && fresh(packet) && id == 1 && ours == 0
    {
      packet := new byte[1500](_ => 0);
      id, ours := 1, 0;
    }

    /** ip_send up to the routing: sent is what goes to the Ethernet layer. A host takes it exactly when
        it is the destination, has no address yet, or the packet is a broadcast, and then with the
        sender's address and protocol; length, identification and payload are those given. */
    method Send(dst: nat, proto: byte, payload: seq<byte>) returns (ok: bool, sent: seq<byte>)
      requires Valid() && dst < 0x1_0000_0000
      modifies `id, packet
      ensures Valid()
      ensures ok <==> |payload| + 20 <= 1480
      ensures !ok ==> id == old(id) && packet[..] == old(packet[..])
      ensures ok ==>
        && id == (old(id) + 1) % 0x1_0000
        && |sent| == 20 + |payload| && sent[20..] == payload
        && FromOctets(sent[3], sent[2], 0, 0) == |sent| && FromOctets(sent[5], sent[4], 0, 0) == old(id)
        && sent[0] == 0x45 && sent[1] == 0 && sent[6] == sent[7] == 0 && sent[8] == 64 && sent[9] == proto
        && FromOctets(sent[15], sent[14], sent[13], sent[12]) == ours
        && FromOctets(sent[19], sent[18], sent[17], sent[16]) == dst
        && forall host: nat {:trigger Receive(sent, host)} :: Receive(sent, host) ==
             if host == 0 || dst == host || dst == 0xFFFF_FFFF then Delivered(proto, ours) else Dropped
    {
      sent := [];
      if |payload| + HEADER > 1480 { return false, sent; }
      ok := true;
      ghost var blank := Blank(HEADER + |payload|, id, proto, ours, dst);
      FillHeader(HEADER + |payload|, dst, proto);
      var c := IpChecksum(packet[..HEADER]);
      StoreChecksum(c);
      assert packet[..HEADER] == StoreWord(blank, 10, Checksum(blank));
      var end := Append(packet, HEADER, payload);
      sent := packet[..end];
      assert sent[..HEADER] == StoreWord(blank, 10, Checksum(blank));
      SentFields(sent, HEADER + |payload|, old(id), proto, ours, dst);
      FieldOctets(sent);
    }

    /** The fields of the header, in order, each in network byte order. */
    method FillHeader(length: nat, dst: nat, proto: byte)
      requires Valid() && length <= ONES && dst < 0x1_0000_0000
      modifies `id, packet
      ensures Valid() && id == (old(id) + 1) % 0x1_0000
      ensures packet[..HEADER] == Blank(length, old(id), proto, ours, dst)
    {
      hide Htons, Htonl, LeBytes, Be;
      FillFront(length, proto);
      ghost var front := packet[..10];
      HtonlStores(ours);
      HtonlStores(dst);
      var at := Append(packet, 10, [0, 0]);
      at := Append(packet, at, LeBytes(Htonl(ours), 4));
      at := Append(packet, at, LeBytes(Htonl(dst), 4));
      assert packet[..HEADER] == front + [0, 0] + Be(ours, 4) + Be(dst, 4);
    }

    method FillFront(length: nat, proto: byte)
      requires Valid() && length <= ONES
      modifies `id, packet
      ensures Valid() && id == (old(id) + 1) % 0x1_0000
      ensures packet[..10] == [0x45, 0] + Be(length, 2) + Be(old(id), 2) + [0, 0, 64, proto]
    {
      hide Htons, LeBytes, Be;
      HtonsStores(length);
      HtonsStores(id);
      packet[0] := 0x45;
      packet[1] := 0;
      assert packet[..2] == [0x45, 0];
      var at := Append(packet, 2, LeBytes(Htons(length), 2));
      at := Append(packet, at, LeBytes(Htons(id), 2));
      id := (id + 1) % 0x1_0000;
      at := Append(packet, at, [0, 0]);
      ghost var front := packet[..8];
      packet[8] := 64;
      packet[9] := proto;
      assert packet[..10] == front + [64, proto];
    }

    /** The checksum goes into octets 10 and 11, least significant first. */
    method StoreChecksum(c: nat)
      requires Valid() && c <= ONES
      modifies packet
      ensures packet[..HEADER] == StoreWord(old(packet[..HEADER]), 10, c)
    {
      packet[10] := c % 0x100;
      packet[11] := c / 0x100;
    }
  }

  lemma ReadsBack(v: nat, w: nat)
    requires v < 0x1_0000_0000 && w <= ONES
    ensures FromBe(Be(v, 4)) == v && FromBe(Be(w, 2)) == w
  {
    FromBeOfBe(v, 4);
    FromBeOfBe(w, 2);
    assert Pow256(4) == 0x1_0000_0000 && Pow256(2) == 0x1_0000;
  }

  /** Where the fields of a finished header are. */
  lemma HeaderLayout(length: nat, id: nat, proto: byte, src: nat, dst: nat, c: nat)
    requires length <= ONES && id <= ONES && src < 0x1_0000_0000 && dst < 0x1_0000_0000 && c <= ONES
    ensures var b := Blank(length, id, proto, src, dst);
      var h := StoreWord(b, 10, c);
      && WordAt(b, 10) == 0 && h[0] == 0x45 && h[1] == 0 && h[6] == h[7] == 0 && h[8] == 64 && h[9] == proto
      && h[..HEADER] == h
      && h[2..4] == Be(length, 2) && h[4..6] == Be(id, 2) && h[12..16] == Be(src, 4) && h[16..20] == Be(dst, 4)
  {
    hide Be, Blank, StoreWord, Word;
    var b := Blank(length, id, proto, src, dst);
    BlankParts(length, id, proto, src, dst);
    PartsStay(b, StoreWord(b, 10, c), c);
  }

  lemma BlankParts(length: nat, id: nat, proto: byte, src: nat, dst: nat)
    requires length <= ONES && id <= ONES && src < 0x1_0000_0000 && dst < 0x1_0000_0000
    ensures var b := Blank(length, id, proto, src, dst);
      && WordAt(b, 10) == 0 && b[0] == 0x45 && b[1] == 0 && b[6] == b[7] == 0 && b[8] == 64 && b[9] == proto
      && b[2..4] == Be(length, 2) && b[4..6] == Be(id, 2) && b[12..16] == Be(src, 4) && b[16..20] == Be(dst, 4)
  {
    hide Be, Blank, FromBe, Le, LeBytes;
    BlankIs(length, id, proto, src, dst);
    PartsOf(Blank(length, id, proto, src, dst), Be(length, 2), Be(id, 2), proto, Be(src, 4), Be(dst, 4));
  }

  lemma BlankIs(length: nat, id: nat, proto: byte, src: nat, dst: nat)
    requires length <= ONES && id <= ONES && src < 0x1_0000_0000 && dst < 0x1_0000_0000
    ensures Blank(length, id, proto, src, dst)
         == [0x45, 0] + Be(length, 2) + Be(id, 2) + [0, 0, 64, proto, 0, 0] + Be(src, 4) + Be(dst, 4)
  {
  }

  lemma PartsStay(b: seq<byte>, h: seq<byte>, c: nat)
    requires |b| == HEADER && c <= ONES && h == StoreWord(b, 10, c)
    ensures h[0] == b[0] && h[1] == b[1] && h[6] == b[6] && h[7] == b[7] && h[8] == b[8] && h[9] == b[9]
    ensures h[..HEADER] == h
    ensures h[2..4] == b[2..4] && h[4..6] == b[4..6] && h[12..16] == b[12..16] && h[16..20] == b[16..20]
  {
  }

  lemma PartsOf(b: seq<byte>, l: seq<byte>, i: seq<byte>, proto: byte, s: seq<byte>, d: seq<byte>)
    requires |l| == |i| == 2 && |s| == |d| == 4
    requires b == [0x45, 0] + l + i + [0, 0, 64, proto, 0, 0] + s + d
    ensures b[0] == 0x45 && b[1] == 0 && b[2..4] == l && b[4..6] == i && b[6] == b[7] == 0 && b[8] == 64
    ensures b[9] == proto && b[10] == b[11] == 0
    ensures b[12..16] == s && b[16..20] == d
  {
  }

  /** What ip_send builds is delivered to its destination (or everywhere, for a broadcast) with the
      sender's address and protocol, and dropped by every other host. */
  lemma SentIsReceived(length: nat, id: nat, proto: byte, src: nat, dst: nat, ours: nat)
    requires length <= ONES && id <= ONES && src < 0x1_0000_0000 && dst < 0x1_0000_0000
    ensures var b := Blank(length, id, proto, src, dst);
      Receive(StoreWord(b, 10, Checksum(b)), ours) ==
        if ours == 0 || dst == ours || dst == 0xFFFF_FFFF then Delivered(proto, src) else Dropped
  {
    hide Checksum, Sum, Be, FromBe, Blank, StoreWord, WordAt;
    var b := Blank(length, id, proto, src, dst);
    HeaderLayout(length, id, proto, src, dst, Checksum(b));
    StoredPasses(b, 10);
    ReadsBack(src, 0);
    ReadsBack(dst, 0);
  }

  /** The same of a whole packet, and its length and identification. */
  lemma SentFields(sent: seq<byte>, length: nat, id: nat, proto: byte, src: nat, dst: nat)
    requires length <= ONES && id <= ONES && src < 0x1_0000_0000 && dst < 0x1_0000_0000
    requires |sent| >= HEADER
    requires var b := Blank(length, id, proto, src, dst); sent[..HEADER] == StoreWord(b, 10, Checksum(b))
    ensures FromBe(sent[2..4]) == length && FromBe(sent[4..6]) == id
    ensures FromBe(sent[12..16]) == src && FromBe(sent[16..20]) == dst
    ensures sent[0] == 0x45 && sent[1] == 0 && sent[6] == sent[7] == 0 && sent[8] == 64 && sent[9] == proto
    ensures forall host: nat {:trigger Receive(sent, host)} :: Receive(sent, host) ==
              if host == 0 || dst == host || dst == 0xFFFF_FFFF then Delivered(proto, src) else Dropped
  {
    hide Checksum, Sum, Be, FromBe, Blank, StoreWord, WordAt;
    var b := Blank(length, id, proto, src, dst);
    var h := StoreWord(b, 10, Checksum(b));
    HeaderLayout(length, id, proto, src, dst, Checksum(b));
    ReadsBack(0, length);
    ReadsBack(0, id);
    ReadsBack(src, 0);
    ReadsBack(dst, 0);
    assert forall k: nat :: k < HEADER ==> sent[k] == sent[..HEADER][k];
    assert sent[2..4] == sent[..HEADER][2..4] && sent[4..6] == sent[..HEADER][4..6];
    assert sent[12..16] == sent[..HEADER][12..16] && sent[16..20] == sent[..HEADER][16..20];
    forall host: nat
      ensures Receive(sent, host) ==
              if host == 0 || dst == host || dst == 0xFFFF_FFFF then Delivered(proto, src) else Dropped
    {
      SentIsReceived(length, id, proto, src, dst, host);
      assert Receive(sent, host) == Receive(h, host);
    }
  }

  /** Length, identification and addresses by their octets. */
  lemma FieldOctets(sent: seq<byte>)
    requires |sent| >= HEADER
    ensures FromBe(sent[2..4]) == FromOctets(sent[3], sent[2], 0, 0)
    ensures FromBe(sent[4..6]) == FromOctets(sent[5], sent[4], 0, 0)
    ensures FromBe(sent[12..16]) == FromOctets(sent[15], sent[14], sent[13], sent[12])
    ensures FromBe(sent[16..20]) == FromOctets(sent[19], sent[18], sent[17], sent[16])
  {
    hide FromBe;
    FromBeTwo(sent[2..4]);
    FromBeTwo(sent[4..6]);
    FromBeFour(sent[12..16]);
    FromBeFour(sent[16..20]);
  }

  /** ---- What is delivered ---- */

  /** A header that is delivered begins with 0x45, and the sum of its ten words is a positive multiple of
      65535; it is dropped when one of its words has changed, but for 0 and 0xFFFF, which the sum cannot
      tell apart. */
  lemma CorruptedIsDropped(h: seq<byte>, ours: nat, p: nat, w: nat)
    requires |h| == 20 && Receive(h, ours).Delivered? && p % 2 == 0 && p + 2 <= 20 && w <= 65535
    ensures h[0] == 0x45 && Sum(h) > 0 && Sum(h) % 65535 == 0
    ensures w % 65535 != WordAt(h, p) % 65535 ==> Receive(StoreWord(h, p, w), ours) == Dropped
  {
    hide Checksum, Sum, StoreWord, WordAt;
    assert h[..20] == h;
    PassesIff(h);
    var t := StoreWord(h, p, w);
    if w % 65535 != WordAt(h, p) % 65535 {
      OneWordChange(h, p, w);
      assert t[..20] == t;
    }
  }

  /** A last odd octet counts as if a zero stood behind it. */
  lemma {:induction false} OddIsPadded(s: seq<byte>)
    requires |s| % 2 == 1
    ensures Sum(s) == Sum(s + [0])
  {
    if |s| == 1 {
      assert (s + [0])[2..] == [];
    } else {
      assert (s + [0])[2..] == s[2..] + [0];
      OddIsPadded(s[2..]);
    }
  }

  /** The octets of section 3 of RFC 1071. Their sum there is 0xDDF2; words taken least significant octet
      first have the same sum with its octets swapped. */
  lemma SumOfRfc()
    ensures Folded(Sum([0x00, 0x01, 0xF2, 0x03, 0xF4, 0xF5, 0xF6, 0xF7])) == 0xF2DD
    ensures Checksum([0x00, 0x01, 0xF2, 0x03, 0xF4, 0xF5, 0xF6, 0xF7]) == 0x0D22
  {
    SumStep(0x00, 0x01, [0xF2, 0x03, 0xF4, 0xF5, 0xF6, 0xF7]);
    SumStep(0xF2, 0x03, [0xF4, 0xF5, 0xF6, 0xF7]);
    SumStep(0xF4, 0xF5, [0xF6, 0xF7]);
    SumStep(0xF6, 0xF7, []);
  }

  lemma SumStep(a: byte, b: byte, s: seq<byte>)
    ensures Sum([a, b] + s) == a as nat + 0x100 * b as nat + Sum(s)
  {
    assert ([a, b] + s)[2..] == s;
  }
}
