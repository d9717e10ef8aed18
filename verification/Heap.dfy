/** The kernel heap (kernel/mem/kheap.c): a chain of blocks that tile one region, first fit with
    splitting, and a free that joins neighbours. */
module Heap {
  import opened Bits

  /** The packed header: size, free flag, next pointer. */
  const HEADER: nat := 9
  const START: nat := 0x0030_0000
  const TOTAL: nat := 262144

  datatype Block = Block(size: nat, free: bool)

  /** ---- The blocks in address order ---- */

  /** Octets the blocks and their headers take. */
  function Extent(b: seq<Block>): (n: nat)
    ensures b != [] ==> n >= HEADER
  {
    if b == [] then 0 else HEADER + b[0].size + Extent(b[1..])
  }

  lemma ExtentOne(k: Block)
    ensures Extent([k]) == HEADER + k.size
  {
    assert [k][1..] == [];
  }

  lemma ExtentNone(b: seq<Block>)
    ensures Extent(b[..0]) == 0
  {
  }

  lemma {:induction false} ExtentConcat(a: seq<Block>, b: seq<Block>)
    ensures Extent(a + b) == Extent(a) + Extent(b)
  {
    if a == [] {
      assert a + b == b;
    } else {
      assert (a + b)[1..] == a[1..] + b;
      ExtentConcat(a[1..], b);
    }
  }

  predicate NoFreeNeighbours(b: seq<Block>)
  {
    forall i :: 0 <= i < |b| - 1 ==> !(b[i].free && b[i + 1].free)
  }

  /** The blocks tile the region exactly and no two neighbours are both free. */
  predicate Inv(b: seq<Block>)
  {
    b != [] && Extent(b) == TOTAL && NoFreeNeighbours(b)
  }

  function Initial(): (b: seq<Block>) { [Block(TOTAL - HEADER, true)] }

  /** A request rounded up to a multiple of four, in 32 bits. */
  function Rounded(n: nat): (r: nat)
    requires n < 0x1_0000_0000
  {
    var t := U32(n + 3);
    t - t % 4
  }

  /** The first free block that is large enough, |b| if there is none. */
  function FirstFit(b: seq<Block>, n: nat, i: nat): (r: nat)
    requires i <= |b|
    ensures i <= r <= |b|
    ensures r < |b| ==> b[r].free && b[r].size >= n
    ensures forall k :: i <= k < r ==> !(b[k].free && b[k].size >= n)
    decreases |b| - i
  {
    if i == |b| || (b[i].free && b[i].size >= n) then i else FirstFit(b, n, i + 1)
  }

  /** Block i taken for n octets, split if the rest can hold a header and eight octets. */
  function Take(b: seq<Block>, i: nat, n: nat): (b': seq<Block>)
    requires i < |b| && b[i].size >= n
  {
    if b[i].size >= n + HEADER + 8
    then b[..i] + [Block(n, false), Block(b[i].size - n - HEADER, true)] + b[i + 1..]
    else b[i := Block(b[i].size, false)]
  }

  /** Neighbouring free blocks joined. */
  function Coalesce(b: seq<Block>): (b': seq<Block>)
    decreases |b|
  {
    if |b| < 2 then b
    else if b[0].free && b[1].free then Coalesce([Block(b[0].size + HEADER + b[1].size, true)] + b[2..])
    else [b[0]] + Coalesce(b[1..])
  }

  function Release(b: seq<Block>, i: nat): (b': seq<Block>)
    requires i < |b|
  {
    Coalesce(b[i := Block(b[i].size, true)])
  }

  /** The data of a block in use. */
  datatype Region = Region(addr: nat, size: nat)

  /** The regions in use, in address order; the first header is at a. */
  function Used(b: seq<Block>, a: nat): (m: seq<Region>)
  {
    if b == [] then [] else UsedOne(b[0], a) + Used(b[1..], a + HEADER + b[0].size)
  }

  function UsedOne(k: Block, a: nat): (m: seq<Region>)
  {
    if k.free then [] else [Region(a + HEADER, k.size)]
  }

  lemma CoalesceOne(b: seq<Block>)
    requires |b| < 2
    ensures Coalesce(b) == b
  {
  }

  /** ---- What joining does ---- */

  lemma {:induction false} CoalesceJoins(b: seq<Block>)
    ensures NoFreeNeighbours(Coalesce(b)) && Extent(Coalesce(b)) == Extent(b)
    ensures b != [] ==> Coalesce(b) != [] && Coalesce(b)[0].free == b[0].free
    decreases |b|
  {
    if |b| >= 2 {
      if b[0].free && b[1].free {
        var c := [Block(b[0].size + HEADER + b[1].size, true)] + b[2..];
        CoalesceJoins(c);
        assert c[1..] == b[2..] && b[1..][1..] == b[2..];
      } else {
        CoalesceJoins(b[1..]);
        var c := Coalesce(b[1..]);
        assert ([b[0]] + c)[1..] == c;
        assert forall i :: 0 < i < |[b[0]] + c| ==> ([b[0]] + c)[i] == c[i - 1];
      }
    }
  }

  /** Joining moves no block in use. */
  lemma {:induction false} CoalesceKeepsUsed(b: seq<Block>, a: nat)
    ensures Used(Coalesce(b), a) == Used(b, a)
    decreases |b|
  {
    if |b| >= 2 {
      if b[0].free && b[1].free {
        var c := [Block(b[0].size + HEADER + b[1].size, true)] + b[2..];
        CoalesceKeepsUsed(c, a);
        assert c[1..] == b[2..] && b[1..][1..] == b[2..];
      } else {
        CoalesceKeepsUsed(b[1..], a + HEADER + b[0].size);
        assert ([b[0]] + Coalesce(b[1..]))[1..] == Coalesce(b[1..]);
      }
    }
  }

  /** Nothing to join, nothing changes. */
  lemma {:induction false} CoalesceIdle(b: seq<Block>)
    requires NoFreeNeighbours(b)
    ensures Coalesce(b) == b
    decreases |b|
  {
    if |b| >= 2 { CoalesceIdle(b[1..]); }
  }

  /** The one pair of free neighbours is joined and the rest stays. */
  lemma {:induction false} CoalesceOnePair(x: seq<Block>, s: nat, t: nat, y: seq<Block>)
    requires NoFreeNeighbours(x + [Block(s + HEADER + t, true)] + y)
    ensures Coalesce(x + [Block(s, true), Block(t, true)] + y) == x + [Block(s + HEADER + t, true)] + y
    decreases |x|
  {
    var b := x + [Block(s, true), Block(t, true)] + y;
    var c := x + [Block(s + HEADER + t, true)] + y;
    if x == [] {
      assert b[2..] == y;
      CoalesceIdle(c);
    } else {
      assert b[1..] == x[1..] + [Block(s, true), Block(t, true)] + y;
      assert c[1..] == x[1..] + [Block(s + HEADER + t, true)] + y;
      assert c[1].free == b[1].free && !(c[0].free && c[1].free);
      CoalesceOnePair(x[1..], s, t, y);
    }
  }

  /** ---- The invariant ---- */

  lemma TakeKeeps(b: seq<Block>, i: nat, n: nat)
    requires Inv(b) && i < |b| && b[i].free && b[i].size >= n
    ensures Inv(Take(b, i, n))
  {
    hide Extent, NoFreeNeighbours;
    var x, z := b[..i], b[i + 1..];
    assert b == x + [b[i]] + z;
    ExtentThree(x, [b[i]], z);
    ExtentOne(b[i]);
    if b[i].size >= n + HEADER + 8 {
      var pair := [Block(n, false), Block(b[i].size - n - HEADER, true)];
      ExtentPair(pair);
      ExtentThree(x, pair, z);
      NoPair(b, i, pair);
    } else {
      assert Take(b, i, n) == x + [Block(b[i].size, false)] + z;
      ExtentThree(x, [Block(b[i].size, false)], z);
      ExtentOne(Block(b[i].size, false));
      LessFree(b, i);
    }
  }

  lemma ExtentPair(pair: seq<Block>)
    requires |pair| == 2
    ensures Extent(pair) == 2 * HEADER + pair[0].size + pair[1].size
  {
    assert pair == [pair[0]] + [pair[1]];
    ExtentConcat([pair[0]], [pair[1]]);
    ExtentOne(pair[0]);
    ExtentOne(pair[1]);
  }

  lemma LessFree(b: seq<Block>, i: nat)
    requires NoFreeNeighbours(b) && i < |b|
    ensures NoFreeNeighbours(b[i := Block(b[i].size, false)])
  {
  }

  lemma NoPair(b: seq<Block>, i: nat, pair: seq<Block>)
    requires NoFreeNeighbours(b) && i < |b| && b[i].free && |pair| == 2 && !pair[0].free
    ensures NoFreeNeighbours(b[..i] + pair + b[i + 1..])
  {
    var b' := b[..i] + pair + b[i + 1..];
    forall k | 0 <= k < |b'| - 1 ensures !(b'[k].free && b'[k + 1].free) {
      if k < i - 1 {
        assert b'[k] == b[k] && b'[k + 1] == b[k + 1];
      } else if k == i + 1 {
        assert b'[k + 1] == b[i + 1];
      } else if k > i + 1 {
        assert b'[k] == b[k - 1] && b'[k + 1] == b[k - 1 + 1];
      }
    }
  }

  lemma ExtentThree(x: seq<Block>, y: seq<Block>, z: seq<Block>)
    ensures Extent(x + y + z) == Extent(x) + Extent(y) + Extent(z)
  {
    ExtentConcat(x + y, z);
    ExtentConcat(x, y);
  }

  lemma ReleaseKeeps(b: seq<Block>, i: nat)
    requires Inv(b) && i < |b|
    ensures Inv(Release(b, i))
  {
    var c := b[i := Block(b[i].size, true)];
    assert b == b[..i] + [b[i]] + b[i + 1..] && c == b[..i] + [c[i]] + b[i + 1..];
    ExtentThree(b[..i], [b[i]], b[i + 1..]);
    ExtentThree(b[..i], [c[i]], b[i + 1..]);
    CoalesceJoins(c);
  }

  lemma {:induction false} UsedConcat(x: seq<Block>, y: seq<Block>, a: nat)
    ensures Used(x + y, a) == Used(x, a) + Used(y, a + Extent(x))
    decreases |x|
  {
    hide UsedOne;
    if x == [] {
      assert x + y == y;
    } else {
      assert (x + y)[1..] == x[1..] + y;
      UsedConcat(x[1..], y, a + HEADER + x[0].size);
    }
  }

  /** The data address of block i. */
  function DataOf(b: seq<Block>, i: nat, a: nat): (p: nat)
    requires i < |b|
  {
    a + Extent(b[..i]) + HEADER
  }

  /** The regions in use below and above block i. */
  function Below(b: seq<Block>, i: nat, a: nat): (m: seq<Region>)
    requires i < |b|
  {
    Used(b[..i], a)
  }

  function Above(b: seq<Block>, i: nat, a: nat): (m: seq<Region>)
    requires i < |b|
  {
    Used(b[i + 1..], DataOf(b, i, a) + b[i].size)
  }

  lemma UsedAround(x: seq<Block>, k: Block, z: seq<Block>, a: nat)
    ensures Used(x + [k] + z, a)
         == Used(x, a) + UsedOne(k, a + Extent(x)) + Used(z, a + Extent(x) + HEADER + k.size)
  {
    hide UsedOne;
    assert x + [k] + z == x + ([k] + z);
    UsedConcat(x, [k] + z, a);
    assert ([k] + z)[1..] == z;
  }

  lemma UsedAt(b: seq<Block>, i: nat, a: nat)
    requires i < |b|
    ensures Used(b, a) == Below(b, i, a) + UsedOne(b[i], a + Extent(b[..i])) + Above(b, i, a)
  {
    hide UsedOne, Used;
    assert b == b[..i] + [b[i]] + b[i + 1..];
    UsedAround(b[..i], b[i], b[i + 1..], a);
  }

  /** An allocation adds one region in use and moves none; the new one starts behind the header of the
      block taken and holds what was asked for. */
  lemma TakeAdds(b: seq<Block>, i: nat, n: nat, a: nat) returns (size: nat)
    requires i < |b| && b[i].free && b[i].size >= n
    ensures size == if b[i].size >= n + 17 then n else b[i].size
    ensures n <= size < n + 17
    ensures Used(b, a) == Below(b, i, a) + Above(b, i, a)
    ensures Used(Take(b, i, n), a) == Below(b, i, a) + [Region(DataOf(b, i, a), size)] + Above(b, i, a)
  {
    hide Used, Extent, Take;
    UsedAt(b, i, a);
    if b[i].size >= n + HEADER + 8 {
      size := n;
      TakeSplits(b, i, n);
      var rest := Block(b[i].size - n - HEADER, true);
      UsedAround(b[..i], Block(n, false), [rest] + b[i + 1..], a);
      FreeUnused(rest, b[i + 1..], DataOf(b, i, a) + n);
    } else {
      size := b[i].size;
      TakeWhole(b, i, n);
      UsedAround(b[..i], Block(size, false), b[i + 1..], a);
    }
  }

  /** The first request of a new heap: the block behind the header at 3 MB, and the rest of the 256 KB
      behind it with a header of nine octets. */
  lemma FirstRequest(n: nat)
    requires 0 < n <= 262112
    ensures Initial() == [Block(262135, true)] && DataOf(Initial(), 0, START) == 0x30_0009
    ensures FirstFit(Initial(), Rounded(n), 0) == 0
    ensures var r := n + (4 - n % 4) % 4;
      Take(Initial(), 0, Rounded(n)) == [Block(r, false), Block(262126 - r, true)]
  {
    RoundedUp(n);
    assert Initial()[..0] == [];
  }

  lemma RoundedUp(n: nat)
    requires n <= 0xFFFF_FFFC
    ensures Rounded(n) == n + (4 - n % 4) % 4
  {
    assert n + 3 < 0x1_0000_0000;
  }

  lemma TakeSplits(b: seq<Block>, i: nat, n: nat)
    requires i < |b| && b[i].size >= n + HEADER + 8
    ensures Take(b, i, n) == b[..i] + [Block(n, false)] + ([Block(b[i].size - n - HEADER, true)] + b[i + 1..])
  {
  }

  lemma TakeWhole(b: seq<Block>, i: nat, n: nat)
    requires i < |b| && n <= b[i].size < n + HEADER + 8
    ensures Take(b, i, n) == b[..i] + [Block(b[i].size, false)] + b[i + 1..]
  {
  }

  lemma FreeUnused(k: Block, z: seq<Block>, a: nat)
    requires k.free
    ensures Used([k] + z, a) == Used(z, a + HEADER + k.size)
  {
    assert ([k] + z)[1..] == z;
  }

  /** Freeing takes exactly that region out of use. */
  lemma ReleaseRemoves(b: seq<Block>, i: nat, a: nat)
    requires i < |b| && !b[i].free
    ensures Used(b, a) == Below(b, i, a) + [Region(DataOf(b, i, a), b[i].size)] + Above(b, i, a)
    ensures Used(Release(b, i), a) == Below(b, i, a) + Above(b, i, a)
  {
    hide Used, Extent;
    UsedAt(b, i, a);
    var c := b[i := Block(b[i].size, true)];
    assert c == b[..i] + [c[i]] + b[i + 1..];
    UsedAround(b[..i], c[i], b[i + 1..], a);
    CoalesceKeepsUsed(c, a);
  }

  /** ---- What follows ---- */

  /** Allocating and freeing at once restores the very layout. */
  lemma TakeThenRelease(b: seq<Block>, i: nat, n: nat)
    requires Inv(b) && i < |b| && b[i].free && b[i].size >= n
    ensures Release(Take(b, i, n), i) == b
  {
    if b[i].size >= n + HEADER + 8 {
      var t := b[i].size - n - HEADER;
      assert b == b[..i] + [Block(n + HEADER + t, true)] + b[i + 1..];
      var c := Take(b, i, n)[i := Block(n, true)];
      assert c == b[..i] + [Block(n, true), Block(t, true)] + b[i + 1..];
      CoalesceOnePair(b[..i], n, t, b[i + 1..]);
    } else {
      assert Take(b, i, n)[i := Block(b[i].size, true)] == b;
      CoalesceIdle(b);
    }
  }

  /** With nothing in use the heap is the one free block it began as. */
  lemma NothingUsedIsInitial(b: seq<Block>, a: nat)
    requires Inv(b) && Used(b, a) == []
    ensures b == Initial()
  {
    assert forall k :: 0 <= k < |b| ==> b[k].free by { NothingUsed(b, a); }
    FreeMeansOne(b);
    assert b == [Block(b[0].size, true)] && b[1..] == [];
    assert Extent(b) == HEADER + b[0].size + Extent([]);
  }

  lemma FreeMeansOne(b: seq<Block>)
    requires NoFreeNeighbours(b) && b != [] && forall k :: 0 <= k < |b| ==> b[k].free
    ensures |b| == 1
  {
    if |b| > 1 { PairIsFree(b, 0); }
  }

  lemma PairIsFree(b: seq<Block>, k: nat)
    requires k + 1 < |b| && b[k].free && b[k + 1].free
    ensures !NoFreeNeighbours(b)
  {
  }

  lemma {:induction false} NothingUsed(b: seq<Block>, a: nat)
    requires Used(b, a) == []
    ensures forall k :: 0 <= k < |b| ==> b[k].free
  {
    if b != [] {
      NothingUsed(b[1..], a + HEADER + b[0].size);
      assert forall k :: 0 < k < |b| ==> b[k] == b[1..][k - 1];
    }
  }

  /** Regions in use lie in the heap and do not overlap, headers included. */
  lemma {:induction false} UsedApart(b: seq<Block>, a: nat, i: nat, j: nat)
    requires i < j < |Used(b, a)|
    ensures var m := Used(b, a); m[i].addr + m[i].size + HEADER <= m[j].addr
    decreases |b|
  {
    var a1 := a + HEADER + b[0].size;
    var rest := Used(b[1..], a1);
    if b[0].free {
      UsedApart(b[1..], a1, i, j);
    } else if i > 0 {
      UsedApart(b[1..], a1, i - 1, j - 1);
    } else {
      UsedWithin(b[1..], a1, j - 1);
    }
  }

  lemma {:induction false} UsedWithin(b: seq<Block>, a: nat, i: nat)
    requires i < |Used(b, a)|
    ensures var m := Used(b, a); a + HEADER <= m[i].addr && m[i].addr + m[i].size <= a + Extent(b)
    decreases |b|
  {
    var a1 := a + HEADER + b[0].size;
    if b[0].free {
      UsedWithin(b[1..], a1, i);
    } else if i > 0 {
      UsedWithin(b[1..], a1, i - 1);
    }
  }

  /** The rounded size holds the request exactly when the request is at most 2^32 - 4; the three larger
      requests are rounded to nothing. */
  lemma RoundedHolds(n: nat)
    requires n < 0x1_0000_0000
    ensures Rounded(n) >= n <==> n <= 0xFFFF_FFFC
    ensures n <= 0xFFFF_FFFC ==> Rounded(n) % 4 == 0 && Rounded(n) < n + 4
    ensures n > 0xFFFF_FFFC ==> Rounded(n) == 0
  {
  }

  lemma {:induction false} BlockWithin(b: seq<Block>, i: nat)
    requires i < |b|
    ensures b[i].size < Extent(b)
    decreases |b|
  {
    if i > 0 { BlockWithin(b[1..], i - 1); }
  }

  /** The block kmalloc hands out holds the request exactly when the request is at most 2^32 - 4; for the
      three larger requests it has fewer than seventeen octets, none at all if it was split. */
  lemma TakenHolds(b: seq<Block>, n: nat)
    requires Inv(b) && n < 0x1_0000_0000 && FirstFit(b, Rounded(n), 0) < |b|
    ensures var i := FirstFit(b, Rounded(n), 0);
      var taken := Take(b, i, Rounded(n))[i];
      && !taken.free && (taken.size >= n <==> n <= 0xFFFF_FFFC)
      && (n > 0xFFFF_FFFC ==> taken.size < HEADER + 8 && (b[i].size >= HEADER + 8 ==> taken.size == 0))
  {
    RoundedHolds(n);
    BlockWithin(b, FirstFit(b, Rounded(n), 0));
    hide Rounded, Extent;
  }

  /** The data of one block and the header of another, or of its own, have no octet in common: what a caller
      writes to its region leaves every header as it is. */
  lemma WritesMissHeaders(b: seq<Block>, a: nat, i: nat, j: nat, x: nat)
    requires i < |b| && j < |b| && DataOf(b, i, a) <= x < DataOf(b, i, a) + b[i].size
    ensures x < DataOf(b, j, a) - HEADER || DataOf(b, j, a) <= x
  {
    if i < j {
      ExtentGrows(b, i, j);
    } else if j < i {
      ExtentGrows(b, j, i);
    }
  }

  lemma ExtentGrows(b: seq<Block>, i: nat, j: nat)
    requires i < j <= |b|
    ensures Extent(b[..i]) + HEADER + b[i].size <= Extent(b[..j])
  {
    hide Extent;
    assert b[..j] == b[..i] + ([b[i]] + b[i + 1..j]);
    ExtentConcat(b[..i], [b[i]] + b[i + 1..j]);
    ExtentConcat([b[i]], b[i + 1..j]);
    ExtentOne(b[i]);
  }

  /** ---- Runs ---- */

  datatype Op = Malloc(n: nat) | Free(p: nat)

  /** The block whose data start at p, |b| if there is none. */
  function BlockAt(b: seq<Block>, p: nat, i: nat): (r: nat)
    requires i <= |b|
    ensures i <= r <= |b|
    ensures r < |b| ==> DataOf(b, r, START) == p
    decreases |b| - i
  {
    if i == |b| || DataOf(b, i, START) == p then i else BlockAt(b, p, i + 1)
  }

  /** One call; only regions in use are freed. */
  function Do(b: seq<Block>, op: Op): (b': seq<Block>)
  {
    match op
    case Malloc(n) =>
      if n == 0 || n >= 0x1_0000_0000 then b
      else
        var i := FirstFit(b, Rounded(n), 0);
        if i == |b| then b else Take(b, i, Rounded(n))
    case Free(p) =>
      var i := BlockAt(b, p, 0);
      if i == |b| || b[i].free then b else Release(b, i)
  }

  function Run(b: seq<Block>, ops: seq<Op>): (b': seq<Block>)
    decreases |ops|
  {
    if ops == [] then b else Run(Do(b, ops[0]), ops[1..])
  }

  /** After any run of calls the blocks tile the heap with no two free neighbours, and once everything is
      freed the heap is the single free block it began as. */
  lemma {:induction false} RunKeepsTiling(b: seq<Block>, ops: seq<Op>)
    requires Inv(b)
    ensures Inv(Run(b, ops))
    ensures Used(Run(b, ops), START) == [] ==> Run(b, ops) == Initial()
    decreases |ops|
  {
    hide Inv, Take, Release, Used;
    if ops == [] {
      if Used(b, START) == [] { NothingUsedIsInitial(b, START); }
    } else {
      var b' := Do(b, ops[0]);
      match ops[0] {
        case Malloc(n) =>
          if 0 < n < 0x1_0000_0000 {
            var i := FirstFit(b, Rounded(n), 0);
            if i < |b| { TakeKeeps(b, i, Rounded(n)); }
          }
        case Free(p) =>
          var i := BlockAt(b, p, 0);
          if i < |b| { ReleaseKeeps(b, i); }
      }
      RunKeepsTiling(b', ops[1..]);
    }
  }

  lemma InitialIsTiled()
    ensures Inv(Initial())
  {
    assert Initial()[1..] == [];
  }

  /** ---- The headers in memory ---- */

  datatype Header = Header(size: nat, free: bool, next: nat)

  /** The headers from a on describe the blocks b, each pointing at the one behind it and the last at
      end. */
  predicate Seg(mem: map<nat, Header>, a: nat, b: seq<Block>, end: nat)
    decreases |b|
  {
    b == [] ||
    var next := if |b| == 1 then end else a + HEADER + b[0].size;
    && a in mem && mem[a] == Header(b[0].size, b[0].free, next)
    && Seg(mem, a + HEADER + b[0].size, b[1..], end)
  }

  lemma {:induction false} SegSplit(mem: map<nat, Header>, a: nat, x: seq<Block>, y: seq<Block>, end: nat)
    requires y != []
    ensures Seg(mem, a, x + y, end) <==> Seg(mem, a, x, a + Extent(x)) && Seg(mem, a + Extent(x), y, end)
    decreases |x|
  {
    if x == [] {
      assert x + y == y;
    } else {
      assert (x + y)[1..] == x[1..] + y;
      SegSplit(mem, a + HEADER + x[0].size, x[1..], y, end);
      assert |x| == 1 ==> x[1..] == [] && Extent(x[1..]) == 0;
    }
  }

  lemma {:induction false} SegFrame(mem: map<nat, Header>, mem': map<nat, Header>, a: nat, b: seq<Block>, end: nat)
    requires Seg(mem, a, b, end)
    requires forall k :: a <= k < a + Extent(b) && k in mem ==> k in mem' && mem'[k] == mem[k]
    ensures Seg(mem', a, b, end)
    decreases |b|
  {
    if b != [] { SegFrame(mem, mem', a + HEADER + b[0].size, b[1..], end); }
  }

  /** Rewriting the headers of the blocks y leaves those of x. */
  lemma SegReplace(mem: map<nat, Header>, mem': map<nat, Header>, a: nat, x: seq<Block>, y: seq<Block>, y': seq<Block>,
      end: nat)
    requires y != [] && y' != [] && Seg(mem, a, x + y, end) && Seg(mem', a + Extent(x), y', end)
    requires forall k :: k < a + Extent(x) && k in mem ==> k in mem' && mem'[k] == mem[k]
    ensures Seg(mem', a, x + y', end)
  {
    SegSplit(mem, a, x, y, end);
    SegFrame(mem, mem', a, x, a + Extent(x));
    SegSplit(mem', a, x, y', end);
  }

  /** The headers an allocation writes. */
  function Split(mem: map<nat, Header>, a: nat, n: nat): (mem': map<nat, Header>)
    requires a in mem && mem[a].size >= n
  {
    if mem[a].size >= n + HEADER + 8
    then mem[a + HEADER + n := Header(mem[a].size - n - HEADER, true, mem[a].next)]
            [a := Header(n, false, a + HEADER + n)]
    else mem[a := mem[a].(free := false)]
  }

  lemma SegSplitHead(mem: map<nat, Header>, a: nat, k: Block, z: seq<Block>, n: nat, end: nat)
    requires Seg(mem, a, [k] + z, end) && k.size >= n
    ensures a in mem && mem[a].size == k.size
    ensures Seg(Split(mem, a, n), a, Take([k] + z, 0, n), end)
  {
    var b, mem' := [k] + z, Split(mem, a, n);
    assert b[1..] == z;
    SegFrame(mem, mem', a + HEADER + k.size, z, end);
    if k.size >= n + HEADER + 8 {
      var rest := Block(k.size - n - HEADER, true);
      var c := [rest] + z;
      assert c[1..] == z;
      assert Seg(mem', a + HEADER + n, c, end);
      assert Take(b, 0, n) == [Block(n, false)] + c;
      assert ([Block(n, false)] + c)[1..] == c;
    } else {
      assert Take(b, 0, n) == [Block(k.size, false)] + z;
      assert ([Block(k.size, false)] + z)[1..] == z;
    }
  }

  /** Taking block i, seen in the headers. */
  lemma SegTake(mem: map<nat, Header>, b: seq<Block>, i: nat, n: nat)
    requires i < |b| && Seg(mem, START, b, 0) && b[i].size >= n
    ensures var a := START + Extent(b[..i]);
      && a in mem && mem[a].size == b[i].size
      && Seg(Split(mem, a, n), START, Take(b, i, n), 0)
  {
    hide Seg, Split;
    var x, z := b[..i], b[i + 1..];
    var a := START + Extent(x);
    assert b == x + ([b[i]] + z);
    SegSplit(mem, START, x, [b[i]] + z, 0);
    SegSplitHead(mem, a, b[i], z, n, 0);
    TakeBehind(b, i, n);
    SplitFrame(mem, a, n);
    SegReplace(mem, Split(mem, a, n), START, x, [b[i]] + z, Take([b[i]] + z, 0, n), 0);
  }

  lemma SplitFrame(mem: map<nat, Header>, a: nat, n: nat)
    requires a in mem && mem[a].size >= n
    ensures forall k :: k < a && k in mem ==> k in Split(mem, a, n) && Split(mem, a, n)[k] == mem[k]
  {
  }

  lemma TakeBehind(b: seq<Block>, i: nat, n: nat)
    requires i < |b| && b[i].size >= n
    ensures Take([b[i]] + b[i + 1..], 0, n) != []
    ensures Take(b, i, n) == b[..i] + Take([b[i]] + b[i + 1..], 0, n)
  {
    var c := [b[i]] + b[i + 1..];
    assert c[1..] == b[i + 1..] && c[..0] == [];
  }

  /** What the header of block i says. */
  lemma SegAt(mem: map<nat, Header>, b: seq<Block>, i: nat)
    requires i < |b| && Seg(mem, START, b, 0)
    ensures var a := START + Extent(b[..i]);
      && a in mem
      && mem[a] == Header(b[i].size, b[i].free, if i + 1 == |b| then 0 else START + Extent(b[..i + 1]))
  {
    hide Extent;
    assert b == b[..i] + b[i..];
    SegSplit(mem, START, b[..i], b[i..], 0);
    assert b[..i + 1] == b[..i] + [b[i]];
    ExtentConcat(b[..i], [b[i]]);
    ExtentOne(b[i]);
  }

  /** Setting the free flag of block i. */
  lemma SegFlag(mem: map<nat, Header>, b: seq<Block>, i: nat)
    requires i < |b| && Seg(mem, START, b, 0)
    ensures var a := START + Extent(b[..i]);
      && a in mem
      && Seg(mem[a := mem[a].(free := true)], START, b[i := Block(b[i].size, true)], 0)
  {
    hide Extent;
    var x, y := b[..i], b[i..];
    var a := START + Extent(x);
    assert b == x + y;
    SegSplit(mem, START, x, y, 0);
    var mem' := mem[a := mem[a].(free := true)];
    var y' := y[0 := Block(b[i].size, true)];
    SegFrame(mem, mem', a + HEADER + b[i].size, y[1..], 0);
    assert y'[1..] == y[1..];
    SegReplace(mem, mem', START, x, y, y', 0);
    assert b[i := Block(b[i].size, true)] == x + y';
  }

  /** The header at a takes in the one it points at. */
  function Absorb(mem: map<nat, Header>, a: nat): (mem': map<nat, Header>)
    requires a in mem && mem[a].next in mem
  {
    var next := mem[a].next;
    mem[a := Header(mem[a].size + HEADER + mem[next].size, mem[a].free, mem[next].next)]
  }

  /** Blocks j and j + 1 joined. */
  function Joined(b: seq<Block>, j: nat): (b': seq<Block>)
    requires j + 1 < |b|
    ensures |b'| == |b| - 1
  {
    b[..j] + [Block(b[j].size + HEADER + b[j + 1].size, true)] + b[j + 2..]
  }

  /** Joining block i with the one behind it. */
  lemma SegJoin(mem: map<nat, Header>, b: seq<Block>, i: nat)
    requires i + 1 < |b| && Seg(mem, START, b, 0) && b[i].free
    ensures var a := START + Extent(b[..i]);
      && a in mem && mem[a].next in mem
      && Seg(Absorb(mem, a), START, Joined(b, i), 0)
  {
    hide Seg, Extent;
    SegAt(mem, b, i);
    var x, y := b[..i], b[i..];
    var a := START + Extent(x);
    assert b == x + y;
    SegSplit(mem, START, x, y, 0);
    JoinHead(mem, a, y, 0);
    JoinedBehind(b, i);
    SegReplace(mem, Absorb(mem, a), START, x, y, Joined(y, 0), 0);
  }

  lemma JoinedBehind(b: seq<Block>, i: nat)
    requires i + 1 < |b|
    ensures Joined(b, i) == b[..i] + Joined(b[i..], 0)
  {
    assert b[i..][..0] == [] && b[i..][2..] == b[i + 2..];
  }

  lemma JoinHead(mem: map<nat, Header>, a: nat, y: seq<Block>, end: nat)
    requires |y| >= 2 && Seg(mem, a, y, end) && y[0].free
    ensures a in mem && mem[a].next in mem && Seg(Absorb(mem, a), a, Joined(y, 0), end)
  {
    var next := a + HEADER + y[0].size;
    assert Seg(mem, next, y[1..], end);
    assert y[1..][1..] == y[2..];
    SegFrame(mem, Absorb(mem, a), next + HEADER + y[1].size, y[2..], end);
    var c := Joined(y, 0);
    assert c[1..] == y[2..];
  }

  class Kheap {
    var memory: map<nat, Header>
    var first: nat
    var ready: bool
    ghost var blocks: seq<Block>

    ghost predicate Valid()
      reads this
    {
      ready ==> first == START && Inv(blocks) && Seg(memory, START, blocks, 0)
    }

    /** Before kheap_init. */
    constructor ()
      ensures Valid() && !ready
    {
      memory, first, ready, blocks := map[], 0, false, [];
    }

    /** kheap_init. */
    method Init()
      modifies this
      ensures Valid() && ready && blocks == Initial()
    {
      first := START;
      memory := memory[START := Header(TOTAL - HEADER, true, 0)];
      ready := true;
      blocks := Initial();
      InitialIsTiled();
      assert Initial()[1..] == [];
    }

    /** kmalloc: first fit; 0 before initialisation, for an empty request, and when no free block holds
        the rounded size. */
    method Kmalloc(n: nat) returns (p: nat)
      requires Valid() && n < 0x1_0000_0000
      modifies this
      ensures Valid() && ready == old(ready)
      ensures !ready || n == 0 ==> p == 0 && blocks == old(blocks)
      ensures ready && n > 0 ==>
        var i := FirstFit(old(blocks), Rounded(n), 0);
        if i == |old(blocks)| then p == 0 && blocks == old(blocks)
        else p == DataOf(old(blocks), i, START) && blocks == Take(old(blocks), i, Rounded(n))
    {
      hide Inv, Seg, Take, Split, FirstFit, Extent;
      if !ready || n == 0 { return 0; }
      var size := And32(U32(n + 3), Not32(3));
      RoundedIsMasked(n);
      var at, i := Search(size);
      if at == 0 { return 0; }
      SegAt(memory, blocks, i);
      SegTake(memory, blocks, i, size);
      TakeKeeps(blocks, i, size);
      WriteSplit(at, size);
      blocks := Take(blocks, i, size);
      p := at + HEADER;
    }

    /** The loop of kmalloc: the header of the first block that fits, 0 if there is none. */
    method Search(size: nat) returns (at: nat, ghost i: nat)
      requires Valid() && ready
      ensures i == FirstFit(blocks, size, 0)
      ensures if i == |blocks| then at == 0 else at == START + Extent(blocks[..i]) > 0
    {
      hide Inv, Seg, Extent;
      at, i := first, 0;
      StartsAt(blocks);
      while at != 0
        invariant 0 <= i <= |blocks|
        invariant if i == |blocks| then at == 0 else at == START + Extent(blocks[..i])
        invariant FirstFit(blocks, size, 0) == FirstFit(blocks, size, i)
        decreases |blocks| - i
      {
        SegAt(memory, blocks, i);
        if memory[at].free && memory[at].size >= size {
          return;
        }
        at := memory[at].next;
        i := i + 1;
      }
    }

    /** The header writes of an allocation. */
    method WriteSplit(at: nat, size: nat)
      requires at in memory && memory[at].size >= size
      modifies this`memory
      ensures memory == Split(old(memory), at, size)
    {
      if memory[at].size >= size + HEADER + 8 {
        var novo := at + HEADER + size;
        var next := memory[at].next;
        memory := memory[novo := Header(memory[at].size - size - HEADER, true, next)];
        memory := memory[at := memory[at].(size := size)];
        memory := memory[at := memory[at].(next := novo)];
      }
      memory := memory[at := memory[at].(free := false)];
    }

    /** kfree of a pointer that kmalloc gave out for block i. */
    method Kfree(p: nat, ghost i: nat)
      requires Valid() && ready
      requires p != 0 ==> i < |blocks| && !blocks[i].free && p == DataOf(blocks, i, START)
      modifies this
      ensures Valid() && ready
      ensures blocks == if p == 0 then old(blocks) else Release(old(blocks), i)
    {
      hide Inv, Seg, Extent;
      if p == 0 { return; }
      var block := p - HEADER;
      ghost var b0 := blocks;
      SegFlag(memory, blocks, i);
      ReleaseKeeps(blocks, i);
      memory := memory[block := memory[block].(free := true)];
      blocks := blocks[i := Block(blocks[i].size, true)];
      assert blocks != [] by { StartsAt(b0); }
      JoinNeighbours();
    }

    /** The loop of kfree that joins free neighbours. */
    method JoinNeighbours()
      requires ready && first == START && blocks != [] && Seg(memory, START, blocks, 0)
      modifies this
      ensures ready && first == START && Seg(memory, START, blocks, 0)
      ensures blocks == Coalesce(old(blocks))
    {
      hide Seg, Extent, Coalesce, Joined, Absorb;
      var at: nat := first;
      ghost var j := 0;
      ExtentNone(blocks);
      assert blocks[0..] == blocks && blocks[..0] == [];
      SegAt(memory, blocks, 0);
      while at != 0 && memory[at].next != 0
        invariant 0 <= j < |blocks| && at == START + Extent(blocks[..j]) && at in memory
        invariant memory[at].next != 0 <==> j + 1 < |blocks|
        invariant Seg(memory, START, blocks, 0) && ready && first == START
        invariant Coalesce(old(blocks)) == blocks[..j] + Coalesce(blocks[j..])
        decreases |blocks| - j
      {
        SegAt(memory, blocks, j);
        SegAt(memory, blocks, j + 1);
        var next := memory[at].next;
        if memory[at].free && memory[next].free {
          SegJoin(memory, blocks, j);
          JoinStep(blocks, j);
          WriteJoin(at);
          blocks := Joined(blocks, j);
          SegAt(memory, blocks, j);
        } else {
          PassStep(blocks, j);
          at := next;
          j := j + 1;
          SegAt(memory, blocks, j);
        }
      }
      CoalesceOne(blocks[j..]);
      assert blocks == blocks[..j] + blocks[j..];
    }

    /** The header writes of a join. */
    method WriteJoin(at: nat)
      requires at in memory && memory[at].next in memory
      modifies this`memory
      ensures memory == Absorb(old(memory), at)
    {
      var next := memory[at].next;
      memory := memory[at := memory[at].(size := memory[at].size + HEADER + memory[next].size)];
      memory := memory[at := memory[at].(next := memory[next].next)];
    }
  }

  lemma JoinStep(b: seq<Block>, j: nat)
    requires j + 1 < |b| && b[j].free && b[j + 1].free
    ensures Joined(b, j)[..j] == b[..j] && Coalesce(b[j..]) == Coalesce(Joined(b, j)[j..])
  {
    var c := b[j..];
    assert c[2..] == b[j + 2..];
    assert Joined(b, j)[j..] == [Block(c[0].size + HEADER + c[1].size, true)] + c[2..];
  }

  lemma PassStep(b: seq<Block>, j: nat)
    requires j + 1 < |b| && !(b[j].free && b[j + 1].free)
    ensures b[..j] + Coalesce(b[j..]) == b[..j + 1] + Coalesce(b[j + 1..])
  {
    var c := b[j..];
    assert c[1..] == b[j + 1..];
    assert b[..j + 1] == b[..j] + [c[0]];
  }

  lemma StartsAt(b: seq<Block>)
    requires Inv(b)
    ensures b != [] && Extent(b[..0]) == 0
  {
    assert b[..0] == [];
  }

  lemma RoundedIsMasked(n: nat)
    requires n < 0x1_0000_0000
    ensures And32(U32(n + 3), Not32(3)) == Rounded(n)
  {
    Pow2Values();
    HighMask(U32(n + 3), 2, 32);
  }
}
