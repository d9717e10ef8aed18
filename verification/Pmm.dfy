/** The page-frame allocator (kernel/mem/pmm.c): a bitmap of pages and a cached count of the free ones. */
module Pmm {
  import opened Bits

  const PAGE: nat := 4096
  const MAX: nat := 262144
  const MEGABYTE: nat := 0x10_0000

  /** ---- Bits of the map ---- */

  /** 1 << k in an octet. */
  function Mask(k: nat): (m: bv8)
    requires k < 8
  {
    if k == 0 then 1 else if k == 1 then 2 else if k == 2 then 4 else if k == 3 then 8
    else if k == 4 then 16 else if k == 5 then 32 else if k == 6 then 64 else 128
  }

  predicate Bit(b: bv8, k: nat)
    requires k < 8
  {
    b & Mask(k) != 0
  }

  lemma SetBit(b: bv8, k: nat, j: nat)
    requires k < 8 && j < 8
    ensures Bit(b | Mask(k), j) == (j == k || Bit(b, j))
  {
  }

  lemma ClearBit(b: bv8, k: nat, j: nat)
    requires k < 8 && j < 8
    ensures Bit(b & !Mask(k), j) == (j != k && Bit(b, j))
  {
  }

  /** Page p is marked used. */
  predicate UsedAt(bits: seq<bv8>, p: nat)
    requires |bits| == MAX / 8
  {
    p < MAX && Bit(bits[p / 8], p % 8)
  }

  /** The clear bits below n. */
  ghost function Clear(bits: seq<bv8>, n: nat): (s: set<nat>)
    requires |bits| == MAX / 8 && n <= MAX
    ensures forall p: nat :: p in s <==> p < n && !UsedAt(bits, p)
  {
    set p: nat | p < n && !UsedAt(bits, p)
  }

  lemma PageSet(bits: seq<bv8>, p: nat, q: nat)
    requires |bits| == MAX / 8 && p < MAX && q < MAX
    ensures UsedAt(bits[p / 8 := bits[p / 8] | Mask(p % 8)], q) == (q == p || UsedAt(bits, q))
  {
    hide Bit, Mask;
    SetBit(bits[p / 8], p % 8, q % 8);
    assert p / 8 == q / 8 && p % 8 == q % 8 ==> p == q;
  }

  lemma PageCleared(bits: seq<bv8>, p: nat, q: nat)
    requires |bits| == MAX / 8 && p < MAX && q < MAX
    ensures UsedAt(bits[p / 8 := bits[p / 8] & !Mask(p % 8)], q) == (q != p && UsedAt(bits, q))
  {
    hide Bit, Mask;
    ClearBit(bits[p / 8], p % 8, q % 8);
    assert p / 8 == q / 8 && p % 8 == q % 8 ==> p == q;
  }

  /** An entry of the boot loader's memory map. */
  datatype Region = Region(available: bool, baseLow: nat, baseHigh: nat, length: nat)

  predicate Usable(r: Region) { r.available && r.baseHigh == 0 }

  /** No range wraps around 32 bits. */
  predicate RegionOk(r: Region) { r.baseLow + r.length < 0x1_0000_0000 }

  class Allocator {
    const bitmap: array<bv8>
    var total: nat
    var free: nat
    /** The pages handed out and not yet returned. */
    ghost var out: set<nat>

    /** The allocator as a value. */
    ghost function View(): (f: Frames)
      requires bitmap.Length == MAX / 8
      reads this, bitmap
    {
      Frames(total, UsedPages(), out)
    }

    ghost function UsedPages(): (s: set<nat>)
      requires bitmap.Length == MAX / 8
      reads this`total, bitmap
      ensures forall p: nat :: p in s <==> p < total && Used(p)
    {
      set p: nat | p < total && Used(p)
    }

    /** The cached count is the number of clear bits below the total. */
    ghost predicate Valid()
      reads this`total, this`free, bitmap
    {
      bitmap.Length == MAX / 8 && total <= MAX && free == |Clear(bitmap[..], total)|
    }

    ghost predicate Used(p: nat)
      requires bitmap.Length == MAX / 8
      reads bitmap
    {
      UsedAt(bitmap[..], p)
    }

    constructor ()
      ensures Valid() && total == 0 && fresh(bitmap)
    {
      bitmap := new bv8[MAX / 8](_ => 0);
      total, free, out := 0, 0, {};
      new;
      assert Clear(bitmap[..], 0) == {};
    }

    /** bit_setar. */
    method SetPage(p: nat)
      requires bitmap.Length == MAX / 8 && p < MAX
      modifies bitmap
      ensures forall q :: 0 <= q < MAX ==> Used(q) == (q == p || old(Used(q)))
    {
      hide UsedAt;
      forall q: nat | q < MAX
        ensures UsedAt(bitmap[..][p / 8 := bitmap[p / 8] | Mask(p % 8)], q) == (q == p || UsedAt(bitmap[..], q))
      {
        PageSet(bitmap[..], p, q);
      }
      ghost var after := bitmap[..][p / 8 := bitmap[p / 8] | Mask(p % 8)];
      bitmap[p / 8] := bitmap[p / 8] | Mask(p % 8);
      assert bitmap[..] == after;
    }

    /** bit_limpar. */
    method ClearPage(p: nat)
      requires bitmap.Length == MAX / 8 && p < MAX
      modifies bitmap
      ensures forall q :: 0 <= q < MAX ==> Used(q) == (q != p && old(Used(q)))
    {
      hide UsedAt;
      forall q: nat | q < MAX
        ensures UsedAt(bitmap[..][p / 8 := bitmap[p / 8] & !Mask(p % 8)], q) == (q != p && UsedAt(bitmap[..], q))
      {
        PageCleared(bitmap[..], p, q);
      }
      ghost var after := bitmap[..][p / 8 := bitmap[p / 8] & !Mask(p % 8)];
      bitmap[p / 8] := bitmap[p / 8] & !Mask(p % 8);
      assert bitmap[..] == after;
    }

    /** bit_checar. */
    method CheckPage(p: nat) returns (used: bool)
      requires bitmap.Length == MAX / 8 && p < MAX
      ensures used == Used(p)
    {
      used := bitmap[p / 8] & Mask(p % 8) != 0;
    }

    /** pmm_marcar_usado: the pages the range touches, as far as the total. */
    method MarkUsed(base: nat, length: nat)
      requires Valid() && base + length + PAGE <= 0x1_0000_0000
      modifies this`free, bitmap
      ensures Valid()
      ensures forall p :: 0 <= p < MAX ==>
          Used(p) == (old(Used(p)) || (base / PAGE <= p < (base + length + PAGE - 1) / PAGE && p < total))
    {
      hide UsedAt;
      var lo, hi := base / PAGE, (base + length + PAGE - 1) / PAGE;
      var i: nat := lo;
      while i < hi && i < total
        invariant Valid() && lo <= i
        invariant forall p :: 0 <= p < MAX ==> Used(p) == (old(Used(p)) || (lo <= p < i && p < hi && p < total))
        decreases hi - i
      {
        var used := CheckPage(i);
        if !used {
          CountDown(i);
        }
        i := i + 1;
      }
    }

    /** Marking a clear page: the count of free pages is positive, so the guard on it never fails. */
    method CountDown(i: nat)
      requires Valid() && i < total && !Used(i)
      modifies this`free, bitmap
      ensures Valid() && free == old(free) - 1
      ensures forall p :: 0 <= p < MAX ==> Used(p) == (p == i || old(Used(p)))
    {
      hide UsedAt;
      ghost var c := Clear(bitmap[..], total);
      assert i in c;
      SetPage(i);
      forall q: nat ensures q in Clear(bitmap[..], total) <==> q in c && q != i {
        if q < total { assert Used(q) == (q == i || old(Used(q))); }
      }
      assert Clear(bitmap[..], total) == c - {i};
      if free > 0 { free := free - 1; }
    }

    /** Clearing a used page. */
    method CountUp(i: nat)
      requires Valid() && i < total && Used(i)
      modifies this`free, bitmap
      ensures Valid() && free == old(free) + 1
      ensures forall p :: 0 <= p < MAX ==> Used(p) == (p != i && old(Used(p)))
    {
      hide UsedAt;
      ghost var c := Clear(bitmap[..], total);
      ClearPage(i);
      forall q: nat ensures q in Clear(bitmap[..], total) <==> q in c || q == i {
        if q < total { assert Used(q) == (q != i && old(Used(q))); }
      }
      assert Clear(bitmap[..], total) == c + {i};
      free := free + 1;
    }

    /** pmm_marcar_livre: from the page the range starts in to the last whole page, as far as the total. */
    method MarkFree(base: nat, length: nat)
      requires Valid() && base + length < 0x1_0000_0000
      modifies this`free, bitmap
      ensures Valid()
      ensures forall p :: 0 <= p < MAX ==>
          Used(p) == (old(Used(p)) && !(base / PAGE <= p < (base + length) / PAGE && p < total))
    {
      hide UsedAt;
      var lo, hi := base / PAGE, (base + length) / PAGE;
      var i: nat := lo;
      while i < hi && i < total
        invariant Valid() && lo <= i
        invariant forall p :: 0 <= p < MAX ==> Used(p) == (old(Used(p)) && !(lo <= p < i && p < hi && p < total))
        decreases hi - i
      {
        var used := CheckPage(i);
        if used {
          CountUp(i);
        }
        i := i + 1;
      }
    }

    /** pmm_alloc: the lowest clear page; 0 if there is none. */
    method Alloc() returns (address: nat)
      requires Valid()
      modifies this`free, this`out, bitmap
      ensures Valid()
      ensures address % 4096 == 0
      ensures View() == Do(old(View()), Take)
      ensures if Clear(old(bitmap[..]), total) == {} then address == 0 && bitmap[..] == old(bitmap[..])
        else
          && var p := address / 4096;
          && p < total && !old(Used(p)) && (forall q :: 0 <= q < p ==> old(Used(q)))
          && forall q :: 0 <= q < MAX ==> Used(q) == (q == p || old(Used(q)))
    {
      hide UsedAt;
      var i: nat := 0;
      while i < total
        invariant i <= total && Valid() && bitmap[..] == old(bitmap[..]) && out == old(out)
        invariant forall q :: 0 <= q < MAX ==> Used(q) == old(Used(q))
        invariant forall q :: 0 <= q < i ==> Used(q)
      {
        var used := CheckPage(i);
        if !used {
          assert i in Clear(bitmap[..], total);
          ghost var f := View();
          assert f.used == old(UsedPages()) by {
            forall q: nat ensures q in f.used <==> q in old(UsedPages()) {
              if q < total { assert Used(q) == old(Used(q)); }
            }
          }
          CountDown(i);
          out := out + {i};
          forall q: nat ensures q in UsedPages() <==> q in f.used || q == i {
            if q < total { assert Used(q) == (q == i || old(Used(q))); }
          }
          assert UsedPages() == f.used + {i};
          TakeIs(f, i);
          assert i * PAGE / PAGE == i && Clear(old(bitmap[..]), total) != {};
          return i * PAGE;
        }
        i := i + 1;
      }
      assert Clear(bitmap[..], total) == {} by {
        forall q: nat | q < total ensures q !in Clear(bitmap[..], total) { assert Used(q); }
      }
      forall q: nat ensures q in UsedPages() <==> q in old(UsedPages()) {
        if q < total { assert Used(q) == old(Used(q)); }
      }
      assert UsedPages() == old(UsedPages());
      NoneLowest(View());
      address := 0;
    }

    /** pmm_free. */
    method Free(address: nat)
      requires Valid()
      modifies this`free, this`out, bitmap
      ensures Valid()
      ensures forall q :: 0 <= q < MAX ==>
          Used(q) == (old(Used(q)) && !(q == address / 4096 && q < total))
      ensures address / 4096 in old(out) && old(out) <= old(View()).used ==>
        View() == Do(old(View()), Give(address / 4096))
    {
      hide UsedAt;
      ghost var f := View();
      var p := address / PAGE;
      if p < total {
        var used := CheckPage(p);
        if used {
          CountUp(p);
        }
      }
      out := out - {p};
      forall q: nat ensures q in UsedPages() <==> q in f.used && q != p {
        if q < total { assert Used(q) == (old(Used(q)) && !(q == p && q < total)); }
      }
      assert UsedPages() == f.used - {p};
    }

    /** pmm_init: everything used, the usable regions of the map cleared (or, without a map, what lies
        above the first megabyte), then the first megabyte, the kernel and the bitmap used again. The
        walk over the map in memory is the sequence of its entries. */
    method Init(memUpper: nat, hasMap: bool, regions: seq<Region>, kernelEnd: nat, bitmapAt: nat)
      requires bitmap.Length == MAX / 8
      requires memUpper + 1024 < 0x1_0000_0000 && U32(memUpper * 1024) + MEGABYTE < 0x1_0000_0000
      requires forall k :: 0 <= k < |regions| && Usable(regions[k]) ==> RegionOk(regions[k])
      requires MEGABYTE <= kernelEnd && kernelEnd + 2 * PAGE <= 0x1_0000_0000
      requires bitmapAt + MAX / 8 + PAGE <= 0x1_0000_0000
      modifies this`total, this`free, this`out, bitmap
      ensures Valid() && out == {}
      ensures var n := (memUpper + 1024) * 1024 % 0x1_0000_0000 / 4096; total == if n < 262144 then n else 262144
      ensures forall p: nat {:trigger Used(p)} :: p < total ==>
          (Used(p) <==> Reserved(p, kernelEnd, bitmapAt) || !Offered(Map(hasMap, regions, memUpper), p))
      ensures Kept(View(), ReservedBelow(total, kernelEnd, bitmapAt))
    {
      hide UsedAt;
      out := {};
      total := U32((memUpper + 1024) * 1024) / PAGE;
      if total > MAX { total := MAX; }
      FillBitmap();
      free := 0;
      AllUsedCount();
      if hasMap {
        FreeRegions(regions);
      } else {
        MarkFree(MEGABYTE, U32(memUpper * 1024));
        OfferedMore([], Region(true, MEGABYTE, 0, U32(memUpper * 1024)));
      }
      ghost var map1 := Map(hasMap, regions, memUpper);
      assert forall p: nat {:trigger Used(p)} :: p < total ==> (Used(p) <==> !Offered(map1, p)) by {
        assert [] + [Region(true, MEGABYTE, 0, U32(memUpper * 1024))]
          == [Region(true, MEGABYTE, 0, U32(memUpper * 1024))];
      }
      hide Offered, Map;
      MarkUsed(0, MEGABYTE);
      MarkUsed(MEGABYTE, kernelEnd - MEGABYTE + PAGE);
      MarkUsed(bitmapAt, MAX / 8);
    }

    /** The walk over the memory map. */
    method FreeRegions(regions: seq<Region>)
      requires Valid() && forall p :: 0 <= p < MAX ==> Used(p)
      requires forall k :: 0 <= k < |regions| && Usable(regions[k]) ==> RegionOk(regions[k])
      modifies this`free, bitmap
      ensures Valid()
      ensures forall p: nat {:trigger Used(p)} :: p < total ==> (Used(p) <==> !Offered(regions, p))
    {
      hide UsedAt;
      var k := 0;
      while k < |regions|
        invariant 0 <= k <= |regions| && Valid()
        invariant forall p: nat {:trigger Used(p)} :: p < total ==> (Used(p) <==> !Offered(regions[..k], p))
      {
        OfferedMore(regions[..k], regions[k]);
        assert regions[..k + 1] == regions[..k] + [regions[k]];
        hide Offered;
        if Usable(regions[k]) {
          MarkFree(regions[k].baseLow, regions[k].length);
        }
        k := k + 1;
      }
      assert regions[..k] == regions;
    }

    method FillBitmap()
      requires bitmap.Length == MAX / 8
      modifies bitmap
      ensures forall p :: 0 <= p < MAX ==> Used(p)
    {
      var i := 0;
      while i < MAX / 8
        invariant 0 <= i <= MAX / 8 && forall k :: 0 <= k < i ==> bitmap[k] == 0xFF
      {
        bitmap[i] := 0xFF;
        i := i + 1;
      }
      forall p | 0 <= p < MAX ensures Used(p) { AllOnes(p % 8); }
    }

    lemma AllUsedCount()
      requires bitmap.Length == MAX / 8 && total <= MAX && forall p :: 0 <= p < MAX ==> Used(p)
      ensures Clear(bitmap[..], total) == {}
    {
      hide UsedAt;
      forall p: nat | p < total ensures p !in Clear(bitmap[..], total) { assert Used(p); }
    }
  }

  lemma AllOnes(k: nat)
    requires k < 8
    ensures Bit(0xFF, k)
  {
  }

  /** The pages the initialisation keeps back: the first megabyte, the kernel, the bitmap. */
  predicate Reserved(p: nat, kernelEnd: nat, bitmapAt: nat)
  {
    || p < MEGABYTE / PAGE
    || MEGABYTE / PAGE <= p < (kernelEnd + 2 * PAGE - 1) / PAGE
    || bitmapAt / PAGE <= p < (bitmapAt + MAX / 8 + PAGE - 1) / PAGE
  }

  /** The region makes page p free. */
  predicate Offers(r: Region, p: nat)
  {
    Usable(r) && r.baseLow / PAGE <= p < (r.baseLow + r.length) / PAGE
  }

  /** In addresses: the pages kept back are those that touch the first megabyte, the kernel up to a page
      behind its end, or the 32 KB of the bitmap. */
  lemma ReservedMeans(p: nat, kernelEnd: nat, bitmapAt: nat)
    requires kernelEnd >= 0x10_0000
    ensures Reserved(p, kernelEnd, bitmapAt)
       <==> Touches(p, 0, kernelEnd + 4096) || Touches(p, bitmapAt, bitmapAt + 32768)
  {
    TouchesIff(p, bitmapAt, bitmapAt + 32768);
    TouchesIff(p, 0, kernelEnd + 4096);
  }

  /** Page p has an address in the range. */
  predicate Touches(p: nat, from: nat, to: nat) { 4096 * p < to && from < 4096 * p + 4096 }

  lemma TouchesIff(p: nat, from: nat, to: nat)
    ensures Touches(p, from, to) <==> from / 4096 <= p < (to + 4095) / 4096
  {
  }

  /** In addresses: a region makes free the pages that end in it. Such a page lies in the region as a whole
      unless it is the one the region begins in the middle of. */
  lemma OffersMeans(r: Region, p: nat)
    ensures Offers(r, p)
       <==> r.available && r.baseHigh == 0 && r.baseLow < 4096 * p + 4096 <= r.baseLow + r.length
    ensures Offers(r, p) ==> (r.baseLow <= 4096 * p <==> r.baseLow % 4096 == 0 || p != r.baseLow / 4096)
  {
  }

  /** A region that begins in the middle of a page makes that page free, though it holds a part of it only. */
  lemma PageOutsideRegion()
    ensures var r := Region(true, 0x10_0800, 0, 0x1_0000); Offers(r, 0x100) && 4096 * 0x100 < r.baseLow
  {
  }

  lemma MaskIsShift(k: bv6)
    requires k < 8
    ensures Mask(k as nat) == (1 as bv8) << k
  {
    if k == 0 { } else if k == 1 { } else if k == 2 { } else if k == 3 { } else if k == 4 { } else if k == 5 { }
    else if k == 6 { }
  }

  /** Some region makes page p free. */
  ghost predicate Offered(regions: seq<Region>, p: nat)
  {
    exists k :: 0 <= k < |regions| && Offers(regions[k], p)
  }

  /** The regions looked at: those of the map, or without a map all memory above the first megabyte. */
  ghost function Map(hasMap: bool, regions: seq<Region>, memUpper: nat): (r: seq<Region>)
  {
    if hasMap then regions else [Region(true, MEGABYTE, 0, U32(memUpper * 1024))]
  }

  lemma OfferedMore(regions: seq<Region>, r: Region)
    ensures forall p: nat :: Offered(regions + [r], p) <==> Offered(regions, p) || Offers(r, p)
  {
    forall p: nat ensures Offered(regions + [r], p) <==> Offered(regions, p) || Offers(r, p) {
      if Offered(regions, p) {
        var k :| 0 <= k < |regions| && Offers(regions[k], p);
        assert Offers((regions + [r])[k], p);
      }
      if Offers(r, p) { assert Offers((regions + [r])[|regions|], p); }
    }
  }

  ghost function ReservedBelow(total: nat, kernelEnd: nat, bitmapAt: nat): (s: set<nat>)
  {
    set p: nat | p < total && Reserved(p, kernelEnd, bitmapAt)
  }

  /** ---- Runs ---- */

  /** The pages below total, those marked used, and those handed out and not yet returned. */
  datatype Frames = Frames(total: nat, used: set<nat>, out: set<nat>)

  /** Alloc is pmm_alloc; Give is pmm_free of a page. */
  datatype Op = Take | Give(page: nat)

  function Lowest(f: Frames, p: nat): (r: nat)
    requires p <= f.total
    ensures p <= r <= f.total
    ensures r < f.total ==> r !in f.used
    ensures forall q :: p <= q < r ==> q in f.used
    decreases f.total - p
  {
    if p == f.total || p !in f.used then p else Lowest(f, p + 1)
  }

  /** One call; callers free only what they were given. */
  function Do(f: Frames, op: Op): (f': Frames)
  {
    match op
    case Take =>
      var p := Lowest(f, 0);
      if p == f.total then f else f.(used := f.used + {p}, out := f.out + {p})
    case Give(p) => if p !in f.out then f else f.(used := f.used - {p}, out := f.out - {p})
  }

  lemma NoneLowest(f: Frames)
    requires forall q: nat :: q < f.total ==> q in f.used
    ensures Lowest(f, 0) == f.total
  {
  }

  lemma TakeIs(f: Frames, i: nat)
    requires i < f.total && i !in f.used && forall q :: 0 <= q < i ==> q in f.used
    ensures Do(f, Take) == f.(used := f.used + {i}, out := f.out + {i})
  {
    var r := Lowest(f, 0);
    assert r > i ==> i in f.used;
  }

  function Run(f: Frames, ops: seq<Op>): (f': Frames)
    decreases |ops|
  {
    if ops == [] then f else Run(Do(f, ops[0]), ops[1..])
  }

  /** Pages are out only while used, and none of the reserved pages is out. */
  ghost predicate Kept(f: Frames, reserved: set<nat>)
  {
    f.out <= f.used && reserved <= f.used && reserved !! f.out
  }

  /** In every run a page handed out is neither reserved nor already out, and the reserved pages stay
      used. */
  lemma {:induction false} RunKeepsReserved(f: Frames, ops: seq<Op>, reserved: set<nat>)
    requires Kept(f, reserved)
    ensures Kept(Run(f, ops), reserved) && Run(f, ops).total == f.total
    decreases |ops|
  {
    if ops != [] { RunKeepsReserved(Do(f, ops[0]), ops[1..], reserved); }
  }

  lemma TakeIsFresh(f: Frames, reserved: set<nat>)
    requires Kept(f, reserved) && Do(f, Take) != f
    ensures var p := Lowest(f, 0);
      && Do(f, Take).out == f.out + {p} && p !in f.out && p !in reserved && p < f.total
      && forall q :: 0 <= q < p ==> q in f.used
  {
  }
}
