/** The slab allocator (kernel/mem/slab.c): pages cut into slots of one size, a free list threaded through
    the first word of the free slots, and the owning page found by masking a pointer. */
module Slab {
  import opened Bits
  import opened Bytes

  const PAGE: nat := 4096
  const HEADER: nat := 12
  const SPACE: nat := 4084

  /** A slab page and its free slots, in the order of the free list. */
  datatype Page = Page(base: nat, free: seq<nat>)

  function PerSlab(size: nat): (n: nat)
    requires size > 0
  {
    SPACE / size
  }

  /** Address of slot i. */
  function Addr(base: nat, size: nat, i: nat): (a: nat) { base + HEADER + i * size }

  lemma AddrZero(base: nat, size: nat)
    ensures Addr(base, size, 0) == base + HEADER
  {
  }

  predicate SizeOk(size: nat) { 8 <= size <= SPACE && size % 4 == 0 }

  ghost predicate PageOk(p: Page, size: nat)
    requires SizeOk(size)
  {
    && 0 < p.base < 0x1_0000_0000 && p.base % PAGE == 0
    && (forall k :: 0 <= k < |p.free| ==> p.free[k] < PerSlab(size))
    && forall j, k :: 0 <= j < k < |p.free| ==> p.free[j] != p.free[k]
  }

  ghost predicate PagesOk(s: seq<Page>, size: nat)
    requires SizeOk(size)
  {
    && (forall k :: 0 <= k < |s| ==> PageOk(s[k], size))
    && forall j, k :: 0 <= j < k < |s| ==> s[j].base != s[k].base
  }

  /** Slot i of page k is out. */
  predicate Live(s: seq<Page>, size: nat, k: nat, i: nat)
    requires size > 0
  {
    k < |s| && i < PerSlab(size) && i !in s[k].free
  }

  /** ---- Addresses ---- */

  lemma SlotApart(base: nat, size: nat, i: nat, j: nat)
    requires i < j
    ensures Addr(base, size, i) + size <= Addr(base, size, j)
  {
    Spread(i, j - i - 1, size);
  }

  /** A slot lies in its page, behind the header. */
  lemma SlotInPage(base: nat, size: nat, i: nat)
    requires size > 0 && i < PerSlab(size)
    ensures base + HEADER <= Addr(base, size, i) && Addr(base, size, i) + size <= base + PAGE
  {
    assert size * PerSlab(size) <= SPACE;
    Spread(i, PerSlab(size) - i - 1, size);
  }

  /** Masking off the low twelve bits of a pointer into a slot gives the page of the slot. */
  lemma MaskFindsPage(base: nat, size: nat, i: nat)
    requires size > 0 && i < PerSlab(size) && 0 < base && base % PAGE == 0 && base < 0x1_0000_0000
    ensures And32(Addr(base, size, i), Not32(0xFFF)) == base
  {
    SlotInPage(base, size, i);
    var a := Addr(base, size, i);
    assert a - base < PAGE && a % PAGE == a - base by { ModInPage(base, a - base); }
    assert Pow2(12) == 0x1000 && Pow2(32) == 0x1_0000_0000 by { Pow2Values(); }
    hide Bitwise, Pow2, Addr;
    HighMask(a, 12, 32);
  }

  lemma ModInPage(base: nat, d: nat)
    requires base % PAGE == 0 && d < PAGE
    ensures (base + d) % PAGE == d
  {
  }

  /** Two slots of a cache do not overlap, whether they are out or free, nor does a slot meet a header. */
  lemma SlotsDisjoint(s: seq<Page>, size: nat, k: nat, i: nat, k': nat, i': nat)
    requires SizeOk(size) && PagesOk(s, size)
    requires k < |s| && k' < |s| && i < PerSlab(size) && i' < PerSlab(size)
    ensures var a, a' := Addr(s[k].base, size, i), Addr(s[k'].base, size, i');
      && ((k == k' && i == i') || a + size <= a' || a' + size <= a)
      && (a + size <= s[k'].base || s[k'].base + HEADER <= a)
  {
    SlotInPage(s[k].base, size, i);
    SlotInPage(s[k'].base, size, i');
    if k == k' {
      if i < i' { SlotApart(s[k].base, size, i, i'); }
      if i' < i { SlotApart(s[k].base, size, i', i); }
    } else {
      PagesApart(s[k].base, s[k'].base);
    }
  }

  lemma PagesApart(x: nat, y: nat)
    requires x % PAGE == 0 && y % PAGE == 0 && x != y
    ensures x + PAGE <= y || y + PAGE <= x
  {
  }

  /** ---- The operations ---- */

  /** The first page with a free slot, |s| if none. */
  function WithSpace(s: seq<Page>, k: nat): (r: nat)
    requires k <= |s|
    ensures k <= r <= |s|
    ensures r < |s| ==> s[r].free != []
    ensures forall j :: k <= j < r ==> s[j].free == []
    decreases |s| - k
  {
    if k == |s| || s[k].free != [] then k else WithSpace(s, k + 1)
  }

  function Range(i: nat, n: nat): (r: seq<nat>)
    requires i <= n
  {
    seq(n - i, k requires k >= 0 => i + k)
  }

  function Take(s: seq<Page>, k: nat): (s': seq<Page>)
    requires k < |s| && s[k].free != []
  {
    s[k := Page(s[k].base, s[k].free[1..])]
  }

  function Give(s: seq<Page>, k: nat, i: nat): (s': seq<Page>)
    requires k < |s|
  {
    s[k := Page(s[k].base, [i] + s[k].free)]
  }

  function Grow(s: seq<Page>, base: nat, size: nat): (s': seq<Page>)
    requires size > 0
  {
    [Page(base, Range(0, PerSlab(size)))] + s
  }

  lemma TakeKeeps(s: seq<Page>, size: nat, k: nat)
    requires SizeOk(size) && PagesOk(s, size) && k < |s| && s[k].free != []
    ensures PagesOk(Take(s, k), size)
    ensures !Live(s, size, k, s[k].free[0])
    ensures forall k': nat, i: nat :: Live(Take(s, k), size, k', i) <==>
              Live(s, size, k', i)
              || (k' == k && i == s[k].free[0])
  {
    var f := s[k].free;
    assert f == [f[0]] + f[1..];
    assert forall i :: i in f[1..] ==> exists j :: 0 < j < |f| && f[j] == i;
    assert f[0] !in f[1..];
  }

  lemma GiveKeeps(s: seq<Page>, size: nat, k: nat, i: nat)
    requires SizeOk(size) && PagesOk(s, size) && Live(s, size, k, i)
    ensures PagesOk(Give(s, k, i), size)
    ensures forall k': nat, i': nat :: Live(Give(s, k, i), size, k', i') <==>
              Live(s, size, k', i')
              && !(k' == k && i' == i)
  {
  }

  lemma GrowKeeps(s: seq<Page>, size: nat, base: nat)
    requires SizeOk(size) && PagesOk(s, size)
    requires 0 < base < 0x1_0000_0000 && base % PAGE == 0 && forall k :: 0 <= k < |s| ==> s[k].base != base
    ensures PagesOk(Grow(s, base, size), size)
    ensures PerSlab(size) >= 1
    ensures forall k: nat, i: nat :: Live(Grow(s, base, size), size, k, i) <==> k > 0 && Live(s, size, k - 1, i)
  {
    hide Addr, PerSlab;
    RangeIsAll(PerSlab(size));
    assert PerSlab(size) >= 1 by { DivAtLeastOne(size); }
    var g := Grow(s, base, size);
    assert forall k :: 0 < k < |g| ==> g[k] == s[k - 1];
    assert PageOk(g[0], size);
  }

  lemma RangeIsAll(n: nat)
    ensures forall k :: 0 <= k < |Range(0, n)| ==> Range(0, n)[k] == k
    ensures |Range(0, n)| == n && forall i: nat :: i < n ==> i in Range(0, n)
  {
    forall i: nat | i < n ensures i in Range(0, n) { assert Range(0, n)[i] == i; }
  }

  /** The slots of a page: the first one behind a header of twelve octets, each right behind the one
      before, and as many as fit. */
  lemma SlotsFillPage(base: nat, size: nat, i: nat)
    requires 0 < size
    ensures Addr(base, size, 0) == base + 12 && Addr(base, size, i + 1) == Addr(base, size, i) + size
    ensures i < PerSlab(size) <==> Addr(base, size, i) + size <= base + 4096
  {
    var n := PerSlab(size);
    AddrZero(base, size);
    assert (i + 1) * size == i * size + size;
    assert 4084 == size * n + 4084 % size;
    if i < n {
      Spread(i, n - i - 1, size);
    } else {
      Spread(n, i - n, size);
    }
  }

  /** How many objects the caches of the kernel hold in a page. */
  lemma StandardCaches()
    ensures PerSlab(32) == 127 && PerSlab(64) == 63 && PerSlab(128) == 31 && PerSlab(256) == 15
  {
  }

  lemma DivAtLeastOne(size: nat)
    requires 0 < size <= SPACE
    ensures PerSlab(size) >= 1
  {
    assert SPACE == size * (SPACE / size) + SPACE % size;
  }

  /** What goes back comes out next from its page, and taking and giving back restores the free list. */
  lemma GiveThenTake(s: seq<Page>, k: nat, i: nat)
    requires k < |s|
    ensures Take(Give(s, k, i), k) == s
  {
    assert ([i] + s[k].free)[1..] == s[k].free;
  }

  lemma TakeThenGive(s: seq<Page>, k: nat)
    requires k < |s| && s[k].free != []
    ensures Give(Take(s, k), k, s[k].free[0]) == s
  {
    assert [s[k].free[0]] + s[k].free[1..] == s[k].free;
  }

  /** The bound of the loop of slab_novo is one less than the number of slots exactly when the page holds one;
      for larger objects it wraps, and the first link it stores leads behind the page. */
  lemma LoopBoundWraps(page: nat, size: nat)
    requires 0 < size < 0x1_0000_0000
    ensures U32(PerSlab(size) - 1) == PerSlab(size) - 1 <==> size <= SPACE
    ensures size > SPACE ==> U32(PerSlab(size) - 1) == 0xFFFF_FFFF && Addr(page, size, 1) > page + PAGE
  {
    if size <= SPACE {
      DivAtLeastOne(size);
    } else {
      DivModUnique(SPACE, size, 0, SPACE);
    }
  }

  /** ---- Free lists in memory ---- */

  /** From ptr the first words of the slots l lead from one to the next and end in 0. */
  predicate Threaded(words: map<nat, nat>, ptr: nat, base: nat, size: nat, l: seq<nat>)
    decreases |l|
  {
    if l == [] then ptr == 0
    else ptr == Addr(base, size, l[0]) && ptr in words && Threaded(words, words[ptr], base, size, l[1..])
  }

  lemma {:induction false} ThreadedFrame(words: map<nat, nat>, words': map<nat, nat>, ptr: nat, base: nat, size: nat,
      l: seq<nat>)
    requires Threaded(words, ptr, base, size, l)
    requires forall i :: i in l && Addr(base, size, i) in words ==>
        Addr(base, size, i) in words' && words'[Addr(base, size, i)] == words[Addr(base, size, i)]
    ensures Threaded(words', ptr, base, size, l)
    decreases |l|
  {
    if l != [] { ThreadedFrame(words, words', words[ptr], base, size, l[1..]); }
  }

  /** Slot k points at the one behind it, the last of n at nothing. */
  predicate PointsOn(words: map<nat, nat>, base: nat, size: nat, k: nat, n: nat)
  {
    && Addr(base, size, k) in words
    && words[Addr(base, size, k)] == if k + 1 < n then Addr(base, size, k + 1) else 0
  }

  lemma {:induction false} RangeThreaded(words: map<nat, nat>, base: nat, size: nat, i: nat, n: nat)
    requires base > 0 && size > 0 && i < n
    requires forall k :: i <= k < n ==> PointsOn(words, base, size, k, n)
    ensures Threaded(words, Addr(base, size, i), base, size, Range(i, n))
    decreases n - i
  {
    assert PointsOn(words, base, size, i, n);
    assert Range(i, n)[1..] == Range(i + 1, n);
    if i + 1 < n { RangeThreaded(words, base, size, i + 1, n); }
  }

  /** ---- The cache ---- */

  /** The header at the start of a slab page. */
  datatype SlabHeader = SlabHeader(count: nat, freeList: nat, next: nat)

  /** The headers list the pages s from ptr on. */
  predicate Listed(headers: map<nat, SlabHeader>, ptr: nat, s: seq<Page>)
    decreases |s|
  {
    if s == [] then ptr == 0
    else
      && ptr == s[0].base && ptr in headers && headers[ptr].count == |s[0].free|
      && Listed(headers, headers[ptr].next, s[1..])
  }

  predicate FreeListOk(headers: map<nat, SlabHeader>, words: map<nat, nat>, p: Page, size: nat)
  {
    p.base in headers && Threaded(words, headers[p.base].freeList, p.base, size, p.free)
  }

  lemma {:induction false} ListedAt(headers: map<nat, SlabHeader>, ptr: nat, s: seq<Page>, k: nat)
    requires Listed(headers, ptr, s) && k < |s|
    ensures Listed(headers, s[k].base, s[k..]) && s[k].base in headers && headers[s[k].base].count == |s[k].free|
    ensures Listed(headers, headers[s[k].base].next, s[k + 1..])
    decreases k
  {
    if k == 0 {
      assert s[0..] == s;
    } else {
      ListedAt(headers, headers[ptr].next, s[1..], k - 1);
      assert s[1..][k - 1..] == s[k..] && s[1..][k..] == s[k + 1..];
    }
  }

  /** Headers with the same links and the counts of s' list s'. */
  lemma {:induction false} ListedAgain(headers: map<nat, SlabHeader>, headers': map<nat, SlabHeader>, ptr: nat,
      s: seq<Page>, s': seq<Page>)
    requires Listed(headers, ptr, s) && |s'| == |s|
    requires forall k :: 0 <= k < |s| ==> Relisted(headers, headers', s[k], s'[k])
    ensures Listed(headers', ptr, s')
    decreases |s|
  {
    if s != [] {
      assert Relisted(headers, headers', s[0], s'[0]);
      ListedAgain(headers, headers', headers[ptr].next, s[1..], s'[1..]);
    }
  }

  predicate Relisted(headers: map<nat, SlabHeader>, headers': map<nat, SlabHeader>, p: Page, p': Page)
  {
    && p'.base == p.base && p.base in headers'
    && headers'[p.base].count == |p'.free|
    && (p.base in headers ==> headers'[p.base].next == headers[p.base].next)
  }

  ghost predicate AllThreaded(headers: map<nat, SlabHeader>, words: map<nat, nat>, s: seq<Page>, size: nat)
  {
    forall k :: 0 <= k < |s| ==> FreeListOk(headers, words, s[k], size)
  }

  /** Taking the first slot off a free list. */
  lemma PopKeeps(headers: map<nat, SlabHeader>, words: map<nat, nat>, list: nat, s: seq<Page>, size: nat, k: nat)
    requires SizeOk(size) && PagesOk(s, size) && Listed(headers, list, s) && AllThreaded(headers, words, s, size)
    requires k < |s| && s[k].free != []
    ensures var b := s[k].base;
      && b in headers && headers[b].freeList == Addr(b, size, s[k].free[0]) && headers[b].freeList in words
      && headers[b].count == |s[k].free|
      && var headers' := headers[b := headers[b].(freeList := words[headers[b].freeList], count := |s[k].free| - 1)];
        Listed(headers', list, Take(s, k)) && AllThreaded(headers', words, Take(s, k), size)
  {
    hide Addr, Listed;
    ListedAt(headers, list, s, k);
    var b := s[k].base;
    assert FreeListOk(headers, words, s[k], size);
    var headers' := headers[b := headers[b].(freeList := words[headers[b].freeList], count := |s[k].free| - 1)];
    var s' := Take(s, k);
    forall j | 0 <= j < |s| ensures Relisted(headers, headers', s[j], s'[j])
      && FreeListOk(headers', words, s'[j], size) {
      ListedAt(headers, list, s, j);
      assert FreeListOk(headers, words, s[j], size);
      if j != k { DistinctBases(s, size, j, k); }
    }
    ListedAgain(headers, headers', list, s, s');
  }

  lemma DistinctBases(s: seq<Page>, size: nat, j: nat, k: nat)
    requires SizeOk(size) && PagesOk(s, size) && j < |s| && k < |s| && j != k
    ensures s[j].base != s[k].base
  {
  }

  /** Putting a slot that is out in front of the free list of its page. */
  lemma PushKeeps(headers: map<nat, SlabHeader>, words: map<nat, nat>, list: nat, s: seq<Page>, size: nat, k: nat,
        i: nat)
    requires SizeOk(size) && PagesOk(s, size) && Listed(headers, list, s) && AllThreaded(headers, words, s, size)
    requires Live(s, size, k, i)
    ensures var b, p := s[k].base, Addr(s[k].base, size, i);
      && b in headers && headers[b].count == |s[k].free|
      && var words' := words[p := headers[b].freeList];
        var headers' := headers[b := headers[b].(freeList := p, count := |s[k].free| + 1)];
        Listed(headers', list, Give(s, k, i)) && AllThreaded(headers', words', Give(s, k, i), size)
  {
    hide Addr, Listed, Threaded;
    ListedAt(headers, list, s, k);
    var b, p := s[k].base, Addr(s[k].base, size, i);
    var words' := words[p := headers[b].freeList];
    var headers' := headers[b := headers[b].(freeList := p, count := |s[k].free| + 1)];
    var s' := Give(s, k, i);
    forall j | 0 <= j < |s| ensures Relisted(headers, headers', s[j], s'[j])
      && FreeListOk(headers', words', s'[j], size) {
      ListedAt(headers, list, s, j);
      assert FreeListOk(headers, words, s[j], size);
      ThreadBeside(words, headers[s[j].base].freeList, s, size, j, k, i, headers[b].freeList);
      if j == k {
        PushThreads(words', p, b, size, i, s[k].free);
      } else {
        DistinctBases(s, size, j, k);
      }
    }
    ListedAgain(headers, headers', list, s, s');
  }

  lemma PushThreads(words: map<nat, nat>, p: nat, base: nat, size: nat, i: nat, l: seq<nat>)
    requires p == Addr(base, size, i) && p in words && Threaded(words, words[p], base, size, l)
    ensures Threaded(words, p, base, size, [i] + l)
  {
    assert ([i] + l)[1..] == l;
  }

  /** The first word of a slot that is out lies on no free list. */
  lemma ThreadBeside(words: map<nat, nat>, ptr: nat, s: seq<Page>, size: nat, j: nat, k: nat, i: nat, value: nat)
    requires SizeOk(size) && PagesOk(s, size) && Live(s, size, k, i) && j < |s|
    requires Threaded(words, ptr, s[j].base, size, s[j].free)
    ensures Threaded(words[Addr(s[k].base, size, i) := value], ptr, s[j].base, size, s[j].free)
  {
    hide Addr;
    var p := Addr(s[k].base, size, i);
    forall x | x in s[j].free ensures Addr(s[j].base, size, x) != p {
      SlotsDisjoint(s, size, j, x, k, i);
    }
    ThreadedFrame(words, words[p := value], ptr, s[j].base, size, s[j].free);
  }

  /** The word at an address of a memory of octets. */
  function WordAt(octets: map<nat, byte>, a: nat): (w: nat)
    requires a in octets && a + 1 in octets && a + 2 in octets && a + 3 in octets
  {
    Le([octets[a], octets[a + 1], octets[a + 2], octets[a + 3]])
  }

  predicate Holds(octets: map<nat, byte>, a: nat, w: nat)
  {
    a in octets && a + 1 in octets && a + 2 in octets && a + 3 in octets && WordAt(octets, a) == w
  }

  /** The octets in memory hold the links of every free list. */
  ghost predicate LinksStored(octets: map<nat, byte>, words: map<nat, nat>, s: seq<Page>, size: nat)
  {
    forall j: nat, x: nat {:trigger Addr(s[j].base, size, x)} :: j < |s| && x in s[j].free ==>
      Addr(s[j].base, size, x) in words && Holds(octets, Addr(s[j].base, size, x), words[Addr(s[j].base, size, x)])
  }

  /** Whatever octets a caller writes to an object that is out, the links of the free lists stay in memory. */
  lemma ObjectWritesKeep(octets: map<nat, byte>, words: map<nat, nat>, s: seq<Page>, size: nat, k: nat, i: nat,
      a: nat, value: byte)
    requires SizeOk(size) && PagesOk(s, size) && LinksStored(octets, words, s, size) && Live(s, size, k, i)
    requires Addr(s[k].base, size, i) <= a < Addr(s[k].base, size, i) + size
    ensures LinksStored(octets[a := value], words, s, size)
  {
    hide Addr;
    forall j: nat, x: nat | j < |s| && x in s[j].free
      ensures var p := Addr(s[j].base, size, x); p in words && Holds(octets[a := value], p, words[p])
    {
      assert PageOk(s[j], size);
      SlotsDisjoint(s, size, j, x, k, i);
      assert Holds(octets, Addr(s[j].base, size, x), words[Addr(s[j].base, size, x)]);
    }
  }

  /** A new page in front: the free lists of the others lie outside it. */
  lemma AddKeeps(headers: map<nat, SlabHeader>, words: map<nat, nat>, words': map<nat, nat>, list: nat, s: seq<Page>,
      size: nat, page: nat, h: SlabHeader)
    requires SizeOk(size) && PagesOk(s, size) && Listed(headers, list, s) && AllThreaded(headers, words, s, size)
    requires page % PAGE == 0 && page > 0 && forall k :: 0 <= k < |s| ==> s[k].base != page
    requires h.count == PerSlab(size) && h.next == list
    requires Threaded(words', h.freeList, page, size, Range(0, PerSlab(size)))
    requires SameOutside(words, words', page)
    ensures Listed(headers[page := h], page, Grow(s, page, size))
    ensures AllThreaded(headers[page := h], words', Grow(s, page, size), size)
  {
    hide Addr, Threaded;
    var headers', g := headers[page := h], Grow(s, page, size);
    forall j | 0 <= j < |s| ensures Relisted(headers, headers', s[j], s[j])
      && FreeListOk(headers', words', s[j], size) {
      ListedAt(headers, list, s, j);
      assert FreeListOk(headers, words, s[j], size) && PageOk(s[j], size);
      forall x | x in s[j].free
        ensures Addr(s[j].base, size, x) < page || page + PAGE <= Addr(s[j].base, size, x)
      {
        SlotInPage(s[j].base, size, x);
        PagesApart(s[j].base, page);
      }
      ThreadedFrame(words, words', headers[s[j].base].freeList, s[j].base, size, s[j].free);
    }
    ListedAgain(headers, headers', list, s, s);
    assert g[1..] == s && forall j :: 0 < j < |g| ==> g[j] == s[j - 1];
    assert |g[0].free| == PerSlab(size);
  }

  /** Nothing changed outside the page. */
  ghost predicate SameOutside(words: map<nat, nat>, words': map<nat, nat>, page: nat)
  {
    forall a: nat :: a < page || page + PAGE <= a ==>
      (a in words <==> a in words') && (a in words ==> words'[a] == words[a])
  }

  ghost predicate PointOnBelow(words: map<nat, nat>, page: nat, size: nat, i: nat, n: nat)
  {
    forall k :: 0 <= k < i ==> PointsOn(words, page, size, k, n)
  }

  /** Storing the link of slot i. */
  lemma PointNext(words: map<nat, nat>, page: nat, size: nat, i: nat, n: nat, next: nat)
    requires size > 0 && n == PerSlab(size) && i < n
    requires next == if i + 1 < n then page + HEADER + (i + 1) * size else 0
    requires PointOnBelow(words, page, size, i, n)
    ensures var a := page + HEADER + i * size;
      PointOnBelow(words[a := next], page, size, i + 1, n) && SameOutside(words, words[a := next], page)
  {
    var a := page + HEADER + i * size;
    SlotInPage(page, size, i);
    var words' := words[a := next];
    forall k | 0 <= k < i + 1 ensures PointsOn(words', page, size, k, n) {
      if k < i {
        assert PointsOn(words, page, size, k, n);
        SlotApart(page, size, k, i);
      }
    }
  }

  lemma SameOutsideSelf(w: map<nat, nat>, page: nat)
    ensures SameOutside(w, w, page)
  {
  }

  lemma SameOutsideTwice(w: map<nat, nat>, w1: map<nat, nat>, w2: map<nat, nat>, page: nat)
    requires SameOutside(w, w1, page) && SameOutside(w1, w2, page)
    ensures SameOutside(w, w2, page)
  {
  }

  class Cache {
    const size: nat
    var perSlab: nat
    var list: nat
    var headers: map<nat, SlabHeader>
    var words: map<nat, nat>
    ghost var pages: seq<Page>

    ghost predicate Valid()
      reads this
    {
      && SizeOk(size) && PagesOk(pages, size) && Listed(headers, list, pages)
      && AllThreaded(headers, words, pages, size)
    }

    /** slab_criar; page is what pmm_alloc gives out, 0 if it has nothing. */
    constructor (tamanho: nat, page: nat)
      requires tamanho <= SPACE
      requires page < 0x1_0000_0000 && page % PAGE == 0
      ensures Valid()
      ensures tamanho <= size < tamanho + 4 || (tamanho < 8 && size == 8)
      ensures pages == if page == 0 then [] else Grow([], page, size)
    {
      var t := if tamanho < 8 then 8 else tamanho;
      size := t + 3 - (t + 3) % 4;
      perSlab, list, headers, words, pages := 0, 0, map[], map[], [];
      new;
      if page != 0 {
        AddPage(page);
      }
    }

    /** slab_novo of a page: its slots threaded in order; the link to other pages is 0. */
    method NewSlab(page: nat)
      requires SizeOk(size) && 0 < page < 0x1_0000_0000 && page % PAGE == 0
      modifies this`perSlab, this`headers, this`words
      ensures perSlab == PerSlab(size)
      ensures page in headers && headers == old(headers)[page := headers[page]]
      ensures headers[page].count == PerSlab(size) && headers[page].next == 0
      ensures Threaded(words, headers[page].freeList, page, size, Range(0, PerSlab(size)))
      ensures SameOutside(old(words), words, page)
    {
      hide Addr, SameOutside;
      perSlab := SPACE / size;
      var base := page + HEADER;
      headers := headers[page := SlabHeader(perSlab, base, 0)];
      ThreadSlots(page, base, perSlab);
      AddrZero(page, size);
      RangeThreaded(words, page, size, 0, perSlab);
    }

    /** The loop of slab_novo: each slot points at the next, the last at nothing. */
    method ThreadSlots(page: nat, base: nat, per: nat)
      requires SizeOk(size) && base == page + HEADER && per == PerSlab(size)
      modifies this`words
      ensures SameOutside(old(words), words, page)
      ensures per > 0 && forall k :: 0 <= k < per ==> PointsOn(words, page, size, k, per)
    {
      hide SameOutside, PointsOn;
      DivAtLeastOne(size);
      SameOutsideSelf(words, page);
      var i: nat := 0;
      while i < per - 1
        invariant 0 <= i <= per - 1 && PointOnBelow(words, page, size, i, per)
        invariant SameOutside(old(words), words, page)
      {
        ghost var w := words;
        PointNext(words, page, size, i, per, base + (i + 1) * size);
        words := words[base + i * size := base + (i + 1) * size];
        SameOutsideTwice(old(words), w, words, page);
        i := i + 1;
      }
      ghost var w := words;
      PointNext(words, page, size, i, per, 0);
      words := words[base + (per - 1) * size := 0];
      SameOutsideTwice(old(words), w, words, page);
    }

    /** slab_alloc: a slot of the first page that has one, else of a new page in front; page is what
        pmm_alloc gives out, 0 if it has nothing. */
    method Alloc(page: nat) returns (p: nat)
      requires Valid() && page < 0x1_0000_0000 && page % PAGE == 0
      requires forall k :: 0 <= k < |pages| ==> pages[k].base != page
      modifies this
      ensures Valid()
      ensures var s, k := old(pages), WithSpace(old(pages), 0);
        if k < |s| then p == Addr(s[k].base, size, s[k].free[0]) && pages == Take(s, k)
        else if page == 0 then p == 0 && pages == s
        else p == Addr(page, size, 0) && pages == Take(Grow(s, page, size), 0)
    {
      hide Listed, AllThreaded, PagesOk, Addr;
      var slab, k := FindSpace();
      if slab == 0 {
        if page == 0 { return 0; }
        AddPage(page);
        slab, k := page, 0;
      }
      p := Pop(slab, k);
    }

    /** The loop of slab_alloc: the first page with a free slot, 0 if there is none. */
    method FindSpace() returns (slab: nat, ghost k: nat)
      requires Valid()
      ensures k == WithSpace(pages, 0)
      ensures if k < |pages| then slab == pages[k].base != 0 else slab == 0
    {
      hide AllThreaded;
      slab, k := list, 0;
      assert pages[0..] == pages;
      while slab != 0 && headers[slab].count == 0
        invariant 0 <= k <= |pages| && Listed(headers, slab, pages[k..])
        invariant WithSpace(pages, 0) == WithSpace(pages, k)
        invariant slab != 0 ==> slab in headers
        decreases |pages| - k
      {
        assert k < |pages|;
        ListedAt(headers, list, pages, k);
        slab := headers[slab].next;
        k := k + 1;
      }
      if k < |pages| { assert PageOk(pages[k], size); }
    }

    /** A new page in front of the list. */
    method AddPage(page: nat)
      requires Valid() && 0 < page < 0x1_0000_0000 && page % PAGE == 0
      requires forall k :: 0 <= k < |pages| ==> pages[k].base != page
      modifies this
      ensures Valid() && pages == Grow(old(pages), page, size) && list == page
      ensures pages[0].base == page && pages[0].free != []
    {
      hide Listed, AllThreaded, PagesOk, Threaded, SameOutside;
      ghost var s := pages;
      NewSlab(page);
      AddKeeps(old(headers), old(words), words, list, s, size, page, headers[page].(next := list));
      headers := headers[page := headers[page].(next := list)];
      list := page;
      GrowKeeps(s, size, page);
      pages := Grow(s, page, size);
      assert headers == old(headers)[page := headers[page]];
      assert |Range(0, PerSlab(size))| == PerSlab(size);
    }

    /** The first slot off the free list of page k. */
    method Pop(slab: nat, ghost k: nat) returns (p: nat)
      requires Valid() && k < |pages| && slab == pages[k].base && pages[k].free != []
      modifies this`headers, this`words, this`pages
      ensures Valid() && pages == Take(old(pages), k)
      ensures p == Addr(slab, size, old(pages)[k].free[0])
    {
      hide Listed, AllThreaded, PagesOk, Addr;
      PopKeeps(headers, words, list, pages, size, k);
      TakeKeeps(pages, size, k);
      p := headers[slab].freeList;
      var h := headers[slab].(freeList := words[p]);
      headers := headers[slab := h.(count := h.count - 1)];
      pages := Take(pages, k);
    }

    /** slab_free of slot i of page k, which is out. */
    method Free(p: nat, ghost k: nat, ghost i: nat)
      requires Valid() && Live(pages, size, k, i) && p == Addr(pages[k].base, size, i)
      modifies this`headers, this`words, this`pages
      ensures Valid() && pages == Give(old(pages), k, i)
    {
      hide Listed, AllThreaded, Addr;
      var slab := And32(p, Not32(0xFFF));
      assert PageOk(pages[k], size);
      MaskFindsPage(pages[k].base, size, i);
      PushKeeps(headers, words, list, pages, size, k, i);
      GiveKeeps(pages, size, k, i);
      words := words[p := headers[slab].freeList];
      var h := headers[slab].(freeList := p);
      headers := headers[slab := h.(count := h.count + 1)];
      pages := Give(pages, k, i);
    }
  }

  /** ---- Runs ---- */

  /** A slot by the base of its page and its index. */
  datatype Slot = Slot(base: nat, i: nat)

  /** The pages of a cache, and the slots handed out and not yet returned. */
  datatype State = State(pages: seq<Page>, out: set<Slot>)

  /** Get is slab_alloc when pmm_alloc would give out page; Put is slab_free. */
  datatype Op = Get(page: nat) | Put(slot: Slot)

  ghost predicate HasPage(s: seq<Page>, base: nat)
  {
    exists k :: 0 <= k < |s| && s[k].base == base
  }

  ghost predicate Sound(st: State, size: nat)
    requires SizeOk(size)
  {
    && PagesOk(st.pages, size)
    && (forall o :: o in st.out ==> HasPage(st.pages, o.base))
    && forall k: nat, i: nat :: k < |st.pages| && i < PerSlab(size) ==>
        (Slot(st.pages[k].base, i) in st.out <==> Live(st.pages, size, k, i))
  }

  function PageOf(s: seq<Page>, base: nat, k: nat): (r: nat)
    requires k <= |s|
    ensures k <= r <= |s| && (r < |s| ==> s[r].base == base)
    ensures forall j :: k <= j < r ==> s[j].base != base
    decreases |s| - k
  {
    if k == |s| || s[k].base == base then k else PageOf(s, base, k + 1)
  }

  /** One call; pmm_alloc gives fresh aligned pages and only slots that are out are returned. */
  function Do(st: State, size: nat, op: Op): (r: State)
    requires size > 0
  {
    match op
    case Get(page) =>
      var k := WithSpace(st.pages, 0);
      if k < |st.pages| then State(Take(st.pages, k), st.out + {Slot(st.pages[k].base, st.pages[k].free[0])})
      else if page == 0 || page % PAGE != 0 || page >= 0x1_0000_0000 || PageOf(st.pages, page, 0) < |st.pages| then st
      else if PerSlab(size) == 0 then st
      else State(Take(Grow(st.pages, page, size), 0), st.out + {Slot(page, 0)})
    case Put(slot) =>
      var k := PageOf(st.pages, slot.base, 0);
      if k == |st.pages| || !Live(st.pages, size, k, slot.i) then st
      else State(Give(st.pages, k, slot.i), st.out - {slot})
  }

  lemma GetKeeps(st: State, size: nat, page: nat)
    requires SizeOk(size) && Sound(st, size)
    ensures Sound(Do(st, size, Get(page)), size)
    ensures |Do(st, size, Get(page)).out| == |st.out| + if Do(st, size, Get(page)) == st then 0 else 1
  {
    hide Addr, PerSlab, Sound, PagesOk;
    var k := WithSpace(st.pages, 0);
    if k < |st.pages| {
      TakeSound(st, size, k);
    } else if Do(st, size, Get(page)) != st {
      GrowSound(st, size, page);
      TakeSound(State(Grow(st.pages, page, size), st.out), size, 0);
    }
  }

  /** The slot taken was not out. */
  lemma TakeSound(st: State, size: nat, k: nat)
    requires SizeOk(size) && Sound(st, size) && k < |st.pages| && st.pages[k].free != []
    ensures var o := Slot(st.pages[k].base, st.pages[k].free[0]);
      o !in st.out && Sound(State(Take(st.pages, k), st.out + {o}), size)
  {
    hide Addr, PerSlab;
    var s, s' := st.pages, Take(st.pages, k);
    TakeKeeps(s, size, k);
    assert PageOk(s[k], size);
    var o := Slot(s[k].base, s[k].free[0]);
    assert o !in st.out;
    forall x | x in st.out + {o} ensures HasPage(s', x.base) {
      var j :| 0 <= j < |s| && s[j].base == x.base;
      assert s'[j].base == x.base;
    }
    forall j: nat, i: nat | j < |s'| && i < PerSlab(size)
      ensures Slot(s'[j].base, i) in st.out + {o} <==> Live(s', size, j, i)
    {
      if j != k { DistinctBases(s, size, j, k); }
      assert Slot(s[j].base, i) in st.out <==> Live(s, size, j, i);
    }
  }

  lemma GrowSound(st: State, size: nat, page: nat)
    requires SizeOk(size) && Sound(st, size)
    requires 0 < page < 0x1_0000_0000 && page % PAGE == 0 && PageOf(st.pages, page, 0) == |st.pages|
    ensures Sound(State(Grow(st.pages, page, size), st.out), size) && Grow(st.pages, page, size)[0].free != []
    ensures Slot(page, 0) !in st.out
    ensures Grow(st.pages, page, size)[0].free[0] == 0
  {
    hide Addr, PerSlab;
    var s, g := st.pages, Grow(st.pages, page, size);
    GrowKeeps(s, size, page);
    RangeIsAll(PerSlab(size));
    assert forall j :: 0 < j < |g| ==> g[j] == s[j - 1];
    forall x | x in st.out ensures HasPage(g, x.base) && x.base != page {
      var j :| 0 <= j < |s| && s[j].base == x.base;
      assert g[j + 1].base == x.base;
    }
    forall j: nat, i: nat | j < |g| && i < PerSlab(size) ensures Slot(g[j].base, i) in st.out <==> Live(g, size, j, i) {
      if j > 0 { assert Slot(s[j - 1].base, i) in st.out <==> Live(s, size, j - 1, i); }
    }
  }

  lemma PutKeeps(st: State, size: nat, slot: Slot)
    requires SizeOk(size) && Sound(st, size)
    ensures Sound(Do(st, size, Put(slot)), size)
    ensures slot !in Do(st, size, Put(slot)).out || slot.i >= PerSlab(size)
  {
    hide Addr, PerSlab;
    var s, k := st.pages, PageOf(st.pages, slot.base, 0);
    if k < |s| && Live(s, size, k, slot.i) {
      GiveKeeps(s, size, k, slot.i);
      var s' := Give(s, k, slot.i);
      forall x | x in st.out - {slot} ensures HasPage(s', x.base) {
        var j :| 0 <= j < |s| && s[j].base == x.base;
        assert s'[j].base == x.base;
      }
      forall j: nat, i: nat | j < |s'| && i < PerSlab(size)
        ensures Slot(s'[j].base, i) in st.out - {slot} <==> Live(s', size, j, i)
      {
        if j != k { DistinctBases(s, size, j, k); }
        assert Slot(s[j].base, i) in st.out <==> Live(s, size, j, i);
      }
    } else if slot.i < PerSlab(size) {
      assert k < |s| ==> (Slot(s[k].base, slot.i) in st.out <==> Live(s, size, k, slot.i));
    }
  }

  function Run(st: State, size: nat, ops: seq<Op>): (r: State)
    requires size > 0
    decreases |ops|
  {
    if ops == [] then st else Run(Do(st, size, ops[0]), size, ops[1..])
  }

  /** In every interleaving of allocations and frees the slots out are exactly those on no free list, so
      no object is handed out twice; the free lists never hold a slot twice. */
  lemma {:induction false} RunKeepsSound(st: State, size: nat, ops: seq<Op>)
    requires SizeOk(size) && Sound(st, size)
    ensures Sound(Run(st, size, ops), size)
    decreases |ops|
  {
    hide Sound, Do;
    if ops != [] {
      match ops[0] {
        case Get(page) => GetKeeps(st, size, page);
        case Put(slot) => PutKeeps(st, size, slot);
      }
      RunKeepsSound(Do(st, size, ops[0]), size, ops[1..]);
    }
  }
}
