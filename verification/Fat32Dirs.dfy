/** The directory operations of the FAT32 driver on its drive (kernel/fs/fat32.c:239-278, 375-499), each
    refining the directories of FatDirs over the chain the directory occupies. */
module Fat32Dirs {
  import opened Wrappers
  import opened Bytes
  import opened Disk
  import opened FatChains
  import opened FatFiles
  import opened FatDirScan
  import opened Fat32
  import D = FatDirs

  /** What a verdict reached at slot at says of the whole scan. */
  function Verdicted(v: Verdict, at: nat): (o: Outcome)
  {
    match v
    case Take => Taken(at)
    case Stop => Stopped
    case Pass => Passed
  }

  function SlotAt(sec: Sector, i: nat): (s: D.Slot)
    requires i < 16
  {
    sec[32 * i..32 * i + 32]
  }

  lemma VerdictedPass(at: nat)
    ensures Verdicted(Pass, at) == Passed
  {
  }

  lemma ScanNothing(q: Query)
    requires q.Named? ==> |q.name| == 11
    ensures Scan(q, []) == Passed
  {
  }

  lemma SlotIs(sec: Sector, i: nat)
    requires i < 16
    ensures SectorSlots(sec)[i] == SlotAt(sec, i)
  {
  }

  lemma PlaceBounds(data: seq<seq<Sector>>, l: seq<nat>, at: nat, p: nat, s: nat, i: nat)
    requires Place(data, l, at, p, s, i)
    ensures p < |l| && l[p] < |data| && s < |data[l[p]]| && i < 16
  {
  }

  method ScanSector(sec: Sector, q: Query) returns (v: Verdict, i: nat)
    requires q.Named? ==> |q.name| == 11
    ensures Scan(q, SectorSlots(sec)) == Verdicted(v, i) && (v == Take ==> i < 16)
  {
    hide Judge;
    ghost var d := SectorSlots(sec);
    i := 0;
    v := Pass;
    while i < 16
      invariant 0 <= i <= 16 && v == Pass
      invariant Scan(q, d) == Shift(Scan(q, d[i..]), i)
    {
      assert d[i..][0] == SlotAt(sec, i) && d[i..][1..] == d[i + 1..];
      v := Judge(q, SlotAt(sec, i));
      if v != Pass {
        return;
      }
      i := i + 1;
    }
    assert d[i..] == [];
  }

  method ScanCluster(dr: Driver, cluster: nat, q: Query) returns (v: Verdict, s: nat, i: nat, sec: Sector)
    requires q.Named? ==> |q.name| == 11
    requires dr.Valid() && 2 <= cluster < dr.g.total + 2
    ensures Scan(q, ClusterSlots(dr.View().data[cluster])) == Verdicted(v, 16 * s + i)
    ensures v == Take ==> s < |dr.View().data[cluster]| && i < 16 && sec == dr.View().data[cluster][s]
  {
    hide Judge, SectorSlots, Scan, ViewOf;
    ghost var sectors := dr.View().data[cluster];
    assert |sectors| == dr.g.spc;
    s, i := 0, 0;
    sec := Zeros(512);
    v := Pass;
    while s < dr.g.spc
      invariant 0 <= s <= dr.g.spc && v == Pass
      invariant Scan(q, ClusterSlots(sectors)) == Shift(Scan(q, ClusterSlots(sectors[s..])), 16 * s)
    {
      sec := dr.LoadSector(cluster, s);
      ClusterSlotsFrom(sectors, s);
      ScanConcat(q, SectorSlots(sec), ClusterSlots(sectors[s + 1..]));
      v, i := ScanSector(sec, q);
      if v != Pass {
        return;
      }
      s := s + 1;
    }
    assert sectors[s..] == [];
    ScanNothing(q);
  }

  /** The clusters before the p-th hold nothing that ends the scan. */
  ghost predicate Sofar(q: Query, data: seq<seq<Sector>>, l: seq<nat>, p: nat)
    requires q.Named? ==> |q.name| == 11
  {
    && p <= |l| && Within(l, |data|)
    && Scan(q, DirSlots(data, l)) == Shift(Scan(q, DirSlots(data, l[p..])), |DirSlots(data, l[..p])|)
  }

  lemma SofarStart(q: Query, data: seq<seq<Sector>>, l: seq<nat>)
    requires (q.Named? ==> |q.name| == 11) && Within(l, |data|)
    ensures Sofar(q, data, l, 0)
  {
    assert l[0..] == l;
  }

  lemma SofarStep(q: Query, data: seq<seq<Sector>>, l: seq<nat>, p: nat, v: Verdict, s: nat, i: nat)
    requires (q.Named? ==> |q.name| == 11) && Sofar(q, data, l, p) && p < |l|
    requires Scan(q, ClusterSlots(data[l[p]])) == Verdicted(v, 16 * s + i)
    requires v == Take ==> s < |data[l[p]]| && i < 16
    ensures v == Pass ==> Sofar(q, data, l, p + 1)
    ensures v != Pass ==> Scan(q, DirSlots(data, l)) == Verdicted(v, |DirSlots(data, l[..p])| + 16 * s + i)
    ensures v == Take ==> Place(data, l, |DirSlots(data, l[..p])| + 16 * s + i, p, s, i)
  {
    hide ClusterSlots, DirSlots, Scan;
    DirStep(data, l, p);
    ScanConcat(q, ClusterSlots(data[l[p]]), DirSlots(data, l[p + 1..]));
  }

  lemma SofarEnd(q: Query, data: seq<seq<Sector>>, l: seq<nat>, p: nat)
    requires (q.Named? ==> |q.name| == 11) && Sofar(q, data, l, p) && l[p..] == []
    ensures Scan(q, DirSlots(data, l)) == Passed
  {
  }

  method ScanDir(dr: Driver, dir: nat, q: Query, ghost l: seq<nat>)
    returns (v: Verdict, cluster: nat, s: nat, i: nat, sec: Sector, ghost p: nat, ghost at: nat)
    requires q.Named? ==> |q.name| == 11
    requires dr.Valid() && Chain(dr.View().fat, dir, l)
    ensures Scan(q, DirSlots(dr.View().data, l)) == Verdicted(v, at)
    ensures v == Take ==> Place(dr.View().data, l, at, p, s, i) && cluster == l[p] && sec == dr.View().data[l[p]][s]
    ensures v == Take ==> 2 <= cluster < dr.g.total + 2
  {
    hide Sofar, ClusterSlots, DirSlots, Scan, ViewOf, Chain, Shaped, Within, Verdicted, Judge;
    ghost var fat, data := dr.View().fat, dr.View().data;
    cluster, s, i, p, at := dir, 0, 0, 0, 0;
    sec := Zeros(512);
    v := Pass;
    assert l[0..] == l;
    ChainWithin(fat, dir, l);
    SofarStart(q, data, l);
    while cluster < EOF
      invariant 0 <= p <= |l| && Chain(fat, cluster, l[p..]) && Sofar(q, data, l, p)
      decreases |l| - p
    {
      ChainHead(fat, cluster, l[p..]);
      assert l[p..][1..] == l[p + 1..];
      v, s, i, sec := ScanCluster(dr, cluster, q);
      SofarStep(q, data, l, p, v, s, i);
      if v != Pass {
        at := |DirSlots(data, l[..p])| + 16 * s + i;
        return;
      }
      p := p + 1;
      cluster := dr.ReadFat(cluster);
    }
    ChainEmpty(fat, cluster, l[p..]);
    SofarEnd(q, data, l, p);
    v := Pass;
    VerdictedPass(at);
  }

  lemma ChainWithin(fat: seq<nat>, c: nat, l: seq<nat>)
    requires Chain(fat, c, l)
    ensures Within(l, |fat|)
  {
    forall k | 0 <= k < |l| ensures l[k] < |fat| { ChainSuffix(fat, c, l, k); }
  }

  lemma DirStep(data: seq<seq<Sector>>, l: seq<nat>, p: nat)
    requires p < |l| && Within(l, |data|)
    ensures l[p..][0] == l[p] && l[p..][1..] == l[p + 1..]
    ensures DirSlots(data, l[p..]) == ClusterSlots(data[l[p]]) + DirSlots(data, l[p + 1..])
    ensures |DirSlots(data, l[..p + 1])| == |DirSlots(data, l[..p])| + |ClusterSlots(data[l[p]])|
  {
    hide ClusterSlots;
    assert l[p..][1..] == l[p + 1..];
    var m := l[..p + 1];
    DirSlotsAt(data, m, p);
    assert m[..p] == l[..p] && m[p + 1..] == [];
  }

  /** fat32_find. */
  method Find(dr: Driver, dir: nat, name: seq<byte>, ghost l: seq<nat>) returns (r: Option<D.Entry>)
    requires |name| == 11 && dr.Valid() && Chain(dr.View().fat, dir, l)
    ensures r == D.Find(DirSlots(dr.View().data, l), name)
  {
    hide Judge, DirSlots, Scan, ViewOf, Chain, SectorSlots, Place;
    ghost var d := DirSlots(dr.View().data, l);
    assert d[0..] == d;
    ScanIsSearch(d, name, false, 0);
    var v, cluster, s, i, sec, p, at := ScanDir(dr, dir, Named(name, false), l);
    if v == Take {
      PlaceSlot(dr.View().data, l, at, p, s, i);
      PlaceBounds(dr.View().data, l, at, p, s, i);
      SlotIs(sec, i);
      var slot := SlotAt(sec, i);
      r := Some(D.Entry(D.IsDir(slot), D.ClusterOf(slot), D.SizeOf(slot)));
    } else {
      r := None;
    }
  }

  /** What a deletion leaves: the entry marked, its chain freed, everything outside the directory's own
      clusters as it was. */
  ghost predicate Deleted(v: Vol, v': Vol, l: seq<nat>, name: seq<byte>, ret: int)
    requires |name| == 11 && InRange(v.fat)
  {
    var slots := DirSlots(v.data, l);
    var at := D.Search(slots, name, true, 0);
    if at == |slots| then ret == -1 && v' == v
    else
      && ret == 0 && InTable(v.fat, D.ClusterOf(slots[at]))
      && v'.fat == FreeFrom(v.fat, D.ClusterOf(slots[at]))
      && DirSlots(v'.data, l) == D.Drop(slots, name)
      && |v'.data| == |v.data| && forall x :: 0 <= x < |v.data| && x !in l ==> v'.data[x] == v.data[x]
  }

  predicate InTable(fat: seq<nat>, c: nat) { c < |fat| || c >= EOF }

  /** The first clusters of the entries of a directory lie in the table. */
  ghost predicate EntriesInTable(v: Vol, l: seq<nat>)
  {
    forall k :: 0 <= k < |DirSlots(v.data, l)| && D.IsEntry(DirSlots(v.data, l)[k]) ==>
        InTable(v.fat, D.ClusterOf(DirSlots(v.data, l)[k]))
  }

  lemma StoredInDir(v: Vol, v': Vol, head: nat, l: seq<nat>, at: nat, p: nat, s: nat, i: nat, sec: Sector, slot: D.Slot)
    requires Place(v.data, l, at, p, s, i) && Chain(v.fat, head, l) && |v.data| == |v.fat|
    requires sec == PutSlot(v.data[l[p]][s], i, slot) && v' == SetSector(v, l[p], s, sec)
    ensures at < |DirSlots(v.data, l)| && DirSlots(v'.data, l) == DirSlots(v.data, l)[at := slot]
    ensures |v'.data| == |v.data| && forall x :: 0 <= x < |v.data| && x !in l ==> v'.data[x] == v.data[x]
  {
    hide DirSlots, Chain, PutSlot;
    forall j, k | 0 <= j < k < |l| ensures l[j] != l[k] { ChainAcyclic(v.fat, head, l, j, k); }
    PlaceStored(v.data, v'.data, l, at, p, s, i, slot);
  }

  /** The loop of fat32_delete that frees a chain. */
  method FreeClusters(dr: Driver, first: nat)
    requires dr.Valid() && InRange(dr.View().fat) && InTable(dr.View().fat, first)
    modifies dr.drive
    ensures dr.Valid() && dr.View() == old(dr.View()).(fat := FreeFrom(old(dr.View()).fat, first))
  {
    hide ViewOf, Shaped, FreeSet;
    ghost var v0 := dr.View();
    var c: nat := first;
    FreeBound(v0.fat);
    while c >= 2 && c < EOF
      invariant dr.Valid() && InRange(dr.View().fat) && InTable(dr.View().fat, c)
      invariant dr.View() == v0.(fat := dr.View().fat) && |FreeSet(dr.View().fat)| <= |dr.View().fat|
      invariant FreeFrom(v0.fat, first) == FreeFrom(dr.View().fat, c)
      decreases dr.g.total + 2 - |FreeSet(dr.View().fat)|, c
    {
      ghost var fat := dr.View().fat;
      FreeOneMore(fat, c);
      FreeBound(fat[c := 0]);
      var next := dr.ReadFat(c);
      dr.WriteFatEntry(c, 0);
      assert dr.View().fat == fat[c := 0];
      assert fat[c] == 0 ==> fat[c := 0] == fat;
      c := next;
    }
  }

  /** fat32_delete. */
  method Delete(dr: Driver, parent: nat, name: seq<byte>, ghost l: seq<nat>) returns (ret: int)
    requires |name| == 11 && dr.Valid() && Chain(dr.View().fat, parent, l)
    requires InRange(dr.View().fat) && EntriesInTable(dr.View(), l)
    modifies dr.drive
    ensures dr.Valid() && Deleted(old(dr.View()), dr.View(), l, name, ret)
  {
    hide Judge, DirSlots, Scan, ViewOf, Shaped, Chain, SectorSlots, Place, FreeFrom, SetSector, PutSlot, InRange;
    ghost var v0, d := dr.View(), DirSlots(dr.View().data, l);
    assert d[0..] == d;
    ScanIsSearch(d, name, true, 0);
    var v, cluster, s, i, sec, p, at := ScanDir(dr, parent, Named(name, true), l);
    if v == Take {
      PlaceSlot(v0.data, l, at, p, s, i);
      PlaceBounds(v0.data, l, at, p, s, i);
      ClusterSize(v0, cluster);
      SlotIs(sec, i);
      var slot := SlotAt(sec, i);
      var fc := D.ClusterOf(slot);
      assert InTable(v0.fat, fc) by { assert D.IsEntry(d[at]); }
      var marked: Sector := sec[32 * i := D.DELETED];
      MarkIsPut(sec, i);
      dr.StoreSector(cluster, s, marked);
      StoredInDir(v0, dr.View(), parent, l, at, p, s, i, marked, slot[0 := D.DELETED]);
      SetSectorKeeps(v0, cluster, s, marked);
      FreeClusters(dr, fc);
      ret := 0;
    } else {
      ret := -1;
    }
  }

  lemma MarkIsPut(sec: Sector, i: nat)
    requires i < 16
    ensures sec[32 * i := D.DELETED] == PutSlot(sec, i, SlotAt(sec, i)[0 := D.DELETED])
  {
  }

  /** The entries "." and "..". */
  function DotName(dots: nat): (n: seq<byte>)
    requires dots <= 11
    ensures |n| == 11
  {
    seq(11, i => if i < dots then 0x2E else 0x20)
  }

  function DotSector(self: nat, parent: nat): (s: Sector)
  {
    D.NewSlot(DotName(1), 0x10, self) + D.NewSlot(DotName(2), 0x10, parent) + Zeros(448)
  }

  function BlankCluster(spc: nat): (c: seq<Sector>)
    ensures |c| == spc
  {
    seq<Sector>(spc, _ => Zeros(512))
  }

  /** The first cluster of a new entry: zeros, and for a directory the two dot entries. */
  function NewCluster(spc: nat, attr: byte, self: nat, parent: nat): (c: seq<Sector>)
    requires spc > 0
    ensures |c| == spc
  {
    if (attr / 16) % 2 == 1 then BlankCluster(spc)[0 := DotSector(self, parent)] else BlankCluster(spc)
  }

  /** What a creation leaves: the lowest free cluster claimed and initialised, the entry in the first
      vacant slot. A full directory keeps the cluster claimed and reports failure. */
  ghost predicate Created(v: Vol, v': Vol, l: seq<nat>, parent: nat, name: seq<byte>, attr: byte, ret: nat)
    requires |name| == 11 && v.spc > 0 && |v.data| == |v.fat| >= 2
  {
    var n := FirstFree(v.fat, 2);
    var slots := DirSlots(v.data, l);
    if n == |v.fat| then ret == 0 && v' == v
    else
      && v'.spc == v.spc && v'.fat == v.fat[n := LAST]
      && |v'.data| == |v.data| && v'.data[n] == NewCluster(v.spc, attr, n, parent)
      && (forall x :: 0 <= x < |v.data| && x != n && x !in l ==> v'.data[x] == v.data[x])
      && DirSlots(v'.data, l) == D.Add(slots, name, attr, n)
      && ret == if D.FirstVacant(slots, 0) < |slots| then n else 0
  }

  lemma CreatedNone(v: Vol, l: seq<nat>, parent: nat, name: seq<byte>, attr: byte)
    requires |name| == 11 && v.spc > 0 && |v.data| == |v.fat| >= 2 && FirstFree(v.fat, 2) == |v.fat|
    ensures Created(v, v, l, parent, name, attr, 0)
  {
  }

  lemma CreatedOne(v: Vol, v': Vol, l: seq<nat>, parent: nat, name: seq<byte>, attr: byte, ret: nat)
    requires |name| == 11 && v.spc > 0 && |v.data| == |v.fat| >= 2 && FirstFree(v.fat, 2) < |v.fat|
    requires var n := FirstFree(v.fat, 2);
      && v'.spc == v.spc && v'.fat == v.fat[n := LAST]
      && |v'.data| == |v.data| && v'.data[n] == NewCluster(v.spc, attr, n, parent)
      && (forall x :: 0 <= x < |v.data| && x != n && x !in l ==> v'.data[x] == v.data[x])
      && DirSlots(v'.data, l) == D.Add(DirSlots(v.data, l), name, attr, n)
      && ret == if D.FirstVacant(DirSlots(v.data, l), 0) < |DirSlots(v.data, l)| then n else 0
    ensures Created(v, v', l, parent, name, attr, ret)
  {
  }

  /** A created entry is the one found, with the cluster reported, exactly when its name was not found in front
      of it; otherwise the name leads where it led. */
  lemma CreatedIsFound(v: Vol, v': Vol, l: seq<nat>, parent: nat, name: seq<byte>, attr: byte, ret: nat)
    requires D.Storable(name, attr) && Shaped(v) && Created(v, v', l, parent, name, attr, ret) && ret != 0
    ensures var d := DirSlots(v.data, l);
      D.Find(DirSlots(v'.data, l), name) ==
      if D.FirstVacant(d, 0) <= D.Search(d, name, false, 0) then Some(D.Entry((attr / 16) % 2 == 1, ret, 0))
      else D.Find(d, name)
  {
    hide DirSlots;
    D.AddThenFind(DirSlots(v.data, l), name, attr, ret);
  }

  /** What can be found in the first cluster of a new entry: in that of a directory "." leads to itself and ".." to
      its parent, every other name nowhere; in that of a file nothing. */
  lemma NewClusterFinds(v: Vol, v': Vol, l: seq<nat>, parent: nat, name: seq<byte>, attr: byte, ret: nat,
        other: seq<byte>)
    requires |name| == 11 && Shaped(v) && Chain(v.fat, parent, l) && Created(v, v', l, parent, name, attr, ret)
    requires ret != 0 && |other| == 11
    ensures ret < |v'.data|
    ensures D.Find(ClusterSlots(v'.data[ret]), other) ==
            if (attr / 16) % 2 == 0 then None
            else if other == [0x2E, 0x20, 0x20, 0x20, 0x20, 0x20, 0x20, 0x20, 0x20, 0x20, 0x20] then
              Some(D.Entry(true, ret, 0))
            else if other == [0x2E, 0x2E, 0x20, 0x20, 0x20, 0x20, 0x20, 0x20, 0x20, 0x20, 0x20] then
              Some(D.Entry(true, parent, 0))
            else None
  {
    ParentInTable(v, v', l, parent, name, attr, ret);
    hide DirSlots, SectorSlots, D.Add, D.Find, DotSector, ClusterSlots;
    var sectors := v'.data[ret];
    FirstSector(sectors);
    if (attr / 16) % 2 == 1 {
      DotNames();
      DotSectorFinds(ClusterSlots(sectors), ret, parent, other);
    } else {
      BlankFinds(ClusterSlots(sectors), other);
    }
  }

  lemma ParentInTable(v: Vol, v': Vol, l: seq<nat>, parent: nat, name: seq<byte>, attr: byte, ret: nat)
    requires |name| == 11 && Shaped(v) && Chain(v.fat, parent, l) && Created(v, v', l, parent, name, attr, ret)
    requires ret != 0
    ensures parent < |v.fat|
  {
    assert DirSlots(v.data, []) == [];
  }

  /** A directory's slots begin with those of its first sector. */
  lemma FirstSector(sectors: seq<Sector>)
    requires sectors != []
    ensures |ClusterSlots(sectors)| >= 16 && ClusterSlots(sectors)[..16] == SectorSlots(sectors[0])
  {
    hide SectorSlots;
  }

  lemma BlankFinds(d: seq<D.Slot>, other: seq<byte>)
    requires |d| >= 16 && d[..16] == SectorSlots(Zeros(512)) && |other| == 11
    ensures D.Find(d, other) == None
  {
    assert d[0] == d[..16][0];
  }

  lemma DotSectorFinds(d: seq<D.Slot>, self: nat, parent: nat, other: seq<byte>)
    requires |d| >= 16 && d[..16] == SectorSlots(DotSector(self, parent)) && |other| == 11
    requires self < 0x1_0000_0000 && parent < 0x1_0000_0000
    ensures D.Find(d, other) ==
            if other == DotName(1) then Some(D.Entry(true, self, 0))
            else if other == DotName(2) then Some(D.Entry(true, parent, 0)) else None
  {
    hide *;
    DotSlots(d, self, parent);
    DotHits(self, 1, other);
    DotHits(parent, 2, other);
    DotNames();
    if other == DotName(1) {
      D.FoundAt(d, other, 0);
    } else if other == DotName(2) {
      D.FoundAt(d, other, 1);
    } else {
      D.FoundNone(d, other, 2);
    }
  }

  lemma DotNames()
    ensures DotName(1) == [0x2E, 0x20, 0x20, 0x20, 0x20, 0x20, 0x20, 0x20, 0x20, 0x20, 0x20]
    ensures DotName(2) == [0x2E, 0x2E, 0x20, 0x20, 0x20, 0x20, 0x20, 0x20, 0x20, 0x20, 0x20]
    ensures DotName(1) != DotName(2)
  {
    assert DotName(1)[1] != DotName(2)[1];
  }

  lemma DotSlots(d: seq<D.Slot>, self: nat, parent: nat)
    requires |d| >= 16 && d[..16] == SectorSlots(DotSector(self, parent))
    ensures d[0] == D.NewSlot(DotName(1), 0x10, self) && d[1] == D.NewSlot(DotName(2), 0x10, parent) && D.Ends(d[2])
  {
    hide D.NewSlot, DotName;
    assert d[0] == d[..16][0] && d[1] == d[..16][1] && d[2] == d[..16][2];
    var s := DotSector(self, parent);
    assert s[0..32] == D.NewSlot(DotName(1), 0x10, self) && s[32..64] == D.NewSlot(DotName(2), 0x10, parent);
  }

  lemma DotHits(cluster: nat, dots: nat, other: seq<byte>)
    requires 1 <= dots <= 2 && |other| == 11
    ensures var s := D.NewSlot(DotName(dots), 0x10, cluster);
      !D.Ends(s) && (D.Hits(s, other, false) <==> other == DotName(dots)) && D.IsDir(s)
  {
    var s := D.NewSlot(DotName(dots), 0x10, cluster);
    UntilIs(DotName(dots), 0, 11);
    assert s[0] == D.NameOf(s)[0];
  }

  /** Claims a cluster and writes what a new entry starts with. */
  method PrepareCluster(dr: Driver, parent: nat, attr: byte) returns (c: nat)
    requires dr.Valid()
    modifies dr.drive
    ensures dr.Valid()
    ensures var v, n := old(dr.View()), FirstFree(old(dr.View()).fat, 2);
      if n == |v.fat| then c == 0 && dr.View() == v
      else
        && c == n && 2 <= n < dr.g.total + 2
        && dr.View() == SetCluster(v.(fat := v.fat[n := LAST]), n, NewCluster(v.spc, attr, n, parent))
  {
    hide ViewOf, Shaped, FirstFree, DotSector;
    c := dr.AllocCluster();
    if c == 0 { return; }
    ghost var v := dr.View();
    ghost var sectors: seq<Sector> := v.data[c];
    ClusterSize(v, c);
    assert SetCluster(v, c, sectors) == v;
    var s := 0;
    while s < dr.g.spc
      invariant 0 <= s <= dr.g.spc == |sectors| && dr.Valid()
      invariant dr.View() == SetCluster(v, c, sectors)
      invariant forall k :: 0 <= k < s ==> sectors[k] == Zeros(512)
    {
      dr.StoreSector(c, s, Zeros(512));
      SectorOfCluster(v, c, sectors, s, Zeros(512));
      sectors := sectors[s := Zeros(512)];
      s := s + 1;
    }
    assert sectors == BlankCluster(dr.g.spc);
    if (attr / 16) % 2 == 1 {
      var blank := dr.LoadSector(c, 0);
      var dots := DotsIn(blank, c, parent);
      dr.StoreSector(c, 0, dots);
      SectorOfCluster(v, c, sectors, 0, dots);
      sectors := sectors[0 := dots];
    }
    assert sectors == NewCluster(dr.g.spc, attr, c, parent);
  }

  /** The dot entries put into a blank sector. */
  method DotsIn(blank: Sector, self: nat, parent: nat) returns (dots: Sector)
    requires blank == Zeros(512)
    ensures dots == DotSector(self, parent)
  {
    hide D.NewSlot, DotName;
    dots := PutSlot(blank, 0, D.NewSlot(DotName(1), 0x10, self));
    dots := PutSlot(dots, 1, D.NewSlot(DotName(2), 0x10, parent));
    assert dots[64..] == Zeros(448);
    assert dots == dots[..32] + dots[32..64] + dots[64..];
  }

  /** fat32_create. */
  method Create(dr: Driver, parent: nat, name: seq<byte>, attr: byte, ghost l: seq<nat>) returns (ret: nat)
    requires |name| == 11 && dr.Valid() && Chain(dr.View().fat, parent, l)
    modifies dr.drive
    ensures dr.Valid() && Created(old(dr.View()), dr.View(), l, parent, name, attr, ret)
  {
    hide Judge, DirSlots, Scan, ViewOf, Shaped, Chain, SectorSlots, Place, SetSector, SetCluster, PutSlot, D.NewSlot,
      NewCluster, FirstFree, D.FirstVacant, Created;
    ghost var v0 := dr.View();
    var claimed := PrepareCluster(dr, parent, attr);
    if claimed == 0 {
      ret := 0;
      CreatedNone(v0, l, parent, name, attr);
      return;
    }
    ghost var v1 := dr.View();
    ParentUntouched(v0, v1, parent, l, claimed, attr);
    ghost var d := DirSlots(v1.data, l);
    assert d[0..] == d;
    ScanIsVacant(d, 0);
    var v, cluster, s, i, sec, p, at := ScanDir(dr, parent, Room, l);
    if v == Take {
      PlaceBounds(v1.data, l, at, p, s, i);
      ClusterSize(v1, cluster);
      var slot := D.NewSlot(name, attr, claimed);
      dr.StoreSector(cluster, s, PutSlot(sec, i, slot));
      StoredInDir(v1, dr.View(), parent, l, at, p, s, i, PutSlot(sec, i, slot), slot);
      ret := claimed;
      SetSectorKeeps(v1, cluster, s, PutSlot(sec, i, slot));
    } else {
      ret := 0;
    }
    CreatedOne(v0, dr.View(), l, parent, name, attr, ret);
  }

  /** A fresh cluster is none of the directory's. */
  lemma ParentUntouched(v0: Vol, v1: Vol, parent: nat, l: seq<nat>, n: nat, attr: byte)
    requires Shaped(v0) && Chain(v0.fat, parent, l) && n == FirstFree(v0.fat, 2) && n < |v0.fat|
    requires v1 == SetCluster(v0.(fat := v0.fat[n := LAST]), n, NewCluster(v0.spc, attr, n, parent))
    ensures n !in l && Chain(v1.fat, parent, l) && DirSlots(v1.data, l) == DirSlots(v0.data, l)
    ensures v1.spc == v0.spc && v1.fat == v0.fat[n := LAST] && |v1.data| == |v0.data|
    ensures v1.data[n] == NewCluster(v0.spc, attr, n, parent)
    ensures forall x :: 0 <= x < |v0.data| && x != n ==> v1.data[x] == v0.data[x]
  {
    hide NewCluster, DirSlots, Chain;
    if n in l { ChainInUse(v0.fat, parent, l, n); }
    ChainFrame(v0.fat, v1.fat, parent, l);
    DirSlotsFrame(v0.data, v1.data, l);
  }
}
