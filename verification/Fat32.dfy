/** The FAT32 driver on its drive (kernel/fs/fat32.c): table entries as four octets of a sector, clusters
    as runs of sectors, and the operations as the driver performs them, each refining the chains of
    FatChains and the directories of FatDirs. */
module Fat32 {
  import opened Bytes
  import opened Bits
  import opened Disk
  import opened FatChains
  import opened FatFiles
  import opened FatDirs

  /** Sectors per cluster, first sector of the table, first sector of cluster 2, number of clusters. */
  datatype Layout = Layout(spc: nat, fatLba: nat, dataLba: nat, total: nat)

  /** The table and the clusters fit a drive of n sectors, one behind the other. */
  predicate Fits(g: Layout, n: nat)
  {
    && 1 <= g.spc < 256 && g.total + 2 <= EOF
    && g.fatLba + (g.total + 1) / 128 < g.dataLba
    && g.dataLba + g.total * g.spc <= n < 0x1_0000_0000
  }

  function FatSector(g: Layout, c: nat): (s: nat) { g.fatLba + c / 128 }

  /** cluster_to_lba. */
  function Lba(g: Layout, c: nat): (s: nat)
    requires c >= 2
  {
    g.dataLba + (c - 2) * g.spc
  }

  lemma RunsInOrder(a: nat, b: nat, k: nat)
    requires a < b
    ensures a * k + k <= b * k
  {
    Spread(a, b - a - 1, k);
  }

  lemma LbaBounds(g: Layout, n: nat, c: nat)
    requires Fits(g, n) && 2 <= c < g.total + 2
    ensures g.dataLba <= Lba(g, c) && Lba(g, c) + g.spc <= n
  {
    RunsInOrder(c - 2, g.total, g.spc);
  }

  lemma LbaApart(g: Layout, c: nat, x: nat)
    requires 2 <= c < x
    ensures Lba(g, c) + g.spc <= Lba(g, x)
  {
    RunsInOrder(c - 2, x - 2, g.spc);
  }

  lemma FatSectorBounds(g: Layout, n: nat, c: nat)
    requires Fits(g, n) && c < g.total + 2
    ensures FatSector(g, c) < g.dataLba <= n
  {
    assert g.total * g.spc >= 0;
  }

  function EntryIn(sec: Sector, k: nat): (v: nat)
    requires k < 128
  {
    Le(sec[4 * k..4 * k + 4]) % 0x1000_0000
  }

  /** What the drive holds, as a table and clusters; clusters 0 and 1 do not exist. */
  ghost function ViewOf(d: seq<Sector>, g: Layout): (v: Vol)
    requires Fits(g, |d|)
    ensures v.spc == g.spc && |v.fat| == |v.data| == g.total + 2
  {
    var n := g.total + 2;
    Vol(g.spc,
        seq(n, c requires 0 <= c < n => FatSectorBounds(g, |d|, c); EntryIn(d[FatSector(g, c)], c % 128)),
        seq(n, c requires 0 <= c < n =>
          if c < 2 then seq<Sector>(g.spc, _ => Zeros(512))
          else LbaBounds(g, |d|, c); d[Lba(g, c)..Lba(g, c) + g.spc]))
  }

  lemma ViewShaped(d: seq<Sector>, g: Layout)
    requires Fits(g, |d|)
    ensures Shaped(ViewOf(d, g))
  {
    forall c | 0 <= c < g.total + 2 ensures |ViewOf(d, g).data[c]| == g.spc {
      if c >= 2 { LbaBounds(g, |d|, c); }
    }
  }

  /** Octets at off replaced. */
  function Patch(sec: Sector, off: nat, b: seq<byte>): (r: Sector)
    requires off + |b| <= 512
  {
    sec[..off] + b + sec[off + |b|..]
  }

  lemma PatchedEntry(sec: Sector, k: nat, value: nat, j: nat)
    requires k < 128 && j < 128 && value < 0x1000_0000
    ensures EntryIn(Patch(sec, 4 * k, LeBytes(value, 4)), j) == if j == k then value else EntryIn(sec, j)
  {
    var r := Patch(sec, 4 * k, LeBytes(value, 4));
    if j == k {
      assert r[4 * k..4 * k + 4] == LeBytes(value, 4);
      LeOfLeBytes(value, 4);
      assert Pow256(4) == 0x1_0000_0000;
    } else {
      assert r[4 * j..4 * j + 4] == sec[4 * j..4 * j + 4];
    }
  }

  /** Storing an entry changes that entry of the table and nothing else. */
  lemma EntryStored(d: seq<Sector>, g: Layout, c: nat, value: nat)
    requires Fits(g, |d|) && c < g.total + 2 && value < 0x1000_0000
    requires FatSector(g, c) < |d|
    ensures var v := ViewOf(d, g);
      ViewOf(d[FatSector(g, c) := Patch(d[FatSector(g, c)], 4 * (c % 128), LeBytes(value, 4))], g)
        == v.(fat := v.fat[c := value])
  {
    hide EntryIn, Patch;
    var fs := FatSector(g, c);
    var d': seq<Sector> := d[fs := Patch(d[fs], 4 * (c % 128), LeBytes(value, 4))];
    var v, v' := ViewOf(d, g), ViewOf(d', g);
    forall x | 0 <= x < g.total + 2 ensures v'.fat[x] == if x == c then value else v.fat[x] {
      FatSectorBounds(g, |d|, x);
      if FatSector(g, x) == fs {
        PatchedEntry(d[fs], c % 128, value, x % 128);
        assert x % 128 == c % 128 ==> x == c;
      }
    }
    forall x | 0 <= x < g.total + 2 ensures v'.data[x] == v.data[x] {
      if x >= 2 {
        LbaBounds(g, |d|, x);
        FatSectorBounds(g, |d|, c);
        assert d'[Lba(g, x)..Lba(g, x) + g.spc] == d[Lba(g, x)..Lba(g, x) + g.spc];
      }
    }
    assert v'.fat == v.fat[c := value] && v'.data == v.data;
  }

  function SetSector(v: Vol, c: nat, s: nat, sec: Sector): (v': Vol)
    requires c < |v.data| && s < |v.data[c]|
  {
    var sectors: seq<Sector> := v.data[c][s := sec];
    v.(data := v.data[c := sectors])
  }

  lemma SetSectorKeeps(v: Vol, c: nat, s: nat, sec: Sector)
    requires c < |v.data| && s < |v.data[c]|
    ensures SetSector(v, c, s, sec).fat == v.fat && SetSector(v, c, s, sec).spc == v.spc
  {
  }

  /** Writing a sector of a cluster changes that sector and nothing else. */
  lemma SectorStored(d: seq<Sector>, g: Layout, c: nat, s: nat, sec: Sector)
    requires Fits(g, |d|) && 2 <= c < g.total + 2 && s < g.spc && Lba(g, c) + g.spc <= |d|
    requires s < |ViewOf(d, g).data[c]|
    ensures ViewOf(d[Lba(g, c) + s := sec], g) == SetSector(ViewOf(d, g), c, s, sec)
  {
    hide EntryIn;
    var d': seq<Sector> := d[Lba(g, c) + s := sec];
    var v, v' := ViewOf(d, g), ViewOf(d', g);
    LbaBounds(g, |d|, c);
    forall x | 0 <= x < g.total + 2 ensures v'.fat[x] == v.fat[x] {
      FatSectorBounds(g, |d|, x);
    }
    forall x | 0 <= x < g.total + 2 && x != c ensures v'.data[x] == v.data[x] {
      if x >= 2 {
        LbaBounds(g, |d|, x);
        if x < c { LbaApart(g, x, c); } else { LbaApart(g, c, x); }
        assert d'[Lba(g, x)..Lba(g, x) + g.spc] == d[Lba(g, x)..Lba(g, x) + g.spc];
      }
    }
    assert v'.data[c] == v.data[c][s := sec];
    assert v'.fat == v.fat && v'.data == SetSector(v, c, s, sec).data;
  }

  function SetCluster(v: Vol, c: nat, sectors: seq<Sector>): (v': Vol)
    requires c < |v.data|
  {
    v.(data := v.data[c := sectors])
  }

  lemma SectorOfCluster(v: Vol, c: nat, sectors: seq<Sector>, s: nat, sec: Sector)
    requires c < |v.data| && s < |sectors|
    ensures SetSector(SetCluster(v, c, sectors), c, s, sec) == SetCluster(v, c, sectors[s := sec])
  {
    var v1, v2 := SetSector(SetCluster(v, c, sectors), c, s, sec), SetCluster(v, c, sectors[s := sec]);
    assert v1.data == v2.data;
  }

  /** A loop that writes buf from the chain at first has the octets tail left, for the cluster reached
      from prev. */
  ghost predicate Midway(v0: Vol, first: nat, buf: seq<byte>, v: Vol, cluster: nat, prev: nat, tail: seq<byte>)
  {
    && Shaped(v0) && Shaped(v) && v.spc == v0.spc && |v.fat| == |v0.fat|
    && WriteFrom(v0, first, 0, buf) == WriteFrom(v, cluster, prev, tail)
  }

  /** The cluster to go on with: none, or one of a closed set, to which the one before belongs. */
  ghost predicate Linked(v: Vol, cluster: nat, prev: nat, s: set<nat>)
  {
    Closed(v.fat, s) && (cluster == 0 || cluster >= EOF || cluster in s) && (prev != 0 ==> prev in s)
  }

  lemma MidwayStart(v: Vol, first: nat, buf: seq<byte>)
    requires Shaped(v)
    ensures Midway(v, first, buf, v, first, 0, buf[0..])
  {
    assert buf[0..] == buf;
  }

  lemma MidwayDone(v0: Vol, first: nat, buf: seq<byte>, v: Vol, cluster: nat, prev: nat, tail: seq<byte>)
    requires Midway(v0, first, buf, v, cluster, prev, tail) && tail == []
    ensures WriteFrom(v0, first, 0, buf) == Written(v, true)
  {
  }

  lemma LinkedStart(v: Vol, first: nat, s: set<nat>)
    requires Closed(v.fat, s) && (first == 0 || first >= EOF || first in s)
    ensures Linked(v, first, 0, s)
  {
  }

  lemma LinkedPrev(v: Vol, cluster: nat, prev: nat, s: set<nat>)
    requires Linked(v, cluster, prev, s)
    ensures prev != 0 ==> 2 <= prev < |v.fat|
  {
  }

  lemma LinkedIn(v: Vol, cluster: nat, prev: nat, s: set<nat>)
    requires Linked(v, cluster, prev, s) && cluster != 0 && cluster < EOF
    ensures cluster in s && 2 <= cluster < |v.fat|
  {
  }

  lemma MidwayFull(v0: Vol, first: nat, buf: seq<byte>, v: Vol, cluster: nat, prev: nat, tail: seq<byte>)
    requires Midway(v0, first, buf, v, cluster, prev, tail) && tail != [] && (cluster == 0 || cluster >= EOF)
    requires FirstFree(v.fat, 2) == |v.fat|
    ensures WriteFrom(v0, first, 0, buf) == Written(v, false)
  {
  }

  lemma MidwayClaim(v0: Vol, first: nat, buf: seq<byte>, v: Vol, cluster: nat, prev: nat, s: set<nat>,
      tail: seq<byte>, v1: Vol)
    requires Midway(v0, first, buf, v, cluster, prev, tail) && tail != [] && (cluster == 0 || cluster >= EOF)
    requires Linked(v, cluster, prev, s) && FirstFree(v.fat, 2) < |v.fat|
    requires var i := FirstFree(v.fat, 2);
      v1 == v.(fat := if prev != 0 then v.fat[i := LAST][prev := i] else v.fat[i := LAST])
    ensures var i := FirstFree(v.fat, 2);
      Midway(v0, first, buf, v1, i, prev, tail) && Linked(v1, i, prev, s + {i})
  {
    hide WriteCluster;
    var i := FirstFree(v.fat, 2);
    assert WriteFrom(v, cluster, prev, tail) == WriteCluster(v1, i, tail);
    assert WriteFrom(v1, i, prev, tail) == WriteCluster(v1, i, tail);
  }

  lemma MidwayFilled(v0: Vol, first: nat, buf: seq<byte>, v: Vol, cluster: nat, prev: nat, s: set<nat>,
      tail: seq<byte>, v1: Vol, left: seq<byte>)
    requires Midway(v0, first, buf, v, cluster, prev, tail) && tail != []
    requires Linked(v, cluster, prev, s) && cluster in s && 2 <= cluster < |v.fat|
    requires var (sectors, left0) := PutSectors(v.data[cluster], 0, tail);
      v1 == v.(data := v.data[cluster := sectors]) && left == left0
    ensures Midway(v0, first, buf, v1, v1.fat[cluster], cluster, left)
    ensures Linked(v1, v1.fat[cluster], cluster, s)
  {
    WriteStep(v, cluster, prev, tail);
  }

  /** Where the entry of a cluster and the sectors of a cluster are on the drive: the entry is the low 28
      bits of the four octets at 4 * c, least significant first. */
  lemma ViewInSectors(d: seq<Sector>, g: Layout, c: nat, s: nat)
    requires Fits(g, |d|) && 2 <= c < g.total + 2 && s < g.spc
    ensures g.fatLba + 4 * c / 512 < |d| && g.dataLba + (c - 2) * g.spc + s < |d|
    ensures var sec := d[g.fatLba + 4 * c / 512];
      && 4 * c % 512 + 4 <= 512 && ViewOf(d, g).fat[c] == WordIn(sec, 4 * c % 512) % 0x1000_0000
    ensures s < |ViewOf(d, g).data[c]| && ViewOf(d, g).data[c][s] == d[g.dataLba + (c - 2) * g.spc + s]
  {
    hide WordIn, Le;
    LbaBounds(g, |d|, c);
    FatSectorBounds(g, |d|, c);
    EntryPlace(c);
    LeIsWord(d[FatSector(g, c)], 4 * (c % 128));
  }

  /** A C conversion to int. */
  function Int32(n: nat): (r: int)
    requires n < 0x1_0000_0000
  {
    if n < 0x8000_0000 then n else n - 0x1_0000_0000
  }

  class Driver {
    const drive: Drive
    const g: Layout

    constructor (drive: Drive, g: Layout)
      requires Fits(g, |drive.sectors|)
      ensures this.drive == drive && this.g == g && Valid()
    {
      this.drive, this.g := drive, g;
    }

    ghost predicate Valid()
      reads this, drive
    {
      Fits(g, |drive.sectors|)
    }

    ghost function View(): (v: Vol)
      requires Valid()
      reads this, drive
      ensures v.spc == g.spc && |v.fat| == |v.data| == g.total + 2 && Shaped(v)
    {
      ViewShaped(drive.sectors, g);
      ViewOf(drive.sectors, g)
    }

    /** fat32_read_fat. */
    method ReadFat(cluster: nat) returns (next: nat)
      requires Valid() && cluster < g.total + 2
      ensures next == View().fat[cluster]
    {
      hide ViewOf, Shaped, EntryIn;
      var byteOffset := cluster * 4;
      var fatSector := g.fatLba + byteOffset / 512;
      var fatOffset := byteOffset % 512;
      EntryPlace(cluster);
      EntryRead(drive.sectors, g, cluster);
      var ok, buf := drive.Read(fatSector);
      next := And32(Le(buf[fatOffset..fatOffset + 4]), 0x0FFF_FFFF);
      EntryMasked(buf, cluster % 128);
    }

    /** fat32_write_fat_entry: only the first copy of the table is kept. */
    method WriteFatEntry(cluster: nat, value: nat)
      requires Valid() && cluster < g.total + 2 && value < 0x1_0000_0000
      modifies drive
      ensures Valid() && View() == old(View()).(fat := old(View()).fat[cluster := value % 0x1000_0000])
    {
      hide ViewOf, Shaped, Patch, And32;
      var byteOffset := cluster * 4;
      var fatSector := g.fatLba + byteOffset / 512;
      var fatOffset := byteOffset % 512;
      EntryPlace(cluster);
      FatSectorBounds(g, |drive.sectors|, cluster);
      var ok, buf := drive.Read(fatSector);
      var stored := And32(value, 0x0FFF_FFFF);
      MaskIsMod(value);
      EntryStored(drive.sectors, g, cluster, stored);
      ok := drive.Write(fatSector, Patch(buf, fatOffset, LeBytes(stored, 4)));
    }

    /** fat32_alloc_cluster: the lowest free cluster, marked as the end of a chain; 0 if there is none. */
    method AllocCluster() returns (c: nat)
      requires Valid()
      modifies drive
      ensures Valid()
      ensures var i := FirstFree(old(View()).fat, 2);
        if i == |old(View()).fat| then c == 0 && View() == old(View())
        else c == i && View() == old(View()).(fat := old(View()).fat[i := 0x0FFF_FFFF])
    {
      hide ViewOf, Shaped;
      c := 2;
      while c < g.total + 2
        invariant 2 <= c <= g.total + 2 && Valid() && View() == old(View())
        invariant FirstFree(View().fat, 2) == FirstFree(View().fat, c)
      {
        var e := ReadFat(c);
        if e == 0 {
          WriteFatEntry(c, LAST);
          return;
        }
        c := c + 1;
      }
      c := 0;
    }

    /** One sector of a cluster. */
    method StoreSector(cluster: nat, s: nat, sec: Sector)
      requires Valid() && 2 <= cluster < g.total + 2 && s < g.spc && s < |View().data[cluster]|
      modifies drive
      ensures Valid() && View() == SetSector(old(View()), cluster, s, sec)
    {
      hide ViewOf, Shaped;
      LbaBounds(g, |drive.sectors|, cluster);
      SectorStored(drive.sectors, g, cluster, s, sec);
      var ok := drive.Write(Lba(g, cluster) + s, sec);
    }

    /** The sectors of one cluster take what they hold of buf from at on, the last one filled up with
        zeros. */
    method FillCluster(cluster: nat, buf: seq<byte>, at: nat) returns (written: nat)
      requires Valid() && 2 <= cluster < g.total + 2 && at <= |buf|
      modifies drive
      ensures Valid() && at <= written <= |buf| && (at < |buf| ==> at < written)
      ensures var (sectors, left) := PutSectors(old(View()).data[cluster], 0, buf[at..]);
        View() == old(View()).(data := old(View()).data[cluster := sectors]) && left == buf[written..]
    {
      hide ViewOf, PutSectors, Shaped, SetSector;
      ghost var v0 := View();
      ClusterSize(v0, cluster);
      var lba := Lba(g, cluster);
      LbaBounds(g, |drive.sectors|, cluster);
      var s := 0;
      ghost var sectors: seq<Sector> := v0.data[cluster];
      written := at;
      while s < g.spc && written < |buf|
        invariant Valid() && 0 <= s <= g.spc && at <= written <= |buf|
        invariant View() == SetCluster(v0, cluster, sectors) && |sectors| == g.spc
        invariant PutSectors(v0.data[cluster], 0, buf[at..]) == PutSectors(sectors, s, buf[written..])
      {
        var chunk := |buf| - written;
        if chunk > 512 {
          chunk := 512;
        }
        var sec: Sector := buf[written..written + chunk] + Zeros(512 - chunk);
        PutOneSector(sectors, s, buf, written, sec);
        StoreSector(cluster, s, sec);
        SectorOfCluster(v0, cluster, sectors, s, sec);
        sectors := sectors[s := sec];
        written := written + chunk;
        s := s + 1;
      }
      PutDone(sectors, s, buf[written..]);
    }

    /** The step of a write that needs a cluster: the lowest free one, linked behind prev. */
    method ClaimCluster(ghost v0: Vol, ghost first: nat, ghost buf: seq<byte>, cluster: nat, prev: nat,
        ghost s: set<nat>, ghost tail: seq<byte>) returns (c: nat)
      requires Valid() && (cluster == 0 || cluster >= EOF) && tail != []
      requires Midway(v0, first, buf, View(), cluster, prev, tail) && Linked(View(), cluster, prev, s)
      modifies drive
      ensures Valid()
      ensures c == 0 ==> WriteFrom(v0, first, 0, buf) == Written(View(), false)
      ensures c != 0 ==>
        c < EOF && Midway(v0, first, buf, View(), c, prev, tail) && Linked(View(), c, prev, s + {c})
    {
      hide WriteFrom, WriteCluster, Midway, Shaped, ViewOf, Linked, FirstFree;
      ghost var v := View();
      LinkedPrev(v, cluster, prev, s);
      c := AllocCluster();
      if c == 0 {
        MidwayFull(v0, first, buf, v, cluster, prev, tail);
        return;
      }
      if prev != 0 {
        WriteFatEntry(prev, c);
      }
      MidwayClaim(v0, first, buf, v, cluster, prev, s, tail, View());
    }

    /** fat32_write_file along links that stay in a closed set of clusters, cyclic or not. The size is
        returned as an int. */
    method WriteFile(first: nat, buf: seq<byte>, ghost closed: set<nat>) returns (ret: int)
      requires Valid() && |buf| < 0x1_0000_0000
      requires Closed(View().fat, closed) && (first == 0 || first >= EOF || first in closed)
      modifies drive
      ensures Valid()
      ensures var r := WriteFrom(old(View()), first, 0, buf);
        View() == r.vol && ret == if r.ok then Int32(|buf|) else -1
    {
      hide ViewOf, WriteFrom, WriteCluster, PutSectors, Midway, Shaped, Linked, Closed;
      ghost var v0 := View();
      var cluster: nat, written: nat, prev: nat := first, 0, 0;
      ghost var s := closed;
      MidwayStart(v0, first, buf);
      LinkedStart(v0, first, s);
      while written < |buf|
        invariant Valid() && 0 <= written <= |buf|
        invariant Midway(v0, first, buf, View(), cluster, prev, buf[written..])
        invariant Linked(View(), cluster, prev, s)
      {
        if cluster == 0 || cluster >= EOF {
          var c := ClaimCluster(v0, first, buf, cluster, prev, s, buf[written..]);
          if c == 0 {
            return -1;
          }
          cluster, s := c, s + {c};
        }
        ghost var v, at := View(), written;
        LinkedIn(View(), cluster, prev, s);
        written := FillCluster(cluster, buf, written);
        MidwayFilled(v0, first, buf, v, cluster, prev, s, buf[at..], View(), buf[written..]);
        prev := cluster;
        cluster := ReadFat(cluster);
      }
      ret := Int32(written);
      MidwayDone(v0, first, buf, View(), cluster, prev, buf[written..]);
    }

    /** fat32_read along links that stay in a closed set of clusters and are never 0. The number of octets
        is returned as an int. */
    method Read(first: nat, size: nat, out: array<byte>, ghost closed: set<nat>) returns (ret: int)
      requires Valid() && size < 0x1_0000_0000 && out.Length >= size
      requires Readable(View().fat, closed, first)
      modifies out
      ensures var r := ReadFrom(View().fat, View().data, first, size);
        ret == Int32(|r|) && out[..|r|] == r && out[|r|..] == old(out[|r|..])
    {
      hide ViewOf, ReadFrom, TakeSectors, Shaped, Readable;
      var cluster: nat, n: nat := first, 0;
      ghost var left: nat := size;
      while cluster < EOF && n < size
        invariant 0 <= n <= size && left == size - n && Readable(View().fat, closed, cluster)
        invariant out[..n] + ReadFrom(View().fat, View().data, cluster, left)
                  == ReadFrom(View().fat, View().data, first, size)
        invariant forall k :: n <= k < out.Length ==> out[k] == old(out[k])
        decreases size - n
      {
        ghost var sofar := out[..n];
        ReadableNext(View().fat, closed, cluster);
        ClusterSize(View(), cluster);
        n := ReadCluster(cluster, size, out, n);
        ReadFromStep(View().fat, View().data, cluster, left);
        JoinThree(sofar, TakeSectors(View().data[cluster], 0, left),
          ReadFrom(View().fat, View().data, View().fat[cluster], size - n),
            ReadFrom(View().fat, View().data, cluster, left));
        left := size - n;
        cluster := ReadFat(cluster);
      }
      ReadFromEnd(View().fat, View().data, cluster, left);
      ret := Int32(n);
    }

    /** The sectors of one cluster, as far as size octets are wanted. */
    method ReadCluster(cluster: nat, size: nat, out: array<byte>, at: nat) returns (n: nat)
      requires Valid() && 2 <= cluster < g.total + 2 && at <= size <= out.Length
      modifies out
      ensures at <= n <= size && forall k :: n <= k < out.Length ==> out[k] == old(out[k])
      ensures out[..n] == old(out[..at]) + TakeSectors(View().data[cluster], 0, size - at)
    {
      hide ViewOf, TakeSectors, Shaped;
      ghost var sectors := View().data[cluster];
      ClusterSize(View(), cluster);
      n := at;
      var s := 0;
      ghost var got: seq<byte>, left: nat := [], size - at;
      while s < g.spc
        invariant 0 <= s <= g.spc && at <= n <= size && left == size - n
        invariant out[..n] == old(out[..at]) + got && forall k :: n <= k < out.Length ==> out[k] == old(out[k])
        invariant got + TakeSectors(sectors, s, left) == TakeSectors(sectors, 0, size - at)
      {
        var toRead := size - n;
        if toRead == 0 {
          break;
        }
        var sec := LoadSector(cluster, s);
        var chunk := if toRead < 512 then toRead else 512;
        TakeStep(sectors, s, toRead);
        JoinThree(got, sec[..chunk], TakeSectors(sectors, s + 1, toRead - chunk), TakeSectors(sectors, s, toRead));
        got, left := got + sec[..chunk], toRead - chunk;
        n := Append(out, n, sec[..chunk]);
        s := s + 1;
      }
      TakeDone(sectors, s, left);
    }

    /** ata_ler of one sector of a cluster. */
    method LoadSector(cluster: nat, s: nat) returns (sec: Sector)
      requires Valid() && 2 <= cluster < g.total + 2 && s < g.spc && s < |View().data[cluster]|
      ensures sec == View().data[cluster][s]
    {
      LbaBounds(g, |drive.sectors|, cluster);
      var ok, buf := drive.Read(Lba(g, cluster) + s);
      sec := buf;
    }
  }

  lemma JoinThree(a: seq<byte>, b: seq<byte>, c: seq<byte>, bc: seq<byte>)
    requires bc == b + c
    ensures a + bc == a + b + c
  {
  }

  lemma ChainHead(fat: seq<nat>, c: nat, l: seq<nat>)
    requires Chain(fat, c, l) && c < EOF
    ensures l != [] && l[0] == c && 2 <= c < |fat| && Chain(fat, fat[c], l[1..])
  {
  }

  /** Cluster c ends a chain, or belongs to a closed set without links to 0. */
  ghost predicate Readable(fat: seq<nat>, closed: set<nat>, c: nat)
  {
    && Closed(fat, closed) && (forall x :: x in closed ==> fat[x] != 0) && (c >= EOF || c in closed)
  }

  lemma ReadableNext(fat: seq<nat>, closed: set<nat>, c: nat)
    requires Readable(fat, closed, c) && c < EOF
    ensures 2 <= c < |fat| && Readable(fat, closed, fat[c])
  {
  }

  lemma ReadFromStep(fat: seq<nat>, data: seq<seq<Sector>>, c: nat, want: nat)
    requires c < EOF && c < |fat| && c < |data| && data[c] != [] && want > 0
    ensures var got := TakeSectors(data[c], 0, want);
      got != [] && ReadFrom(fat, data, c, want) == got + ReadFrom(fat, data, fat[c], want - |got|)
  {
    hide TakeSectors;
  }

  lemma ReadFromEnd(fat: seq<nat>, data: seq<seq<Sector>>, c: nat, want: nat)
    requires c >= EOF || want == 0
    ensures ReadFrom(fat, data, c, want) == []
  {
  }

  lemma TakeStep(sectors: seq<Sector>, s: nat, want: nat)
    requires s < |sectors| && want > 0
    ensures var n := if want < 512 then want else 512;
      TakeSectors(sectors, s, want) == sectors[s][..n] + TakeSectors(sectors, s + 1, want - n)
  {
    if want > 512 {
      assert sectors[s][..512] == sectors[s];
    }
  }

  lemma TakeDone(sectors: seq<Sector>, s: nat, want: nat)
    requires s <= |sectors| && (s == |sectors| || want == 0)
    ensures TakeSectors(sectors, s, want) == []
  {
  }

  lemma EntryPlace(c: nat)
    ensures c * 4 / 512 == c / 128 && c * 4 % 512 == 4 * (c % 128)
  {
  }

  lemma EntryRead(d: seq<Sector>, g: Layout, c: nat)
    requires Fits(g, |d|) && c < g.total + 2
    ensures FatSector(g, c) < |d| && ViewOf(d, g).fat[c] == EntryIn(d[FatSector(g, c)], c % 128)
  {
    FatSectorBounds(g, |d|, c);
  }

  lemma EntryMasked(sec: Sector, k: nat)
    requires k < 128
    ensures And32(Le(sec[4 * k..4 * k + 4]), 0x0FFF_FFFF) == EntryIn(sec, k)
  {
    MaskIsMod(Le(sec[4 * k..4 * k + 4]));
  }

  lemma MaskIsMod(val: nat)
    ensures And32(val, 0x0FFF_FFFF) == val % 0x1000_0000
  {
    Pow2Values();
    LowMask(val, 28, 32);
  }

  lemma PutDone(sectors: seq<Sector>, s: nat, tail: seq<byte>)
    requires s <= |sectors| && (s == |sectors| || tail == [])
    ensures PutSectors(sectors, s, tail) == (sectors, tail)
  {
  }

  lemma PutOneSector(sectors: seq<Sector>, s: nat, buf: seq<byte>, written: nat, sec: Sector)
    requires s < |sectors| && written < |buf|
    requires var n := if |buf| - written > 512 then 512 else |buf| - written;
      sec == buf[written..written + n] + Zeros(512 - n)
    ensures var n := if |buf| - written > 512 then 512 else |buf| - written;
      PutSectors(sectors, s, buf[written..]) == PutSectors(sectors[s := sec], s + 1, buf[written + n..])
  {
    var n := if |buf| - written > 512 then 512 else |buf| - written;
    var b := buf[written..];
    assert Chunk(b) == sec;
    assert After(b) == buf[written + n..];
  }
}
