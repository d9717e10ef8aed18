/** FAT32 cluster chains (kernel/fs/fat32.c): the table and the clusters as values; allocation, writing
    along a chain and past its end, reading, and freeing. */
module FatChains {
  import opened Bytes
  import opened Disk

  const EOF: nat := 0x0FFF_FFF8
  const LAST: nat := 0x0FFF_FFFF
  const SECTOR: nat := 512

  /** One entry per cluster, entries 0 and 1 unused; data[c] is the sectors of cluster c. */
  datatype Vol = Vol(spc: nat, fat: seq<nat>, data: seq<seq<Sector>>)

  predicate Shaped(v: Vol)
  {
    && v.spc > 0 && 2 <= |v.fat| == |v.data| <= EOF
    && forall c :: 0 <= c < |v.data| ==> |v.data[c]| == v.spc
  }

  lemma ClusterSize(v: Vol, c: nat)
    requires Shaped(v) && c < |v.data|
    ensures |v.data[c]| == v.spc
  {
  }

  /** l is the list of clusters from c to the end of its chain. */
  predicate Chain(fat: seq<nat>, c: nat, l: seq<nat>)
    decreases |l|
  {
    if l == [] then c >= EOF
    else c == l[0] && 2 <= c < |fat| && c < EOF && Chain(fat, fat[c], l[1..])
  }

  lemma ChainEmpty(fat: seq<nat>, c: nat, l: seq<nat>)
    requires Chain(fat, c, l)
    ensures l == [] <==> c >= EOF
  {
  }

  /** ---- Chains ---- */

  /** A cluster starts at most one chain. */
  lemma {:induction false} ChainUnique(fat: seq<nat>, c: nat, l: seq<nat>, m: seq<nat>)
    requires Chain(fat, c, l) && Chain(fat, c, m)
    ensures l == m
    decreases |l|
  {
    if l != [] && m != [] { ChainUnique(fat, fat[c], l[1..], m[1..]); }
  }

  lemma {:induction false} ChainSuffix(fat: seq<nat>, c: nat, l: seq<nat>, i: nat)
    requires Chain(fat, c, l) && i < |l|
    ensures 2 <= l[i] < |fat| && Chain(fat, l[i], l[i..]) && Chain(fat, fat[l[i]], l[i + 1..])
    ensures fat[l[i]] == (if i + 1 < |l| then l[i + 1] else fat[l[i]]) && (i + 1 == |l| ==> fat[l[i]] >= EOF)
    decreases i
  {
    if i > 0 {
      ChainSuffix(fat, fat[c], l[1..], i - 1);
      assert l[1..][i - 1..] == l[i..] && l[1..][i..] == l[i + 1..];
    } else {
      assert l[0..] == l;
    }
  }

  /** A chain never returns to a cluster it has passed. */
  lemma ChainAcyclic(fat: seq<nat>, c: nat, l: seq<nat>, i: nat, j: nat)
    requires Chain(fat, c, l) && i < j < |l|
    ensures l[i] != l[j]
  {
    ChainSuffix(fat, c, l, i);
    ChainSuffix(fat, c, l, j);
    if l[i] == l[j] { ChainUnique(fat, l[i], l[i..], l[j..]); }
  }

  /** Every cluster of a chain has a non-zero entry. */
  lemma ChainInUse(fat: seq<nat>, c: nat, l: seq<nat>, x: nat)
    requires Chain(fat, c, l) && x in l
    ensures 2 <= x < |fat| && fat[x] != 0
  {
    var i: nat :| i < |l| && l[i] == x;
    ChainSuffix(fat, c, l, i);
    if i + 1 < |l| { ChainSuffix(fat, c, l, i + 1); }
  }

  /** A chain depends only on the entries of its own clusters. */
  lemma {:induction false} ChainFrame(fat: seq<nat>, fat': seq<nat>, c: nat, l: seq<nat>)
    requires Chain(fat, c, l) && |fat'| == |fat|
    requires forall x :: x in l && x < |fat| ==> fat'[x] == fat[x]
    ensures Chain(fat', c, l)
    decreases |l|
  {
    if l != [] { ChainFrame(fat, fat', fat[c], l[1..]); }
  }

  /** Linking a fresh one-cluster chain behind the last cluster. */
  lemma {:induction false} ChainExtend(fat: seq<nat>, fat': seq<nat>, c: nat, l: seq<nat>, i: nat)
    requires Chain(fat, c, l) && l != [] && 2 <= i < |fat| && i < EOF && i !in l && |fat'| == |fat|
    requires fat'[i] >= EOF && l[|l| - 1] < |fat| && fat'[l[|l| - 1]] == i
    requires forall x :: x in l[..|l| - 1] && x < |fat| ==> fat'[x] == fat[x]
    ensures Chain(fat', c, l + [i])
    decreases |l|
  {
    if |l| == 1 {
      assert l + [i] == [c, i] && [c, i][1..] == [i] && [i][1..] == [];
    } else {
      assert (l + [i])[1..] == l[1..] + [i];
      assert l[1..][..|l| - 2] == l[..|l| - 1][1..];
      ChainAcyclic(fat, c, l, 0, |l| - 1);
      assert c in l[..|l| - 1] by { assert l[..|l| - 1][0] == c; }
      ChainExtend(fat, fat', fat[c], l[1..], i);
    }
  }

  /** The links of a chain: each entry is the next cluster, the last one at least 0x0FFFFFF8. */
  lemma ChainLinks(fat: seq<nat>, c: nat, l: seq<nat>, i: nat)
    requires Chain(fat, c, l) && i < |l|
    ensures l[0] == c && 2 <= l[i] < 0x0FFF_FFF8 && l[i] < |fat|
    ensures if i + 1 < |l| then fat[l[i]] == l[i + 1] else fat[l[i]] >= 0x0FFF_FFF8
  {
    ChainSuffix(fat, c, l, i);
    if i + 1 < |l| { ChainSuffix(fat, c, l, i + 1); }
  }

  /** ---- Allocation ---- */

  /** The lowest free cluster at or above c, |fat| if none. */
  function FirstFree(fat: seq<nat>, c: nat): (i: nat)
    requires c <= |fat|
    ensures c <= i <= |fat|
    ensures i < |fat| ==> fat[i] == 0
    ensures forall k :: c <= k < i ==> fat[k] != 0
    decreases |fat| - c
  {
    if c == |fat| || fat[c] == 0 then c else FirstFree(fat, c + 1)
  }

  /** ---- Data ---- */

  /** Writing buf into the sectors of a cluster from sector s on, as far as either lasts. */
  function PutSectors(sectors: seq<Sector>, s: nat, buf: seq<byte>): (r: (seq<Sector>, seq<byte>))
    requires s <= |sectors|
    ensures |r.0| == |sectors| && |r.1| <= |buf|
    ensures s < |sectors| && buf != [] ==> |r.1| < |buf|
    ensures forall k :: 0 <= k < s ==> r.0[k] == sectors[k]
    decreases |sectors| - s
  {
    if s == |sectors| || buf == [] then (sectors, buf)
    else PutSectors(sectors[s := Chunk(buf)], s + 1, After(buf))
  }

  /** Octets of the first count sectors worth of a cluster list, at most want. */
  function TakeSectors(sectors: seq<Sector>, s: nat, want: nat): (r: seq<byte>)
    requires s <= |sectors|
    ensures |r| <= want
    ensures s < |sectors| && want > 0 ==> r != []
    decreases |sectors| - s
  {
    if s == |sectors| || want == 0 then []
    else if want <= SECTOR then sectors[s][..want]
    else sectors[s] + TakeSectors(sectors, s + 1, want - SECTOR)
  }

  /** What is put is what is taken. */
  lemma {:induction false} PutThenTake(sectors: seq<Sector>, s: nat, buf: seq<byte>)
    requires s <= |sectors|
    ensures var (sectors', rest) := PutSectors(sectors, s, buf);
      && |rest| <= |buf| && rest == buf[|buf| - |rest|..]
      && TakeSectors(sectors', s, |buf|) == buf[..|buf| - |rest|]
      && |buf| - |rest| <= SECTOR * (|sectors| - s)
      && (rest != [] ==> |buf| - |rest| == SECTOR * (|sectors| - s))
    decreases |sectors| - s
  {
    if s < |sectors| && buf != [] {
      PutThenTake(sectors[s := Chunk(buf)], s + 1, After(buf));
      PutStep(sectors, s, buf);
      hide PutSectors, TakeSectors;
      var (sectors', rest) := PutSectors(sectors, s, buf);
      assert sectors'[s] == Chunk(buf);
      if |buf| > SECTOR {
        TakenBehind(sectors', s, buf, rest);
      } else {
        TakeLast(sectors', s, |buf|);
        assert Chunk(buf)[..|buf|] == buf;
      }
    }
  }

  lemma TakenBehind(sectors: seq<Sector>, s: nat, buf: seq<byte>, rest: seq<byte>)
    requires s < |sectors| && |buf| > SECTOR && sectors[s] == Chunk(buf)
    requires |rest| <= |buf| - SECTOR && rest == buf[SECTOR..][|buf| - SECTOR - |rest|..]
    requires TakeSectors(sectors, s + 1, |buf| - SECTOR) == buf[SECTOR..][..|buf| - SECTOR - |rest|]
    ensures TakeSectors(sectors, s, |buf|) == buf[..|buf| - |rest|] && rest == buf[|buf| - |rest|..]
  {
    hide TakeSectors;
    TakeMore(sectors, s, |buf|);
    SplitJoin(buf, SECTOR, |rest|);
  }

  lemma PutStep(sectors: seq<Sector>, s: nat, buf: seq<byte>)
    requires s < |sectors| && buf != []
    ensures PutSectors(sectors, s, buf) == PutSectors(sectors[s := Chunk(buf)], s + 1, After(buf))
  {
  }

  lemma TakeMore(sectors: seq<Sector>, s: nat, want: nat)
    requires s < |sectors| && want > SECTOR
    ensures TakeSectors(sectors, s, want) == sectors[s] + TakeSectors(sectors, s + 1, want - SECTOR)
  {
  }

  lemma TakeLast(sectors: seq<Sector>, s: nat, want: nat)
    requires s < |sectors| && 0 < want <= SECTOR
    ensures TakeSectors(sectors, s, want) == sectors[s][..want]
  {
  }

  lemma SplitJoin(buf: seq<byte>, k: nat, rest: nat)
    requires k + rest <= |buf|
    ensures buf[..k] + buf[k..][..|buf| - k - rest] == buf[..|buf| - rest]
    ensures buf[k..][|buf| - k - rest..] == buf[|buf| - rest..]
  {
  }

  /** fat32_read: at most want octets along the clusters l. */
  function ReadAlong(data: seq<seq<Sector>>, l: seq<nat>, want: nat): (r: seq<byte>)
    ensures |r| <= want
    decreases |l|
  {
    if l == [] || want == 0 || l[0] >= |data| then []
    else
      var got := TakeSectors(data[l[0]], 0, want);
      got + ReadAlong(data, l[1..], want - |got|)
  }

  /** fat32_read from cluster c, whatever the links do: at most want octets. */
  function ReadFrom(fat: seq<nat>, data: seq<seq<Sector>>, c: nat, want: nat): (r: seq<byte>)
    ensures |r| <= want
    decreases want
  {
    if c >= EOF || want == 0 || c >= |data| || c >= |fat| || data[c] == [] then []
    else
      var got := TakeSectors(data[c], 0, want);
      got + ReadFrom(fat, data, fat[c], want - |got|)
  }

  /** Along a chain it reads the clusters of the chain. */
  lemma {:induction false} ReadFromChain(fat: seq<nat>, data: seq<seq<Sector>>, c: nat, l: seq<nat>, want: nat)
    requires Chain(fat, c, l) && |data| == |fat| && forall x :: 0 <= x < |data| ==> data[x] != []
    ensures ReadFrom(fat, data, c, want) == ReadAlong(data, l, want)
    decreases |l|
  {
    hide TakeSectors;
    if l != [] && want > 0 { ReadFromChain(fat, data, fat[c], l[1..], want - |TakeSectors(data[c], 0, want)|); }
  }

  /** Where the octets of a read come from: octet t of the k-th cluster's worth is octet t % 512 of sector
      t / 512 of cluster l[k]. */
  lemma OctetAlong(data: seq<seq<Sector>>, l: seq<nat>, spc: nat, want: nat, k: nat, t: nat)
    requires k < |l| && t < 512 * spc && 512 * spc * k + t < want
    requires forall i :: 0 <= i < |l| ==> l[i] < |data| && |data[l[i]]| == spc
    ensures var r := ReadAlong(data, l, want);
      512 * spc * k + t < |r| && r[512 * spc * k + t] == data[l[k]][t / 512][t % 512]
  {
    OctetAlongAt(data, l, spc, want, k, t, 512 * spc * k + t);
  }

  lemma {:induction false} OctetAlongAt(data: seq<seq<Sector>>, l: seq<nat>, spc: nat, want: nat, k: nat, t: nat,
        at: nat)
    requires k < |l| && t < 512 * spc && at == 512 * spc * k + t < want
    requires forall i :: 0 <= i < |l| ==> l[i] < |data| && |data[l[i]]| == spc
    ensures at < |ReadAlong(data, l, want)| && ReadAlong(data, l, want)[at] == data[l[k]][t / 512][t % 512]
    decreases k
  {
    hide TakeSectors, ReadAlong;
    var size := 512 * spc;
    AlongStep(data, l, want);
    TakenSize(data[l[0]], 0, want);
    if k == 0 {
      OctetTaken(data[l[0]], 0, want, t);
    } else {
      OneLess(size, k, t);
      OctetAlongAt(data, l[1..], spc, want - size, k - 1, t, at - size);
    }
  }

  lemma OneLess(size: nat, k: nat, t: nat)
    requires k > 0
    ensures size * k + t - size == size * (k - 1) + t >= 0
  {
  }

  lemma AlongStep(data: seq<seq<Sector>>, l: seq<nat>, want: nat)
    requires l != [] && want > 0 && l[0] < |data|
    ensures var got := TakeSectors(data[l[0]], 0, want);
      ReadAlong(data, l, want) == got + ReadAlong(data, l[1..], want - |got|)
  {
    hide TakeSectors;
  }

  lemma {:induction false} TakenSize(sectors: seq<Sector>, s: nat, want: nat)
    requires s <= |sectors|
    ensures |TakeSectors(sectors, s, want)| == if want < 512 * (|sectors| - s) then want else 512 * (|sectors| - s)
    decreases |sectors| - s
  {
    if s < |sectors| && want > 512 { TakenSize(sectors, s + 1, want - 512); }
  }

  lemma {:induction false} OctetTaken(sectors: seq<Sector>, s: nat, want: nat, t: nat)
    requires s <= |sectors| && t < want && t < 512 * (|sectors| - s)
    ensures t < |TakeSectors(sectors, s, want)| && TakeSectors(sectors, s, want)[t] == sectors[s + t / 512][t % 512]
    decreases |sectors| - s
  {
    if want > 512 {
      hide TakeSectors;
      TakeMore(sectors, s, want);
      if t >= 512 { OctetTaken(sectors, s + 1, want - 512, t - 512); }
    }
  }

  /** The links of the clusters in s lead to clusters in s, end a chain, or are 0. */
  ghost predicate Closed(fat: seq<nat>, s: set<nat>)
  {
    forall x :: x in s ==> 2 <= x < |fat| && (fat[x] == 0 || fat[x] >= EOF || fat[x] in s)
  }

  /** A chain is closed. */
  lemma ChainClosed(fat: seq<nat>, c: nat, l: seq<nat>)
    requires Chain(fat, c, l)
    ensures var s := set x | x in l; Closed(fat, s) && (c >= EOF || c in s) && forall x :: x in s ==> fat[x] != 0
  {
    forall x | x in l ensures 2 <= x < |fat| && fat[x] != 0 && (fat[x] >= EOF || fat[x] in l) {
      var k: nat :| k < |l| && l[k] == x;
      ChainSuffix(fat, c, l, k);
      ChainInUse(fat, c, l, x);
    }
    if l != [] { assert l[0] == c; }
  }

  /** The result of a write. */
  datatype Written = Written(vol: Vol, ok: bool)

  /** fat32_write_file from cluster c, reached from prev (0 at the start): a missing cluster is
      allocated, marked last and linked behind prev. */
  function WriteFrom(v: Vol, c: nat, prev: nat, buf: seq<byte>): (r: Written)
    requires Shaped(v)
    ensures Shaped(r.vol) && r.vol.spc == v.spc && |r.vol.fat| == |v.fat|
    decreases |buf|
  {
    if buf == [] then Written(v, true)
    else if c == 0 || c >= EOF then
      var i := FirstFree(v.fat, 2);
      if i == |v.fat| then Written(v, false)
      else
        var fat1 := v.fat[i := LAST];
        var fat2 := if prev != 0 && prev < |fat1| then fat1[prev := i] else fat1;
        WriteCluster(v.(fat := fat2), i, buf)
    else if c < 2 || c >= |v.fat| then Written(v, false)
    else WriteCluster(v, c, buf)
  }

  function WriteCluster(v: Vol, c: nat, buf: seq<byte>): (r: Written)
    requires Shaped(v) && 2 <= c < |v.fat| && buf != []
    ensures Shaped(r.vol) && r.vol.spc == v.spc && |r.vol.fat| == |v.fat|
    decreases |buf|, 0
  {
    var (sectors, rest) := PutSectors(v.data[c], 0, buf);
    WriteFrom(v.(data := v.data[c := sectors]), v.fat[c], c, rest)
  }

  /** ---- What a write does ---- */

  /** Octets in k clusters. */
  function Room(spc: nat, k: nat): (n: nat)
    ensures k == 0 ==> n == 0
  {
    SECTOR * spc * k
  }

  lemma RoomSucc(spc: nat, k: nat)
    ensures Room(spc, k + 1) == SECTOR * spc + Room(spc, k)
  {
  }

  function FreeSet(fat: seq<nat>): (s: set<nat>)
  {
    set x: nat | 2 <= x < |fat| && fat[x] == 0
  }

  /** A write from inside the chain head -> done + rest, rest starting at c, ends with the chain
      head -> l, which is the old one followed by clusters that were free. */
  ghost predicate Extends(v: Vol, v': Vol, head: nat, before: seq<nat>, l: seq<nat>)
  {
    && Shaped(v) && Shaped(v') && v'.spc == v.spc && |v'.fat| == |v.fat|
    && before <= l && Chain(v'.fat, head, l)
    && (forall k :: |before| <= k < |l| ==> 2 <= l[k] < |v.fat| && v.fat[l[k]] == 0)
    && forall x :: 0 <= x < |v.fat| && x !in l ==> v'.fat[x] == v.fat[x] && v'.data[x] == v.data[x]
  }

  /** How much of buf the clusters l from index from on hold, and when that is all of it. */
  ghost predicate Holds(v: Vol, r: Written, l: seq<nat>, from: nat, buf: seq<byte>)
  {
    && from <= |l| && v.spc > 0
    && r.ok == (|buf| <= Room(v.spc, |l| - from))
    && (!r.ok ==> FreeSet(r.vol.fat) == {})
    && ReadAlong(r.vol.data, l[from..], |buf|) == buf[..if r.ok then |buf| else Room(v.spc, |l| - from)]
  }

  lemma {:induction false} WriteExtends(v: Vol, head: nat, done: seq<nat>, rest: seq<nat>, c: nat, prev: nat,
      buf: seq<byte>) returns (l: seq<nat>)
    requires Shaped(v) && done + rest != [] && Chain(v.fat, head, done + rest) && Chain(v.fat, c, rest)
    requires done != [] ==> prev == done[|done| - 1]
    ensures Extends(v, WriteFrom(v, c, prev, buf).vol, head, done + rest, l)
    ensures forall x :: x in done && x < |v.data| ==> WriteFrom(v, c, prev, buf).vol.data[x] == v.data[x]
    ensures Holds(v, WriteFrom(v, c, prev, buf), l, |done|, buf)
    ensures |l| > |done + rest| ==> Room(v.spc, |l| - 1 - |done|) < |buf|
    decreases |buf|, rest == [], 2
  {
    hide WriteFrom, Extends, Holds, Room, FreeSet, FirstFree;
    if buf == [] {
      l := done + rest;
      WriteStops(v, head, done, rest, c, prev, buf);
    } else if rest == [] {
      assert done + rest == done && c >= EOF;
      hide Chain;
      var i := FirstFree(v.fat, 2);
      if i == |v.fat| {
        l := done;
        WriteStops(v, head, done, rest, c, prev, buf);
      } else {
        l := WriteAfterClaim(v, head, done, c, prev, i, buf);
      }
    } else {
      hide Chain;
      l := WriteIntoCluster(v, head, done, rest, c, prev, buf);
    }
  }

  /** The cases that write nothing: no octets left, or no cluster free. */
  lemma WriteStops(v: Vol, head: nat, done: seq<nat>, rest: seq<nat>, c: nat, prev: nat, buf: seq<byte>)
    requires Shaped(v) && Chain(v.fat, head, done + rest) && Chain(v.fat, c, rest)
    requires buf == [] || (rest == [] && FirstFree(v.fat, 2) == |v.fat|)
    ensures Extends(v, WriteFrom(v, c, prev, buf).vol, head, done + rest, done + rest)
    ensures WriteFrom(v, c, prev, buf).vol == v
    ensures Holds(v, WriteFrom(v, c, prev, buf), done + rest, |done|, buf)
  {
    hide WriteCluster, PutSectors, TakeSectors, Chain;
    var r := WriteFrom(v, c, prev, buf);
    ChainEmpty(v.fat, c, rest);
    assert (done + rest)[|done|..] == rest;
    if buf != [] {
      assert ReadAlong(v.data, rest, |buf|) == [] == buf[..0];
    } else {
      assert ReadAlong(v.data, rest, |buf|) == [];
    }
  }

  /** The case that needs a cluster: once claimed and linked it is the whole rest of the chain. */
  lemma {:induction false} WriteAfterClaim(v: Vol, head: nat, done: seq<nat>, c: nat, prev: nat, i: nat,
      buf: seq<byte>) returns (l: seq<nat>)
    requires Shaped(v) && done != [] && Chain(v.fat, head, done) && c >= EOF && buf != []
    requires prev == done[|done| - 1] && i == FirstFree(v.fat, 2) && i < |v.fat|
    ensures Extends(v, WriteFrom(v, c, prev, buf).vol, head, done, l)
    ensures forall x :: x in done && x < |v.data| ==> WriteFrom(v, c, prev, buf).vol.data[x] == v.data[x]
    ensures Holds(v, WriteFrom(v, c, prev, buf), l, |done|, buf)
    ensures |l| > |done| ==> Room(v.spc, |l| - 1 - |done|) < |buf|
    decreases |buf|, true, 1
  {
    hide WriteFrom, WriteCluster, PutSectors, ReadAlong, FreeSet, Room, TakeSectors, Chain, Extends, Holds;
    LinkedChain(v, head, done, i);
    var v2 := v.(fat := v.fat[i := LAST][prev := i]);
    ClaimStep(v, c, prev, buf);
    l := WriteExtends(v2, head, done, [i], i, prev, buf);
    ExtendsFromClaim(v, v2, WriteFrom(v, c, prev, buf).vol, head, done, i, l);
    HoldsAlike(v, v2, WriteFrom(v, c, prev, buf), l, |done|, buf);
  }

  /** The lowest free cluster marked last and linked behind the chain. */
  lemma LinkedChain(v: Vol, head: nat, done: seq<nat>, i: nat)
    requires Shaped(v) && done != [] && Chain(v.fat, head, done) && i == FirstFree(v.fat, 2) && i < |v.fat|
    ensures var prev := done[|done| - 1];
      && 2 <= prev < |v.fat| && prev != i
      && var v2 := v.(fat := v.fat[i := LAST][prev := i]);
         Shaped(v2) && Chain(v2.fat, head, done + [i]) && Chain(v2.fat, i, [i])
  {
    var prev := done[|done| - 1];
    ChainInUse(v.fat, head, done, prev);
    if i in done { ChainInUse(v.fat, head, done, i); }
    var fat2 := v.fat[i := LAST][prev := i];
    forall x | x in done[..|done| - 1] && x < |v.fat| ensures fat2[x] == v.fat[x] {
      var k: nat :| k < |done| - 1 && done[k] == x;
      ChainAcyclic(v.fat, head, done, k, |done| - 1);
    }
    ChainExtend(v.fat, fat2, head, done, i);
    assert Chain(fat2, fat2[i], []) && [i][1..] == [];
  }

  lemma ClaimStep(v: Vol, c: nat, prev: nat, buf: seq<byte>)
    requires Shaped(v) && c >= EOF && buf != [] && 2 <= prev < |v.fat|
    requires var i := FirstFree(v.fat, 2); i < |v.fat| && i != prev
    ensures var i := FirstFree(v.fat, 2);
      WriteFrom(v, c, prev, buf) == WriteFrom(v.(fat := v.fat[i := LAST][prev := i]), i, prev, buf)
  {
    hide WriteCluster;
  }

  /** What extends the chain with its claimed cluster extends the chain without. */
  lemma ExtendsFromClaim(v: Vol, v2: Vol, v': Vol, head: nat, done: seq<nat>, i: nat, l: seq<nat>)
    requires Shaped(v) && done != [] && 2 <= i < |v.fat| && v.fat[i] == 0
    requires var prev := done[|done| - 1];
      2 <= prev < |v.fat| && prev != i && v2 == v.(fat := v.fat[i := LAST][prev := i])
    requires Extends(v2, v', head, done + [i], l)
    ensures Extends(v, v', head, done, l)
  {
    hide Chain, Shaped;
    var prev := done[|done| - 1];
    assert l[|done| - 1] == (done + [i])[|done| - 1] == prev && l[|done|] == (done + [i])[|done|] == i;
    assert done <= l by { assert done == (done + [i])[..|done|]; }
    forall k | |done| <= k < |l| ensures 2 <= l[k] < |v.fat| && v.fat[l[k]] == 0 {
      if k > |done| { assert v2.fat[l[k]] == 0; }
    }
  }

  lemma HoldsAlike(v: Vol, v2: Vol, r: Written, l: seq<nat>, from: nat, buf: seq<byte>)
    requires Holds(v2, r, l, from, buf) && v2.spc == v.spc
    ensures Holds(v, r, l, from, buf)
  {
    hide ReadAlong, Room, FreeSet;
  }

  /** The case that has a cluster: it takes the next part of buf. */
  lemma {:induction false} WriteIntoCluster(v: Vol, head: nat, done: seq<nat>, rest: seq<nat>, c: nat, prev: nat,
      buf: seq<byte>) returns (l: seq<nat>)
    requires Shaped(v) && rest != [] && Chain(v.fat, head, done + rest) && Chain(v.fat, c, rest) && buf != []
    ensures Extends(v, WriteFrom(v, c, prev, buf).vol, head, done + rest, l)
    ensures forall x :: x in done && x < |v.data| ==> WriteFrom(v, c, prev, buf).vol.data[x] == v.data[x]
    ensures Holds(v, WriteFrom(v, c, prev, buf), l, |done|, buf)
    ensures |l| > |done + rest| ==> Room(v.spc, |l| - 1 - |done|) < |buf|
    decreases |buf|, false, 1
  {
    hide WriteFrom, Room, Holds, PutSectors;
    var (sectors, tail) := PutSectors(v.data[c], 0, buf);
    var v1 := v.(data := v.data[c := sectors]);
    var r := WriteFrom(v1, v.fat[c], c, tail);
    assert WriteFrom(v, c, prev, buf) == r by { WriteStep(v, c, prev, buf); }
    var done1, rest1 := done + [c], rest[1..];
    assert done1 + rest1 == done + rest;
    assert Chain(v1.fat, v.fat[c], rest1);
    l := WriteExtends(v1, head, done1, rest1, v.fat[c], c, tail);
    assert l[|done|] == (done + rest)[|done|] == c;
    assert c !in done by {
      if c in done {
        var k: nat :| k < |done| && done[k] == c;
        ChainAcyclic(v.fat, head, done + rest, k, |done|);
      }
    }
    if |l| > |done + rest| {
      RoomSucc(v.spc, |l| - 2 - |done|);
      PutThenTake(v.data[c], 0, buf);
    }
    HoldsOneMore(v, v1, r, l, done, c, buf, sectors, tail);
  }

  lemma WriteStep(v: Vol, c: nat, prev: nat, buf: seq<byte>)
    requires Shaped(v) && 2 <= c < |v.fat| && buf != [] && c < EOF
    ensures var (sectors, tail) := PutSectors(v.data[c], 0, buf);
      WriteFrom(v, c, prev, buf) == WriteFrom(v.(data := v.data[c := sectors]), v.fat[c], c, tail)
  {
  }

  lemma HoldsOneMore(v: Vol, v1: Vol, r: Written, l: seq<nat>, done: seq<nat>, c: nat, buf: seq<byte>,
      sectors: seq<Sector>, tail: seq<byte>)
    requires Shaped(v) && c < |v.data| && |done| < |l| && l[|done|] == c && buf != []
    requires (sectors, tail) == PutSectors(v.data[c], 0, buf)
    requires v1 == v.(data := v.data[c := sectors]) && |r.vol.data| == |v.data| && r.vol.data[c] == sectors
    requires Holds(v1, r, l, |done| + 1, tail)
    ensures Holds(v, r, l, |done|, buf)
  {
    hide PutSectors, TakeSectors, ReadAlong, Room, Shaped, FreeSet;
    PutThenTake(v.data[c], 0, buf);
    var m, k := l[|done|..], |l| - |done| - 1;
    assert m[0] == c && m[1..] == l[|done| + 1..];
    var got := |buf| - |tail|;
    RoomSucc(v.spc, k);
    ClusterSize(v, c);
    var n := if r.ok then |tail| else Room(v.spc, k);
    assert n <= |tail| && r.ok == (|buf| <= Room(v.spc, k + 1));
    assert got + n == if r.ok then |buf| else Room(v.spc, k + 1);
    ReadOneMore(r.vol.data, m, buf, got, n);
  }

  lemma ReadOneMore(data: seq<seq<Sector>>, l: seq<nat>, buf: seq<byte>, got: nat, n: nat)
    requires l != [] && buf != [] && l[0] < |data| && got + n <= |buf|
    requires TakeSectors(data[l[0]], 0, |buf|) == buf[..got]
    requires ReadAlong(data, l[1..], |buf| - got) == buf[got..][..n]
    ensures ReadAlong(data, l, |buf|) == buf[..got + n]
  {
    hide TakeSectors, ReadAlong;
    ReadStep(data, l, |buf|);
    PrefixJoin(buf, got, n);
  }

  lemma ReadStep(data: seq<seq<Sector>>, l: seq<nat>, want: nat)
    requires l != [] && want > 0 && l[0] < |data|
    ensures var got := TakeSectors(data[l[0]], 0, want);
      ReadAlong(data, l, want) == got + ReadAlong(data, l[1..], want - |got|)
  {
    hide TakeSectors;
  }

  lemma PrefixJoin(buf: seq<byte>, k: nat, n: nat)
    requires k + n <= |buf|
    ensures buf[..k] + buf[k..][..n] == buf[..k + n]
  {
  }
}
