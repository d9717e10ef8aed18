/** Directories laid out over the sectors of a cluster chain: where a scan of the slots, sector by sector
    and cluster by cluster, stops, and what storing one slot changes. */
module FatDirScan {
  import opened Bytes
  import opened Disk
  import opened FatChains
  import opened FatDirs

  /** The sixteen slots of a sector. */
  function SectorSlots(sec: Sector): (d: seq<Slot>)
    ensures |d| == 16
  {
    seq(16, i requires 0 <= i < 16 => sec[32 * i..32 * i + 32])
  }

  function ClusterSlots(sectors: seq<Sector>): (d: seq<Slot>)
    ensures |d| == 16 * |sectors|
  {
    if sectors == [] then [] else SectorSlots(sectors[0]) + ClusterSlots(sectors[1..])
  }

  /** The slots of a directory whose chain is l. */
  function DirSlots(data: seq<seq<Sector>>, l: seq<nat>): (d: seq<Slot>)
  {
    if l == [] || l[0] >= |data| then [] else ClusterSlots(data[l[0]]) + DirSlots(data, l[1..])
  }

  /** ---- Scans ---- */

  /** What a scan looks for: a slot that answers to a name, or room for a new one. */
  datatype Query = Named(name: seq<byte>, labels: bool) | Room

  datatype Verdict = Take | Stop | Pass

  function Judge(q: Query, s: Slot): (v: Verdict)
    requires q.Named? ==> |q.name| == 11
  {
    match q
    case Named(name, labels) => if Ends(s) then Stop else if Hits(s, name, labels) then Take else Pass
    case Room => if Vacant(s) then Take else Pass
  }

  datatype Outcome = Taken(at: nat) | Stopped | Passed

  function Shift(o: Outcome, n: nat): (r: Outcome)
  {
    if o.Taken? then Taken(n + o.at) else o
  }

  /** The first slot taken, unless the scan stops before. */
  function Scan(q: Query, d: seq<Slot>): (o: Outcome)
    requires q.Named? ==> |q.name| == 11
    ensures o.Taken? ==> o.at < |d|
  {
    if d == [] then Passed
    else match Judge(q, d[0])
      case Take => Taken(0)
      case Stop => Stopped
      case Pass => Shift(Scan(q, d[1..]), 1)
  }

  lemma {:induction false} ScanConcat(q: Query, a: seq<Slot>, b: seq<Slot>)
    requires q.Named? ==> |q.name| == 11
    ensures Scan(q, a + b) == if Scan(q, a) == Passed then Shift(Scan(q, b), |a|) else Scan(q, a)
    decreases |a|
  {
    if a == [] {
      assert a + b == b;
    } else {
      assert (a + b)[1..] == a[1..] + b;
      ScanConcat(q, a[1..], b);
    }
  }

  /** A scan for a name is the search. */
  lemma {:induction false} ScanIsSearch(d: seq<Slot>, name: seq<byte>, labels: bool, i: nat)
    requires |name| == 11 && i <= |d|
    ensures Search(d, name, labels, i) == var o := Scan(Named(name, labels), d[i..]); if o.Taken? then i + o.at else |d|
    decreases |d| - i
  {
    hide Hits, Ends;
    if i < |d| {
      ScanIsSearch(d, name, labels, i + 1);
      assert d[i..][1..] == d[i + 1..];
    }
  }

  lemma {:induction false} ScanIsVacant(d: seq<Slot>, i: nat)
    requires i <= |d|
    ensures FirstVacant(d, i) == var o := Scan(Room, d[i..]); if o.Taken? then i + o.at else |d|
    decreases |d| - i
  {
    hide Vacant;
    if i < |d| {
      ScanIsVacant(d, i + 1);
      assert d[i..][1..] == d[i + 1..];
    }
  }

  /** ---- Storing a slot ---- */

  lemma {:induction false} ClusterSlotsAt(sectors: seq<Sector>, s: nat)
    requires s < |sectors|
    ensures ClusterSlots(sectors) == ClusterSlots(sectors[..s])
            + (SectorSlots(sectors[s]) + ClusterSlots(sectors[s + 1..]))
    decreases s
  {
    hide SectorSlots;
    if s == 0 {
      assert sectors[..0] == [];
    } else {
      ClusterSlotsAt(sectors[1..], s - 1);
      assert sectors[1..][..s - 1] == sectors[..s][1..] && sectors[1..][s..] == sectors[s + 1..];
    }
  }

  /** Splitting off the sectors not yet scanned. */
  lemma ClusterSlotsFrom(sectors: seq<Sector>, s: nat)
    requires s < |sectors|
    ensures ClusterSlots(sectors[s..]) == SectorSlots(sectors[s]) + ClusterSlots(sectors[s + 1..])
  {
    assert sectors[s..][1..] == sectors[s + 1..];
  }

  predicate Within(l: seq<nat>, n: nat)
  {
    forall k :: 0 <= k < |l| ==> l[k] < n
  }

  lemma {:induction false} DirSlotsAt(data: seq<seq<Sector>>, l: seq<nat>, p: nat)
    requires p < |l| && Within(l, |data|)
    ensures DirSlots(data, l) == DirSlots(data, l[..p]) + (ClusterSlots(data[l[p]]) + DirSlots(data, l[p + 1..]))
    decreases p
  {
    hide ClusterSlots;
    if p == 0 {
      assert l[..0] == [];
    } else {
      DirSlotsAt(data, l[1..], p - 1);
      assert l[1..][..p - 1] == l[..p][1..] && l[1..][p..] == l[p + 1..];
    }
  }

  lemma {:induction false} DirSlotsFrame(data: seq<seq<Sector>>, data': seq<seq<Sector>>, l: seq<nat>)
    requires |data'| == |data| && forall x :: x in l && x < |data| ==> data'[x] == data[x]
    ensures DirSlots(data', l) == DirSlots(data, l)
    decreases |l|
  {
    hide ClusterSlots;
    if l != [] && l[0] < |data| { DirSlotsFrame(data, data', l[1..]); }
  }

  /** Replacing the slot at 32 * i of a sector. */
  function PutSlot(sec: Sector, i: nat, slot: Slot): (r: Sector)
    requires i < 16
  {
    sec[..32 * i] + slot + sec[32 * i + 32..]
  }

  lemma PutSlotSlots(sec: Sector, i: nat, slot: Slot)
    requires i < 16
    ensures SectorSlots(PutSlot(sec, i, slot)) == SectorSlots(sec)[i := slot]
  {
    var r := PutSlot(sec, i, slot);
    forall k | 0 <= k < 16 ensures SectorSlots(r)[k] == if k == i then slot else SectorSlots(sec)[k] {
      assert r[32 * k..32 * k + 32] == if k == i then slot else sec[32 * k..32 * k + 32];
    }
  }

  /** Slot i of sector s of the p-th cluster of the directory is its slot at. */
  ghost predicate Place(data: seq<seq<Sector>>, l: seq<nat>, at: nat, p: nat, s: nat, i: nat)
  {
    && p < |l| && Within(l, |data|)
    && s < |data[l[p]]| && i < 16
    && at == |DirSlots(data, l[..p])| + 16 * s + i
  }

  lemma PlaceSlot(data: seq<seq<Sector>>, l: seq<nat>, at: nat, p: nat, s: nat, i: nat)
    requires Place(data, l, at, p, s, i)
    ensures at < |DirSlots(data, l)| && DirSlots(data, l)[at] == SectorSlots(data[l[p]][s])[i]
  {
    hide SectorSlots, ClusterSlots, DirSlots;
    DirSlotsAt(data, l, p);
    ClusterSlotsAt(data[l[p]], s);
  }

  /** Storing a slot changes that slot of the directory and no other. */
  lemma PlaceStored(data: seq<seq<Sector>>, data': seq<seq<Sector>>, l: seq<nat>, at: nat, p: nat, s: nat, i: nat,
      slot: Slot)
    requires Place(data, l, at, p, s, i) && |data'| == |data|
    requires forall j, k :: 0 <= j < k < |l| ==> l[j] != l[k]
    requires data'[l[p]] == data[l[p]][s := PutSlot(data[l[p]][s], i, slot)]
    requires forall x :: 0 <= x < |data| && x != l[p] ==> data'[x] == data[x]
    ensures at < |DirSlots(data, l)| && DirSlots(data', l) == DirSlots(data, l)[at := slot]
  {
    hide SectorSlots, ClusterSlots, DirSlots, PutSlot;
    var c := l[p];
    DirSlotsAt(data, l, p);
    DirSlotsAt(data', l, p);
    DirSlotsFrame(data, data', l[..p]);
    DirSlotsFrame(data, data', l[p + 1..]);
    ClusterSlotsAt(data[c], s);
    ClusterSlotsAt(data'[c], s);
    assert data'[c][..s] == data[c][..s] && data'[c][s + 1..] == data[c][s + 1..];
    PutSlotSlots(data[c][s], i, slot);
  }
}
