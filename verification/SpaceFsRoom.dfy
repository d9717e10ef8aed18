/** Why SpaceFS never runs out of blocks: its 256 inodes of ten blocks cannot hold the 4096 blocks of
    its bitmap. */
module SpaceFsRoom {
  import opened SpaceFsState

  /** Distinct numbers below b are at most b of them. */
  lemma {:induction false} Pigeonhole(s: seq<nat>, b: nat)
    requires forall i, j :: 0 <= i < j < |s| ==> s[i] != s[j]
    requires forall i :: 0 <= i < |s| ==> s[i] < b
    ensures |s| <= b
    decreases b
  {
    if s != [] {
      assert s[0] < b;
      var j: nat := if exists k :: 0 <= k < |s| && s[k] == b - 1 then var k :| 0 <= k < |s| && s[k] == b - 1; k else 0;
      Pigeonhole(s[..j] + s[j + 1..], b - 1);
    }
  }

  /** The place of slot k of inode n among all slots. */
  function PlaceOf(p: (nat, nat)): (i: nat) { DIRECT * p.0 + p.1 }

  lemma PlaceOnce(p: (nat, nat), q: (nat, nat))
    requires p.1 < DIRECT && q.1 < DIRECT && PlaceOf(p) == PlaceOf(q)
    ensures p == q
  {
  }

  /** The places of blocks in use: each in range, no two alike. */
  lemma PlacesApart(own: seq<(nat, nat)>, places: seq<nat>)
    requires |own| == |places| && forall i :: 0 <= i < |own| ==> places[i] == PlaceOf(own[i])
    requires forall i :: 0 <= i < |own| ==> own[i].0 < INODE_MAX && own[i].1 < DIRECT
    requires forall i, j :: 0 <= i < j < |own| ==> own[i] != own[j]
    ensures forall i :: 0 <= i < |places| ==> places[i] < INODE_MAX * DIRECT
    ensures forall i, j :: 0 <= i < j < |places| ==> places[i] != places[j]
  {
    hide PlaceOf;
    forall i | 0 <= i < |places|
      ensures places[i] < INODE_MAX * DIRECT
    {
      PlaceBound(own[i]);
    }
    forall i, j | 0 <= i < j < |places|
      ensures places[i] != places[j]
    {
      if places[i] == places[j] { PlaceOnce(own[i], own[j]); }
    }
  }

  /** Were every block in use, each would have a slot of its own. */
  lemma OwnersApart(fs: Fs, own: seq<(nat, nat)>)
    requires Shaped(fs) && BlocksOwned(fs, own) && forall i: nat :: i < BMAP_BITS ==> fs.blockMap[i]
    ensures |own| == BMAP_BITS
    ensures forall i :: 0 <= i < |own| ==> own[i].0 < INODE_MAX && own[i].1 < DIRECT
    ensures forall i, j :: 0 <= i < j < |own| ==> own[i] != own[j]
  {
    hide BlockOf;
    forall i: nat | i < BMAP_BITS
      ensures own[i].0 < INODE_MAX && own[i].1 < DIRECT && BlockOf(fs, own[i].0, own[i].1) == DATA_START + i
    {
      assert fs.blockMap[i];
    }
  }

  /** In a consistent file system some block is free. */
  lemma BlockLeft(fs: Fs, own: seq<(nat, nat)>)
    requires Shaped(fs) && BlocksOwned(fs, own)
    ensures exists i: nat :: i < BMAP_BITS && !fs.blockMap[i]
  {
    hide BlocksOwned, BlockOf, PlaceOf;
    if forall i: nat :: i < BMAP_BITS ==> fs.blockMap[i] {
      OwnersApart(fs, own);
      var places := seq(BMAP_BITS, i requires 0 <= i < BMAP_BITS => PlaceOf(own[i]));
      PlacesApart(own, places);
      Pigeonhole(places, INODE_MAX * DIRECT);
    }
  }

  lemma PlaceBound(p: (nat, nat))
    requires p.0 < INODE_MAX && p.1 < DIRECT
    ensures PlaceOf(p) < INODE_MAX * DIRECT
  {
  }
}
