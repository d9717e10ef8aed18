/** SpaceFS (kernel/fs/spacefs.c) as a value: the counters of the superblock, the two bitmaps, the
    inode table and the sectors; and the invariant that ties them together. */
module SpaceFsState {
  import opened Bytes
  import opened Disk
  import opened Dirents

  const INODE_MAX: nat := 256
  const DATA_START: nat := 99
  const TOTAL_SECTORS: nat := 65536
  const TOTAL_BLOCKS: nat := 65437
  const BMAP_BITS: nat := 4096
  const DIRECT: nat := 10
  const SLOTS: nat := 160
  const WORD: nat := 0x1_0000_0000
  const KIND_FILE: nat := 1
  const KIND_DIR: nat := 2

  datatype Inode = Inode(kind: nat, nlinks: nat, size: nat, mtime: nat, blocks: seq<nat>)

  const NO_BLOCKS: seq<nat> := [0, 0, 0, 0, 0, 0, 0, 0, 0, 0]

  datatype Fs = Fs(freeBlocks: nat, freeInodes: nat, inodeMap: seq<bool>, blockMap: seq<bool>, inodes: seq<Inode>,
    data: seq<Sector>)

  predicate Shaped(fs: Fs)
  {
    && |fs.inodeMap| == INODE_MAX && |fs.blockMap| == BMAP_BITS && |fs.inodes| == INODE_MAX
      && |fs.data| == TOTAL_SECTORS
    && forall n :: 0 <= n < INODE_MAX ==> |fs.inodes[n].blocks| == DIRECT
  }

  /** Number of set bits. */
  function Count(bits: seq<bool>): (c: nat)
    ensures c <= |bits|
  {
    if bits == [] then 0 else (if bits[0] then 1 else 0) + Count(bits[1..])
  }

  /** ---- Directory slots: slot k is entry k mod 16 of block k / 16 ---- */

  predicate HasSlot(ino: Inode, k: nat)
    requires |ino.blocks| == DIRECT
  {
    k < SLOTS && ino.blocks[k / PER_BLOCK] != 0
  }

  function Slot(data: seq<Sector>, ino: Inode, k: nat): (e: Dirent)
    requires |ino.blocks| == DIRECT && HasSlot(ino, k) && ino.blocks[k / PER_BLOCK] < |data|
  {
    DirentAt(data[ino.blocks[k / PER_BLOCK]], k % PER_BLOCK)
  }

  /** Slot k of directory n names some inode. */
  ghost predicate Names(fs: Fs, n: nat, k: nat)
    requires Shaped(fs) && n < INODE_MAX
  {
    && fs.inodeMap[n] && fs.inodes[n].kind == KIND_DIR && HasSlot(fs.inodes[n], k)
    && fs.inodes[n].blocks[k / PER_BLOCK] < TOTAL_SECTORS
    && Slot(fs.data, fs.inodes[n], k).inode != 0
  }

  function Entry(fs: Fs, n: nat, k: nat): (e: Dirent)
    requires Shaped(fs) && n < INODE_MAX && Names(fs, n, k)
  {
    Slot(fs.data, fs.inodes[n], k)
  }

  function Child(fs: Fs, n: nat, k: nat): (c: nat)
    requires Shaped(fs) && n < INODE_MAX && Names(fs, n, k)
  {
    Entry(fs, n, k).inode
  }

  /** The sector in slot k of inode n, zero for none. */
  function BlockOf(fs: Fs, n: nat, k: nat): (b: nat)
    requires n < |fs.inodes| && k < |fs.inodes[n].blocks|
  {
    fs.inodes[n].blocks[k]
  }

  /** ---- The invariant. own records, for each block bit, the inode and slot holding the block;
      named records, for each inode, the directory and slot naming it. ---- */

  ghost predicate BlocksOwned(fs: Fs, own: seq<(nat, nat)>)
    requires Shaped(fs)
  {
    && |own| == BMAP_BITS
    && (forall n: nat, k: nat {:trigger BlockOf(fs, n, k)} ::
        n < INODE_MAX && fs.inodeMap[n] && k < DIRECT && BlockOf(fs, n, k) != 0 ==>
          var b := BlockOf(fs, n, k);
          DATA_START <= b < DATA_START + BMAP_BITS && fs.blockMap[b - DATA_START] && own[b - DATA_START] == (n, k))
    && (forall i: nat {:trigger fs.blockMap[i]} {:trigger own[i]} :: i < BMAP_BITS && fs.blockMap[i] ==>
          && own[i].0 < INODE_MAX && fs.inodeMap[own[i].0] && own[i].1 < DIRECT
          && BlockOf(fs, own[i].0, own[i].1) == DATA_START + i)
  }

  ghost predicate NamesUnique(fs: Fs, named: seq<(nat, nat)>)
    requires Shaped(fs)
  {
    && |named| == INODE_MAX
    && forall n: nat, k: nat {:trigger Names(fs, n, k)} :: n < INODE_MAX && Names(fs, n, k) ==>
         var c := Child(fs, n, k);
         0 < c < INODE_MAX && c != n && fs.inodeMap[c] && named[c] == (n, k)
  }

  /** Every live directory: blocks without gaps, no name at or beyond size / 32, and every name ended by a NUL
      inside its entry. */
  ghost predicate DirsPacked(fs: Fs)
    requires Shaped(fs)
  {
    && (forall n: nat, b: nat, c: nat {:trigger BlockOf(fs, n, b), BlockOf(fs, n, c)} ::
          n < INODE_MAX && b < c < DIRECT && fs.inodeMap[n] && fs.inodes[n].kind == KIND_DIR
            && BlockOf(fs, n, c) != 0 ==>
          BlockOf(fs, n, b) != 0)
    && (forall n: nat, k: nat {:trigger Names(fs, n, k)} :: n < INODE_MAX && Names(fs, n, k) ==>
      k < fs.inodes[n].size / 32 && |Entry(fs, n, k).name| <= NAME_MAX)
  }

  ghost predicate CountsRight(fs: Fs)
  {
    fs.freeBlocks + Count(fs.blockMap) == TOTAL_BLOCKS && fs.freeInodes + Count(fs.inodeMap) == INODE_MAX
  }

  ghost predicate Inv(fs: Fs, own: seq<(nat, nat)>, named: seq<(nat, nat)>)
  {
    && Shaped(fs) && BlocksOwned(fs, own) && NamesUnique(fs, named) && DirsPacked(fs) && CountsRight(fs)
    && fs.inodeMap[0] && fs.inodes[0].kind == KIND_DIR
  }

  ghost predicate Consistent(fs: Fs) { exists own, named :: Inv(fs, own, named) }

  /** ---- Elementary changes. Each operation of the code is a sequence of them. ---- */

  function FreshInode(kind: nat, now: nat): (ino: Inode)
  {
    Inode(kind, 1, 0, now, NO_BLOCKS)
  }

  /** A free inode is taken and written. */
  function Birth(fs: Fs, n: nat, kind: nat, now: nat): (fs': Fs)
    requires n < |fs.inodeMap| && n < |fs.inodes| && fs.freeInodes > 0
  {
    fs.(inodeMap := fs.inodeMap[n := true], freeInodes := fs.freeInodes - 1,
      inodes := fs.inodes[n := FreshInode(kind, now)])
  }

  /** An inode without blocks is given back. */
  function Kill(fs: Fs, n: nat): (fs': Fs)
    requires n < |fs.inodeMap|
  {
    fs.(inodeMap := fs.inodeMap[n := false], freeInodes := fs.freeInodes + 1)
  }

  /** A free block is taken into slot k of an inode and written. */
  function Attach(fs: Fs, n: nat, k: nat, i: nat, content: Sector): (fs': Fs)
    requires n < |fs.inodes| && k < |fs.inodes[n].blocks| && i < |fs.blockMap| && DATA_START + i < |fs.data|
             && fs.freeBlocks > 0
  {
    var ino := fs.inodes[n];
    fs.(blockMap := fs.blockMap[i := true], freeBlocks := fs.freeBlocks - 1,
        inodes := fs.inodes[n := ino.(blocks := ino.blocks[k := DATA_START + i])],
        data := fs.data[DATA_START + i := content])
  }

  /** Slot k of an inode gives its block, if any, back. */
  function Drop(fs: Fs, n: nat, k: nat): (fs': Fs)
    requires n < |fs.inodes| && k < |fs.inodes[n].blocks|
  {
    var ino := fs.inodes[n];
    var b := ino.blocks[k];
    if b < DATA_START || b - DATA_START >= |fs.blockMap| then fs
    else
      fs.(blockMap := fs.blockMap[b - DATA_START := false], freeBlocks := fs.freeBlocks + 1,
          inodes := fs.inodes[n := ino.(blocks := ino.blocks[k := 0])])
  }

  /** The fields other than the blocks are rewritten. */
  function Relabel(fs: Fs, n: nat, kind: nat, size: nat): (fs': Fs)
    requires n < |fs.inodes|
  {
    fs.(inodes := fs.inodes[n := fs.inodes[n].(kind := kind, size := size)])
  }

  /** A free slot of a directory gets a name, and the directory grows by one entry. */
  function Enter(fs: Fs, n: nat, k: nat, child: nat, name: Name): (fs': Fs)
    requires n < |fs.inodes| && |fs.inodes[n].blocks| == DIRECT && k < SLOTS
             && fs.inodes[n].blocks[k / PER_BLOCK] < |fs.data|
  {
    var ino := fs.inodes[n];
    var b := ino.blocks[k / PER_BLOCK];
    fs.(data := fs.data[b := Put(fs.data[b], k % PER_BLOCK, child, name)],
        inodes := fs.inodes[n := ino.(size := ino.size + 32)])
  }

  /** A slot of a directory is freed. */
  function Erase(fs: Fs, n: nat, k: nat): (fs': Fs)
    requires n < |fs.inodes| && |fs.inodes[n].blocks| == DIRECT && k < SLOTS
             && fs.inodes[n].blocks[k / PER_BLOCK] < |fs.data|
  {
    var b := fs.inodes[n].blocks[k / PER_BLOCK];
    fs.(data := fs.data[b := Clear(fs.data[b], k % PER_BLOCK)])
  }

  /** ---- Each keeps the invariant ---- */

  lemma {:induction false} CountUpdate(bits: seq<bool>, i: nat, v: bool)
    requires i < |bits|
    ensures Count(bits[i := v]) == Count(bits) + (if v then 1 else 0) - (if bits[i] then 1 else 0)
  {
    if i == 0 {
      assert bits[i := v][1..] == bits[1..];
    } else {
      assert bits[i := v][1..] == bits[1..][i - 1 := v];
      CountUpdate(bits[1..], i - 1, v);
    }
  }

  lemma {:induction false} CountNotFull(bits: seq<bool>, i: nat)
    requires i < |bits| && !bits[i]
    ensures Count(bits) < |bits|
  {
    if i > 0 { CountNotFull(bits[1..], i - 1); }
  }

  /** No slot names inode c. */
  ghost predicate Unnamed(fs: Fs, c: nat)
    requires Shaped(fs)
  {
    forall n: nat, k: nat {:trigger Names(fs, n, k)} :: n < INODE_MAX && Names(fs, n, k) ==> Child(fs, n, k) != c
  }

  /** fs' has the blocks of fs, except that slot (n, k) now holds b. */
  ghost predicate SameBlocksBut(fs: Fs, fs': Fs, n: nat, k: nat, b: nat)
    requires Shaped(fs) && Shaped(fs')
  {
    forall m: nat, j: nat {:trigger BlockOf(fs', m, j)} :: m < INODE_MAX && j < DIRECT ==>
      BlockOf(fs', m, j) == if m == n && j == k then b else BlockOf(fs, m, j)
  }

  /** Every slot of fs' names what it names in fs. */
  ghost predicate SameNames(fs: Fs, fs': Fs)
    requires Shaped(fs) && Shaped(fs')
  {
    forall m: nat, k: nat {:trigger Names(fs', m, k)} {:trigger Names(fs, m, k)} :: m < INODE_MAX ==>
      Names(fs', m, k) == Names(fs, m, k) && (Names(fs, m, k) ==> Entry(fs', m, k) == Entry(fs, m, k))
  }

  /** fs' differs from fs in the name of slot (n, k) alone. */
  ghost predicate NamesBut(fs: Fs, fs': Fs, n: nat, k: nat)
    requires Shaped(fs) && Shaped(fs')
  {
    forall m: nat, s: nat {:trigger Names(fs', m, s)} {:trigger Names(fs, m, s)} ::
      m < INODE_MAX && (m, s) != (n, k) ==>
      Names(fs', m, s) == Names(fs, m, s) && (Names(fs', m, s) ==> Entry(fs', m, s) == Entry(fs, m, s))
  }

  ghost predicate SameBlocks(fs: Fs, fs': Fs)
    requires Shaped(fs) && Shaped(fs')
  {
    forall m: nat, j: nat {:trigger BlockOf(fs', m, j)} :: m < INODE_MAX && j < DIRECT ==>
      BlockOf(fs', m, j) == BlockOf(fs, m, j)
  }

  lemma BirthFrame(fs: Fs, n: nat, kind: nat, now: nat)
    requires Shaped(fs) && n < INODE_MAX && !fs.inodeMap[n] && fs.freeInodes > 0
    ensures var fs' := Birth(fs, n, kind, now);
      && Shaped(fs') && SameNames(fs, fs')
      && forall m: nat, j: nat {:trigger BlockOf(fs', m, j)} :: m < INODE_MAX && j < DIRECT ==>
           BlockOf(fs', m, j) == if m == n then 0 else BlockOf(fs, m, j)
  {
  }

  lemma BirthKeeps(fs: Fs, own: seq<(nat, nat)>, named: seq<(nat, nat)>, n: nat, kind: nat, now: nat)
    requires Inv(fs, own, named) && n < INODE_MAX && !fs.inodeMap[n] && fs.freeInodes > 0
    ensures var fs' := Birth(fs, n, kind, now);
      Inv(fs', own, named) && Unnamed(fs', n) && SameNames(fs, fs')
  {
    hide BlockOf, Names, Entry, BlocksOwned, NamesUnique, DirsPacked, SameNames, Count;
    BirthFrame(fs, n, kind, now);
    CountUpdate(fs.inodeMap, n, true);
    BirthOwned(fs, Birth(fs, n, kind, now), own, n);
    BirthNames(fs, Birth(fs, n, kind, now), named, n);
  }

  lemma BirthOwned(fs: Fs, fs': Fs, own: seq<(nat, nat)>, n: nat)
    requires Shaped(fs) && Shaped(fs') && BlocksOwned(fs, own) && n < INODE_MAX && !fs.inodeMap[n]
    requires fs'.inodeMap == fs.inodeMap[n := true] && fs'.blockMap == fs.blockMap
    requires forall m: nat, j: nat {:trigger BlockOf(fs', m, j)} :: m < INODE_MAX && j < DIRECT ==>
               BlockOf(fs', m, j) == if m == n then 0 else BlockOf(fs, m, j)
    ensures BlocksOwned(fs', own)
  {
    hide BlockOf;
  }

  lemma BirthNames(fs: Fs, fs': Fs, named: seq<(nat, nat)>, n: nat)
    requires Shaped(fs) && Shaped(fs') && NamesUnique(fs, named) && DirsPacked(fs) && SameNames(fs, fs')
    requires n < INODE_MAX && !fs.inodeMap[n] && fs'.inodeMap == fs.inodeMap[n := true]
    requires forall m: nat {:trigger fs'.inodes[m]} :: m < INODE_MAX && m != n ==> fs'.inodes[m] == fs.inodes[m]
    requires forall m: nat, j: nat {:trigger BlockOf(fs', m, j)} :: m < INODE_MAX && j < DIRECT ==>
               BlockOf(fs', m, j) == if m == n then 0 else BlockOf(fs, m, j)
    ensures NamesUnique(fs', named) && DirsPacked(fs') && Unnamed(fs', n)
  {
    forall k: nat ensures !Names(fs, n, k) { }
    hide BlockOf, Names, Entry;
  }

  lemma KillFrame(fs: Fs, n: nat)
    requires Shaped(fs) && n < INODE_MAX && forall k :: 0 <= k < DIRECT ==> fs.inodes[n].blocks[k] == 0
    ensures var fs' := Kill(fs, n);
      && Shaped(fs') && SameNames(fs, fs')
      && forall m: nat, j: nat {:trigger BlockOf(fs', m, j)} :: m < INODE_MAX && j < DIRECT ==>
           BlockOf(fs', m, j) == BlockOf(fs, m, j) && (m == n ==> BlockOf(fs, m, j) == 0)
  {
  }

  lemma KillKeeps(fs: Fs, own: seq<(nat, nat)>, named: seq<(nat, nat)>, n: nat)
    requires Inv(fs, own, named) && 0 < n < INODE_MAX && fs.inodeMap[n] && Unnamed(fs, n)
    requires forall k :: 0 <= k < DIRECT ==> fs.inodes[n].blocks[k] == 0
    ensures Inv(Kill(fs, n), own, named) && SameNames(fs, Kill(fs, n))
  {
    KillFrame(fs, n);
    CountUpdate(fs.inodeMap, n, false);
    hide BlockOf, Names, Entry;
  }

  lemma AttachFrame(fs: Fs, n: nat, k: nat, i: nat, content: Sector)
    requires Shaped(fs) && n < INODE_MAX && fs.inodeMap[n] && k < DIRECT && fs.inodes[n].blocks[k] == 0
    requires i < BMAP_BITS && fs.freeBlocks > 0
    requires forall m: nat, j: nat :: m < INODE_MAX && j < DIRECT && fs.inodeMap[m] ==>
             fs.inodes[m].blocks[j] != DATA_START + i
    requires fs.inodes[n].kind == KIND_DIR ==> forall j: nat :: j < PER_BLOCK ==> DirentAt(content, j).inode == 0
    ensures var fs' := Attach(fs, n, k, i, content);
      Shaped(fs') && SameNames(fs, fs') && SameBlocksBut(fs, fs', n, k, DATA_START + i)
  {
    hide DirentAt;
    var fs' := Attach(fs, n, k, i, content);
    forall m: nat, s: nat | m < INODE_MAX
      ensures Names(fs', m, s) == Names(fs, m, s)
      ensures Names(fs', m, s) ==> Entry(fs', m, s) == Entry(fs, m, s)
    {
      if s < SLOTS && fs.inodeMap[m] {
        assert fs.inodes[m].blocks[s / PER_BLOCK] != DATA_START + i;
      }
    }
  }

  lemma AttachOwned(fs: Fs, fs': Fs, own: seq<(nat, nat)>, n: nat, k: nat, i: nat)
    requires Shaped(fs) && Shaped(fs') && BlocksOwned(fs, own) && n < INODE_MAX && fs.inodeMap[n] && k < DIRECT
    requires i < BMAP_BITS && !fs.blockMap[i] && BlockOf(fs, n, k) == 0
    requires fs'.inodeMap == fs.inodeMap && fs'.blockMap == fs.blockMap[i := true]
    requires SameBlocksBut(fs, fs', n, k, DATA_START + i)
    ensures BlocksOwned(fs', own[i := (n, k)])
  {
    hide BlockOf;
    var own' := own[i := (n, k)];
    forall m: nat, j: nat | m < INODE_MAX && fs'.inodeMap[m] && j < DIRECT && BlockOf(fs', m, j) != 0
      ensures var b := BlockOf(fs', m, j);
        DATA_START <= b < DATA_START + BMAP_BITS && fs'.blockMap[b - DATA_START] && own'[b - DATA_START] == (m, j)
    {
      assert BlockOf(fs, m, j) - DATA_START != i;
    }
    forall c: nat | c < BMAP_BITS && fs'.blockMap[c]
      ensures own'[c].0 < INODE_MAX && fs'.inodeMap[own'[c].0] && own'[c].1 < DIRECT
      ensures BlockOf(fs', own'[c].0, own'[c].1) == DATA_START + c
    {
      if c != i { assert fs.blockMap[c] && own'[c] == own[c]; }
    }
  }

  lemma AttachKeeps(fs: Fs, own: seq<(nat, nat)>, named: seq<(nat, nat)>, n: nat, k: nat, i: nat, content: Sector)
    requires Inv(fs, own, named) && n < INODE_MAX && fs.inodeMap[n] && k < DIRECT && BlockOf(fs, n, k) == 0
    requires i < BMAP_BITS && !fs.blockMap[i] && fs.freeBlocks > 0
    requires fs.inodes[n].kind == KIND_DIR ==>
               && (forall b: nat :: b < k ==> BlockOf(fs, n, b) != 0)
               && forall j: nat :: j < PER_BLOCK ==> DirentAt(content, j).inode == 0
    ensures var fs' := Attach(fs, n, k, i, content);
      Inv(fs', own[i := (n, k)], named) && SameNames(fs, fs') && SameBlocksBut(fs, fs', n, k, DATA_START + i)
  {
    hide Names, Entry, DirentAt, BlocksOwned, NamesUnique, DirsPacked;
    HeldByNone(fs, own, i);
    AttachFrame(fs, n, k, i, content);
    CountUpdate(fs.blockMap, i, true);
    var fs' := Attach(fs, n, k, i, content);
    AttachOwned(fs, fs', own, n, k, i);
    AttachNames(fs, fs', named, n, k, i);
  }

  /** No slot of a live inode holds a free block. */
  lemma HeldByNone(fs: Fs, own: seq<(nat, nat)>, i: nat)
    requires Shaped(fs) && BlocksOwned(fs, own) && i < BMAP_BITS && !fs.blockMap[i]
    ensures forall m: nat, j: nat :: m < INODE_MAX && j < DIRECT && fs.inodeMap[m] ==>
            fs.inodes[m].blocks[j] != DATA_START + i
  {
    forall m: nat, j: nat | m < INODE_MAX && j < DIRECT && fs.inodeMap[m]
      ensures fs.inodes[m].blocks[j] != DATA_START + i
    {
      assert BlockOf(fs, m, j) != DATA_START + i;
    }
  }

  /** Another block behind those of a directory hides no name. */
  lemma AttachNames(fs: Fs, fs': Fs, named: seq<(nat, nat)>, n: nat, k: nat, i: nat)
    requires Shaped(fs) && Shaped(fs') && NamesUnique(fs, named) && DirsPacked(fs) && n < INODE_MAX && k < DIRECT
    requires SameNames(fs, fs') && SameBlocksBut(fs, fs', n, k, DATA_START + i) && fs'.inodeMap == fs.inodeMap
    requires forall m: nat {:trigger fs'.inodes[m]} :: m < INODE_MAX ==>
               fs'.inodes[m].kind == fs.inodes[m].kind && fs'.inodes[m].size == fs.inodes[m].size
    requires fs.inodes[n].kind == KIND_DIR ==> forall b: nat :: b < k ==> BlockOf(fs, n, b) != 0
    ensures NamesUnique(fs', named) && DirsPacked(fs')
  {
    hide BlockOf, Names, Entry;
  }

  /** Freeing a block of an inode that is no directory. */
  lemma DropFrame(fs: Fs, n: nat, k: nat)
    requires Shaped(fs) && n < INODE_MAX && fs.inodes[n].kind != KIND_DIR && k < DIRECT
    requires DATA_START <= fs.inodes[n].blocks[k] < DATA_START + BMAP_BITS || fs.inodes[n].blocks[k] == 0
    ensures var fs' := Drop(fs, n, k);
      Shaped(fs') && SameNames(fs, fs') && SameBlocksBut(fs, fs', n, k, 0)
  {
  }

  lemma DropOwned(fs: Fs, fs': Fs, own: seq<(nat, nat)>, n: nat, k: nat, i: nat)
    requires Shaped(fs) && Shaped(fs') && BlocksOwned(fs, own) && n < INODE_MAX && fs.inodeMap[n] && k < DIRECT
    requires i < BMAP_BITS && BlockOf(fs, n, k) == DATA_START + i
    requires fs'.inodeMap == fs.inodeMap && fs'.blockMap == fs.blockMap[i := false]
    requires SameBlocksBut(fs, fs', n, k, 0)
    ensures BlocksOwned(fs', own)
  {
    hide BlockOf;
    forall m: nat, j: nat | m < INODE_MAX && fs'.inodeMap[m] && j < DIRECT && BlockOf(fs', m, j) != 0
      ensures var b := BlockOf(fs', m, j);
        DATA_START <= b < DATA_START + BMAP_BITS && fs'.blockMap[b - DATA_START] && own[b - DATA_START] == (m, j)
    {
      DropHeld(fs, fs', own, n, k, i, m, j);
    }
    forall c: nat | c < BMAP_BITS && fs'.blockMap[c]
      ensures own[c].0 < INODE_MAX && fs'.inodeMap[own[c].0] && own[c].1 < DIRECT
      ensures BlockOf(fs', own[c].0, own[c].1) == DATA_START + c
    {
      DropHolder(fs, fs', own, n, k, i, c);
    }
  }

  lemma DropHeld(fs: Fs, fs': Fs, own: seq<(nat, nat)>, n: nat, k: nat, i: nat, m: nat, j: nat)
    requires Shaped(fs) && Shaped(fs') && BlocksOwned(fs, own) && n < INODE_MAX && fs.inodeMap[n] && k < DIRECT
    requires i < BMAP_BITS && BlockOf(fs, n, k) == DATA_START + i
    requires fs'.blockMap == fs.blockMap[i := false] && SameBlocksBut(fs, fs', n, k, 0)
    requires m < INODE_MAX && fs.inodeMap[m] && j < DIRECT && BlockOf(fs', m, j) != 0
    ensures var b := BlockOf(fs', m, j);
      DATA_START <= b < DATA_START + BMAP_BITS && fs'.blockMap[b - DATA_START] && own[b - DATA_START] == (m, j)
  {
    hide BlockOf;
    assert (m, j) != (n, k) && BlockOf(fs', m, j) == BlockOf(fs, m, j);
    assert own[i] == (n, k);
  }

  lemma DropHolder(fs: Fs, fs': Fs, own: seq<(nat, nat)>, n: nat, k: nat, i: nat, c: nat)
    requires Shaped(fs) && Shaped(fs') && BlocksOwned(fs, own) && n < INODE_MAX && fs.inodeMap[n] && k < DIRECT
    requires i < BMAP_BITS && BlockOf(fs, n, k) == DATA_START + i
    requires fs'.blockMap == fs.blockMap[i := false] && SameBlocksBut(fs, fs', n, k, 0)
    requires c < BMAP_BITS && fs'.blockMap[c]
    ensures own[c].0 < INODE_MAX && fs.inodeMap[own[c].0] && own[c].1 < DIRECT
    ensures BlockOf(fs', own[c].0, own[c].1) == DATA_START + c
  {
    hide BlockOf;
    assert c != i && fs.blockMap[c];
  }

  lemma DropKeeps(fs: Fs, own: seq<(nat, nat)>, named: seq<(nat, nat)>, n: nat, k: nat)
    requires Inv(fs, own, named) && n < INODE_MAX && fs.inodeMap[n] && fs.inodes[n].kind != KIND_DIR && k < DIRECT
    ensures var fs' := Drop(fs, n, k);
      Inv(fs', own, named) && SameNames(fs, fs') && SameBlocksBut(fs, fs', n, k, 0)
  {
    hide Names, Entry, NamesUnique, DirsPacked, BlocksOwned, SameNames, SameBlocksBut, Drop;
    var b := BlockOf(fs, n, k);
    BlockHeld(fs, own, n, k);
    DropFrame(fs, n, k);
    DropFields(fs, n, k);
    if b != 0 {
      DropOwned(fs, Drop(fs, n, k), own, n, k, b - DATA_START);
      DropNames(fs, Drop(fs, n, k), named, n, k);
    }
  }

  lemma BlockHeld(fs: Fs, own: seq<(nat, nat)>, n: nat, k: nat)
    requires Shaped(fs) && BlocksOwned(fs, own) && n < INODE_MAX && fs.inodeMap[n] && k < DIRECT
    ensures var b := BlockOf(fs, n, k);
      b == 0 || (DATA_START <= b < DATA_START + BMAP_BITS && fs.blockMap[b - DATA_START])
  {
  }

  lemma DropFields(fs: Fs, n: nat, k: nat)
    requires Shaped(fs) && n < INODE_MAX && k < DIRECT
    requires var b := BlockOf(fs, n, k);
      b == 0 || (DATA_START <= b < DATA_START + BMAP_BITS && fs.blockMap[b - DATA_START])
    ensures var fs', b := Drop(fs, n, k), BlockOf(fs, n, k);
      && (b == 0 ==> fs' == fs)
      && (b != 0 ==> fs'.blockMap == fs.blockMap[b - DATA_START := false])
      && fs'.inodeMap == fs.inodeMap && (CountsRight(fs) ==> CountsRight(fs'))
      && forall m: nat {:trigger fs'.inodes[m]} :: m < INODE_MAX ==>
           fs'.inodes[m].kind == fs.inodes[m].kind && fs'.inodes[m].size == fs.inodes[m].size
  {
    if BlockOf(fs, n, k) != 0 { CountUpdate(fs.blockMap, BlockOf(fs, n, k) - DATA_START, false); }
  }

  lemma DropNames(fs: Fs, fs': Fs, named: seq<(nat, nat)>, n: nat, k: nat)
    requires Shaped(fs) && Shaped(fs') && NamesUnique(fs, named) && DirsPacked(fs) && n < INODE_MAX && k < DIRECT
    requires SameNames(fs, fs') && SameBlocksBut(fs, fs', n, k, 0) && fs'.inodeMap == fs.inodeMap
    requires fs.inodes[n].kind != KIND_DIR
    requires forall m: nat {:trigger fs'.inodes[m]} :: m < INODE_MAX ==>
               fs'.inodes[m].kind == fs.inodes[m].kind && fs'.inodes[m].size == fs.inodes[m].size
    ensures NamesUnique(fs', named) && DirsPacked(fs')
  {
    hide BlockOf, Names, Entry;
  }

  /** Changing kind or size where that hides or adds no name. */
  lemma RelabelKeeps(fs: Fs, own: seq<(nat, nat)>, named: seq<(nat, nat)>, n: nat, kind: nat, size: nat)
    requires Inv(fs, own, named) && n < INODE_MAX && fs.inodeMap[n] && kind != KIND_DIR && n != 0
    ensures var fs' := Relabel(fs, n, kind, size);
      && Inv(fs', own, named)
      && SameBlocks(fs, fs')
      && (forall m: nat, k: nat {:trigger Names(fs', m, k)} :: m < INODE_MAX ==>
            Names(fs', m, k) == (m != n && Names(fs, m, k))
              && (Names(fs', m, k) ==> Entry(fs', m, k) == Entry(fs, m, k)))
  {
    var fs' := Relabel(fs, n, kind, size);
    RelabelFrame(fs, n, kind, size);
    hide BlockOf, Names, Entry;
  }

  lemma RelabelFrame(fs: Fs, n: nat, kind: nat, size: nat)
    requires Shaped(fs) && n < INODE_MAX && kind != KIND_DIR
    ensures var fs' := Relabel(fs, n, kind, size);
      && Shaped(fs')
      && SameBlocks(fs, fs')
      && (forall m: nat, k: nat {:trigger Names(fs', m, k)} :: m < INODE_MAX ==>
            Names(fs', m, k) == (m != n && Names(fs, m, k))
              && (Names(fs', m, k) ==> Entry(fs', m, k) == Entry(fs, m, k)))
  {
  }

  /** Two live inodes never share a block, nor one inode two slots. */
  lemma BlocksApart(fs: Fs, own: seq<(nat, nat)>, n: nat, k: nat, m: nat, j: nat)
    requires Shaped(fs) && BlocksOwned(fs, own) && n < INODE_MAX && m < INODE_MAX && k < DIRECT && j < DIRECT
    requires fs.inodeMap[n] && fs.inodeMap[m] && (n, k) != (m, j) && BlockOf(fs, n, k) != 0
    ensures BlockOf(fs, n, k) != BlockOf(fs, m, j)
  {
  }

  /** Other contents in a block of an inode that is no directory. */
  lemma OverwriteKeeps(fs: Fs, own: seq<(nat, nat)>, named: seq<(nat, nat)>, n: nat, b: nat, content: Sector)
    requires Inv(fs, own, named) && n < INODE_MAX && fs.inodeMap[n] && fs.inodes[n].kind != KIND_DIR
    requires b < DIRECT && BlockOf(fs, n, b) != 0
    ensures BlockOf(fs, n, b) < TOTAL_SECTORS
    ensures Inv(fs.(data := fs.data[BlockOf(fs, n, b) := content]), own, named)
  {
    hide DirentAt, CountsRight;
    var fs' := fs.(data := fs.data[BlockOf(fs, n, b) := content]);
    forall m: nat, k: nat | m < INODE_MAX
      ensures Names(fs', m, k) == Names(fs, m, k) && (Names(fs', m, k) ==> Entry(fs', m, k) == Entry(fs, m, k))
    {
      if k < SLOTS && fs.inodeMap[m] && m != n { BlocksApart(fs, own, n, b, m, k / PER_BLOCK); }
    }
    SameBlocksOwned(fs, fs', own);
    hide Names, Entry, BlockOf, BlocksOwned;
    SameCounters(fs, fs');
  }

  lemma SameCounters(fs: Fs, fs': Fs)
    requires CountsRight(fs) && fs'.blockMap == fs.blockMap && fs'.inodeMap == fs.inodeMap
    requires fs'.freeBlocks == fs.freeBlocks && fs'.freeInodes == fs.freeInodes
    ensures CountsRight(fs')
  {
  }

  /** Rewriting one entry of a directory block changes that slot's name alone. */
  lemma EnterFrame(fs: Fs, own: seq<(nat, nat)>, named: seq<(nat, nat)>, n: nat, k: nat, child: nat, name: Name)
    requires Inv(fs, own, named) && n < INODE_MAX && fs.inodeMap[n] && fs.inodes[n].kind == KIND_DIR
    requires k < SLOTS && BlockOf(fs, n, k / PER_BLOCK) != 0 && 0 < child < INODE_MAX
    ensures BlockOf(fs, n, k / PER_BLOCK) < TOTAL_SECTORS
    ensures var fs' := Enter(fs, n, k, child, name);
      && Shaped(fs') && SameBlocks(fs, fs') && NamesBut(fs, fs', n, k)
      && Names(fs', n, k) && Entry(fs', n, k) == Dirent(child, Kept(name))
  {
    hide DirentAt, Put;
    var fs' := Enter(fs, n, k, child, name);
    EnterSlot(fs, own, n, k, child, name, n, k);
    forall m: nat, s: nat | m < INODE_MAX && (m, s) != (n, k)
      ensures Names(fs', m, s) == Names(fs, m, s) && (Names(fs', m, s) ==> Entry(fs', m, s) == Entry(fs, m, s))
    {
      EnterSlot(fs, own, n, k, child, name, m, s);
    }
  }

  lemma EnterSlot(fs: Fs, own: seq<(nat, nat)>, n: nat, k: nat, child: nat, name: Name, m: nat, s: nat)
    requires Shaped(fs) && BlocksOwned(fs, own) && n < INODE_MAX && fs.inodeMap[n] && fs.inodes[n].kind == KIND_DIR
    requires k < SLOTS && 0 < BlockOf(fs, n, k / PER_BLOCK) < TOTAL_SECTORS && 0 < child < INODE_MAX && m < INODE_MAX
    ensures var fs' := Enter(fs, n, k, child, name);
      && Shaped(fs')
      && if (m, s) == (n, k) then Names(fs', m, s) && Entry(fs', m, s) == Dirent(child, Kept(name))
         else Names(fs', m, s) == Names(fs, m, s) && (Names(fs', m, s) ==> Entry(fs', m, s) == Entry(fs, m, s))
  {
    hide DirentAt, Put;
    if s < SLOTS && fs.inodeMap[m] {
      if m == n && s / PER_BLOCK == k / PER_BLOCK {
        PutThenRead(fs.data[BlockOf(fs, n, k / PER_BLOCK)], k % PER_BLOCK, child, name, s % PER_BLOCK);
      } else {
        BlocksApart(fs, own, n, k / PER_BLOCK, m, s / PER_BLOCK);
      }
    }
  }

  lemma EnterKeeps(fs: Fs, own: seq<(nat, nat)>, named: seq<(nat, nat)>, n: nat, k: nat, child: nat, name: Name)
    requires Inv(fs, own, named) && n < INODE_MAX && fs.inodeMap[n] && fs.inodes[n].kind == KIND_DIR
    requires k < SLOTS && BlockOf(fs, n, k / PER_BLOCK) != 0 && !Names(fs, n, k) && k <= fs.inodes[n].size / 32
    requires 0 < child < INODE_MAX && child != n && fs.inodeMap[child] && Unnamed(fs, child)
    ensures BlockOf(fs, n, k / PER_BLOCK) < TOTAL_SECTORS
    ensures Inv(Enter(fs, n, k, child, name), own, named[child := (n, k)])
  {
    hide Enter, Names, Entry, Put, BlocksOwned, NamesUnique, DirsPacked, CountsRight;
    EnterFrame(fs, own, named, n, k, child, name);
    EnterFields(fs, n, k, child, name);
    var fs' := Enter(fs, n, k, child, name);
    SameBlocksOwned(fs, fs', own);
    EnterNames(fs, fs', named, n, k, child, name);
  }

  lemma EnterFields(fs: Fs, n: nat, k: nat, child: nat, name: Name)
    requires Shaped(fs) && n < INODE_MAX && k < SLOTS && BlockOf(fs, n, k / PER_BLOCK) < TOTAL_SECTORS
    ensures var fs' := Enter(fs, n, k, child, name);
      && fs'.inodes == fs.inodes[n := fs.inodes[n].(size := fs.inodes[n].size + 32)]
      && fs'.inodeMap == fs.inodeMap && fs'.blockMap == fs.blockMap
      && (CountsRight(fs) ==> CountsRight(fs'))
  {
    hide Put;
  }

  lemma EnterNames(fs: Fs, fs': Fs, named: seq<(nat, nat)>, n: nat, k: nat, child: nat, name: Name)
    requires Shaped(fs) && Shaped(fs') && NamesUnique(fs, named) && DirsPacked(fs) && n < INODE_MAX
    requires SameBlocks(fs, fs') && NamesBut(fs, fs', n, k) && Names(fs', n, k)
             && Entry(fs', n, k) == Dirent(child, Kept(name))
    requires fs'.inodeMap == fs.inodeMap && fs'.inodes == fs.inodes[n := fs.inodes[n].(size := fs.inodes[n].size + 32)]
    requires 0 < child < INODE_MAX && child != n && fs.inodeMap[child] && Unnamed(fs, child)
             && k <= fs.inodes[n].size / 32
    ensures NamesUnique(fs', named[child := (n, k)]) && DirsPacked(fs')
  {
    hide BlockOf, Names, Entry;
    forall m: nat, s: nat | m < INODE_MAX && Names(fs', m, s)
      ensures var c := Child(fs', m, s);
        0 < c < INODE_MAX && c != m && fs'.inodeMap[c] && named[child := (n, k)][c] == (m, s)
      ensures s < fs'.inodes[m].size / 32
    {
      if (m, s) != (n, k) { assert Names(fs, m, s) && Child(fs, m, s) != child; }
    }
  }

  lemma EraseFrame(fs: Fs, own: seq<(nat, nat)>, named: seq<(nat, nat)>, n: nat, k: nat)
    requires Inv(fs, own, named) && n < INODE_MAX && Names(fs, n, k)
    ensures var fs' := Erase(fs, n, k);
      Shaped(fs') && SameBlocks(fs, fs') && NamesBut(fs, fs', n, k) && !Names(fs', n, k)
  {
    hide DirentAt, Clear;
    var fs' := Erase(fs, n, k);
    EraseSlot(fs, own, n, k, n, k);
    forall m: nat, s: nat | m < INODE_MAX && (m, s) != (n, k)
      ensures Names(fs', m, s) == Names(fs, m, s) && (Names(fs', m, s) ==> Entry(fs', m, s) == Entry(fs, m, s))
    {
      EraseSlot(fs, own, n, k, m, s);
    }
  }

  lemma EraseSlot(fs: Fs, own: seq<(nat, nat)>, n: nat, k: nat, m: nat, s: nat)
    requires Shaped(fs) && BlocksOwned(fs, own) && n < INODE_MAX && Names(fs, n, k) && m < INODE_MAX
    ensures var fs' := Erase(fs, n, k);
      && Shaped(fs')
      && if (m, s) == (n, k) then !Names(fs', m, s)
         else Names(fs', m, s) == Names(fs, m, s) && (Names(fs', m, s) ==> Entry(fs', m, s) == Entry(fs, m, s))
  {
    hide DirentAt, Clear;
    if s < SLOTS && fs.inodeMap[m] {
      if m == n && s / PER_BLOCK == k / PER_BLOCK {
        ClearThenRead(fs.data[BlockOf(fs, n, k / PER_BLOCK)], k % PER_BLOCK, s % PER_BLOCK);
      } else {
        BlocksApart(fs, own, n, k / PER_BLOCK, m, s / PER_BLOCK);
      }
    }
  }

  /** Freeing the one slot that names a child leaves the child unnamed. */
  lemma EraseKeeps(fs: Fs, own: seq<(nat, nat)>, named: seq<(nat, nat)>, n: nat, k: nat)
    requires Inv(fs, own, named) && n < INODE_MAX && Names(fs, n, k)
    ensures var fs' := Erase(fs, n, k);
      Inv(fs', own, named) && Unnamed(fs', Child(fs, n, k))
  {
    assert k < SLOTS && fs.inodes[n].blocks[k / PER_BLOCK] < |fs.data|;
    hide BlockOf, Names, Entry, DirentAt, Slot, Clear, HasSlot, BlocksOwned, CountsRight;
    EraseFrame(fs, own, named, n, k);
    EraseFields(fs, n, k);
    var fs' := Erase(fs, n, k);
    SameBlocksOwned(fs, fs', own);
    forall m: nat, s: nat | m < INODE_MAX && Names(fs', m, s)
      ensures Names(fs, m, s) && Child(fs', m, s) == Child(fs, m, s) && Child(fs, m, s) != Child(fs, n, k)
    {
      assert (m, s) != (n, k);
    }
    ErasedNames(fs, fs', named, n, k);
  }

  lemma EraseFields(fs: Fs, n: nat, k: nat)
    requires Shaped(fs) && n < INODE_MAX && Names(fs, n, k)
    ensures var fs' := Erase(fs, n, k);
      && fs'.inodes == fs.inodes && fs'.inodeMap == fs.inodeMap && fs'.blockMap == fs.blockMap
      && fs'.freeBlocks == fs.freeBlocks && fs'.freeInodes == fs.freeInodes
      && (CountsRight(fs) ==> CountsRight(fs'))
  {
    hide Clear;
  }

  lemma SameBlocksOwned(fs: Fs, fs': Fs, own: seq<(nat, nat)>)
    requires Shaped(fs) && Shaped(fs') && SameBlocks(fs, fs') && BlocksOwned(fs, own)
    requires fs'.blockMap == fs.blockMap && fs'.inodeMap == fs.inodeMap
    ensures BlocksOwned(fs', own)
  {
    hide BlockOf;
  }

  lemma ErasedNames(fs: Fs, fs': Fs, named: seq<(nat, nat)>, n: nat, k: nat)
    requires Shaped(fs) && Shaped(fs') && NamesUnique(fs, named) && DirsPacked(fs) && n < INODE_MAX
    requires SameBlocks(fs, fs') && NamesBut(fs, fs', n, k) && !Names(fs', n, k)
    requires fs'.inodes == fs.inodes && fs'.inodeMap == fs.inodeMap
    ensures NamesUnique(fs', named) && DirsPacked(fs')
  {
    hide BlockOf, Names, Entry;
    forall m: nat, s: nat | m < INODE_MAX && Names(fs', m, s)
      ensures Names(fs, m, s) && Entry(fs', m, s) == Entry(fs, m, s)
    {
      assert (m, s) != (n, k);
    }
  }
}
