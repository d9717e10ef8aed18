/** Writing and reading files of SpaceFS on values, and entering a new inode in its directory, each
    written as a sequence of the elementary changes of SpaceFsState. */
module SpaceFsOps {
  import opened Wrappers
  import opened Bytes
  import opened Disk
  import opened Dirents
  import opened SpaceFsState
  import opened SpaceFsPaths
  import SpaceFsRoom

  const FILE_MAX: nat := 5120

  /** ---- Allocation ---- */

  /** The lowest clear bit at or above i, |bits| if none. */
  function FirstFree(bits: seq<bool>, i: nat): (j: nat)
    requires i <= |bits|
    ensures i <= j <= |bits|
    ensures j < |bits| ==> !bits[j]
    ensures forall k :: i <= k < j ==> bits[k]
    decreases |bits| - i
  {
    if i == |bits| || !bits[i] then i else FirstFree(bits, i + 1)
  }

  /** Giving back all blocks of an inode from slot k on. */
  function DropFrom(fs: Fs, n: nat, k: nat): (fs': Fs)
    requires Shaped(fs) && n < INODE_MAX && k <= DIRECT
    ensures Shaped(fs')
    decreases DIRECT - k
  {
    if k == DIRECT then fs else DropFrom(Drop(fs, n, k), n, k + 1)
  }

  /** Writing buf into fresh blocks from slot b on; stops when the disk is full. */
  function AppendFrom(fs: Fs, n: nat, b: nat, buf: seq<byte>): (r: (Fs, nat))
    requires Shaped(fs) && n < INODE_MAX && b <= DIRECT
    ensures Shaped(r.0)
    decreases DIRECT - b
  {
    var i := FirstFree(fs.blockMap, 0);
    if b == DIRECT || buf == [] || i == BMAP_BITS || fs.freeBlocks == 0 then (fs, 0)
    else
      var (fs', done) := AppendFrom(Attach(fs, n, b, i, Chunk(buf)), n, b + 1, After(buf));
      (fs', done + |buf| - |After(buf)|)
  }

  /** The first slot of a directory that is free, or that would need a new block. */
  function FreeSlot(data: seq<Sector>, ino: Inode, k: nat): (r: Option<nat>)
    requires |ino.blocks| == DIRECT
    ensures r.Some? ==> k <= r.value < SLOTS && ino.blocks[r.value / PER_BLOCK] < |data|
    decreases SLOTS - k
  {
    if k >= SLOTS || ino.blocks[k / PER_BLOCK] >= |data| then None
    else if ino.blocks[k / PER_BLOCK] == 0 then (if 0 < |data| then Some(k) else None)
    else if Slot(data, ino, k).inode == 0 then Some(k)
    else FreeSlot(data, ino, k + 1)
  }

  /** dir_add_entry: the state it leaves and whether it succeeded. */
  function AddEntry(fs: Fs, dir: nat, child: nat, name: Name): (r: (Fs, bool))
    requires Shaped(fs) && dir < INODE_MAX
    ensures Shaped(r.0)
  {
    var ino := fs.inodes[dir];
    match FreeSlot(fs.data, ino, 0)
    case None => (fs, false)
    case Some(k) =>
      if ino.blocks[k / PER_BLOCK] != 0 then (Enter(fs, dir, k, child, name), true)
      else
        var i := FirstFree(fs.blockMap, 0);
        if i == BMAP_BITS || fs.freeBlocks == 0 then (fs, false)
        else (Enter(Attach(fs, dir, k / PER_BLOCK, i, Zeros(512)), dir, k, child, name), true)
  }

  /** ---- What stays the same for everyone else ---- */

  /** Inode j and its sectors are untouched. */
  ghost predicate Untouched(fs: Fs, fs': Fs, j: nat)
    requires Shaped(fs) && Shaped(fs') && j < INODE_MAX
  {
    && fs'.inodes[j] == fs.inodes[j]
    && forall b: nat {:trigger BlockOf(fs, j, b)} :: b < DIRECT && 0 < BlockOf(fs, j, b) < TOTAL_SECTORS ==>
         fs'.data[BlockOf(fs, j, b)] == fs.data[BlockOf(fs, j, b)]
  }

  /** Live inodes other than n are untouched. */
  ghost predicate OthersUntouched(fs: Fs, fs': Fs, n: nat)
    requires Shaped(fs) && Shaped(fs')
  {
    forall j: nat {:trigger fs.inodeMap[j]} :: j < INODE_MAX && j != n && fs.inodeMap[j] ==>
      fs'.inodeMap[j] && Untouched(fs, fs', j)
  }

  lemma UntouchedTrans(a: Fs, b: Fs, c: Fs, n: nat)
    requires Shaped(a) && Shaped(b) && Shaped(c) && OthersUntouched(a, b, n) && OthersUntouched(b, c, n)
    ensures OthersUntouched(a, c, n)
  {
    forall j: nat | j < INODE_MAX && j != n && a.inodeMap[j]
      ensures c.inodeMap[j] && Untouched(a, c, j)
    {
      assert b.inodeMap[j] && Untouched(a, b, j) && Untouched(b, c, j);
      forall i: nat | i < DIRECT && 0 < BlockOf(a, j, i) < TOTAL_SECTORS
        ensures c.data[BlockOf(a, j, i)] == a.data[BlockOf(a, j, i)]
      {
        assert BlockOf(b, j, i) == BlockOf(a, j, i);
      }
    }
  }

  /** An untouched directory has the same names. */
  lemma UntouchedNames(fs: Fs, fs': Fs, m: nat)
    requires Shaped(fs) && Shaped(fs') && m < INODE_MAX && fs.inodeMap[m] && fs'.inodeMap[m] && Untouched(fs, fs', m)
    ensures forall k: nat {:trigger Names(fs', m, k)} {:trigger Names(fs, m, k)} ::
              Names(fs', m, k) == Names(fs, m, k) && (Names(fs, m, k) ==> Entry(fs', m, k) == Entry(fs, m, k))
  {
    hide DirentAt;
    forall k: nat
      ensures Names(fs', m, k) == Names(fs, m, k) && (Names(fs, m, k) ==> Entry(fs', m, k) == Entry(fs, m, k))
    {
      if k < SLOTS {
        assert BlockOf(fs, m, k / PER_BLOCK) == fs.inodes[m].blocks[k / PER_BLOCK];
      }
    }
  }

  /** The search of a directory depends only on its names. */
  lemma FindDepends(fs: Fs, own: seq<(nat, nat)>, named: seq<(nat, nat)>, fs': Fs, own': seq<(nat, nat)>,
        named': seq<(nat, nat)>, n: nat, name: Name)
    requires Inv(fs, own, named) && Inv(fs', own', named') && n < INODE_MAX
    requires fs.inodeMap[n] && fs'.inodeMap[n] && fs.inodes[n].kind == fs'.inodes[n].kind == KIND_DIR
    requires forall k: nat {:trigger Names(fs', n, k)} {:trigger Names(fs, n, k)} ::
               (Names(fs', n, k) && Entry(fs', n, k).name == name) == (Names(fs, n, k) && Entry(fs, n, k).name == name)
    ensures Find(fs'.data, fs'.inodes[n], name, 0) == Find(fs.data, fs.inodes[n], name, 0)
  {
    hide Names, Entry, Find, BlocksOwned, NamesUnique, DirsPacked, CountsRight;
    FindIsFirst(fs, own, named, n, name, 0);
    FindIsFirst(fs', own', named', n, name, 0);
    var f, f' := Find(fs.data, fs.inodes[n], name, 0), Find(fs'.data, fs'.inodes[n], name, 0);
    if f.Some? { assert Names(fs', n, f.value); }
    if f'.Some? { assert Names(fs, n, f'.value); }
  }

  /** ---- The compound changes keep the invariant ---- */

  lemma DropLeavesOthers(fs: Fs, n: nat, k: nat)
    requires Shaped(fs) && n < INODE_MAX && k < DIRECT && Shaped(Drop(fs, n, k))
    ensures OthersUntouched(fs, Drop(fs, n, k), n)
  {
  }

  lemma {:induction false} DropFromKeeps(fs: Fs, own: seq<(nat, nat)>, named: seq<(nat, nat)>, n: nat, k: nat)
    requires Inv(fs, own, named) && n < INODE_MAX && fs.inodeMap[n] && fs.inodes[n].kind != KIND_DIR && k <= DIRECT
    ensures var fs' := DropFrom(fs, n, k);
      && Inv(fs', own, named) && OthersUntouched(fs, fs', n) && SameNames(fs, fs')
      && fs'.inodeMap == fs.inodeMap && fs'.inodes[n] == fs.inodes[n].(blocks := fs'.inodes[n].blocks)
      && (forall j: nat {:trigger BlockOf(fs', n, j)} :: j < DIRECT ==>
        BlockOf(fs', n, j) == if j < k then BlockOf(fs, n, j) else 0)
    decreases DIRECT - k
  {
    if k < DIRECT {
      var fs1 := Drop(fs, n, k);
      DropKeeps(fs, own, named, n, k);
      DropLeavesOthers(fs, n, k);
      DropFromKeeps(fs1, own, named, n, k + 1);
      var fs' := DropFrom(fs, n, k);
      hide Inv, BlockOf, Names, Entry, DropFrom, OthersUntouched;
      UntouchedTrans(fs, fs1, fs', n);
    }
  }

  lemma AttachLeavesOthers(fs: Fs, own: seq<(nat, nat)>, n: nat, k: nat, i: nat, content: Sector)
    requires Shaped(fs) && BlocksOwned(fs, own) && n < INODE_MAX && k < DIRECT && i < BMAP_BITS && !fs.blockMap[i]
             && fs.freeBlocks > 0
    requires Shaped(Attach(fs, n, k, i, content))
    ensures OthersUntouched(fs, Attach(fs, n, k, i, content), n)
  {
    var fs' := Attach(fs, n, k, i, content);
    forall j: nat | j < INODE_MAX && j != n && fs.inodeMap[j]
      ensures Untouched(fs, fs', j)
    {
      forall b: nat | b < DIRECT && 0 < BlockOf(fs, j, b) < TOTAL_SECTORS
        ensures fs'.data[BlockOf(fs, j, b)] == fs.data[BlockOf(fs, j, b)]
      {
        assert BlockOf(fs, j, b) != DATA_START + i;
      }
    }
  }

  /** While a block is free the free counter is positive, so it never wraps. */
  lemma FreeBlocksPositive(fs: Fs)
    requires Shaped(fs) && CountsRight(fs)
    ensures fs.freeBlocks > 0
  {
  }

  /** A block can always be had. */
  lemma RoomOnDisk(fs: Fs, own: seq<(nat, nat)>, named: seq<(nat, nat)>)
    requires Inv(fs, own, named)
    ensures FirstFree(fs.blockMap, 0) < BMAP_BITS && fs.freeBlocks > 0
  {
    SpaceFsRoom.BlockLeft(fs, own);
    FreeBlocksPositive(fs);
  }

  lemma FreeInodesPositive(fs: Fs, i: nat)
    requires Shaped(fs) && CountsRight(fs) && i < INODE_MAX && !fs.inodeMap[i]
    ensures fs.freeInodes > 0
  {
    CountNotFull(fs.inodeMap, i);
  }

  /** Slots b, b + 1, ... of inode n hold buf, sector by sector. */
  ghost predicate Holds(fs: Fs, n: nat, b: nat, buf: seq<byte>)
    requires Shaped(fs) && n < INODE_MAX
    decreases DIRECT - b
  {
    buf == [] || (
      && b < DIRECT && 0 < BlockOf(fs, n, b) < TOTAL_SECTORS
      && fs.data[BlockOf(fs, n, b)] == Chunk(buf)
      && Holds(fs, n, b + 1, After(buf)))
  }

  /** fs' is fs after file n has taken free blocks into slots from b on. */
  ghost predicate Grown(fs: Fs, fs': Fs, n: nat, b: nat)
  {
    && Shaped(fs) && Shaped(fs') && n < INODE_MAX
    && OthersUntouched(fs, fs', n) && SameNames(fs, fs')
    && fs'.inodeMap == fs.inodeMap && fs'.inodes[n] == fs.inodes[n].(blocks := fs'.inodes[n].blocks)
    && (forall j: nat {:trigger BlockOf(fs', n, j)} :: j < b && j < DIRECT ==> BlockOf(fs', n, j) == BlockOf(fs, n, j))
    && (forall i: nat {:trigger fs'.blockMap[i]} :: i < BMAP_BITS && fs.blockMap[i] ==>
      fs'.blockMap[i] && fs'.data[DATA_START + i] == fs.data[DATA_START + i])
  }

  lemma GrownTrans(a: Fs, b: Fs, c: Fs, n: nat, k: nat)
    requires Grown(a, b, n, k) && Grown(b, c, n, k + 1)
    ensures Grown(a, c, n, k)
  {
    UntouchedTrans(a, b, c, n);
    hide Names, Entry, OthersUntouched;
    forall j: nat | j < k && j < DIRECT
      ensures BlockOf(c, n, j) == BlockOf(a, n, j)
    {
      assert BlockOf(b, n, j) == BlockOf(a, n, j);
    }
    forall i: nat | i < BMAP_BITS && a.blockMap[i]
      ensures c.blockMap[i] && c.data[DATA_START + i] == a.data[DATA_START + i]
    {
      assert b.blockMap[i];
    }
  }

  lemma AttachGrows(fs: Fs, own: seq<(nat, nat)>, named: seq<(nat, nat)>, n: nat, b: nat, i: nat, content: Sector)
    requires Inv(fs, own, named) && n < INODE_MAX && fs.inodeMap[n] && fs.inodes[n].kind != KIND_DIR && b < DIRECT
    requires BlockOf(fs, n, b) == 0 && i < BMAP_BITS && !fs.blockMap[i] && fs.freeBlocks > 0
    ensures var fs' := Attach(fs, n, b, i, content);
      && Inv(fs', own[i := (n, b)], named) && Grown(fs, fs', n, b) && SameBlocksBut(fs, fs', n, b, DATA_START + i)
      && fs'.blockMap[i] && fs'.data[DATA_START + i] == content
  {
    AttachKeeps(fs, own, named, n, b, i, content);
    AttachLeavesOthers(fs, own, n, b, i, content);
    hide Inv, BlockOf, Names, Entry, OthersUntouched;
  }

  /** Appending to a file keeps the invariant and everybody else's data; blocks never run out, so all
      of buf that the slots from b on can hold is written, and then the file holds it. */
  lemma {:induction false} AppendFromKeeps(fs: Fs, own: seq<(nat, nat)>, named: seq<(nat, nat)>, n: nat, b: nat,
        buf: seq<byte>) returns (own': seq<(nat, nat)>)
    requires Inv(fs, own, named) && n < INODE_MAX && fs.inodeMap[n] && fs.inodes[n].kind != KIND_DIR && b <= DIRECT
    requires forall j: nat :: b <= j < DIRECT ==> BlockOf(fs, n, j) == 0
    ensures var (fs', done) := AppendFrom(fs, n, b, buf);
      && Inv(fs', own', named) && Grown(fs, fs', n, b)
      && done <= |buf| && (done == |buf| ==> Holds(fs', n, b, buf))
      && (|buf| <= 512 * (DIRECT - b) ==> done == |buf|)
    decreases DIRECT - b
  {
    InvRoot(fs, own, named);
    hide Inv, Grown, Attach, FirstFree, Names, Entry, Holds, BlockOf;
    own' := own;
    RoomOnDisk(fs, own, named);
    var i := FirstFree(fs.blockMap, 0);
    if b == DIRECT || buf == [] || i == BMAP_BITS || fs.freeBlocks == 0 {
      GrownRefl(fs, n, b, buf);
    } else {
      var fs1 := Attach(fs, n, b, i, Chunk(buf));
      AttachGrows(fs, own, named, n, b, i, Chunk(buf));
      AttachedFile(fs, fs1, n, b, i);
      var (fs', done) := AppendFrom(fs1, n, b + 1, After(buf));
      own' := AppendFromKeeps(fs1, own[i := (n, b)], named, n, b + 1, After(buf));
      AppendedOne(fs, fs1, fs', n, b, i, buf);
    }
  }

  lemma GrownRefl(fs: Fs, n: nat, b: nat, buf: seq<byte>)
    requires Shaped(fs) && n < INODE_MAX
    ensures Grown(fs, fs, n, b) && (buf == [] ==> Holds(fs, n, b, buf))
  {
    UntouchedRefl(fs, n);
  }

  lemma AttachedFile(fs: Fs, fs1: Fs, n: nat, b: nat, i: nat)
    requires Grown(fs, fs1, n, b) && fs.inodeMap[n] && b < DIRECT && SameBlocksBut(fs, fs1, n, b, DATA_START + i)
    requires forall j: nat :: b <= j < DIRECT ==> BlockOf(fs, n, j) == 0
    ensures Shaped(fs1) && fs1.inodeMap[n] && fs1.inodes[n].kind == fs.inodes[n].kind
    ensures BlockOf(fs1, n, b) == DATA_START + i
    ensures forall j: nat :: b + 1 <= j < DIRECT ==> BlockOf(fs1, n, j) == 0
  {
    hide BlockOf, Names, Entry, OthersUntouched, SameNames;
  }

  lemma AppendedOne(fs: Fs, fs1: Fs, fs': Fs, n: nat, b: nat, i: nat, buf: seq<byte>)
    requires Grown(fs, fs1, n, b) && Grown(fs1, fs', n, b + 1) && b < DIRECT && i < BMAP_BITS
    requires BlockOf(fs1, n, b) == DATA_START + i && fs1.blockMap[i] && fs1.data[DATA_START + i] == Chunk(buf)
    ensures Grown(fs, fs', n, b)
    ensures buf != [] && Holds(fs', n, b + 1, After(buf)) ==> Holds(fs', n, b, buf)
  {
    hide BlockOf, Names, Entry, OthersUntouched, SameNames;
    GrownTrans(fs, fs1, fs', n, b);
    assert fs'.blockMap[i];
    assert BlockOf(fs', n, b) == DATA_START + i && fs'.data[DATA_START + i] == Chunk(buf);
  }

  lemma UntouchedRefl(fs: Fs, n: nat)
    requires Shaped(fs)
    ensures OthersUntouched(fs, fs, n) && SameNames(fs, fs)
  {
  }

  /** ---- Adding a directory entry ---- */

  /** The slot chosen has no name, every earlier slot has one, and so it lies within the entries
      that a later search will look at once the size has grown. */
  lemma {:induction false} FreeSlotIsFirst(fs: Fs, own: seq<(nat, nat)>, n: nat, k: nat)
    requires Shaped(fs) && BlocksOwned(fs, own) && n < INODE_MAX && fs.inodeMap[n] && fs.inodes[n].kind == KIND_DIR
    ensures var r := FreeSlot(fs.data, fs.inodes[n], k);
      r.Some? ==> !Names(fs, n, r.value) && forall i: nat :: k <= i < r.value ==> Names(fs, n, i)
    decreases SLOTS - k
  {
    hide DirentAt;
    if k < SLOTS {
      BlockInRange(fs, own, n, k / PER_BLOCK);
      if fs.inodes[n].blocks[k / PER_BLOCK] != 0 && Slot(fs.data, fs.inodes[n], k).inode != 0 {
        FreeSlotIsFirst(fs, own, n, k + 1);
      }
    }
  }

  lemma FreeSlotPlace(fs: Fs, own: seq<(nat, nat)>, named: seq<(nat, nat)>, n: nat)
    requires Inv(fs, own, named) && n < INODE_MAX && fs.inodeMap[n] && fs.inodes[n].kind == KIND_DIR
    ensures var r := FreeSlot(fs.data, fs.inodes[n], 0);
      r.Some? ==> && !Names(fs, n, r.value) && r.value <= fs.inodes[n].size / 32
                  && forall b: nat :: b < r.value / PER_BLOCK ==> BlockOf(fs, n, b) != 0
  {
    hide FreeSlot, Names, Entry, BlocksOwned, NamesUnique, CountsRight, BlockOf;
    FreeSlotIsFirst(fs, own, n, 0);
    var r := FreeSlot(fs.data, fs.inodes[n], 0);
    if r.Some? {
      var k := r.value;
      if k > 0 { assert Names(fs, n, k - 1); }
      forall b: nat | b < k / PER_BLOCK
        ensures BlockOf(fs, n, b) != 0
      {
        NamedBlock(fs, n, PER_BLOCK * b);
      }
    }
  }

  lemma NamedBlock(fs: Fs, n: nat, k: nat)
    requires Shaped(fs) && n < INODE_MAX && Names(fs, n, k)
    ensures k < SLOTS && BlockOf(fs, n, k / PER_BLOCK) != 0
  {
    hide DirentAt;
  }

  /** Some slot of directory n names nothing. */
  ghost predicate HasRoom(fs: Fs, n: nat)
    requires Shaped(fs) && n < INODE_MAX
  {
    exists k: nat :: k < 160 && !Names(fs, n, k)
  }

  /** The search for a slot fails only when every slot has a name. */
  lemma {:induction false} FreeSlotFails(fs: Fs, own: seq<(nat, nat)>, n: nat, k: nat)
    requires Shaped(fs) && BlocksOwned(fs, own) && n < INODE_MAX && fs.inodeMap[n] && fs.inodes[n].kind == KIND_DIR
    ensures FreeSlot(fs.data, fs.inodes[n], k).None? ==> forall i: nat :: k <= i < SLOTS ==> Names(fs, n, i)
    decreases SLOTS - k
  {
    hide DirentAt;
    if k < SLOTS {
      BlockInRange(fs, own, n, k / PER_BLOCK);
      if fs.inodes[n].blocks[k / PER_BLOCK] != 0 && Slot(fs.data, fs.inodes[n], k).inode != 0 {
        FreeSlotFails(fs, own, n, k + 1);
      }
    }
  }

  /** dir_add_entry succeeds exactly when the directory has a slot without a name. */
  lemma AddEntrySucceeds(fs: Fs, own: seq<(nat, nat)>, named: seq<(nat, nat)>, dir: nat, child: nat, name: Name)
    requires Inv(fs, own, named) && dir < INODE_MAX && fs.inodeMap[dir] && fs.inodes[dir].kind == KIND_DIR
    ensures AddEntry(fs, dir, child, name).1 <==> HasRoom(fs, dir)
  {
    RoomOnDisk(fs, own, named);
    FreeSlotFails(fs, own, dir, 0);
    FreeSlotIsFirst(fs, own, dir, 0);
    hide Names, Enter, Attach, FreeSlot, BlocksOwned, FirstFree;
  }

  /** What adding an entry did: slot k of dir names child. */
  ghost predicate Added(fs: Fs, fs': Fs, dir: nat, k: nat, child: nat, name: Name)
  {
    && Shaped(fs) && Shaped(fs') && dir < INODE_MAX
    && OthersUntouched(fs, fs', dir) && fs'.inodeMap == fs.inodeMap && fs'.inodes[dir].kind == fs.inodes[dir].kind
    && !Names(fs, dir, k) && NamesBut(fs, fs', dir, k)
    && Names(fs', dir, k) && Entry(fs', dir, k) == Dirent(child, Kept(name))
  }

  lemma EnterLeavesOthers(fs: Fs, own: seq<(nat, nat)>, n: nat, k: nat, child: nat, name: Name)
    requires Shaped(fs) && BlocksOwned(fs, own) && n < INODE_MAX && fs.inodeMap[n]
    requires k < SLOTS && 0 < BlockOf(fs, n, k / PER_BLOCK) < TOTAL_SECTORS
    requires Shaped(Enter(fs, n, k, child, name))
    ensures OthersUntouched(fs, Enter(fs, n, k, child, name), n)
  {
    hide Put;
    var fs' := Enter(fs, n, k, child, name);
    forall j: nat | j < INODE_MAX && j != n && fs.inodeMap[j]
      ensures Untouched(fs, fs', j)
    {
      forall b: nat | b < DIRECT && 0 < BlockOf(fs, j, b) < TOTAL_SECTORS
        ensures fs'.data[BlockOf(fs, j, b)] == fs.data[BlockOf(fs, j, b)]
      {
        BlocksApart(fs, own, n, k / PER_BLOCK, j, b);
      }
    }
  }

  lemma EnterAdds(fs: Fs, own: seq<(nat, nat)>, named: seq<(nat, nat)>, n: nat, k: nat, child: nat, name: Name)
    requires Inv(fs, own, named) && n < INODE_MAX && fs.inodeMap[n] && fs.inodes[n].kind == KIND_DIR
    requires k < SLOTS && BlockOf(fs, n, k / PER_BLOCK) != 0 && !Names(fs, n, k) && k <= fs.inodes[n].size / 32
    requires 0 < child < INODE_MAX && child != n && fs.inodeMap[child] && Unnamed(fs, child)
    ensures BlockOf(fs, n, k / PER_BLOCK) < TOTAL_SECTORS
    ensures Inv(Enter(fs, n, k, child, name), own, named[child := (n, k)])
    ensures Added(fs, Enter(fs, n, k, child, name), n, k, child, name)
  {
    EnterKeeps(fs, own, named, n, k, child, name);
    EnterFrame(fs, own, named, n, k, child, name);
    EnterLeavesOthers(fs, own, n, k, child, name);
    hide BlockOf, Names, Entry, OthersUntouched, Put;
  }

  lemma AddEntryKeeps(fs: Fs, own: seq<(nat, nat)>, named: seq<(nat, nat)>, dir: nat, child: nat, name: Name)
    returns (own': seq<(nat, nat)>, named': seq<(nat, nat)>)
    requires Inv(fs, own, named) && dir < INODE_MAX && fs.inodeMap[dir] && fs.inodes[dir].kind == KIND_DIR
    requires 0 < child < INODE_MAX && child != dir && fs.inodeMap[child] && Unnamed(fs, child)
    ensures |named'| == |named| == INODE_MAX
    ensures forall m: nat :: m < INODE_MAX && m != child ==> named'[m] == named[m]
    ensures var (fs', ok) := AddEntry(fs, dir, child, name);
      && Inv(fs', own', named')
      && (!ok ==> fs' == fs)
      && (ok ==>
        FreeSlot(fs.data, fs.inodes[dir], 0).Some?
        && Added(fs, fs', dir, FreeSlot(fs.data, fs.inodes[dir], 0).value, child, name))
  {
    hide Inv, Added, Find, Enter, Attach, FreeSlot, FirstFree, Names;
    InvLengths(fs, own, named);
    own', named' := own, named;
    FreeSlotPlace(fs, own, named, dir);
    var r := FreeSlot(fs.data, fs.inodes[dir], 0);
    var i := FirstFree(fs.blockMap, 0);
    if r.Some? {
      var k := r.value;
      named' := named[child := (dir, k)];
      if BlockOf(fs, dir, k / PER_BLOCK) != 0 {
        EnterAdds(fs, own, named, dir, k, child, name);
      } else if i < BMAP_BITS && fs.freeBlocks > 0 {
        own' := own[i := (dir, k / PER_BLOCK)];
        AddWithNewBlock(fs, own, named, dir, k, i, child, name);
      } else {
        named' := named;
      }
    }
  }

  lemma InvLengths(fs: Fs, own: seq<(nat, nat)>, named: seq<(nat, nat)>)
    requires Inv(fs, own, named)
    ensures Shaped(fs) && |own| == BMAP_BITS && |named| == INODE_MAX
  {
  }

  /** A directory that has got an empty block: nothing is named differently. */
  lemma NewBlockAttached(fs: Fs, own: seq<(nat, nat)>, named: seq<(nat, nat)>, dir: nat, b: nat, i: nat)
    requires Inv(fs, own, named) && dir < INODE_MAX && fs.inodeMap[dir]
    requires b < DIRECT && BlockOf(fs, dir, b) == 0
    requires forall c: nat :: c < b ==> BlockOf(fs, dir, c) != 0
    requires i < BMAP_BITS && !fs.blockMap[i] && fs.freeBlocks > 0
    ensures |own| == BMAP_BITS
    ensures var fs1 := Attach(fs, dir, b, i, Zeros(512));
      && Inv(fs1, own[i := (dir, b)], named) && SameNames(fs, fs1) && OthersUntouched(fs, fs1, dir)
      && BlockOf(fs1, dir, b) == DATA_START + i
  {
    hide Put, Names, Entry, Find, FreeSlot, FirstFree, DirentAt;
    forall j: nat | j < PER_BLOCK
      ensures DirentAt(Zeros(512), j).inode == 0
    {
      BlankBlock(j);
    }
    AttachKeeps(fs, own, named, dir, b, i, Zeros(512));
    AttachLeavesOthers(fs, own, dir, b, i, Zeros(512));
  }

  /** What is added after a step that names nothing is added to where the step began. */
  lemma AddedAfter(fs: Fs, fs1: Fs, fs': Fs, dir: nat, k: nat, child: nat, name: Name)
    requires Shaped(fs) && Shaped(fs1) && dir < INODE_MAX && SameNames(fs, fs1) && OthersUntouched(fs, fs1, dir)
    requires fs1.inodeMap == fs.inodeMap && fs1.inodes[dir].kind == fs.inodes[dir].kind
    requires Added(fs1, fs', dir, k, child, name)
    ensures Added(fs, fs', dir, k, child, name)
  {
    hide BlockOf, Names, Entry, OthersUntouched, Put, Shaped, Kept;
    UntouchedTrans(fs, fs1, fs', dir);
  }

  lemma SameNamesUnnamed(fs: Fs, fs': Fs, c: nat, n: nat, k: nat)
    requires Shaped(fs) && Shaped(fs') && SameNames(fs, fs') && Unnamed(fs, c)
    requires n < INODE_MAX && !Names(fs, n, k)
    ensures Unnamed(fs', c) && !Names(fs', n, k)
  {
    hide Names, Entry, Shaped, BlockOf;
  }

  lemma AddWithNewBlock(fs: Fs, own: seq<(nat, nat)>, named: seq<(nat, nat)>, dir: nat, k: nat, i: nat, child: nat,
        name: Name)
    requires Inv(fs, own, named) && dir < INODE_MAX && fs.inodeMap[dir] && fs.inodes[dir].kind == KIND_DIR
    requires 0 < child < INODE_MAX && child != dir && fs.inodeMap[child] && Unnamed(fs, child)
    requires k < SLOTS && BlockOf(fs, dir, k / PER_BLOCK) == 0 && k <= fs.inodes[dir].size / 32
    requires forall b: nat :: b < k / PER_BLOCK ==> BlockOf(fs, dir, b) != 0
    requires i < BMAP_BITS && !fs.blockMap[i] && fs.freeBlocks > 0
    ensures var fs1 := Attach(fs, dir, k / PER_BLOCK, i, Zeros(512));
      && Inv(Enter(fs1, dir, k, child, name), own[i := (dir, k / PER_BLOCK)], named[child := (dir, k)])
      && Added(fs, Enter(fs1, dir, k, child, name), dir, k, child, name)
  {
    hide Put, Enter, Entry, Unnamed, SameNames, OthersUntouched, Added;
    hide BlocksOwned, NamesUnique, DirsPacked, CountsRight;
    NewBlockAttached(fs, own, named, dir, k / PER_BLOCK, i);
    var own1 := own[i := (dir, k / PER_BLOCK)];
    var fs1 := Attach(fs, dir, k / PER_BLOCK, i, Zeros(512));
    assert !Names(fs, dir, k);
    SameNamesUnnamed(fs, fs1, child, dir, k);
    EnterAdds(fs1, own1, named, dir, k, child, name);
    AddedAfter(fs, fs1, Enter(fs1, dir, k, child, name), dir, k, child, name);
  }

  /** ---- Paths keep resolving ---- */

  /** Changes confined to an inode that is not a directory. */
  lemma FileChangeExtends(fs: Fs, own: seq<(nat, nat)>, named: seq<(nat, nat)>, fs': Fs, own': seq<(nat, nat)>,
        named': seq<(nat, nat)>, n: nat)
    requires Inv(fs, own, named) && Inv(fs', own', named') && n < INODE_MAX && OthersUntouched(fs, fs', n)
    requires fs.inodeMap[n] ==> fs.inodes[n].kind != KIND_DIR
    ensures Extends(fs, fs')
  {
    forall m: nat, name: Name | m < INODE_MAX && fs.inodeMap[m] && fs.inodes[m].kind == KIND_DIR
      && Find(fs.data, fs.inodes[m], name, 0).Some?
      ensures fs'.inodeMap[m] && fs'.inodes[m].kind == KIND_DIR
      ensures var f, f' := Find(fs.data, fs.inodes[m], name, 0), Find(fs'.data, fs'.inodes[m], name, 0);
         f' == f && Slot(fs'.data, fs'.inodes[m], f.value) == Slot(fs.data, fs.inodes[m], f.value)
    {
      SameDirFinds(fs, own, named, fs', own', named', m, name);
    }
  }

  lemma SameDirFinds(fs: Fs, own: seq<(nat, nat)>, named: seq<(nat, nat)>, fs': Fs, own': seq<(nat, nat)>,
        named': seq<(nat, nat)>, m: nat, name: Name)
    requires Inv(fs, own, named) && Inv(fs', own', named') && m < INODE_MAX && fs.inodeMap[m] && fs'.inodeMap[m]
    requires fs.inodes[m].kind == KIND_DIR && Untouched(fs, fs', m)
    ensures var f, f' := Find(fs.data, fs.inodes[m], name, 0), Find(fs'.data, fs'.inodes[m], name, 0);
      f' == f && (f.Some? ==> Slot(fs'.data, fs'.inodes[m], f.value) == Slot(fs.data, fs.inodes[m], f.value))
  {
    UntouchedNames(fs, fs', m);
    FindDepends(fs, own, named, fs', own', named', m, name);
    FindIsFirst(fs, own, named, m, name, 0);
    hide Find, DirentAt, BlocksOwned, NamesUnique, DirsPacked, CountsRight;
    var f := Find(fs.data, fs.inodes[m], name, 0);
    if f.Some? { assert Entry(fs', m, f.value) == Entry(fs, m, f.value); }
  }

  /** A search for another name than the one entered. */
  lemma AddedDirFinds(fs: Fs, own: seq<(nat, nat)>, named: seq<(nat, nat)>, fs': Fs, own': seq<(nat, nat)>,
        named': seq<(nat, nat)>, dir: nat, k: nat, child: nat, name: Name, s: Name)
    requires Inv(fs, own, named) && Inv(fs', own', named') && Added(fs, fs', dir, k, child, name)
    requires dir < INODE_MAX && fs.inodeMap[dir] && fs.inodes[dir].kind == KIND_DIR && s != Kept(name)
    ensures var f, f' := Find(fs.data, fs.inodes[dir], s, 0), Find(fs'.data, fs'.inodes[dir], s, 0);
      f' == f && (f.Some? ==> Slot(fs'.data, fs'.inodes[dir], f.value) == Slot(fs.data, fs.inodes[dir], f.value))
  {
    hide Find, DirentAt, BlocksOwned, NamesUnique, DirsPacked, CountsRight;
    FindDepends(fs, own, named, fs', own', named', dir, s);
    FindIsFirst(fs, own, named, dir, s, 0);
    var f := Find(fs.data, fs.inodes[dir], s, 0);
    if f.Some? { assert Entry(fs', dir, f.value) == Entry(fs, dir, f.value); }
  }

  /** A search for the name entered, which is cut to 27 octets, ends at the new entry unless an earlier
      slot has the name. */
  lemma AddedIsFound(fs: Fs, own: seq<(nat, nat)>, named: seq<(nat, nat)>, fs': Fs, own': seq<(nat, nat)>,
        named': seq<(nat, nat)>, dir: nat, k: nat, child: nat, name: Name)
    requires Inv(fs, own, named) && Inv(fs', own', named') && Added(fs, fs', dir, k, child, name)
    requires dir < INODE_MAX && fs.inodeMap[dir] && fs.inodes[dir].kind == KIND_DIR
    ensures var f, f' := Find(fs.data, fs.inodes[dir], Kept(name), 0), Find(fs'.data, fs'.inodes[dir], Kept(name), 0);
      && f' == (if f.Some? && f.value < k then f else Some(k)) && f != Some(k)
      && (f.Some? && f.value < k ==>
          Slot(fs'.data, fs'.inodes[dir], f.value) == Slot(fs.data, fs.inodes[dir], f.value))
      && HasSlot(fs'.inodes[dir], k) && fs'.inodes[dir].blocks[k / PER_BLOCK] < |fs'.data|
      && Slot(fs'.data, fs'.inodes[dir], k).inode == child
  {
    hide Find, DirentAt, BlocksOwned, NamesUnique, DirsPacked, CountsRight, Slot, OthersUntouched;
    FindIsFirst(fs, own, named, dir, Kept(name), 0);
    FindIsFirst(fs', own', named', dir, Kept(name), 0);
    var f := Find(fs.data, fs.inodes[dir], Kept(name), 0);
    assert Names(fs', dir, k) && Entry(fs', dir, k).name == Kept(name) && Entry(fs', dir, k).inode == child;
    if f.Some? && f.value < k { assert Entry(fs', dir, f.value) == Entry(fs, dir, f.value); }
  }

  /** What a new entry changes in any search: nothing, or the one that ended behind it at its name. */
  lemma AddedExtends(fs: Fs, own: seq<(nat, nat)>, named: seq<(nat, nat)>, fs': Fs, own': seq<(nat, nat)>,
        named': seq<(nat, nat)>, dir: nat, k: nat, child: nat, name: Name)
    requires Inv(fs, own, named) && Inv(fs', own', named') && Added(fs, fs', dir, k, child, name)
    requires dir < INODE_MAX && fs.inodeMap[dir] && fs.inodes[dir].kind == KIND_DIR
    ensures var f := Find(fs.data, fs.inodes[dir], Kept(name), 0);
      && (f.None? || f.value < k ==> Extends(fs, fs'))
      && (f.Some? && k < f.value ==> ExtendsExcept(fs, fs', Slot(fs.data, fs.inodes[dir], f.value).inode))
  {
    hide Find, Slot, Names, Entry, BlocksOwned, NamesUnique, DirsPacked, CountsRight, NamesBut, BlockOf, Kept;
    var g := Find(fs.data, fs.inodes[dir], Kept(name), 0);
    forall m: nat, s: Name | m < INODE_MAX && fs.inodeMap[m] && fs.inodes[m].kind == KIND_DIR
      && Find(fs.data, fs.inodes[m], s, 0).Some? && (m == dir && s == Kept(name) ==> g.value < k)
      ensures fs'.inodeMap[m] && fs'.inodes[m].kind == KIND_DIR
      ensures var f, f' := Find(fs.data, fs.inodes[m], s, 0), Find(fs'.data, fs'.inodes[m], s, 0);
         f' == f && Slot(fs'.data, fs'.inodes[m], f.value) == Slot(fs.data, fs.inodes[m], f.value)
    {
      if m != dir {
        SameDirFinds(fs, own, named, fs', own', named', m, s);
      } else if s == Kept(name) {
        AddedIsFound(fs, own, named, fs', own', named', dir, k, child, name);
      } else {
        AddedDirFinds(fs, own, named, fs', own', named', dir, k, child, name, s);
      }
    }
  }

  /** ---- Where a new entry leads ---- */

  /** What spfs_write and spfs_mkdir expect of a path: it fits the buffers, and the 32-bit size of its parent,
      if there is one, can still grow. */
  ghost predicate Makeable(fs: Fs, path: Name)
    requires Shaped(fs)
  {
    |path| <= PATH_MAX
    && (ParentOf(fs, path).Some? ==>
          ParentOf(fs, path).value < INODE_MAX && fs.inodes[ParentOf(fs, path).value].size + 32 < WORD)
  }

  /** The parent of path is there and a directory. Neither call looks whether it is one. */
  ghost predicate InDir(fs: Fs, path: Name)
    requires Shaped(fs)
  {
    && ParentOf(fs, path).Some? && ParentOf(fs, path).value < INODE_MAX
    && fs.inodes[ParentOf(fs, path).value].kind == KIND_DIR
  }

  /** The first slot without a name in the directory of path. */
  ghost function NewSlot(fs: Fs, path: Name): (r: Option<nat>)
    requires Shaped(fs)
  {
    if !InDir(fs, path) then None else FreeSlot(fs.data, fs.inodes[ParentOf(fs, path).value], 0)
  }

  /** The slot in which the directory of path is found to have a name. */
  ghost function SlotOf(fs: Fs, path: Name, name: Name): (r: Option<nat>)
    requires Shaped(fs)
  {
    if !InDir(fs, path) then None else Find(fs.data, fs.inodes[ParentOf(fs, path).value], name, 0)
  }

  /** A new entry for path is the one that path leads to: it has a slot, its name is not cut, and no slot in
      front of it has the name. */
  ghost predicate Leads(fs: Fs, path: Name)
    requires Shaped(fs)
  {
    && BaseName(path) != [] && |BaseName(path)| <= NAME_MAX && NewSlot(fs, path).Some?
    && (SlotOf(fs, path, BaseName(path)).Some? ==> NewSlot(fs, path).value < SlotOf(fs, path, BaseName(path)).value)
  }

  /** The inode whose name a new entry for path comes to stand in front of: the cut name is found behind the
      first free slot. */
  ghost function Shadowed(fs: Fs, path: Name): (r: Option<nat>)
    requires Shaped(fs)
  {
    match (NewSlot(fs, path), SlotOf(fs, path, Kept(BaseName(path))))
    case (Some(k), Some(j)) =>
      if k < j then Some(Slot(fs.data, fs.inodes[ParentOf(fs, path).value], j).inode) else None
    case _ => None
  }

  /** Another path passes that inode. */
  ghost predicate Hides(fs: Fs, path: Name, other: Name)
    requires Shaped(fs)
  {
    Shadowed(fs, path).Some? && Passes(fs, PathTokens(other), Shadowed(fs, path).value)
  }

  /** Where older paths lead after inode n was entered under path: where they led, unless they pass the inode
      hidden; those that led to that inode itself lead to n. */
  ghost predicate OthersAfter(fs: Fs, fs': Fs, path: Name, n: nat)
    requires Shaped(fs)
  {
    forall other: Name {:trigger Resolve(fs, other)} :: Resolve(fs, other).Some? ==>
      && (Resolve(fs', other) == Resolve(fs, other) <==> !Hides(fs, path, other))
      && (Shadowed(fs, path) == Some(Resolve(fs, other).value.0) ==>
          ParentOf(fs, path).Some? && Resolve(fs', other) == Some((n, ParentOf(fs, path).value)))
  }

  /** The state after entering child under the last component of path in its directory. */
  ghost predicate EnteredAt(fs: Fs, fs': Fs, path: Name, dir: nat, child: nat)
  {
    && Shaped(fs) && Shaped(fs') && |path| <= PATH_MAX && ParentOf(fs, path) == Some(dir)
    && dir < INODE_MAX && fs.inodeMap[dir] && fs.inodes[dir].kind == KIND_DIR
    && NewSlot(fs, path).Some? && Added(fs, fs', dir, NewSlot(fs, path).value, child, BaseName(path))
  }

  /** The way to the directory of path is not affected. */
  lemma ParentKept(fs: Fs, own: seq<(nat, nat)>, named: seq<(nat, nat)>, fs': Fs, own': seq<(nat, nat)>,
        named': seq<(nat, nat)>, path: Name, dir: nat, child: nat)
    requires Inv(fs, own, named) && Inv(fs', own', named') && EnteredAt(fs, fs', path, dir, child)
    ensures var ts := Tokens(ParentPath(path));
      Walk(fs, 0, 0, ts).Some? && Walk(fs, 0, 0, ts).value.0 == dir && Walk(fs', 0, 0, ts) == Walk(fs, 0, 0, ts)
    ensures ParentOf(fs', path) == Some(dir)
    ensures Shadowed(fs, path).Some? ==> !Passes(fs, Tokens(ParentPath(path)), Shadowed(fs, path).value)
  {
    hide Walk, Find, Slot, Names, Entry, BlocksOwned, NamesUnique, DirsPacked, CountsRight, Added, FreeSlot, Extends,
         ExtendsExcept, Tokens, Kept;
    var ts, k := Tokens(ParentPath(path)), NewSlot(fs, path).value;
    ShortPath(ParentPath(path));
    WalkNone(fs);
    WalkNone(fs');
    assert Walk(fs, 0, 0, ts).Some? && Walk(fs, 0, 0, ts).value.0 == dir by { NoTokens(); }
    AddedExtends(fs, own, named, fs', own', named', dir, k, child, BaseName(path));
    AddedIsFound(fs, own, named, fs', own', named', dir, k, child, BaseName(path));
    var f := Find(fs.data, fs.inodes[dir], Kept(BaseName(path)), 0);
    if f.Some? && k < f.value {
      FoundName(fs, own, named, dir, Kept(BaseName(path)));
      WayMissesChild(fs, own, named, ts, ts, f.value);
      PathKept(fs, own, named, fs', Child(fs, dir, f.value), ts);
    } else {
      WalkExtends(fs, own, named, fs', 0, 0, ts);
    }
    NoTokens();
  }

  lemma NoTokens()
    ensures Tokens([]) == []
  {
  }

  /** What path itself leads to then. */
  lemma EnteredPath(fs: Fs, own: seq<(nat, nat)>, named: seq<(nat, nat)>, fs': Fs, own': seq<(nat, nat)>,
        named': seq<(nat, nat)>, path: Name, dir: nat, child: nat)
    requires Inv(fs, own, named) && Inv(fs', own', named') && EnteredAt(fs, fs', path, dir, child)
    ensures Resolve(fs', path) == if Leads(fs, path) then Some((child, dir)) else Resolve(fs, path)
  {
    hide Walk, Find, Slot, Names, Entry, BlocksOwned, NamesUnique, DirsPacked, CountsRight, FreeSlot, Tokens,
         OthersUntouched, NamesBut, AfterSlash, ParentPath, BaseName;
    ParentKept(fs, own, named, fs', own', named', path, dir, child);
    var k, name := NewSlot(fs, path).value, BaseName(path);
    if name == [] {
      ShortPath(path);
      SplitTokens(path);
      assert PathTokens(path) == Tokens(ParentPath(path));
    } else {
      ResolveByParent(fs, path);
      ResolveByParent(fs', path);
      AddedIsFound(fs, own, named, fs', own', named', dir, k, child, name);
      if name != Kept(name) { AddedDirFinds(fs, own, named, fs', own', named', dir, k, child, name, name); }
    }
  }

  /** What every other path leads to: what it led to, unless it passes the inode now hidden. */
  lemma EnteredOther(fs: Fs, own: seq<(nat, nat)>, named: seq<(nat, nat)>, fs': Fs, own': seq<(nat, nat)>,
        named': seq<(nat, nat)>, path: Name, dir: nat, child: nat, other: Name)
    requires Inv(fs, own, named) && Inv(fs', own', named') && EnteredAt(fs, fs', path, dir, child)
    requires |named| == |named'| == INODE_MAX && forall m: nat :: m < INODE_MAX && m != child ==> named'[m] == named[m]
    requires Unnamed(fs, child) && Resolve(fs, other).Some?
    ensures Resolve(fs', other) == Resolve(fs, other) <==> !Hides(fs, path, other)
  {
    hide Walk, Find, Slot, BlocksOwned, DirsPacked, CountsRight, FreeSlot, Tokens, PathTokens, Entry, Names,
         OthersUntouched, Extends, ExtendsExcept, Passes, Kept, AfterSlash;
    var k, name, ts := NewSlot(fs, path).value, Kept(BaseName(path)), PathTokens(other);
    AddedExtends(fs, own, named, fs', own', named', dir, k, child, BaseName(path));
    AddedIsFound(fs, own, named, fs', own', named', dir, k, child, BaseName(path));
    if Shadowed(fs, path).None? {
      FinishPath(fs, own, named, fs', other);
    } else {
      FoundName(fs, own, named, dir, name);
      var j := SlotOf(fs, path, name).value;
      if !Hides(fs, path, other) {
        PathKept(fs, own, named, fs', Child(fs, dir, j), ts);
      } else if Resolve(fs', other).Some? {
        HiddenCut(fs, own, named, fs', own', named', dir, k, child, BaseName(path), j, ts);
      }
    }
  }

  /** Paths that led to the inode now hidden lead to the new one. */
  lemma EnteredHidden(fs: Fs, own: seq<(nat, nat)>, named: seq<(nat, nat)>, fs': Fs, own': seq<(nat, nat)>,
        named': seq<(nat, nat)>, path: Name, dir: nat, child: nat, other: Name)
    requires Inv(fs, own, named) && Inv(fs', own', named') && EnteredAt(fs, fs', path, dir, child)
    requires Resolve(fs, other).Some? && Shadowed(fs, path) == Some(Resolve(fs, other).value.0)
    ensures Resolve(fs', other) == Some((child, dir))
  {
    var k, name, ts := NewSlot(fs, path).value, Kept(BaseName(path)), PathTokens(other);
    var c := Shadowed(fs, path).value;
    var j := SlotOf(fs, path, name).value;
    FoundName(fs, own, named, dir, name);
    assert 0 < c < INODE_MAX && named[c] == (dir, j);
    if ts == [] { WalkNone(fs); }
    hide Walk, Find, Slot, BlocksOwned, DirsPacked, CountsRight, NamesUnique, FreeSlot, Tokens, PathTokens, Entry,
         Names, OthersUntouched, Extends, ExtendsExcept, Passes, Kept, AfterSlash, NamesBut;
    StepBefore(fs, own, named, ts);
    var most, last := ts[..|ts| - 1], ts[|ts| - 1];
    AddedExtends(fs, own, named, fs', own', named', dir, k, child, BaseName(path));
    AddedIsFound(fs, own, named, fs', own', named', dir, k, child, BaseName(path));
    WayMissesChild(fs, own, named, most, most, j);
    PathKept(fs, own, named, fs', c, most);
    LastSplit(ts);
    WalkConcat(fs', 0, 0, most, [last]);
    WalkOne(fs', dir, Walk(fs', 0, 0, most).value.1, last);
  }

  lemma HiddenCut(fs: Fs, own: seq<(nat, nat)>, named: seq<(nat, nat)>, fs': Fs, own': seq<(nat, nat)>,
        named': seq<(nat, nat)>, dir: nat, k: nat, child: nat, name: Name, j: nat, ts: seq<Name>)
    requires Inv(fs, own, named) && Inv(fs', own', named') && Added(fs, fs', dir, k, child, name)
    requires |named| == |named'| == INODE_MAX && forall m: nat :: m < INODE_MAX && m != child ==> named'[m] == named[m]
    requires Unnamed(fs, child) && Names(fs, dir, j) && j != k && Entry(fs, dir, j).name == Kept(name)
    requires Find(fs'.data, fs'.inodes[dir], Kept(name), 0) == Some(k)
    requires Walk(fs, 0, 0, ts).Some? && Passes(fs, ts, Child(fs, dir, j)) && Walk(fs', 0, 0, ts).Some?
    ensures Walk(fs', 0, 0, ts) != Walk(fs, 0, 0, ts)
  {
    hide Walk, Find, Slot, BlocksOwned, DirsPacked, CountsRight, Entry, Names, OthersUntouched, Passes, Kept;
    assert Names(fs', dir, j) && Entry(fs', dir, j) == Entry(fs, dir, j);
    forall vs: seq<Name> | Walk(fs', 0, 0, vs).Some?
      ensures Walk(fs', 0, 0, vs).value.0 != Child(fs, dir, j)
    {
      Unreachable(fs', own', named', dir, j, vs);
    }
    PathCut(fs, own, named, fs', own', named', Child(fs, dir, j), ts, ts);
  }

  /** ---- The operations ---- */

  /** spfs_write, up to the data: the emptied or new inode, if there is one. */
  function Target(fs: Fs, path: Name, now: nat): (r: (Fs, Option<nat>))
    requires Shaped(fs)
    ensures Shaped(r.0) && (r.1.Some? ==> r.1.value < INODE_MAX)
  {
    match ParentOf(fs, path)
    case None => (fs, None)
    case Some(dir) =>
      match Resolve(fs, path)
      case Some((n, _)) =>
        if n >= INODE_MAX then (fs, None)
        else (Relabel(DropFrom(fs, n, 0), n, fs.inodes[n].kind, 0), Some(n))
      case None =>
        var n := FirstFree(fs.inodeMap, 1);
        if n == INODE_MAX || fs.freeInodes == 0 || dir >= INODE_MAX then (fs, None)
        else (AddEntry(Birth(fs, n, KIND_FILE, now), dir, n, BaseName(path)).0, Some(n))
  }

  /** What an operation leaves behind and returns. */
  datatype Outcome = Outcome(fs: Fs, ret: int)

  /** spfs_write. */
  function WriteFile(fs: Fs, path: Name, buf: seq<byte>, now: nat): (r: Outcome)
    requires Shaped(fs)
  {
    if |buf| > FILE_MAX then Outcome(fs, -1)
    else
      var (fs1, target) := Target(fs, path, now);
      match target
      case None => Outcome(fs1, -1)
      case Some(n) =>
        var (fs', done) := AppendFrom(Relabel(fs1, n, fs1.inodes[n].kind, |buf|), n, 0, buf);
        Outcome(fs', done)
  }

  /** The loop of spfs_read over the blocks. */
  function ReadBlocks(data: seq<Sector>, ino: Inode, b: nat, want: nat): (s: seq<byte>)
    requires |ino.blocks| == DIRECT
    ensures |s| <= want
    decreases DIRECT - b
  {
    if b >= DIRECT || want == 0 || ino.blocks[b] == 0 || ino.blocks[b] >= |data| then []
    else if want <= 512 then data[ino.blocks[b]][..want]
    else data[ino.blocks[b]] + ReadBlocks(data, ino, b + 1, want - 512)
  }

  /** spfs_read of at most max octets; None for -1. */
  function ReadFile(fs: Fs, path: Name, max: nat): (r: Option<seq<byte>>)
  {
    match Resolve(fs, path)
    case None => None
    case Some((n, _)) =>
      if n >= |fs.inodes| || fs.inodes[n].kind != KIND_FILE || |fs.inodes[n].blocks| != DIRECT then None
      else Some(ReadBlocks(fs.data, fs.inodes[n], 0, if fs.inodes[n].size < max then fs.inodes[n].size else max))
  }

  /** What spfs_write expects of its caller: a path as for spfs_mkdir, a target that is a file or absent. */
  ghost predicate Writable(fs: Fs, path: Name)
    requires Shaped(fs)
  {
    && Makeable(fs, path)
    && (Resolve(fs, path).Some? ==>
      Resolve(fs, path).value.0 < INODE_MAX
      && fs.inodes[Resolve(fs, path).value.0].kind == KIND_FILE)
  }

  /** ---- Consistency ---- */

  lemma RelabelLeavesOthers(fs: Fs, n: nat, kind: nat, size: nat)
    requires Shaped(fs) && n < INODE_MAX && Shaped(Relabel(fs, n, kind, size))
    ensures OthersUntouched(fs, Relabel(fs, n, kind, size), n)
  {
  }

  lemma BirthLeavesOthers(fs: Fs, n: nat, kind: nat, now: nat)
    requires Shaped(fs) && n < INODE_MAX && fs.freeInodes > 0 && Shaped(Birth(fs, n, kind, now))
    ensures OthersUntouched(fs, Birth(fs, n, kind, now), n)
  {
  }

  /** The state between finding the target and writing data: n is an empty live file. */
  ghost predicate Emptied(fs: Fs, n: nat)
  {
    Shaped(fs) && 0 < n < INODE_MAX && fs.inodeMap[n] && fs.inodes[n].kind == KIND_FILE
    && forall j: nat {:trigger BlockOf(fs, n, j)} :: j < DIRECT ==> BlockOf(fs, n, j) == 0
  }

  lemma EmptyExisting(fs: Fs, own: seq<(nat, nat)>, named: seq<(nat, nat)>, n: nat)
    requires Inv(fs, own, named) && n < INODE_MAX && fs.inodeMap[n] && fs.inodes[n].kind == KIND_FILE
    ensures var fs1 := Relabel(DropFrom(fs, n, 0), n, KIND_FILE, 0);
      Inv(fs1, own, named) && Emptied(fs1, n) && OthersUntouched(fs, fs1, n)
  {
    var d := DropFrom(fs, n, 0);
    DropFromKeeps(fs, own, named, n, 0);
    RelabelKeeps(d, own, named, n, KIND_FILE, 0);
    RelabelLeavesOthers(d, n, KIND_FILE, 0);
    var fs1 := Relabel(d, n, KIND_FILE, 0);
    hide DropFrom, BlocksOwned, NamesUnique, DirsPacked, CountsRight, Names, Entry, BlockOf, OthersUntouched;
    UntouchedTrans(fs, d, fs1, n);
  }

  /** Writing the data of an emptied file. */
  lemma FillKeeps(fs: Fs, own: seq<(nat, nat)>, named: seq<(nat, nat)>, n: nat, buf: seq<byte>)
        returns (own': seq<(nat, nat)>)
    requires Inv(fs, own, named) && Emptied(fs, n)
    ensures var (fs', done) := AppendFrom(Relabel(fs, n, KIND_FILE, |buf|), n, 0, buf);
      && Inv(fs', own', named) && OthersUntouched(fs, fs', n)
      && fs'.inodeMap == fs.inodeMap && fs'.inodes[n].kind == KIND_FILE && fs'.inodes[n].size == |buf|
      && done <= |buf| && (done == |buf| ==> Holds(fs', n, 0, buf)) && (|buf| <= FILE_MAX ==> done == |buf|)
  {
    var fs1 := Relabel(fs, n, KIND_FILE, |buf|);
    RelabelKeeps(fs, own, named, n, KIND_FILE, |buf|);
    RelabelLeavesOthers(fs, n, KIND_FILE, |buf|);
    own' := AppendFromKeeps(fs1, own, named, n, 0, buf);
    var (fs', done) := AppendFrom(fs1, n, 0, buf);
    hide AppendFrom, BlocksOwned, NamesUnique, DirsPacked, CountsRight, Names, Entry, BlockOf, OthersUntouched, Holds;
    UntouchedTrans(fs, fs1, fs', n);
  }

  /** Where spfs_write has a target: the parent is there, and the file is too or an inode is free. */
  ghost predicate HasTarget(fs: Fs, path: Name)
    requires Shaped(fs)
  {
    ParentOf(fs, path).Some? && (Resolve(fs, path).Some? || exists n: nat :: n < INODE_MAX && !fs.inodeMap[n])
  }

  /** The path leads to the file written: it existed, or its parent is a directory with a slot for it and its
      last component fits an entry. */
  ghost predicate Linked(fs: Fs, path: Name)
    requires Shaped(fs)
  {
    || Resolve(fs, path).Some?
    || (InDir(fs, path) && HasRoom(fs, ParentOf(fs, path).value) && |BaseName(path)| <= NAME_MAX)
  }

  /** The inode written: what the path leads to, or the lowest free one. */
  ghost function TargetOf(fs: Fs, path: Name): (n: nat)
    requires Shaped(fs)
  {
    if Resolve(fs, path).Some? then Resolve(fs, path).value.0 else FirstFree(fs.inodeMap, 1)
  }

  /** Where paths lead after a write: path to the file exactly when it is linked, every older one where it
      led, but for what the entry of a new file hides. */
  ghost predicate PathsAfter(fs: Fs, fs': Fs, path: Name)
    requires Shaped(fs)
  {
    && (Resolve(fs', path).Some? <==> Linked(fs, path))
    && (Linked(fs, path) ==> Resolve(fs', path).value.0 == TargetOf(fs, path))
    && (if Resolve(fs, path).None? then OthersAfter(fs, fs', path, TargetOf(fs, path)) else
          forall other: Name {:trigger Resolve(fs, other)} :: Resolve(fs, other).Some? ==>
            Resolve(fs', other) == Resolve(fs, other))
  }

  /** What finding the target guarantees: the state is consistent, the file is empty, and paths lead
      where they should. */
  lemma TargetKeeps(fs: Fs, own: seq<(nat, nat)>, named: seq<(nat, nat)>, path: Name, now: nat)
    returns (own': seq<(nat, nat)>, named': seq<(nat, nat)>)
    requires Inv(fs, own, named) && Writable(fs, path)
    ensures var (fs1, target) := Target(fs, path, now);
      && Inv(fs1, own', named')
      && (target.Some? <==> HasTarget(fs, path))
      && (target.None? ==> fs1 == fs)
      && (target.Some? ==>
        && target.value == TargetOf(fs, path) && Emptied(fs1, target.value)
        && FilesKept(fs, fs1, target.value, ParentOf(fs, path).value)
        && PathsAfter(fs, fs1, path))
  {
    hide Makeable, Emptied, FilesKept, PathsAfter, Resolve, FirstFree, DropFrom, AddEntry, BlocksOwned, NamesUnique,
         DirsPacked, CountsRight;
    own', named' := own, named;
    ResolveIsLive(fs, own, named, path);
    FirstFreeInode(fs);
    if ParentOf(fs, path).Some? && Resolve(fs, path).Some? {
      TargetExisting(fs, own, named, path, now);
    } else if ParentOf(fs, path).Some? && FirstFree(fs.inodeMap, 1) < INODE_MAX {
      FreeInodesPositive(fs, FirstFree(fs.inodeMap, 1));
      own', named' := TargetNew(fs, own, named, path, now);
    }
  }

  lemma FirstFreeInode(fs: Fs)
    requires Shaped(fs) && fs.inodeMap[0]
    ensures FirstFree(fs.inodeMap, 1) < INODE_MAX <==> exists n: nat :: n < INODE_MAX && !fs.inodeMap[n]
  {
  }

  /** Every live file other than n and p, the parent of the path, is the same. */
  ghost predicate FilesKept(fs: Fs, fs': Fs, n: nat, p: nat)
    requires Shaped(fs) && Shaped(fs')
  {
    forall j: nat {:trigger fs.inodeMap[j]} ::
      j < INODE_MAX && j != n && j != p && fs.inodeMap[j] && fs.inodes[j].kind == KIND_FILE ==>
      fs'.inodeMap[j] && Untouched(fs, fs', j)
  }

  lemma TargetExisting(fs: Fs, own: seq<(nat, nat)>, named: seq<(nat, nat)>, path: Name, now: nat)
    requires Inv(fs, own, named) && Writable(fs, path) && ParentOf(fs, path).Some? && Resolve(fs, path).Some?
    ensures var (fs1, target) := Target(fs, path, now);
      && target == Some(Resolve(fs, path).value.0) && target.value < INODE_MAX
      && Inv(fs1, own, named) && Emptied(fs1, target.value)
      && FilesKept(fs, fs1, target.value, ParentOf(fs, path).value) && PathsAfter(fs, fs1, path)
  {
    ResolveIsLive(fs, own, named, path);
    var n := Resolve(fs, path).value.0;
    EmptyExisting(fs, own, named, n);
    var fs1 := Relabel(DropFrom(fs, n, 0), n, KIND_FILE, 0);
    FileChangeExtends(fs, own, named, fs1, own, named, n);
    hide DropFrom, BlocksOwned, NamesUnique, DirsPacked, CountsRight, Names, Entry, BlockOf, Extends, Untouched, Walk,
         Passes;
    forall other: Name | Resolve(fs, other).Some?
      ensures Resolve(fs1, other) == Resolve(fs, other)
    {
      FinishPath(fs, own, named, fs1, other);
    }
  }

  lemma TargetNew(fs: Fs, own: seq<(nat, nat)>, named: seq<(nat, nat)>, path: Name, now: nat)
    returns (own': seq<(nat, nat)>, named': seq<(nat, nat)>)
    requires Inv(fs, own, named) && Writable(fs, path) && ParentOf(fs, path).Some? && Resolve(fs, path).None?
    requires FirstFree(fs.inodeMap, 1) < INODE_MAX
    ensures var n := FirstFree(fs.inodeMap, 1);
      var (fs1, target) := Target(fs, path, now);
      && target == Some(n)
      && Inv(fs1, own', named') && Emptied(fs1, n) && FilesKept(fs, fs1, n, ParentOf(fs, path).value)
      && PathsAfter(fs, fs1, path)
  {
    var n := FirstFree(fs.inodeMap, 1);
    hide Inv, Emptied, FilesKept, Birth, AddEntry, Makeable, Hides, Resolve, Linked, Leads;
    own', named' := NewEntry(fs, own, named, path, n, KIND_FILE, now);
    NewIsLinked(fs, own, named, path);
  }

  /** A path that led nowhere leads to its new entry exactly when it is linked. */
  lemma NewIsLinked(fs: Fs, own: seq<(nat, nat)>, named: seq<(nat, nat)>, path: Name)
    requires Inv(fs, own, named) && Makeable(fs, path) && ParentOf(fs, path).Some? && Resolve(fs, path).None?
    ensures Leads(fs, path) <==> Linked(fs, path)
  {
    ResolveIsLive(fs, own, named, path);
    ResolveByParent(fs, path);
    hide Resolve, Find, FreeSlot, HasRoom, Inv, AfterSlash;
    if InDir(fs, path) { RoomIffSlot(fs, own, named, ParentOf(fs, path).value); }
  }

  lemma RoomIffSlot(fs: Fs, own: seq<(nat, nat)>, named: seq<(nat, nat)>, dir: nat)
    requires Inv(fs, own, named) && dir < INODE_MAX && fs.inodeMap[dir] && fs.inodes[dir].kind == KIND_DIR
    ensures FreeSlot(fs.data, fs.inodes[dir], 0).Some? <==> HasRoom(fs, dir)
  {
    FreeSlotFails(fs, own, dir, 0);
    FreeSlotIsFirst(fs, own, dir, 0);
    hide Names, FreeSlot, BlocksOwned, NamesUnique, DirsPacked, CountsRight;
  }

  lemma OthersAreFiles(fs: Fs, fs': Fs, n: nat, p: nat)
    requires Shaped(fs) && Shaped(fs') && OthersUntouched(fs, fs', n)
    ensures FilesKept(fs, fs', n, p)
  {
  }

  /** A fresh inode for path: nothing else changes. */
  lemma Born(fs: Fs, own: seq<(nat, nat)>, named: seq<(nat, nat)>, path: Name, n: nat, kind: nat, now: nat)
    requires Inv(fs, own, named) && Makeable(fs, path) && ParentOf(fs, path).Some?
    requires 0 < n < INODE_MAX && !fs.inodeMap[n]
    ensures fs.freeInodes > 0
    ensures var fs1, dir := Birth(fs, n, kind, now), ParentOf(fs, path).value;
      && Inv(fs1, own, named) && OthersUntouched(fs, fs1, n) && Extends(fs, fs1) && Unnamed(fs1, n)
      && dir != n && dir < INODE_MAX && fs.inodeMap[dir] && fs1.inodeMap[dir] && fs1.inodeMap[n]
      && fs1.inodes[dir] == fs.inodes[dir] && fs1.data == fs.data
      && ParentOf(fs1, path) == Some(dir) && (kind == KIND_FILE ==> Emptied(fs1, n))
  {
    var dir := ParentOf(fs, path).value;
    ResolveIsLive(fs, own, named, path);
    FreeInodesPositive(fs, n);
    var fs1 := Birth(fs, n, kind, now);
    BirthKeeps(fs, own, named, n, kind, now);
    BirthLeavesOthers(fs, n, kind, now);
    BirthFrame(fs, n, kind, now);
    FileChangeExtends(fs, own, named, fs1, own, named, n);
    hide BlockOf, Names, Entry, Inv, Extends, Find, Walk, OthersUntouched, Passes;
    InvRoot(fs, own, named);
    FinishPath(fs, own, named, fs1, ParentPath(path));
    UntouchedAt(fs, fs1, n, dir);
  }

  lemma UntouchedAt(fs: Fs, fs': Fs, n: nat, j: nat)
    requires Shaped(fs) && Shaped(fs') && OthersUntouched(fs, fs', n) && j < INODE_MAX && j != n && fs.inodeMap[j]
    ensures fs'.inodeMap[j] && Untouched(fs, fs', j) && fs'.inodes[j] == fs.inodes[j]
  {
  }

  /** The birth of an inode does not matter to where a new entry leads. */
  lemma BornSame(fs: Fs, own: seq<(nat, nat)>, named: seq<(nat, nat)>, fs1: Fs, path: Name, other: Name)
    requires Inv(fs, own, named) && Shaped(fs1) && Extends(fs, fs1) && fs1.data == fs.data && |path| <= PATH_MAX
    requires ParentOf(fs, path).Some? && ParentOf(fs1, path) == ParentOf(fs, path)
    requires var dir := ParentOf(fs, path).value;
      dir < INODE_MAX && fs1.inodes[dir] == fs.inodes[dir]
    ensures Shadowed(fs1, path) == Shadowed(fs, path)
    ensures NewSlot(fs1, path) == NewSlot(fs, path) && (Leads(fs1, path) <==> Leads(fs, path))
    ensures Resolve(fs1, path) == Resolve(fs, path)
    ensures Resolve(fs, other).Some? ==>
              Resolve(fs1, other) == Resolve(fs, other) && (Hides(fs1, path, other) <==> Hides(fs, path, other))
  {
    InvRoot(fs, own, named);
    hide Walk, Find, Slot, FreeSlot, Extends, Inv, AfterSlash, PathTokens, Passes;
    ResolveByParent(fs, path);
    ResolveByParent(fs1, path);
    FinishPath(fs, own, named, fs1, path);
    FinishPath(fs, own, named, fs1, other);
    var c := Shadowed(fs, path);
    if Resolve(fs, other).Some? && c.Some? { SamePasses(fs, own, named, fs1, PathTokens(other), c.value); }
  }

  /** An inode made for path and, if there is a slot, entered in its directory. */
  lemma NewEntry(fs: Fs, own: seq<(nat, nat)>, named: seq<(nat, nat)>, path: Name, n: nat, kind: nat, now: nat)
    returns (own': seq<(nat, nat)>, named': seq<(nat, nat)>)
    requires Inv(fs, own, named) && Makeable(fs, path) && ParentOf(fs, path).Some?
    requires 0 < n < INODE_MAX && !fs.inodeMap[n]
    ensures fs.freeInodes > 0 && ParentOf(fs, path).value < INODE_MAX
    ensures var fs', dir := AddEntry(Birth(fs, n, kind, now), ParentOf(fs, path).value, n, BaseName(path)).0,
        ParentOf(fs, path).value;
      && Inv(fs', own', named') && FilesKept(fs, fs', n, dir) && (kind == KIND_FILE ==> Emptied(fs', n))
      && Resolve(fs', path) == (if Leads(fs, path) then Some((n, dir)) else Resolve(fs, path))
      && OthersAfter(fs, fs', path, n)
  {
    Born(fs, own, named, path, n, kind, now);
    var fs1, dir, name := Birth(fs, n, kind, now), ParentOf(fs, path).value, BaseName(path);
    BornSame(fs, own, named, fs1, path, path);
    hide BlockOf, Names, Entry, Inv, Extends, Untouched, AddEntry, Find, Walk, OthersUntouched, Added, FreeSlot,
         Emptied, Birth, FilesKept, Unnamed, Resolve, Makeable, ParentOf, OthersAfter, Leads;
    if InDir(fs, path) {
      own', named' := AddEntryKeeps(fs1, own, named, dir, n, name);
      NewInDir(fs, fs1, own, named, own', named', path, n, kind);
    } else {
      own' := NewInFile(fs1, own, named, path, dir, n);
      named' := named;
      FileEntryFiles(fs, fs1, AddEntry(fs1, dir, n, name).0, n, dir);
      if kind == KIND_FILE { OtherStaysEmpty(fs1, AddEntry(fs1, dir, n, name).0, n, dir); }
    }
    BornOthers(fs, own, named, fs1, AddEntry(fs1, dir, n, name).0, path, n);
  }

  /** The entry of the new inode n in a directory; fs1 is the state before it is made. */
  lemma NewInDir(fs: Fs, fs1: Fs, own: seq<(nat, nat)>, named: seq<(nat, nat)>, own': seq<(nat, nat)>,
        named': seq<(nat, nat)>, path: Name, n: nat, kind: nat)
    requires Shaped(fs) && Inv(fs1, own, named) && InDir(fs1, path) && |path| <= PATH_MAX && n < INODE_MAX
    requires OthersUntouched(fs, fs1, n) && Unnamed(fs1, n) && (kind == KIND_FILE ==> Emptied(fs1, n))
    requires |named| == |named'| == INODE_MAX && forall m: nat :: m < INODE_MAX && m != n ==> named'[m] == named[m]
    requires var dir := ParentOf(fs1, path).value;
      && dir != n && fs.inodeMap[dir] && fs1.inodeMap[dir] && fs.inodes[dir] == fs1.inodes[dir]
      && var (fs', ok) := AddEntry(fs1, dir, n, BaseName(path));
         && Inv(fs', own', named') && (!ok ==> fs' == fs1)
         && (ok ==>
           && FreeSlot(fs1.data, fs1.inodes[dir], 0).Some?
           && Added(fs1, fs', dir, FreeSlot(fs1.data, fs1.inodes[dir], 0).value, n, BaseName(path)))
    ensures var dir := ParentOf(fs1, path).value;
      var fs' := AddEntry(fs1, dir, n, BaseName(path)).0;
      && FilesKept(fs, fs', n, dir) && (kind == KIND_FILE ==> Emptied(fs', n)) && OthersAfter(fs1, fs', path, n)
      && Resolve(fs', path) == (if Leads(fs1, path) then Some((n, dir)) else Resolve(fs1, path))
  {
    hide BlockOf, Names, Entry, Inv, Extends, Untouched, AddEntry, Find, Walk, OthersUntouched, Added, FreeSlot,
         Emptied, FilesKept, Unnamed, Resolve, ParentOf, OthersAfter, Leads;
    InvRoot(fs1, own, named);
    var dir, name := ParentOf(fs1, path).value, BaseName(path);
    NewSlotTaken(fs1, own, named, dir, n, name);
    var fs' := AddEntry(fs1, dir, n, name).0;
    if AddEntry(fs1, dir, n, name).1 {
      EnteredPath(fs1, own, named, fs', own', named', path, dir, n);
      EnteredOthers(fs1, own, named, fs', own', named', path, dir, n);
      LinkKeepsFiles(fs, fs1, fs', n, dir, NewSlot(fs1, path).value, name);
      if kind == KIND_FILE { LinkKeepsEmpty(fs1, fs', n, dir, NewSlot(fs1, path).value, name); }
    } else {
      NoSlotHides(fs1, path, n);
      OthersAreFiles(fs, fs1, n, dir);
    }
  }

  /** ---- A file in the place of the directory ---- */

  /** dir_add_entry on an inode that is no directory: it is changed like one, and nothing else is. */
  lemma FileEntryKeeps(fs: Fs, own: seq<(nat, nat)>, named: seq<(nat, nat)>, f: nat, child: nat, name: Name)
    returns (own': seq<(nat, nat)>)
    requires Inv(fs, own, named) && f < INODE_MAX && fs.inodeMap[f] && fs.inodes[f].kind != KIND_DIR
    requires 0 < child < INODE_MAX
    ensures var fs' := AddEntry(fs, f, child, name).0;
      && Inv(fs', own', named) && OthersUntouched(fs, fs', f) && fs'.inodeMap == fs.inodeMap
      && fs'.inodes[f].kind == fs.inodes[f].kind
      && fs'.inodes[f].size == fs.inodes[f].size + (if FreeSlot(fs.data, fs.inodes[f], 0).Some? then 32 else 0)
  {
    own' := own;
    RoomOnDisk(fs, own, named);
    UntouchedRefl(fs, f);
    hide Inv, Enter, FreeSlot, FirstFree, OthersUntouched, Attach, SameNames;
    var r := FreeSlot(fs.data, fs.inodes[f], 0);
    if r.Some? {
      var k := r.value;
      if fs.inodes[f].blocks[k / PER_BLOCK] != 0 {
        EnterFileKeeps(fs, own, named, f, k, child, name);
      } else {
        var i := FirstFree(fs.blockMap, 0);
        own' := own[i := (f, k / PER_BLOCK)];
        AttachFile(fs, own, named, f, k / PER_BLOCK, i);
        var fs1 := Attach(fs, f, k / PER_BLOCK, i, Zeros(512));
        EnterFileKeeps(fs1, own', named, f, k, child, name);
        UntouchedTrans(fs, fs1, Enter(fs1, f, k, child, name), f);
      }
    }
  }

  lemma AttachFile(fs: Fs, own: seq<(nat, nat)>, named: seq<(nat, nat)>, f: nat, b: nat, i: nat)
    requires Inv(fs, own, named) && f < INODE_MAX && fs.inodeMap[f] && fs.inodes[f].kind != KIND_DIR
    requires b < DIRECT && fs.inodes[f].blocks[b] == 0 && i < BMAP_BITS && !fs.blockMap[i] && fs.freeBlocks > 0
    ensures |own| == BMAP_BITS
    ensures var fs1 := Attach(fs, f, b, i, Zeros(512));
      && Inv(fs1, own[i := (f, b)], named) && OthersUntouched(fs, fs1, f) && fs1.inodeMap == fs.inodeMap
      && fs1.inodes[f] == fs.inodes[f].(blocks := fs.inodes[f].blocks[b := DATA_START + i])
  {
    AttachKeeps(fs, own, named, f, b, i, Zeros(512));
    AttachLeavesOthers(fs, own, f, b, i, Zeros(512));
    hide BlocksOwned, NamesUnique, DirsPacked, Names, OthersUntouched;
  }

  lemma EnterFileKeeps(fs: Fs, own: seq<(nat, nat)>, named: seq<(nat, nat)>, f: nat, k: nat, child: nat, name: Name)
    requires Inv(fs, own, named) && f < INODE_MAX && fs.inodeMap[f] && fs.inodes[f].kind != KIND_DIR
    requires k < SLOTS && fs.inodes[f].blocks[k / PER_BLOCK] != 0 && child < INODE_MAX
    ensures BlockOf(fs, f, k / PER_BLOCK) < TOTAL_SECTORS
    ensures var fs' := Enter(fs, f, k, child, name);
      && Inv(fs', own, named) && OthersUntouched(fs, fs', f) && fs'.inodeMap == fs.inodeMap
      && fs'.inodes[f].kind == fs.inodes[f].kind && fs'.inodes[f].size == fs.inodes[f].size + 32
  {
    hide Put, Names, Entry, BlocksOwned, NamesUnique, DirsPacked, CountsRight, OthersUntouched;
    var b := BlockOf(fs, f, k / PER_BLOCK);
    BlockInRange(fs, own, f, k / PER_BLOCK);
    var content := Put(fs.data[b], k % PER_BLOCK, child, name);
    OverwriteKeeps(fs, own, named, f, k / PER_BLOCK, content);
    var fs1 := fs.(data := fs.data[b := content]);
    RelabelKeeps(fs1, own, named, f, fs.inodes[f].kind, fs.inodes[f].size + 32);
    EnterLeavesOthers(fs, own, f, k, child, name);
  }

  /** A new inode whose path has a file for its parent: no path leads elsewhere than before. */
  lemma NewInFile(fs: Fs, own: seq<(nat, nat)>, named: seq<(nat, nat)>, path: Name, f: nat, n: nat)
    returns (own': seq<(nat, nat)>)
    requires Inv(fs, own, named) && f < INODE_MAX && fs.inodeMap[f] && fs.inodes[f].kind != KIND_DIR
    requires ParentOf(fs, path) == Some(f) && 0 < n < INODE_MAX
    ensures var fs' := AddEntry(fs, f, n, BaseName(path)).0;
      && Inv(fs', own', named) && OthersUntouched(fs, fs', f) && OthersAfter(fs, fs', path, n)
      && Resolve(fs', path) == (if Leads(fs, path) then Some((n, f)) else Resolve(fs, path))
  {
    InvRoot(fs, own, named);
    hide Inv, AddEntry, OthersUntouched, Walk, FreeSlot, PathTokens, ParentOf, BaseName;
    own' := FileEntryKeeps(fs, own, named, f, n, BaseName(path));
    var fs' := AddEntry(fs, f, n, BaseName(path)).0;
    forall other: Name
      ensures Resolve(fs', other) == Resolve(fs, other)
    {
      WalkStays(fs, own, named, fs', own', named, f, 0, 0, PathTokens(other));
    }
    hide Resolve;
  }

  lemma FileEntryFiles(fs: Fs, fs1: Fs, fs': Fs, n: nat, f: nat)
    requires Shaped(fs) && Shaped(fs1) && Shaped(fs') && OthersUntouched(fs, fs1, n) && OthersUntouched(fs1, fs', f)
    ensures FilesKept(fs, fs', n, f)
  {
    hide Untouched;
    forall j: nat | j < INODE_MAX && j != n && j != f && fs.inodeMap[j]
      ensures fs'.inodeMap[j] && Untouched(fs, fs', j)
    {
      assert fs1.inodeMap[j];
      TwoUntouched(fs, fs1, fs', j);
    }
  }

  lemma TwoUntouched(a: Fs, b: Fs, c: Fs, j: nat)
    requires Shaped(a) && Shaped(b) && Shaped(c) && j < INODE_MAX && Untouched(a, b, j) && Untouched(b, c, j)
    ensures Untouched(a, c, j)
  {
    forall i: nat | i < DIRECT && 0 < BlockOf(a, j, i) < TOTAL_SECTORS
      ensures c.data[BlockOf(a, j, i)] == a.data[BlockOf(a, j, i)]
    {
      assert BlockOf(b, j, i) == BlockOf(a, j, i);
    }
  }

  lemma OtherStaysEmpty(fs: Fs, fs': Fs, n: nat, f: nat)
    requires Emptied(fs, n) && Shaped(fs') && n != f && OthersUntouched(fs, fs', f)
    ensures Emptied(fs', n)
  {
    assert fs.inodeMap[n] && Untouched(fs, fs', n);
    forall j: nat | j < DIRECT
      ensures BlockOf(fs', n, j) == 0
    {
      assert BlockOf(fs, n, j) == 0;
    }
  }

  lemma EnteredOthers(fs: Fs, own: seq<(nat, nat)>, named: seq<(nat, nat)>, fs': Fs, own': seq<(nat, nat)>,
        named': seq<(nat, nat)>, path: Name, dir: nat, child: nat)
    requires Inv(fs, own, named) && Inv(fs', own', named') && EnteredAt(fs, fs', path, dir, child)
    requires |named| == |named'| == INODE_MAX && forall m: nat :: m < INODE_MAX && m != child ==> named'[m] == named[m]
    requires Unnamed(fs, child)
    ensures OthersAfter(fs, fs', path, child)
  {
    InvRoot(fs, own, named);
    hide Inv, EnteredAt, Unnamed, Hides, Shadowed, Resolve;
    assert ParentOf(fs, path) == Some(dir) by { EnteredParent(fs, fs', path, dir, child); }
    forall other: Name | Resolve(fs, other).Some?
      ensures Resolve(fs', other) == Resolve(fs, other) <==> !Hides(fs, path, other)
      ensures Shadowed(fs, path) == Some(Resolve(fs, other).value.0) ==> Resolve(fs', other) == Some((child, dir))
    {
      EnteredOther(fs, own, named, fs', own', named', path, dir, child, other);
      if Shadowed(fs, path) == Some(Resolve(fs, other).value.0) {
        EnteredHidden(fs, own, named, fs', own', named', path, dir, child, other);
      }
    }
  }

  lemma EnteredParent(fs: Fs, fs': Fs, path: Name, dir: nat, child: nat)
    requires EnteredAt(fs, fs', path, dir, child)
    ensures ParentOf(fs, path) == Some(dir)
  {
  }

  /** What holds of the state with the new inode holds of the one before. */
  lemma BornOthers(fs: Fs, own: seq<(nat, nat)>, named: seq<(nat, nat)>, fs1: Fs, fs': Fs, path: Name, n: nat)
    requires Inv(fs, own, named) && Shaped(fs1) && Extends(fs, fs1) && fs1.data == fs.data && |path| <= PATH_MAX
    requires ParentOf(fs, path).Some? && ParentOf(fs1, path) == ParentOf(fs, path)
    requires var dir := ParentOf(fs, path).value;
      dir < INODE_MAX && fs1.inodes[dir] == fs.inodes[dir]
    requires OthersAfter(fs1, fs', path, n)
    ensures OthersAfter(fs, fs', path, n)
  {
    InvRoot(fs, own, named);
    hide Inv, Hides, Shadowed, Resolve, ParentOf, Extends, Leads, NewSlot;
    forall other: Name | Resolve(fs, other).Some?
      ensures Resolve(fs', other) == Resolve(fs, other) <==> !Hides(fs, path, other)
      ensures Shadowed(fs, path) == Some(Resolve(fs, other).value.0) ==>
                Resolve(fs', other) == Some((n, ParentOf(fs, path).value))
    {
      BornSame(fs, own, named, fs1, path, other);
    }
  }

  lemma NoSlotHides(fs: Fs, path: Name, n: nat)
    requires Shaped(fs) && NewSlot(fs, path).None?
    ensures !Leads(fs, path) && OthersAfter(fs, fs, path, n)
  {
    hide Resolve;
  }

  /** dir_add_entry takes the first free slot, whenever there is one. */
  lemma NewSlotTaken(fs: Fs, own: seq<(nat, nat)>, named: seq<(nat, nat)>, dir: nat, child: nat, name: Name)
    requires Inv(fs, own, named) && dir < INODE_MAX && fs.inodeMap[dir] && fs.inodes[dir].kind == KIND_DIR
    ensures AddEntry(fs, dir, child, name).1 <==> FreeSlot(fs.data, fs.inodes[dir], 0).Some?
    ensures FreeSlot(fs.data, fs.inodes[dir], 0).None? ==> AddEntry(fs, dir, child, name).0 == fs
  {
    RoomOnDisk(fs, own, named);
    hide FreeSlot, Inv, Enter, Attach, FirstFree;
  }

  lemma LinkKeepsFiles(fs: Fs, fs1: Fs, fs2: Fs, n: nat, dir: nat, k: nat, name: Name)
    requires Shaped(fs) && Shaped(fs1) && n < INODE_MAX && dir < INODE_MAX && n != dir
    requires OthersUntouched(fs, fs1, n) && Added(fs1, fs2, dir, k, n, name)
    requires fs.inodeMap[dir] && fs.inodes[dir].kind == KIND_DIR
    ensures FilesKept(fs, fs2, n, dir)
  {
    forall j: nat | j < INODE_MAX && j != n && fs.inodeMap[j] && fs.inodes[j].kind == KIND_FILE
      ensures fs2.inodeMap[j] && Untouched(fs, fs2, j)
    {
      assert fs1.inodeMap[j] && Untouched(fs, fs1, j) && Untouched(fs1, fs2, j);
      forall i: nat | i < DIRECT && 0 < BlockOf(fs, j, i) < TOTAL_SECTORS
        ensures fs2.data[BlockOf(fs, j, i)] == fs.data[BlockOf(fs, j, i)]
      {
        assert BlockOf(fs1, j, i) == BlockOf(fs, j, i);
      }
    }
  }

  lemma LinkKeepsEmpty(fs1: Fs, fs2: Fs, n: nat, dir: nat, k: nat, name: Name)
    requires Emptied(fs1, n) && dir < INODE_MAX && n != dir && Added(fs1, fs2, dir, k, n, name)
    ensures Emptied(fs2, n)
  {
    assert fs1.inodeMap[n] && Untouched(fs1, fs2, n);
    forall j: nat | j < DIRECT
      ensures BlockOf(fs2, n, j) == 0
    {
      assert BlockOf(fs1, n, j) == 0;
    }
  }

  lemma {:induction false} HoldsReads(fs: Fs, n: nat, b: nat, buf: seq<byte>, want: nat)
    requires Shaped(fs) && n < INODE_MAX && b <= DIRECT && Holds(fs, n, b, buf) && want <= |buf|
    ensures ReadBlocks(fs.data, fs.inodes[n], b, want) == buf[..want]
    decreases DIRECT - b
  {
    if want > 0 {
      var s := fs.data[BlockOf(fs, n, b)];
      assert s == Chunk(buf);
      if want <= 512 {
        assert s[..want] == buf[..want];
      } else {
        HoldsReads(fs, n, b + 1, After(buf), want - 512);
        assert buf[..512] + buf[512..][..want - 512] == buf[..want];
      }
    }
  }

  lemma {:induction false} UntouchedReads(fs: Fs, own: seq<(nat, nat)>, fs': Fs, j: nat, b: nat, want: nat)
    requires Shaped(fs) && BlocksOwned(fs, own) && Shaped(fs') && j < INODE_MAX && fs.inodeMap[j]
             && Untouched(fs, fs', j)
    ensures ReadBlocks(fs'.data, fs'.inodes[j], b, want) == ReadBlocks(fs.data, fs.inodes[j], b, want)
    decreases DIRECT - b
  {
    if b < DIRECT {
      BlockInRange(fs, own, j, b);
      if want > 512 { UntouchedReads(fs, own, fs', j, b + 1, want - 512); }
    }
  }

  /** spfs_write keeps the file system consistent and every other file. It returns the size whenever the
      data are not too long and there is a target, and -1 otherwise, changing nothing; the target then
      holds exactly buf, and paths lead where they should. */
  lemma WriteKeeps(fs: Fs, own: seq<(nat, nat)>, named: seq<(nat, nat)>, path: Name, buf: seq<byte>, now: nat)
    returns (own': seq<(nat, nat)>, named': seq<(nat, nat)>)
    requires Inv(fs, own, named) && Writable(fs, path)
    ensures var r := WriteFile(fs, path, buf, now);
      && Inv(r.fs, own', named')
      && r.ret == (if |buf| <= 5120 && HasTarget(fs, path) then |buf| else -1)
      && (r.ret < 0 ==> r.fs == fs)
      && (r.ret >= 0 ==>
        && Stores(r.fs, TargetOf(fs, path), buf)
        && FilesKept(fs, r.fs, TargetOf(fs, path), ParentOf(fs, path).value)
        && PathsAfter(fs, r.fs, path))
  {
    hide BlockOf, Names, Entry, Inv, Extends, Untouched, AppendFrom, Target, Find, Walk, OthersUntouched, Holds,
         Linked, Resolve, Writable, Emptied, FilesKept, ParentOf, TargetOf, Hides, PathsAfter;
    InvRoot(fs, own, named);
    own', named' := own, named;
    if |buf| <= FILE_MAX {
      own', named' := TargetKeeps(fs, own, named, path, now);
      var (fs1, target) := Target(fs, path, now);
      if target.Some? {
        var own1 := own';
        EmptiedIsFile(fs1, target.value);
        own' := FillTarget(fs, fs1, own1, named', target.value, ParentOf(fs, path).value, path, buf);
      }
    }
  }

  lemma EmptiedIsFile(fs: Fs, n: nat)
    requires Emptied(fs, n)
    ensures Shaped(fs) && n < INODE_MAX && fs.inodeMap[n] && fs.inodes[n].kind == KIND_FILE
  {
  }

  lemma FillTarget(fs: Fs, fs1: Fs, own: seq<(nat, nat)>, named: seq<(nat, nat)>, n: nat, p: nat, path: Name,
        buf: seq<byte>)
    returns (own': seq<(nat, nat)>)
    requires Shaped(fs) && Inv(fs1, own, named) && Emptied(fs1, n) && FilesKept(fs, fs1, n, p)
    requires PathsAfter(fs, fs1, path) && |buf| <= FILE_MAX
    ensures var (fs', done) := AppendFrom(Relabel(fs1, n, KIND_FILE, |buf|), n, 0, buf);
      && Inv(fs', own', named) && FilesKept(fs, fs', n, p) && PathsAfter(fs, fs', path)
      && done == |buf| && Stores(fs', n, buf)
  {
    hide BlockOf, Names, Entry, Inv, Untouched, AppendFrom, Find, Walk, OthersUntouched, Holds, Emptied, FilesKept,
         PathTokens, Linked, TargetOf, Hides;
    EmptiedIsFile(fs1, n);
    own' := FillKeeps(fs1, own, named, n, buf);
    var (fs', done) := AppendFrom(Relabel(fs1, n, KIND_FILE, |buf|), n, 0, buf);
    InvRoot(fs1, own, named);
    forall other: Name
      ensures Resolve(fs', other) == Resolve(fs1, other)
    {
      WalkStays(fs1, own, named, fs', own', named, n, 0, 0, PathTokens(other));
    }
    FilesStay(fs, fs1, fs', n, p);
  }

  /** Changes confined to one file leave every path leading where it led, or nowhere. */
  lemma {:induction false} WalkStays(fs: Fs, own: seq<(nat, nat)>, named: seq<(nat, nat)>,
                                     fs': Fs, own': seq<(nat, nat)>, named': seq<(nat, nat)>,
                                     n: nat, cur: nat, parent: nat, ts: seq<Name>)
    requires Inv(fs, own, named) && Inv(fs', own', named') && n < INODE_MAX && OthersUntouched(fs, fs', n)
    requires fs.inodes[n].kind != KIND_DIR && fs'.inodes[n].kind != KIND_DIR && fs'.inodeMap == fs.inodeMap
    requires cur < INODE_MAX && fs.inodeMap[cur]
    ensures Walk(fs', cur, parent, ts) == Walk(fs, cur, parent, ts)
    decreases |ts|
  {
    hide DirentAt, BlocksOwned, CountsRight, DirsPacked, Find;
    if ts != [] && cur != n {
      assert fs'.inodes[cur] == fs.inodes[cur] && Untouched(fs, fs', cur);
      if fs.inodes[cur].kind == KIND_DIR {
        SameDirFinds(fs, own, named, fs', own', named', cur, ts[0]);
        FindIsFirst(fs, own, named, cur, ts[0], 0);
        var f := Find(fs.data, fs.inodes[cur], ts[0], 0);
        if f.Some? {
          assert Child(fs, cur, f.value) == Slot(fs.data, fs.inodes[cur], f.value).inode;
          WalkStays(fs, own, named, fs', own', named', n, Child(fs, cur, f.value), cur, ts[1..]);
        }
      }
    }
  }

  lemma FilesStay(fs: Fs, fs1: Fs, fs': Fs, n: nat, p: nat)
    requires Shaped(fs) && Shaped(fs1) && Shaped(fs') && FilesKept(fs, fs1, n, p) && OthersUntouched(fs1, fs', n)
    ensures FilesKept(fs, fs', n, p)
  {
    hide Untouched;
    forall j: nat | j < INODE_MAX && j != n && j != p && fs.inodeMap[j] && fs.inodes[j].kind == KIND_FILE
      ensures fs'.inodeMap[j] && Untouched(fs, fs', j)
    {
      assert fs1.inodeMap[j];
      TwoUntouched(fs, fs1, fs', j);
    }
  }

  /** Inode n is a live file of exactly these octets. */
  ghost predicate Stores(fs: Fs, n: nat, buf: seq<byte>)
    requires Shaped(fs)
  {
    n < INODE_MAX && fs.inodeMap[n] && fs.inodes[n].kind == KIND_FILE && fs.inodes[n].size == |buf|
      && Holds(fs, n, 0, buf)
  }

  /** Round trip. When spfs_write returns the size, a read of any length returns what was written if and
      only if the path existed, or its directory had a slot left and its last component fits an entry;
      otherwise the path leads nowhere, though the size was returned. */
  lemma WriteThenRead(fs: Fs, own: seq<(nat, nat)>, named: seq<(nat, nat)>, path: Name, buf: seq<byte>, now: nat,
        max: nat)
    requires Inv(fs, own, named) && Writable(fs, path)
    requires WriteFile(fs, path, buf, now).ret == |buf|
    ensures var fs' := WriteFile(fs, path, buf, now).fs;
      && (ReadFile(fs', path, max) == Some(buf[..if |buf| < max then |buf| else max]) <==> Linked(fs, path))
      && (!Linked(fs, path) ==> Resolve(fs', path).None? && ReadFile(fs', path, max).None?)
  {
    var own', named' := WriteKeeps(fs, own, named, path, buf, now);
    var fs' := WriteFile(fs, path, buf, now).fs;
    InvRoot(fs', own', named');
    hide WriteFile, Inv, Linked, FilesKept, TargetOf, HasTarget, Hides, OthersAfter, Resolve, Stores, ReadBlocks;
    if Linked(fs, path) {
      StoredReads(fs', path, buf, max);
    }
  }

  lemma StoredReads(fs: Fs, path: Name, buf: seq<byte>, max: nat)
    requires Shaped(fs) && Resolve(fs, path).Some? && Stores(fs, Resolve(fs, path).value.0, buf)
    ensures ReadFile(fs, path, max) == Some(buf[..if |buf| < max then |buf| else max])
  {
    hide Resolve, ReadBlocks, Holds;
    HoldsReads(fs, Resolve(fs, path).value.0, 0, buf, if |buf| < max then |buf| else max);
  }

  /** Frame: every path to another file still leads there, unless a file was made whose entry hides it, and the
      file reads as before, unless it stands where the directory of path should be. */
  lemma WriteLeavesOtherFiles(fs: Fs, own: seq<(nat, nat)>, named: seq<(nat, nat)>, path: Name, buf: seq<byte>,
        now: nat, other: Name, max: nat)
    requires Inv(fs, own, named) && Writable(fs, path) && ReadFile(fs, other, max).Some?
    requires Resolve(fs, path).None? || Resolve(fs, path).value.0 != Resolve(fs, other).value.0
    ensures var fs' := WriteFile(fs, path, buf, now).fs;
      && (Resolve(fs', other) == Resolve(fs, other) <==>
          !(|buf| <= FILE_MAX && HasTarget(fs, path) && Resolve(fs, path).None? && Hides(fs, path, other)))
      && (Resolve(fs', other) == Resolve(fs, other) && ParentOf(fs, path) != Some(Resolve(fs, other).value.0) ==>
          ReadFile(fs', other, max) == ReadFile(fs, other, max))
  {
    hide WriteFile, Linked, ParentOf, Untouched, Writable, FilesKept, Walk, Inv, Hides, ReadBlocks, FirstFree, Holds,
         Shadowed;
    InvRoot(fs, own, named);
    var own', named' := WriteKeeps(fs, own, named, path, buf, now);
    var fs' := WriteFile(fs, path, buf, now).fs;
    InvRoot(fs', own', named');
    ResolveIsLive(fs, own, named, other);
    var j := Resolve(fs, other).value.0;
    if WriteFile(fs, path, buf, now).ret >= 0 && Resolve(fs', other) == Resolve(fs, other)
      && ParentOf(fs, path) != Some(j) {
      if Resolve(fs, path).None? { FreeIsNot(fs, j); }
      FilesKeptAt(fs, fs', TargetOf(fs, path), ParentOf(fs, path).value, j);
      SameFileReads(fs, own, named, fs', other, max);
    }
  }

  lemma FreeIsNot(fs: Fs, j: nat)
    requires Shaped(fs) && j < INODE_MAX && fs.inodeMap[j]
    ensures FirstFree(fs.inodeMap, 1) != j
  {
  }

  lemma SameFileReads(fs: Fs, own: seq<(nat, nat)>, named: seq<(nat, nat)>, fs': Fs, path: Name, max: nat)
    requires Inv(fs, own, named) && Shaped(fs') && ReadFile(fs, path, max).Some?
             && Resolve(fs', path) == Resolve(fs, path)
    requires Resolve(fs, path).Some? && Resolve(fs, path).value.0 < INODE_MAX && fs.inodeMap[Resolve(fs, path).value.0]
    requires Untouched(fs, fs', Resolve(fs, path).value.0)
    ensures ReadFile(fs', path, max) == ReadFile(fs, path, max)
  {
    hide Resolve, Untouched, BlocksOwned, NamesUnique, DirsPacked, CountsRight, ReadBlocks;
    var j := Resolve(fs, path).value.0;
    OtherReads(fs, own, named, fs', j, if fs.inodes[j].size < max then fs.inodes[j].size else max);
  }

  /** The size of a file that stands where the directory of path should be, after dir_add_entry. */
  lemma ParentFileGrows(fs: Fs, own: seq<(nat, nat)>, named: seq<(nat, nat)>, path: Name, n: nat, kind: nat, now: nat)
    requires Inv(fs, own, named) && Makeable(fs, path) && ParentOf(fs, path).Some? && !InDir(fs, path)
    requires 0 < n < INODE_MAX && !fs.inodeMap[n]
    ensures fs.freeInodes > 0
    ensures ParentOf(fs, path).value < INODE_MAX && ParentOf(fs, path).value != n
    ensures var f := ParentOf(fs, path).value;
      var fs1 := AddEntry(Birth(fs, n, kind, now), f, n, BaseName(path)).0;
      && fs1.inodeMap[f]
      && fs1.inodes[f].size == fs.inodes[f].size + (if FreeSlot(fs.data, fs.inodes[f], 0).Some? then 32 else 0)
  {
    InvRoot(fs, own, named);
    hide Inv, AddEntry, ParentOf, BaseName, FreeSlot, OthersUntouched, Extends, Emptied, Unnamed;
    Born(fs, own, named, path, n, kind, now);
    var _ := FileEntryKeeps(Birth(fs, n, kind, now), own, named, ParentOf(fs, path).value, n, BaseName(path));
  }

  /** A write under a path whose parent is a file: the size is returned, the path leads nowhere, and the file
      has grown by one directory entry if it had any 32 octets that look like a free one. */
  lemma WriteUnderFile(fs: Fs, own: seq<(nat, nat)>, named: seq<(nat, nat)>, path: Name, buf: seq<byte>, now: nat)
    requires Inv(fs, own, named) && Makeable(fs, path) && HasTarget(fs, path) && Resolve(fs, path).None?
    requires !InDir(fs, path) && |buf| <= FILE_MAX
    ensures ParentOf(fs, path).value < INODE_MAX
    ensures var r, f := WriteFile(fs, path, buf, now), ParentOf(fs, path).value;
      && r.ret == |buf| && Resolve(r.fs, path).None?
      && r.fs.inodes[f].size == fs.inodes[f].size + (if FreeSlot(fs.data, fs.inodes[f], 0).Some? then 32 else 0)
  {
    hide Inv, AddEntry, ParentOf, BaseName, FreeSlot, FirstFree, OthersUntouched, Emptied, Resolve, FilesKept,
         PathsAfter, AppendFrom, OthersAfter, Leads, Stores, Holds;
    InvRoot(fs, own, named);
    FirstFreeInode(fs);
    var n, f := FirstFree(fs.inodeMap, 1), ParentOf(fs, path).value;
    ResolveIsLive(fs, own, named, path);
    ParentFileGrows(fs, own, named, path, n, KIND_FILE, now);
    var own1, named1 := NewEntry(fs, own, named, path, n, KIND_FILE, now);
    var fs1 := AddEntry(Birth(fs, n, KIND_FILE, now), f, n, BaseName(path)).0;
    EmptiedIsFile(fs1, n);
    var _ := FillKeeps(fs1, own1, named1, n, buf);
    UntouchedAt(fs1, AppendFrom(Relabel(fs1, n, KIND_FILE, |buf|), n, 0, buf).0, n, f);
    WriteThenRead(fs, own, named, path, buf, now, 0);
  }

  /** No older path is hidden by a new entry exactly when the entry has no name or no slot behind it is found
      under its cut name. */
  lemma NothingHidden(fs: Fs, own: seq<(nat, nat)>, named: seq<(nat, nat)>, path: Name)
    requires Inv(fs, own, named) && Makeable(fs, path)
    ensures (forall other: Name :: Resolve(fs, other).Some? ==> !Hides(fs, path, other)) <==>
            BaseName(path) == [] || Shadowed(fs, path).None?
  {
    InvRoot(fs, own, named);
    hide Inv, Makeable, Shadowed, Passes, PathTokens, Resolve, BaseName;
    if Shadowed(fs, path).Some? {
      if BaseName(path) == [] {
        forall other: Name | Resolve(fs, other).Some?
          ensures !Hides(fs, path, other)
        {
          NamelessUnseen(fs, own, named, path, other);
        }
      } else {
        var other := CutPath(fs, own, named, path);
        assert Resolve(fs, other).Some?;
      }
    }
  }

  /** What the search for the cut name finds is a name of the directory. */
  lemma ShadowedName(fs: Fs, own: seq<(nat, nat)>, named: seq<(nat, nat)>, path: Name)
    requires Inv(fs, own, named) && Makeable(fs, path) && Shadowed(fs, path).Some?
    ensures ParentOf(fs, path).Some?
    ensures var dir, f := ParentOf(fs, path).value, SlotOf(fs, path, Kept(BaseName(path)));
      && f.Some? && dir < INODE_MAX && fs.inodeMap[dir] && fs.inodes[dir].kind == KIND_DIR && Names(fs, dir, f.value)
      && Entry(fs, dir, f.value).name == Kept(BaseName(path)) && Child(fs, dir, f.value) == Shadowed(fs, path).value
      && Slot(fs.data, fs.inodes[dir], f.value).inode == Shadowed(fs, path).value
      && Find(fs.data, fs.inodes[dir], Kept(BaseName(path)), 0) == f
  {
    ResolveIsLive(fs, own, named, path);
    hide Inv, Find, FreeSlot, Names, Entry, Slot, BaseName, Resolve, Kept;
    FoundName(fs, own, named, ParentOf(fs, path).value, Kept(BaseName(path)));
  }

  /** Components are never empty, so no path passes an inode without a name. */
  lemma NamelessUnseen(fs: Fs, own: seq<(nat, nat)>, named: seq<(nat, nat)>, path: Name, other: Name)
    requires Inv(fs, own, named) && Makeable(fs, path) && BaseName(path) == []
    ensures !Hides(fs, path, other)
  {
    InvRoot(fs, own, named);
    hide Inv, Makeable, Shadowed, Passes, BaseName, Names, Entry, PathTokens, SlotOf, ParentOf;
    if Shadowed(fs, path).Some? {
      ShadowedName(fs, own, named, path);
      PathTokensFilled(other);
      EmptyNamePassed(fs, own, named, ParentOf(fs, path).value, SlotOf(fs, path, Kept(BaseName(path))).value,
        PathTokens(other));
    }
  }

  lemma SameParent(fs: Fs, path: Name, other: Name)
    requires ParentPath(other) == ParentPath(path)
    ensures ParentOf(fs, other) == ParentOf(fs, path)
  {
    hide ParentPath, Resolve;
  }

  /** The path with its last component cut leads to the inode that is to be hidden. */
  lemma CutPath(fs: Fs, own: seq<(nat, nat)>, named: seq<(nat, nat)>, path: Name) returns (other: Name)
    requires Inv(fs, own, named) && Makeable(fs, path) && BaseName(path) != [] && Shadowed(fs, path).Some?
    ensures Resolve(fs, other).Some? && Hides(fs, path, other)
  {
    InvRoot(fs, own, named);
    hide Inv, Shadowed, Passes, BaseName, Names, Entry, ParentPath, PathTokens, Slot, Find, AfterSlash, NewSlot;
    other := CutSplit(path, |Kept(BaseName(path))|);
    assert BaseName(path)[..|Kept(BaseName(path))|] == Kept(BaseName(path));
    hide Kept;
    ShadowedName(fs, own, named, path);
    SameParent(fs, path, other);
    hide ParentOf, SlotOf;
    ResolveByParent(fs, other);
    hide Makeable;
    SelfPasses(fs, PathTokens(other));
  }

  lemma FilesKeptAt(fs: Fs, fs': Fs, n: nat, p: nat, j: nat)
    requires Shaped(fs) && Shaped(fs') && FilesKept(fs, fs', n, p) && j < INODE_MAX && j != n && j != p
    requires fs.inodeMap[j] && fs.inodes[j].kind == KIND_FILE
    ensures fs'.inodeMap[j] && Untouched(fs, fs', j)
  {
  }

  lemma OtherReads(fs: Fs, own: seq<(nat, nat)>, named: seq<(nat, nat)>, fs': Fs, j: nat, want: nat)
    requires Inv(fs, own, named) && Shaped(fs') && j < INODE_MAX && fs.inodeMap[j] && Untouched(fs, fs', j)
    ensures fs'.inodes[j] == fs.inodes[j]
    ensures ReadBlocks(fs'.data, fs'.inodes[j], 0, want) == ReadBlocks(fs.data, fs.inodes[j], 0, want)
  {
    UntouchedReads(fs, own, fs', j, 0, want);
  }
}
