/** SpaceFS as the code runs it: counters and bitmaps in memory, every change of them followed by a
    sector write, inodes read and written whole, loops over bits, slots and blocks. Each public
    operation is proved to leave on disk exactly what SpaceFsOps and SpaceFsDirs say, and memory
    and disk in agreement. */
module SpaceFs {
  import opened Wrappers
  import opened Bytes
  import opened Disk
  import opened Dirents
  import opened SpaceFsState
  import opened SpaceFsPaths
  import opened SpaceFsOps
  import opened SpaceFsDirs

  class Volume {
    var freeBlocks: nat
    var freeInodes: nat
    var inodeMap: seq<bool>
    var blockMap: seq<bool>
    var disk: Fs

    /** The superblock and bitmaps in memory are those on disk. */
    ghost predicate Synced()
      reads this
    {
      && Shaped(disk) && freeBlocks == disk.freeBlocks && freeInodes == disk.freeInodes
      && inodeMap == disk.inodeMap && blockMap == disk.blockMap
    }

    /** spfs_format. */
    constructor Format(data: seq<Sector>, garbage: seq<Inode>)
      requires |data| == TOTAL_SECTORS && |garbage| == 7 && forall i :: 0 <= i < 7 ==> |garbage[i].blocks| == DIRECT
      ensures Synced() && disk == SpaceFsDirs.Format(data, garbage)
      ensures Consistent(disk)
    {
      freeBlocks, freeInodes := TOTAL_BLOCKS, INODE_MAX - 1;
      inodeMap := seq(INODE_MAX, i => false)[0 := true];
      blockMap := seq(BMAP_BITS, i => false);
      var table := seq(INODE_MAX, i => Inode(0, 0, 0, 0, NO_BLOCKS));
      disk := Fs(TOTAL_BLOCKS, INODE_MAX - 1, seq(INODE_MAX, i => false)[0 := true], seq(BMAP_BITS, i => false),
                 [FreshInode(KIND_DIR, 0)] + garbage + table[8..], data);
      FormatIsConsistent(data, garbage, seq(BMAP_BITS, i => (0, 0)), seq(INODE_MAX, i => (0, 0)));
    }

    /** ---- Sector writes ---- */

    method WriteSuper()
      modifies this`disk
      ensures disk == old(disk).(freeBlocks := freeBlocks, freeInodes := freeInodes)
    {
      disk := disk.(freeBlocks := freeBlocks, freeInodes := freeInodes);
    }

    method WriteInode(n: nat, ino: Inode)
      requires Shaped(disk) && n < INODE_MAX && |ino.blocks| == DIRECT
      modifies this`disk
      ensures disk == old(disk).(inodes := old(disk).inodes[n := ino])
    {
      disk := disk.(inodes := disk.inodes[n := ino]);
    }

    method WriteData(sec: nat, s: Sector)
      requires sec < |disk.data|
      modifies this`disk
      ensures disk == old(disk).(data := old(disk).data[sec := s])
    {
      disk := disk.(data := disk.data[sec := s]);
    }

    /** ---- Allocation ---- */

    /** alloc_inode. */
    method AllocInode() returns (r: Option<nat>)
      requires Synced() && CountsRight(disk)
      modifies this
      ensures Synced()
      ensures var i := FirstFree(old(disk).inodeMap, 1);
        if i == INODE_MAX then r.None? && disk == old(disk)
        else r == Some(i) && old(disk).freeInodes > 0
             && disk == old(disk).(inodeMap := old(disk).inodeMap[i := true], freeInodes := old(disk).freeInodes - 1)
    {
      var i := 1;
      while i < INODE_MAX
        invariant 1 <= i <= INODE_MAX && Synced() && disk == old(disk)
        invariant FirstFree(disk.inodeMap, 1) == FirstFree(disk.inodeMap, i)
      {
        if !inodeMap[i] {
          FreeInodesPositive(disk, i);
          inodeMap := inodeMap[i := true];
          disk := disk.(inodeMap := inodeMap);
          freeInodes := freeInodes - 1;
          WriteSuper();
          return Some(i);
        }
        i := i + 1;
      }
      return None;
    }

    /** alloc_block, giving the bit rather than the sector number 99 + bit. */
    method AllocBlock() returns (r: Option<nat>)
      requires Synced() && CountsRight(disk)
      modifies this
      ensures Synced() && old(disk).freeBlocks > 0
      ensures var i := FirstFree(old(disk).blockMap, 0);
        if i == BMAP_BITS then r.None? && disk == old(disk)
        else r == Some(i)
             && disk == old(disk).(blockMap := old(disk).blockMap[i := true], freeBlocks := old(disk).freeBlocks - 1)
    {
      FreeBlocksPositive(disk);
      var max := if TOTAL_BLOCKS < BMAP_BITS then TOTAL_BLOCKS else BMAP_BITS;
      for i := 0 to max
        invariant Synced() && disk == old(disk)
        invariant FirstFree(disk.blockMap, 0) == FirstFree(disk.blockMap, i)
      {
        if !blockMap[i] {
          blockMap := blockMap[i := true];
          disk := disk.(blockMap := blockMap);
          freeBlocks := freeBlocks - 1;
          WriteSuper();
          return Some(i);
        }
      }
      return None;
    }

    /** free_block. */
    method FreeBlock(sec: nat)
      requires Synced() && (sec >= DATA_START ==> sec - DATA_START < BMAP_BITS)
      modifies this
      ensures Synced()
      ensures disk == if sec < DATA_START then old(disk)
                      else old(disk).(blockMap := old(disk).blockMap[sec - DATA_START := false],
                        freeBlocks := old(disk).freeBlocks + 1)
    {
      if sec < DATA_START { return; }
      var idx := sec - DATA_START;
      blockMap := blockMap[idx := false];
      disk := disk.(blockMap := blockMap);
      freeBlocks := freeBlocks + 1;
      WriteSuper();
    }

    /** ---- Paths ---- */

    /** The inner loop of path_find: the first of count entries of a block with this name. */
    method SearchBlock(dblk: Sector, name: Name, count: nat) returns (i: nat)
      requires count <= PER_BLOCK
      ensures i <= count
      ensures forall j: nat :: j < i ==> DirentAt(dblk, j).inode == 0 || DirentAt(dblk, j).name != name
      ensures i < count ==> DirentAt(dblk, i).inode != 0 && DirentAt(dblk, i).name == name
    {
      hide DirentAt;
      i := 0;
      while i < count
        invariant 0 <= i <= count
        invariant forall j: nat :: j < i ==> DirentAt(dblk, j).inode == 0 || DirentAt(dblk, j).name != name
      {
        var e := DirentAt(dblk, i);
        if e.inode != 0 && e.name == name { return; }
        i := i + 1;
      }
    }

    /** The search of path_find in one directory: blocks, then slots, as far as the entries go. */
    method SearchDir(ino: Inode, name: Name) returns (r: Option<nat>)
      requires |ino.blocks| == DIRECT
      ensures r == Find(disk.data, ino, name, 0)
    {
      hide DirentAt, Find;
      var entries := ino.size / 32;
      var blk := 0;
      while entries > 0
        invariant 0 <= blk <= DIRECT && entries == ino.size / 32 - PER_BLOCK * blk
        invariant Find(disk.data, ino, name, 0) == Find(disk.data, ino, name, PER_BLOCK * blk)
      {
        var sec := if blk < DIRECT then ino.blocks[blk] else 0;
        if sec == 0 { break; }
        if sec >= |disk.data| { break; }
        var count := if entries < PER_BLOCK then entries else PER_BLOCK;
        var i := SearchBlock(disk.data[sec], name, count);
        FindSkips(disk.data, ino, name, blk, i);
        if i < count { return Some(PER_BLOCK * blk + i); }
        entries := entries - count;
        if entries == 0 {
          FindStops(disk.data, ino, name, PER_BLOCK * blk + i);
          return None;
        }
        blk := blk + 1;
      }
      FindStops(disk.data, ino, name, PER_BLOCK * blk);
      return None;
    }

    /** path_find: one component at a time. */
    method FindPath(path: Name) returns (r: Option<(nat, nat)>)
      requires Shaped(disk)
      ensures r == Resolve(disk, path)
    {
      hide Find, Slot, Head;
      var rest: Name := if path != [] && path[0] == SLASH then path[1..] else path;
      if |rest| > PATH_MAX { rest := rest[..PATH_MAX]; }
      var cur: nat, parent: nat := 0, 0;
      while rest != []
        invariant Resolve(disk, path) == Walk(disk, cur, parent, Tokens(rest))
        decreases |rest|
      {
        if rest[0] == SLASH {
          rest := rest[1..];
        } else {
          var tok := Head(rest);
          if cur >= INODE_MAX { return None; }
          var dir := disk.inodes[cur];
          if dir.kind != KIND_DIR { return None; }
          var f := SearchDir(dir, tok);
          if f.None? { return None; }
          assert ([tok] + Tokens(rest[|tok|..]))[1..] == Tokens(rest[|tok|..]);
          cur, parent := Slot(disk.data, dir, f.value).inode, cur;
          rest := rest[|tok|..];
        }
      }
      return Some((cur, parent));
    }

    /** ---- Directories ---- */

    /** The first free entry of a block. */
    method FreeEntry(dblk: Sector) returns (i: nat)
      ensures i <= PER_BLOCK
      ensures forall j: nat :: j < i ==> DirentAt(dblk, j).inode != 0
      ensures i < PER_BLOCK ==> DirentAt(dblk, i).inode == 0
    {
      hide DirentAt;
      i := 0;
      while i < PER_BLOCK
        invariant 0 <= i <= PER_BLOCK
        invariant forall j: nat :: j < i ==> DirentAt(dblk, j).inode != 0
      {
        if DirentAt(dblk, i).inode == 0 { return; }
        i := i + 1;
      }
    }

    /** dir_add_entry: the first free slot, in a new block if the directory needs one. */
    method DirAddEntry(dirInum: nat, child: nat, name: Name) returns (ok: bool)
      requires Synced() && CountsRight(disk) && dirInum < INODE_MAX && child < WORD
      modifies this
      ensures Synced()
      ensures disk == AddEntry(old(disk), dirInum, child, name).0 && ok == AddEntry(old(disk), dirInum, child, name).1
    {
      hide DirentAt, Put, FirstFree, FreeSlot, CountsRight;
      var dir := disk.inodes[dirInum];
      var blk := 0;
      while blk < DIRECT
        invariant 0 <= blk <= DIRECT && Synced() && disk == old(disk)
        invariant FreeSlot(disk.data, dir, 0) == FreeSlot(disk.data, dir, PER_BLOCK * blk)
      {
        var sec := dir.blocks[blk];
        if sec == 0 {
          FreeSlotStops(disk.data, dir, blk, 0);
          ok := AddBlockAndEntry(dirInum, dir, blk, child, name);
          return;
        }
        if sec >= |disk.data| {
          FreeSlotStops(disk.data, dir, blk, 0);
          return false;
        }
        var dblk := disk.data[sec];
        var i := FreeEntry(dblk);
        FreeSlotStops(disk.data, dir, blk, i);
        if i < PER_BLOCK {
          StoreEntry(dirInum, dir, sec, dblk, i, child, name);
          return true;
        }
        blk := blk + 1;
      }
      FreeSlotEnds(disk.data, dir);
      return false;
    }

    /** dir_add_entry when slot blk of the directory has no block yet. */
    method AddBlockAndEntry(dirInum: nat, dir: Inode, blk: nat, child: nat, name: Name) returns (ok: bool)
      requires Synced() && CountsRight(disk) && dirInum < INODE_MAX && dir == disk.inodes[dirInum] && blk < DIRECT
               && dir.blocks[blk] == 0
      modifies this
      ensures Synced() && old(disk).freeBlocks > 0
      ensures var i := FirstFree(old(disk).blockMap, 0);
        if i == BMAP_BITS then !ok && disk == old(disk)
        else ok && disk == Enter(Attach(old(disk), dirInum, blk, i, Zeros(512)), dirInum, PER_BLOCK * blk, child, name)
    {
      hide Put, FirstFree, CountsRight;
      var got := AllocBlock();
      if got.None? { return false; }
      var sec := DATA_START + got.value;
      StoreEntry(dirInum, dir.(blocks := dir.blocks[blk := sec]), sec, Zeros(512), 0, child, name);
      return true;
    }

    /** The end of dir_add_entry: the entry, then the directory's inode with its new size. */
    method StoreEntry(dirInum: nat, dir: Inode, sec: nat, dblk: Sector, i: nat, child: nat, name: Name)
      requires Synced() && dirInum < INODE_MAX && |dir.blocks| == DIRECT && sec < TOTAL_SECTORS && i < PER_BLOCK
      modifies this`disk
      ensures Synced()
      ensures disk == old(disk).(data := old(disk).data[sec := Put(dblk, i, child, name)],
                                 inodes := old(disk).inodes[dirInum := dir.(size := dir.size + 32)])
    {
      WriteData(sec, Put(dblk, i, child, name));
      WriteInode(dirInum, dir.(size := dir.size + 32));
    }

    /** The parent of path, as write and mkdir look for it. */
    method FindParent(path: Name) returns (r: Option<nat>)
      requires Shaped(disk)
      ensures r == ParentOf(disk, path)
    {
      var parent := ParentPath(path);
      if |parent| > 0 {
        var p := FindPath(parent);
        if p.None? { return None; }
        return Some(p.value.0);
      }
      return Some(0);
    }

    /** ---- Public operations ---- */

    /** spfs_read. */
    method Read(path: Name, max: nat) returns (r: Option<seq<byte>>)
      requires Shaped(disk)
      ensures r == ReadFile(disk, path, max)
    {
      hide Resolve;
      var p := FindPath(path);
      if p.None? { return None; }
      var inum := p.value.0;
      if inum >= INODE_MAX { return None; }
      var ino := disk.inodes[inum];
      if ino.kind != KIND_FILE { return None; }
      var done := ReadData(ino, if ino.size < max then ino.size else max);
      return Some(done);
    }

    method ReadData(ino: Inode, want: nat) returns (done: seq<byte>)
      requires |ino.blocks| == DIRECT
      ensures done == ReadBlocks(disk.data, ino, 0, want)
    {
      hide ReadBlocks;
      done := [];
      var b := 0;
      while b < DIRECT && |done| < want
        invariant 0 <= b <= DIRECT && |done| <= want
        invariant ReadBlocks(disk.data, ino, 0, want) == done + ReadBlocks(disk.data, ino, b, want - |done|)
      {
        var sec := ino.blocks[b];
        if sec == 0 { break; }
        if sec >= |disk.data| { break; }
        var chunk := want - |done|;
        if chunk > 512 { chunk := 512; }
        ReadStep(disk.data, ino, b, want, done);
        done := done + disk.data[sec][..chunk];
        b := b + 1;
      }
      ReadStops(disk.data, ino, b, want - |done|);
      assert done + [] == done;
    }

    /** The loop that gives back the blocks of an inode. The inode itself is written afterwards, so
        the loop is followed on the disk with the freed slots already cleared. */
    method FreeBlocksOf(n: nat, ino: Inode, ghost own: seq<(nat, nat)>, ghost named: seq<(nat, nat)>, ghost start: Fs)
      requires Synced() && n < INODE_MAX && |ino.blocks| == DIRECT && disk == start.(inodes := disk.inodes)
      requires start == disk.(inodes := disk.inodes[n := ino])
      requires Inv(start, own, named) && start.inodeMap[n] && ino.kind != KIND_DIR
      modifies this
      ensures Synced()
      ensures disk == DropFrom(start, n, 0).(inodes := old(disk).inodes)
      ensures DropFrom(start, n, 0).inodes == start.inodes[n := ino.(blocks := NO_BLOCKS)]
    {
      hide DropFrom, Inv;
      ghost var v := start;
      var i := 0;
      while i < DIRECT
        invariant 0 <= i <= DIRECT && Synced() && Inv(v, own, named)
        invariant disk == v.(inodes := old(disk).inodes)
        invariant Partly(start, v, n, ino, i)
        invariant DropFrom(start, n, 0) == DropFrom(v, n, i)
      {
        DropOne(start, v, own, named, n, ino, i);
        if ino.blocks[i] != 0 { FreeBlock(ino.blocks[i]); }
        v := Drop(v, n, i);
        i := i + 1;
      }
      DropNone(v, n);
      assert v.inodes[n].blocks == NO_BLOCKS;
    }

    /** spfs_write up to the data: an existing file is emptied, a missing one is created. */
    method FindTarget(path: Name, now: nat, ghost own: seq<(nat, nat)>, ghost named: seq<(nat, nat)>)
          returns (r: Option<nat>)
      requires Synced() && Inv(disk, own, named) && Writable(disk, path)
      modifies this
      ensures Synced()
      ensures (disk, r) == Target(old(disk), path, now)
    {
      hide Resolve, ParentOf, DropFrom, AddEntry, BlocksOwned, NamesUnique, DirsPacked;
      ResolveIsLive(disk, own, named, path);
      var parent := FindParent(path);
      if parent.None? { return None; }
      var existing := FindPath(path);
      if existing.Some? {
        var n := existing.value.0;
        Empty(n, own, named);
        return Some(n);
      }
      var got := AllocInode();
      if got.None? { return None; }
      var n := got.value;
      ghost var born := Birth(old(disk), n, KIND_FILE, now);
      WriteInode(n, FreshInode(KIND_FILE, now));
      BirthKeeps(old(disk), own, named, n, KIND_FILE, now);
      var linked := DirAddEntry(parent.value, n, BaseName(path));
      return Some(n);
    }

    /** Emptying an existing file: its blocks go back, then its inode is written without them. */
    method Empty(n: nat, ghost own: seq<(nat, nat)>, ghost named: seq<(nat, nat)>)
      requires Synced() && Inv(disk, own, named) && n < INODE_MAX && disk.inodeMap[n]
               && disk.inodes[n].kind == KIND_FILE
      modifies this
      ensures Synced()
      ensures disk == Relabel(DropFrom(old(disk), n, 0), n, KIND_FILE, 0)
    {
      hide DropFrom, Inv;
      var ex := disk.inodes[n];
      assert disk == disk.(inodes := disk.inodes[n := ex]);
      FreeBlocksOf(n, ex, own, named, disk);
      WriteInode(n, ex.(size := 0, blocks := NO_BLOCKS));
    }

    /** spfs_write. */
    method Write(path: Name, buf: seq<byte>, now: nat, ghost own: seq<(nat, nat)>, ghost named: seq<(nat, nat)>)
          returns (ret: int)
      requires Synced() && Inv(disk, own, named) && Writable(disk, path)
      modifies this
      ensures Synced()
      ensures Outcome(disk, ret) == WriteFile(old(disk), path, buf, now)
    {
      hide Target, AppendFrom, Inv, Emptied, Writable, Extends, FilesKept, Resolve;
      if |buf| > FILE_MAX { return -1; }
      ghost var own1, named1 := TargetKeeps(disk, own, named, path, now);
      var target := FindTarget(path, now, own, named);
      if target.None? { return -1; }
      var n := target.value;
      EmptiedIsFile(disk, n);
      ret := Fill(n, disk.inodes[n].(size := |buf|), buf, own1, named1);
    }

    /** The data loop of spfs_write. The inode with the new blocks is written after the loop, so the
        loop is followed on the disk with that inode already in place. */
    method Fill(n: nat, start: Inode, buf: seq<byte>, ghost own: seq<(nat, nat)>, ghost named: seq<(nat, nat)>)
          returns (done: nat)
      requires Synced() && Inv(disk, own, named) && Emptied(disk, n) && start == disk.inodes[n].(size := |buf|)
      modifies this
      ensures Synced()
      ensures (disk, done) == AppendFrom(Relabel(old(disk), n, KIND_FILE, |buf|), n, 0, buf)
    {
      hide AppendFrom, Inv, Emptied, FirstFree, Chunk;
      EmptiedIsFile(disk, n);
      ghost var v := Relabel(disk, n, KIND_FILE, |buf|);
      FillStart(disk, own, named, n, |buf|);
      ghost var whole := AppendFrom(v, n, 0, buf);
      ghost var o := own;
      var ino := start;
      done := 0;
      var b: nat := 0;
      while b < DIRECT && done < |buf|
        invariant b <= DIRECT && done <= |buf| && Synced() && Shaped(v)
        invariant Growing(v, o, named, n, b) && v.inodes[n] == ino && disk == v.(inodes := old(disk).inodes)
        invariant v.inodes == old(disk).inodes[n := ino]
        invariant whole == Plus(AppendFrom(v, n, b, buf[done..]), done)
      {
        GrowingCounts(v, o, named, n, b);
        var got := AllocBlock();
        AppendStep(v, n, b, buf[done..]);
        if got.None? { break; }
        var i := got.value;
        ino := ino.(blocks := ino.blocks[b := DATA_START + i]);
        var chunk := |buf| - done;
        if chunk > 512 { chunk := 512; }
        var blk := buf[done..done + chunk] + Zeros(512 - chunk);
        ChunkIs(buf, done, chunk);
        GrowingStep(v, o, named, n, b, i, blk);
        WriteData(DATA_START + i, blk);
        v, o := Attach(v, n, b, i, blk), o[i := (n, b)];
        done := done + chunk;
        b := b + 1;
      }
      AppendStops(v, n, b, buf[done..]);
      WriteInode(n, ino);
    }

    /** spfs_mkdir. */
    method MkDir(path: Name, now: nat, ghost own: seq<(nat, nat)>, ghost named: seq<(nat, nat)>) returns (ret: int)
      requires Synced() && Inv(disk, own, named) && Makeable(disk, path)
      modifies this
      ensures Synced()
      ensures Outcome(disk, ret) == MakeDir(old(disk), path, now)
    {
      hide Resolve, ParentOf, AddEntry, BlocksOwned, NamesUnique, DirsPacked;
      ResolveIsLive(disk, own, named, path);
      var parent := FindParent(path);
      if parent.None? { return -1; }
      var got := AllocInode();
      if got.None? { return -1; }
      var n := got.value;
      WriteInode(n, FreshInode(KIND_DIR, now));
      BirthKeeps(old(disk), own, named, n, KIND_DIR, now);
      var linked := DirAddEntry(parent.value, n, BaseName(path));
      return 0;
    }

    /** The search of spfs_unlink through the blocks of the parent. */
    method SearchChild(ino: Inode, n: nat) returns (r: Option<nat>)
      requires |ino.blocks| == DIRECT
      ensures r == FindChild(disk.data, ino, n, 0)
    {
      hide DirentAt, FindChild;
      for b := 0 to DIRECT
        invariant FindChild(disk.data, ino, n, 0) == FindChild(disk.data, ino, n, PER_BLOCK * b)
      {
        FindChildSkips(disk.data, ino, n, b, 0);
        if ino.blocks[b] == 0 { return None; }
        if ino.blocks[b] >= |disk.data| { return None; }
        var dblk := disk.data[ino.blocks[b]];
        for i := 0 to PER_BLOCK
          invariant forall j: nat :: j < i ==> DirentAt(dblk, j).inode != n
        {
          if DirentAt(dblk, i).inode == n {
            FindChildSkips(disk.data, ino, n, b, i);
            return Some(PER_BLOCK * b + i);
          }
        }
        FindChildSkips(disk.data, ino, n, b, PER_BLOCK);
      }
      FindChildEnds(disk.data, ino, n);
      return None;
    }

    /** spfs_unlink: blocks, inode, bitmap and counters first, then the entry in the parent. */
    method Remove(path: Name, ghost own: seq<(nat, nat)>, ghost named: seq<(nat, nat)>) returns (ret: int)
      requires Synced() && Inv(disk, own, named)
      requires Resolve(disk, path).Some? ==> Resolve(disk, path).value.0 != 0
      modifies this
      ensures Synced()
      ensures Outcome(disk, ret) == Unlink(old(disk), path)
    {
      hide Resolve, DropFrom, Inv, FindChild, Clear;
      var p := FindPath(path);
      if p.None? { return -1; }
      var (n, parent) := p.value;
      ghost var slot := ResolvedSlot(disk, own, named, path);
      VacatedKeeps(disk, own, named, n, parent, slot);
      UnlinkSteps(disk, own, named, n, parent, slot);
      ghost var fs := disk;
      var ino := disk.inodes[n];
      RelabelKeeps(disk, own, named, n, 0, ino.size);
      FreeBlocksOf(n, ino.(kind := 0), own, named, Relabel(disk, n, 0, ino.size));
      WriteInode(n, ino.(kind := 0));
      inodeMap := inodeMap[n := false];
      disk := disk.(inodeMap := inodeMap);
      freeInodes := freeInodes + 1;
      WriteSuper();
      var dir := disk.inodes[parent];
      var found := SearchChild(dir, n);
      if found.Some? {
        var sec := dir.blocks[found.value / PER_BLOCK];
        WriteData(sec, Clear(disk.data[sec], found.value % PER_BLOCK));
      }
      return 0;
    }
  }

  /** The first i slots of inode n have been given back. */
  ghost predicate Partly(start: Fs, v: Fs, n: nat, ino: Inode, i: nat)
  {
    && Shaped(start) && Shaped(v) && n < INODE_MAX && |ino.blocks| == DIRECT
    && v.inodes == start.inodes[n := ino.(blocks := v.inodes[n].blocks)] && v.inodeMap == start.inodeMap
    && (forall j :: i <= j < DIRECT ==> v.inodes[n].blocks[j] == ino.blocks[j])
    && (forall j :: 0 <= j < i && j < DIRECT ==> v.inodes[n].blocks[j] == 0)
  }

  lemma DropOne(start: Fs, v: Fs, own: seq<(nat, nat)>, named: seq<(nat, nat)>, n: nat, ino: Inode, i: nat)
    requires Inv(v, own, named) && Partly(start, v, n, ino, i) && i < DIRECT && start.inodeMap[n]
             && ino.kind != KIND_DIR
    ensures Inv(Drop(v, n, i), own, named) && Partly(start, Drop(v, n, i), n, ino, i + 1)
    ensures DropFrom(v, n, i) == DropFrom(Drop(v, n, i), n, i + 1)
    ensures ino.blocks[i] == 0 || DATA_START <= ino.blocks[i] < DATA_START + BMAP_BITS
    ensures ino.blocks[i] == 0 ==> Drop(v, n, i) == v
    ensures ino.blocks[i] != 0 ==>
              var bit := ino.blocks[i] - DATA_START;
              Drop(v, n, i).(inodes := v.inodes)
              == v.(blockMap := v.blockMap[bit := false], freeBlocks := v.freeBlocks + 1)
  {
    hide BlocksOwned, NamesUnique, DirsPacked, CountsRight, Names, Entry;
    BlockInRange(v, own, n, i);
    DropKeeps(v, own, named, n, i);
  }

  /** No match among the first i entries of a block: the search goes on after them. */
  lemma {:induction false} FindSkips(data: seq<Sector>, ino: Inode, name: Name, blk: nat, i: nat)
    requires |ino.blocks| == DIRECT && blk < DIRECT && 0 < ino.blocks[blk] < |data| && i <= PER_BLOCK
    requires PER_BLOCK * blk + i <= ino.size / 32
    requires forall j: nat :: j < i ==>
               DirentAt(data[ino.blocks[blk]], j).inode == 0
               || DirentAt(data[ino.blocks[blk]], j).name != name
    ensures Find(data, ino, name, PER_BLOCK * blk) == Find(data, ino, name, PER_BLOCK * blk + i)
    ensures i < PER_BLOCK && PER_BLOCK * blk + i < ino.size / 32
              && DirentAt(data[ino.blocks[blk]], i).inode != 0 && DirentAt(data[ino.blocks[blk]], i).name == name ==>
              Find(data, ino, name, PER_BLOCK * blk + i) == Some(PER_BLOCK * blk + i)
  {
    hide DirentAt;
    if i < PER_BLOCK { DivModUnique(PER_BLOCK * blk + i, PER_BLOCK, blk, i); }
    if i > 0 {
      FindSkips(data, ino, name, blk, i - 1);
      var k := PER_BLOCK * blk + i - 1;
      DivModUnique(k, PER_BLOCK, blk, i - 1);
    }
  }

  lemma FindStops(data: seq<Sector>, ino: Inode, name: Name, k: nat)
    requires |ino.blocks| == DIRECT
    requires k >= SLOTS || k >= ino.size / 32 || ino.blocks[k / PER_BLOCK] == 0 || ino.blocks[k / PER_BLOCK] >= |data|
    ensures Find(data, ino, name, k).None?
  {
  }

  /** The search for a free slot within one block. */
  lemma {:induction false} FreeSlotStops(data: seq<Sector>, ino: Inode, blk: nat, i: nat)
    requires |ino.blocks| == DIRECT && blk < DIRECT && i <= PER_BLOCK && 0 < |data|
    requires 0 < ino.blocks[blk] < |data| ==> forall j: nat :: j < i ==> DirentAt(data[ino.blocks[blk]], j).inode != 0
    ensures ino.blocks[blk] == 0 ==> FreeSlot(data, ino, PER_BLOCK * blk) == Some(PER_BLOCK * blk)
    ensures ino.blocks[blk] >= |data| ==> FreeSlot(data, ino, PER_BLOCK * blk).None?
    ensures 0 < ino.blocks[blk] < |data| ==>
              FreeSlot(data, ino, PER_BLOCK * blk) == FreeSlot(data, ino, PER_BLOCK * blk + i)
    ensures 0 < ino.blocks[blk] < |data| && i < PER_BLOCK && DirentAt(data[ino.blocks[blk]], i).inode == 0 ==>
              FreeSlot(data, ino, PER_BLOCK * blk + i) == Some(PER_BLOCK * blk + i)
  {
    hide DirentAt;
    DivModUnique(PER_BLOCK * blk, PER_BLOCK, blk, 0);
    if i < PER_BLOCK { DivModUnique(PER_BLOCK * blk + i, PER_BLOCK, blk, i); }
    if i > 0 && 0 < ino.blocks[blk] < |data| {
      FreeSlotStops(data, ino, blk, i - 1);
      DivModUnique(PER_BLOCK * blk + i - 1, PER_BLOCK, blk, i - 1);
    }
  }

  lemma FreeSlotEnds(data: seq<Sector>, ino: Inode)
    requires |ino.blocks| == DIRECT
    ensures FreeSlot(data, ino, PER_BLOCK * DIRECT).None?
  {
  }

  lemma ReadStep(data: seq<Sector>, ino: Inode, b: nat, want: nat, done: seq<byte>)
    requires |ino.blocks| == DIRECT && b < DIRECT && 0 < ino.blocks[b] < |data| && |done| < want
    ensures var chunk := if want - |done| > 512 then 512 else want - |done|;
      var done' := done + data[ino.blocks[b]][..chunk];
      |done'| <= want && done + ReadBlocks(data, ino, b, want - |done|)
        == done' + ReadBlocks(data, ino, b + 1, want - |done'|)
  {
    var s := data[ino.blocks[b]];
    if want - |done| > 512 {
      assert s[..512] == s;
      assert done + (s + ReadBlocks(data, ino, b + 1, want - |done| - 512))
        == (done + s) + ReadBlocks(data, ino, b + 1, want - |done| - 512);
    }
  }

  lemma DropNone(fs: Fs, n: nat)
    requires Shaped(fs) && n < INODE_MAX
    ensures DropFrom(fs, n, DIRECT) == fs
  {
  }

  /** Ending a read: no slot, no room, no block, or a block off the disk. */
  lemma ReadStops(data: seq<Sector>, ino: Inode, b: nat, want: nat)
    requires |ino.blocks| == DIRECT && (b >= DIRECT || want == 0 || ino.blocks[b] == 0 || ino.blocks[b] >= |data|)
    ensures ReadBlocks(data, ino, b, want) == []
  {
  }

  /** ---- Following the data loop ---- */

  function Plus(r: (Fs, nat), done: nat): (s: (Fs, nat)) { (r.0, r.1 + done) }

  /** A live file whose slots from b on are empty, in a consistent file system. */
  ghost predicate Growing(v: Fs, own: seq<(nat, nat)>, named: seq<(nat, nat)>, n: nat, b: nat)
  {
    && Inv(v, own, named) && n < INODE_MAX && v.inodeMap[n] && v.inodes[n].kind == KIND_FILE
    && forall j: nat {:trigger BlockOf(v, n, j)} :: b <= j < DIRECT ==> BlockOf(v, n, j) == 0
  }

  lemma FillStart(fs: Fs, own: seq<(nat, nat)>, named: seq<(nat, nat)>, n: nat, size: nat)
    requires Inv(fs, own, named) && Emptied(fs, n)
    ensures Growing(Relabel(fs, n, KIND_FILE, size), own, named, n, 0) && Shaped(Relabel(fs, n, KIND_FILE, size))
            && fs.inodes[n].kind == KIND_FILE
  {
    RelabelKeeps(fs, own, named, n, KIND_FILE, size);
  }

  lemma GrowingCounts(v: Fs, own: seq<(nat, nat)>, named: seq<(nat, nat)>, n: nat, b: nat)
    requires Growing(v, own, named, n, b)
    ensures CountsRight(v) && v.freeBlocks > 0 && |own| == BMAP_BITS
  {
  }

  lemma GrowingStep(v: Fs, own: seq<(nat, nat)>, named: seq<(nat, nat)>, n: nat, b: nat, i: nat, content: Sector)
    requires Growing(v, own, named, n, b) && b < DIRECT && i < BMAP_BITS && !v.blockMap[i] && v.freeBlocks > 0
    ensures Shaped(Attach(v, n, b, i, content))
    ensures Growing(Attach(v, n, b, i, content), own[i := (n, b)], named, n, b + 1)
  {
    assert BlockOf(v, n, b) == 0;
    AttachKeeps(v, own, named, n, b, i, content);
  }

  lemma AppendStep(v: Fs, n: nat, b: nat, buf: seq<byte>)
    requires Shaped(v) && n < INODE_MAX && b < DIRECT && buf != [] && v.freeBlocks > 0
    ensures var i := FirstFree(v.blockMap, 0);
      AppendFrom(v, n, b, buf) == if i == BMAP_BITS then (v, 0)
        else Plus(AppendFrom(Attach(v, n, b, i, Chunk(buf)), n, b + 1, After(buf)), |buf| - |After(buf)|)
  {
  }

  lemma AppendStops(v: Fs, n: nat, b: nat, buf: seq<byte>)
    requires Shaped(v) && n < INODE_MAX && b <= DIRECT
    requires b == DIRECT || buf == [] || FirstFree(v.blockMap, 0) == BMAP_BITS || v.freeBlocks == 0
    ensures AppendFrom(v, n, b, buf) == (v, 0)
  {
  }

  lemma ChunkIs(buf: seq<byte>, done: nat, chunk: nat)
    requires done < |buf| && chunk == if |buf| - done > 512 then 512 else |buf| - done
    ensures Chunk(buf[done..]) == buf[done..done + chunk] + Zeros(512 - chunk)
    ensures After(buf[done..]) == buf[done + chunk..] && |After(buf[done..])| == |buf| - done - chunk
  {
    assert buf[done..][..chunk] == buf[done..done + chunk];
    if chunk == 512 {
      assert buf[done..][512..] == buf[done + 512..];
      assert Zeros(0) == [];
    } else {
      assert buf[done..] == buf[done..done + chunk];
    }
  }

  /** The search of unlink within one block. */
  lemma {:induction false} FindChildSkips(data: seq<Sector>, ino: Inode, n: nat, blk: nat, i: nat)
    requires |ino.blocks| == DIRECT && blk < DIRECT && i <= PER_BLOCK
    requires 0 < ino.blocks[blk] < |data| ==> forall j: nat :: j < i ==> DirentAt(data[ino.blocks[blk]], j).inode != n
    ensures ino.blocks[blk] == 0 || ino.blocks[blk] >= |data| ==> FindChild(data, ino, n, PER_BLOCK * blk).None?
    ensures 0 < ino.blocks[blk] < |data| ==>
              FindChild(data, ino, n, PER_BLOCK * blk) == FindChild(data, ino, n, PER_BLOCK * blk + i)
    ensures 0 < ino.blocks[blk] < |data| && i < PER_BLOCK && DirentAt(data[ino.blocks[blk]], i).inode == n ==>
              FindChild(data, ino, n, PER_BLOCK * blk + i) == Some(PER_BLOCK * blk + i)
  {
    hide DirentAt;
    DivModUnique(PER_BLOCK * blk, PER_BLOCK, blk, 0);
    if i < PER_BLOCK { DivModUnique(PER_BLOCK * blk + i, PER_BLOCK, blk, i); }
    if i > 0 && 0 < ino.blocks[blk] < |data| {
      FindChildSkips(data, ino, n, blk, i - 1);
      DivModUnique(PER_BLOCK * blk + i - 1, PER_BLOCK, blk, i - 1);
    }
  }

  lemma FindChildEnds(data: seq<Sector>, ino: Inode, n: nat)
    requires |ino.blocks| == DIRECT
    ensures FindChild(data, ino, n, PER_BLOCK * DIRECT).None?
  {
  }
}
