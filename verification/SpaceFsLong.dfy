/** A consistent SpaceFS on which a last component of 28 octets, one more than a directory entry holds, does
    harm: spfs_write and spfs_mkdir report success, the path leads nowhere, and an older path of 27 octets
    leads to the new inode. */
module SpaceFsLong {
  import opened Wrappers
  import opened Bytes
  import opened Disk
  import opened Dirents
  import opened SpaceFsState
  import opened SpaceFsPaths
  import opened SpaceFsOps
  import opened SpaceFsDirs
  import F = SpaceFsFull

  function Row(n: nat): (name: Name) { seq(n, _ => 97) }

  /** The longest name an entry holds, and one octet more. */
  const SHORT: Name := Row(NAME_MAX)
  const LONG: Name := Row(NAME_MAX + 1)

  /** A block of a directory whose first entry is free and whose second names inode 1. */
  function HoleBlock(): (s: Sector)
  {
    Zeros(32) + [1, 0, 0, 0] + SHORT + Zeros(449)
  }

  lemma HoleBlockAt(i: nat)
    requires i < PER_BLOCK
    ensures i == 1 ==> DirentAt(HoleBlock(), i) == Dirent(1, SHORT)
    ensures i != 1 ==> DirentAt(HoleBlock(), i).inode == 0
  {
    var s := HoleBlock();
    if i == 1 {
      assert s[32..36] == [1, 0, 0, 0];
      assert s[36..64] == SHORT + Zeros(1);
      hide Le, CString, HoleBlock;
      SmallWord(1);
      CStringOfPadded(SHORT, 1);
    } else {
      assert s[32 * i..32 * i + 4] == Zeros(4);
      hide Le, CString, HoleBlock;
      LeZeros(4);
    }
  }

  function SectorAt(b: nat): (s: Sector)
  {
    if b == DATA_START then HoleBlock() else Zeros(512)
  }

  function RootInode(): (ino: Inode)
  {
    Inode(KIND_DIR, 1, 64, 0, [DATA_START] + seq(DIRECT - 1, _ => 0))
  }

  /** The root holds one file, in its second slot. */
  function HoleRoot(): (fs: Fs)
    ensures Shaped(fs)
  {
    Fs(TOTAL_BLOCKS - 1, INODE_MAX - 2, seq(INODE_MAX, n => n <= 1), seq(BMAP_BITS, i => i < 1),
       [RootInode()] + seq(INODE_MAX - 1, n => FreshInode(KIND_FILE, 0)),
       seq(TOTAL_SECTORS, b requires 0 <= b < TOTAL_SECTORS => SectorAt(b)))
  }

  lemma HoleRootNames(n: nat, k: nat)
    requires n < INODE_MAX
    ensures Names(HoleRoot(), n, k) <==> n == 0 && k == 1
    ensures n == 0 && k == 1 ==> Entry(HoleRoot(), n, k) == Dirent(1, SHORT)
  {
    hide HoleBlock, DirentAt;
    if n == 0 && k < PER_BLOCK { HoleBlockAt(k); }
  }

  lemma HoleRootBlocks(n: nat, k: nat)
    requires n < INODE_MAX && k < DIRECT
    ensures BlockOf(HoleRoot(), n, k) == if n == 0 && k == 0 then DATA_START else 0
  {
  }

  lemma HoleRootCounts()
    ensures Count(HoleRoot().inodeMap) == 2 && Count(HoleRoot().blockMap) == 1
  {
    hide Count, HoleBlock;
    F.CountFirst(HoleRoot().inodeMap, 2);
    F.CountFirst(HoleRoot().blockMap, 1);
  }

  /** fs has the blocks and names of HoleRoot. */
  ghost predicate LooksHoled(fs: Fs, short: Name)
  {
    && Shaped(fs) && fs.inodes[0] == RootInode() && fs.inodes[1].kind == KIND_FILE
    && (forall n: nat {:trigger fs.inodeMap[n]} :: n < INODE_MAX ==> fs.inodeMap[n] == (n <= 1))
    && (forall i: nat {:trigger fs.blockMap[i]} :: i < BMAP_BITS ==> fs.blockMap[i] == (i < 1))
    && (forall n: nat, k: nat {:trigger BlockOf(fs, n, k)} :: n < INODE_MAX && k < DIRECT ==>
          BlockOf(fs, n, k) == if n == 0 && k == 0 then DATA_START else 0)
    && (forall n: nat, k: nat {:trigger Names(fs, n, k)} :: n < INODE_MAX ==>
          && (Names(fs, n, k) <==> n == 0 && k == 1)
          && (n == 0 && k == 1 ==> Entry(fs, n, k) == Dirent(1, short)))
  }

  lemma HoleRootShape()
    ensures var fs := HoleRoot();
      && Shaped(fs) && fs.inodes[0] == RootInode() && fs.inodes[1].kind == KIND_FILE && CountsRight(fs)
      && (forall n: nat :: n < INODE_MAX ==> fs.inodeMap[n] == (n <= 1))
      && (forall i: nat :: i < BMAP_BITS ==> fs.blockMap[i] == (i < 1))
  {
    hide HoleBlock, Count;
    HoleRootCounts();
  }

  lemma HoleRootLooksHoled()
    ensures LooksHoled(HoleRoot(), SHORT) && CountsRight(HoleRoot())
  {
    var fs := HoleRoot();
    HoleRootShape();
    hide HoleRoot, Names, Entry, BlockOf, CountsRight;
    forall n: nat, k: nat | n < INODE_MAX
      ensures k < DIRECT ==> BlockOf(fs, n, k) == if n == 0 && k == 0 then DATA_START else 0
      ensures Names(fs, n, k) <==> n == 0 && k == 1
      ensures n == 0 && k == 1 ==> Entry(fs, n, k) == Dirent(1, SHORT)
    {
      HoleRootNames(n, k);
      if k < DIRECT { HoleRootBlocks(n, k); }
    }
  }

  /** Block 0 is slot 0 of the root. */
  function Owners(): (own: seq<(nat, nat)>)
    ensures |own| == BMAP_BITS && own[0] == (0, 0)
  {
    seq(BMAP_BITS, i => (0, 0))
  }

  /** Inode 1 is named by slot 1 of the root. */
  function Namers(): (named: seq<(nat, nat)>)
    ensures |named| == INODE_MAX && named[1] == (0, 1)
  {
    seq(INODE_MAX, c => (0, 1))
  }

  lemma HoledIsConsistent(fs: Fs, short: Name)
    requires LooksHoled(fs, short) && CountsRight(fs) && |short| <= NAME_MAX
    ensures Inv(fs, Owners(), Namers())
  {
    hide BlockOf, Names, Entry, Owners, Namers, CountsRight;
  }

  lemma PlainRow(n: nat)
    ensures BaseName(Row(n)) == Row(n) && ParentPath(Row(n)) == []
  {
    assert AfterSlash(Row(n)) == 0;
  }

  lemma RowCut(m: nat, n: nat)
    requires m <= n
    ensures Row(n)[..m] == Row(m) && |Row(n)| == n
  {
  }

  lemma HoledSearch(fs: Fs, own: seq<(nat, nat)>, named: seq<(nat, nat)>, name: Name, short: Name)
    requires LooksHoled(fs, short) && Inv(fs, own, named)
    ensures Shaped(fs) && fs.inodeMap[0] && fs.inodes[0].kind == KIND_DIR
    ensures FreeSlot(fs.data, fs.inodes[0], 0) == Some(0)
    ensures Find(fs.data, fs.inodes[0], name, 0) == if name == short then Some(1) else None
    ensures name == short ==> HasSlot(fs.inodes[0], 1) && fs.inodes[0].blocks[0] < |fs.data|
                              && Slot(fs.data, fs.inodes[0], 1).inode == 1
  {
    FindIsFirst(fs, own, named, 0, name, 0);
    RoomIffSlot(fs, own, named, 0);
    FreeSlotIsFirst(fs, own, 0, 0);
    hide Find, FreeSlot, Names, Entry, Slot, BlocksOwned, NamesUnique, DirsPacked, CountsRight, BlockOf;
    assert !Names(fs, 0, 0) && Names(fs, 0, 1);
    if name == short { FoundName(fs, own, named, 0, name); }
  }

  /** Where a name of the root leads there. */
  lemma HoledPath(fs: Fs, own: seq<(nat, nat)>, named: seq<(nat, nat)>, path: Name, short: Name)
    requires LooksHoled(fs, short) && Inv(fs, own, named)
    requires BaseName(path) == path && ParentPath(path) == [] && 0 < |path| <= PATH_MAX
    ensures ParentOf(fs, path) == Some(0) && Resolve(fs, path) == if path == short then Some((1, 0)) else None
  {
    hide BaseName, ParentPath, PathTokens, Walk, Find, FreeSlot, Names, Entry, Slot, Inv, LooksHoled, Resolve;
    HoledSearch(fs, own, named, path, short);
    ResolveByParent(fs, path);
  }

  /** Where a new entry for a name cut to short would go there. */
  lemma HoledShadow(fs: Fs, own: seq<(nat, nat)>, named: seq<(nat, nat)>, long: Name, short: Name)
    requires LooksHoled(fs, short) && Inv(fs, own, named) && ParentOf(fs, long) == Some(0)
    requires short == Kept(BaseName(long))
    ensures HasRoom(fs, 0) && Shadowed(fs, long) == Some(1)
  {
    hide BaseName, Kept, Find, FreeSlot, Names, Entry, Slot, Inv, LooksHoled, HasRoom, ParentOf;
    HoledSearch(fs, own, named, short, short);
    RoomIffSlot(fs, own, named, 0);
  }

  lemma HoledTarget(fs: Fs, short: Name)
    requires LooksHoled(fs, short)
    ensures FirstFree(fs.inodeMap, 1) == 2 && !fs.inodeMap[2] && fs.inodes[0] == RootInode()
  {
    hide Names, Entry, BlockOf;
    assert fs.inodeMap[1] && !fs.inodeMap[2];
  }

  /** What the failing input relies on. */
  lemma HoleRootPaths()
    ensures var fs := HoleRoot();
      && Inv(fs, Owners(), Namers()) && HasRoom(fs, 0) && FirstFree(fs.inodeMap, 1) == 2 && !fs.inodeMap[2]
      && fs.inodes[0] == RootInode() && ParentOf(fs, LONG) == Some(0) && Resolve(fs, LONG).None?
      && Resolve(fs, SHORT) == Some((1, 0)) && Shadowed(fs, LONG) == Some(1)
      && |LONG| == |BaseName(LONG)| == NAME_MAX + 1
  {
    hide HoleRoot, RootInode, Row, BaseName, ParentPath, LooksHoled, CountsRight, Resolve, Inv, Kept, Shadowed, HasRoom,
         ParentOf, FirstFree, Owners, Namers;
    HoleRootLooksHoled();
    RowsAsNames();
    HoledIsConsistent(HoleRoot(), SHORT);
    HoledPath(HoleRoot(), Owners(), Namers(), LONG, SHORT);
    HoledPath(HoleRoot(), Owners(), Namers(), SHORT, SHORT);
    HoledShadow(HoleRoot(), Owners(), Namers(), LONG, SHORT);
    HoledTarget(HoleRoot(), SHORT);
  }

  lemma RowsAsNames()
    ensures BaseName(LONG) == LONG && ParentPath(LONG) == [] && |LONG| == NAME_MAX + 1
    ensures BaseName(SHORT) == SHORT && ParentPath(SHORT) == [] && |SHORT| == NAME_MAX && Kept(LONG) == SHORT
  {
    hide Row, BaseName, ParentPath;
    PlainRow(NAME_MAX);
    PlainRow(NAME_MAX + 1);
    RowCut(NAME_MAX, NAME_MAX + 1);
    RowCut(0, NAME_MAX);
  }

  /** The failing input: the longer name is written, the size comes back, its path leads nowhere, and the path
      of the older file leads to inode 2, which holds what was written; likewise for a directory. */
  lemma LongNameTakesPath(buf: seq<byte>, now: nat)
    requires |buf| <= FILE_MAX
    ensures var fs := HoleRoot();
      && Consistent(fs) && Writable(fs, LONG) && HasRoom(fs, 0) && Resolve(fs, SHORT) == Some((1, 0))
      && var r, d := WriteFile(fs, LONG, buf, now), MakeDir(fs, LONG, now);
         && r.ret == |buf| && Resolve(r.fs, LONG).None? && Resolve(r.fs, SHORT) == Some((2, 0))
         && Shaped(r.fs) && Stores(r.fs, 2, buf)
         && d.ret == 0 && Resolve(d.fs, LONG).None? && Resolve(d.fs, SHORT) == Some((2, 0))
  {
    hide HoleRoot, Row, BaseName, WriteFile, MakeDir, HasRoom, Resolve, Stores, Inv, Owners, Namers, FirstFree,
         ParentOf, Shadowed;
    var fs, own, named := HoleRoot(), Owners(), Namers();
    HoleRootPaths();
    LongWrite(fs, own, named, LONG, SHORT, buf, now);
    LongDir(fs, own, named, LONG, SHORT, now);
  }

  lemma LongWrite(fs: Fs, own: seq<(nat, nat)>, named: seq<(nat, nat)>, long: Name, short: Name, buf: seq<byte>,
        now: nat)
    requires Inv(fs, own, named) && Writable(fs, long) && HasTarget(fs, long) && FirstFree(fs.inodeMap, 1) == 2
    requires ParentOf(fs, long) == Some(0) && Resolve(fs, long).None? && |BaseName(long)| > NAME_MAX
    requires Resolve(fs, short) == Some((1, 0)) && Shadowed(fs, long) == Some(1) && |buf| <= FILE_MAX
    ensures var r := WriteFile(fs, long, buf, now);
      && r.ret == |buf| && Resolve(r.fs, long).None? && Resolve(r.fs, short) == Some((2, 0))
      && Shaped(r.fs) && Stores(r.fs, 2, buf)
  {
    InvRoot(fs, own, named);
    hide Inv, Writable, HasTarget, ParentOf, Resolve, Shadowed, WriteFile, HasRoom, Hides, Stores, FilesKept, BaseName,
         FirstFree;
    var _, _ := WriteKeeps(fs, own, named, long, buf, now);
  }

  lemma LongDir(fs: Fs, own: seq<(nat, nat)>, named: seq<(nat, nat)>, long: Name, short: Name, now: nat)
    requires Inv(fs, own, named) && Makeable(fs, long) && HasTarget(fs, long) && FirstFree(fs.inodeMap, 1) == 2
    requires ParentOf(fs, long) == Some(0) && Resolve(fs, long).None? && |BaseName(long)| > NAME_MAX
    requires Resolve(fs, short) == Some((1, 0)) && Shadowed(fs, long) == Some(1)
    ensures var d := MakeDir(fs, long, now);
      d.ret == 0 && Resolve(d.fs, long).None? && Resolve(d.fs, short) == Some((2, 0))
  {
    InvRoot(fs, own, named);
    hide Inv, Makeable, ParentOf, Resolve, Shadowed, MakeDir, HasRoom, Hides, FilesKept, BaseName, FirstFree;
    var _, _ := MakeDirKeeps(fs, own, named, long, now);
    MakeDirThenResolve(fs, own, named, long, now, short);
  }
}
