/** A consistent SpaceFS whose root directory has all its 160 entries: spfs_write and spfs_mkdir of a new
    name report success there, and the name leads nowhere. */
module SpaceFsFull {
  import opened Wrappers
  import opened Bytes
  import opened Disk
  import opened Dirents
  import opened SpaceFsState
  import opened SpaceFsPaths
  import opened SpaceFsOps
  import opened SpaceFsDirs

  /** Block b of the directory: entry i names inode 16 * b + i + 1, with that octet as its name. */
  function FullBlock(b: nat): (s: Sector)
    requires b < DIRECT
  {
    seq(512, j requires 0 <= j < 512 => if j % 32 == 0 || j % 32 == 4 then PER_BLOCK * b + j / 32 + 1 else 0)
  }

  lemma FullBlockAt(b: nat, i: nat)
    requires b < DIRECT && i < PER_BLOCK
    ensures DirentAt(FullBlock(b), i) == Dirent(PER_BLOCK * b + i + 1, [PER_BLOCK * b + i + 1])
  {
    var s, x := FullBlock(b), PER_BLOCK * b + i + 1;
    assert s[32 * i..32 * i + 4] == [x, 0, 0, 0];
    assert s[32 * i + 4..32 * i + 32] == [x] + Zeros(27);
    hide Le, CString, FullBlock;
    SmallWord(x);
    CStringOfPadded([x], 27);
  }

  function SectorAt(b: nat): (s: Sector)
  {
    if DATA_START <= b < DATA_START + DIRECT then FullBlock(b - DATA_START) else Zeros(512)
  }

  function RootInode(): (ino: Inode)
  {
    Inode(KIND_DIR, 1, 32 * SLOTS, 0, seq(DIRECT, k => DATA_START + k))
  }

  function FullRoot(): (fs: Fs)
    ensures Shaped(fs)
  {
    Fs(TOTAL_BLOCKS - DIRECT, INODE_MAX - SLOTS - 1, seq(INODE_MAX, n => n <= SLOTS), seq(BMAP_BITS, i => i < DIRECT),
       [RootInode()] + seq(INODE_MAX - 1, n => FreshInode(KIND_FILE, 0)),
       seq(TOTAL_SECTORS, b requires 0 <= b < TOTAL_SECTORS => SectorAt(b)))
  }

  lemma {:induction false} CountFirst(bits: seq<bool>, m: nat)
    requires m <= |bits| && forall i :: 0 <= i < |bits| ==> bits[i] == (i < m)
    ensures Count(bits) == m
  {
    if bits != [] { CountFirst(bits[1..], if m == 0 then 0 else m - 1); }
  }

  lemma FullRootNames(n: nat, k: nat)
    requires n < INODE_MAX
    ensures Names(FullRoot(), n, k) <==> n == 0 && k < SLOTS
    ensures n == 0 && k < SLOTS ==> Entry(FullRoot(), n, k) == Dirent(k + 1, [k + 1])
  {
    hide FullBlock, DirentAt;
    if n == 0 && k < SLOTS { FullBlockAt(k / PER_BLOCK, k % PER_BLOCK); }
  }

  lemma FullRootBlocks(n: nat, k: nat)
    requires n < INODE_MAX && k < DIRECT
    ensures BlockOf(FullRoot(), n, k) == if n == 0 then DATA_START + k else 0
  {
  }

  lemma FullRootShape()
    ensures var fs := FullRoot();
      && Shaped(fs) && fs.inodes[0] == RootInode() && CountsRight(fs)
      && (forall n: nat :: n < INODE_MAX ==> fs.inodeMap[n] == (n <= SLOTS))
      && (forall i: nat :: i < BMAP_BITS ==> fs.blockMap[i] == (i < DIRECT))
  {
    hide FullBlock, SectorAt, Count;
    FullRootCounts();
  }

  lemma FullRootCounts()
    ensures Count(FullRoot().inodeMap) == SLOTS + 1 && Count(FullRoot().blockMap) == DIRECT
  {
    hide Count, FullBlock, SectorAt;
    CountFirst(FullRoot().inodeMap, SLOTS + 1);
    CountFirst(FullRoot().blockMap, DIRECT);
  }

  /** fs has the blocks and names of FullRoot. */
  ghost predicate LooksFull(fs: Fs)
  {
    && Shaped(fs) && fs.inodes[0] == RootInode()
    && (forall n: nat {:trigger fs.inodeMap[n]} :: n < INODE_MAX ==> fs.inodeMap[n] == (n <= SLOTS))
    && (forall i: nat {:trigger fs.blockMap[i]} :: i < BMAP_BITS ==> fs.blockMap[i] == (i < DIRECT))
    && (forall n: nat, k: nat {:trigger BlockOf(fs, n, k)} :: n < INODE_MAX && k < DIRECT ==>
          BlockOf(fs, n, k) == if n == 0 then DATA_START + k else 0)
    && (forall n: nat, k: nat {:trigger Names(fs, n, k)} :: n < INODE_MAX ==>
          && (Names(fs, n, k) <==> n == 0 && k < SLOTS)
          && (n == 0 && k < SLOTS ==> Entry(fs, n, k) == Dirent(k + 1, [k + 1])))
  }

  lemma FullRootLooksFull()
    ensures LooksFull(FullRoot())
  {
    var fs := FullRoot();
    FullRootShape();
    hide FullRoot, Names, Entry, BlockOf, CountsRight;
    forall n: nat, k: nat | n < INODE_MAX
      ensures k < DIRECT ==> BlockOf(fs, n, k) == if n == 0 then DATA_START + k else 0
      ensures Names(fs, n, k) <==> n == 0 && k < SLOTS
      ensures n == 0 && k < SLOTS ==> Entry(fs, n, k) == Dirent(k + 1, [k + 1])
    {
      FullRootNames(n, k);
      if k < DIRECT { FullRootBlocks(n, k); }
    }
  }

  /** Block i is slot i of the root. */
  function Owners(): (own: seq<(nat, nat)>)
    ensures |own| == BMAP_BITS && forall i: nat :: i < BMAP_BITS ==> own[i] == (0, i)
  {
    seq(BMAP_BITS, i requires 0 <= i < BMAP_BITS => (0, i))
  }

  /** Inode c is named by slot c - 1 of the root. */
  function Namers(): (named: seq<(nat, nat)>)
    ensures |named| == INODE_MAX && forall c: nat :: 0 < c < INODE_MAX ==> named[c] == (0, c - 1)
  {
    seq(INODE_MAX, c requires 0 <= c < INODE_MAX => (0, if c == 0 then 0 else c - 1))
  }

  lemma LooksFullBlocks(fs: Fs)
    requires LooksFull(fs)
    ensures BlocksOwned(fs, Owners())
  {
    hide BlockOf, Names, Entry, Owners, Namers;
  }

  lemma LooksFullNames(fs: Fs)
    requires LooksFull(fs)
    ensures NamesUnique(fs, Namers()) && DirsPacked(fs) && !HasRoom(fs, 0)
  {
    hide BlockOf, Names, Entry, Owners, Namers;
  }

  lemma FullRootIsConsistent()
    ensures LooksFull(FullRoot()) && Inv(FullRoot(), Owners(), Namers()) && !HasRoom(FullRoot(), 0)
  {
    FullRootShape();
    FullRootLooksFull();
    hide FullRoot, Names, Entry, BlockOf, CountsRight, BlocksOwned, NamesUnique, DirsPacked, LooksFull, HasRoom,
         Owners, Namers;
    LooksFullBlocks(FullRoot());
    LooksFullNames(FullRoot());
  }

  /** A name no entry has: two tildes. */
  const ABSENT: Name := [126, 126]

  lemma AbsentPath(fs: Fs, own: seq<(nat, nat)>, named: seq<(nat, nat)>)
    requires Inv(fs, own, named) && forall k: nat :: Names(fs, 0, k) ==> |Entry(fs, 0, k).name| == 1
    ensures ParentOf(fs, ABSENT) == Some(0) && Resolve(fs, ABSENT).None? && BaseName(ABSENT) == ABSENT
  {
    assert ABSENT[..1] == [126];
    assert AfterSlash(ABSENT) == 0;
    assert BaseName(ABSENT) == ABSENT && ParentPath(ABSENT) == [];
    FindIsFirst(fs, own, named, 0, ABSENT, 0);
    hide Find, Names, Entry, BlocksOwned, NamesUnique, DirsPacked, CountsRight, AfterSlash;
    ResolveByParent(fs, ABSENT);
  }

  /** The failing input: whatever is written, spfs_write returns its size, spfs_mkdir returns 0, and the
      path leads nowhere. */
  lemma FullRootLosesName(buf: seq<byte>, now: nat)
    requires |buf| <= FILE_MAX
    ensures var fs := FullRoot();
      && Consistent(fs) && Writable(fs, ABSENT) && Makeable(fs, ABSENT) && Resolve(fs, ABSENT).None?
      && WriteFile(fs, ABSENT, buf, now).ret == |buf| && Resolve(WriteFile(fs, ABSENT, buf, now).fs, ABSENT).None?
      && MakeDir(fs, ABSENT, now).ret == 0 && Resolve(MakeDir(fs, ABSENT, now).fs, ABSENT).None?
  {
    hide FullRoot, Owners, Namers, Inv, HasRoom, WriteFile, MakeDir, Resolve, BaseName, ParentOf;
    FullRootPaths();
    FullLosesFile(FullRoot(), Owners(), Namers(), buf, now);
    FullLosesDir(FullRoot(), Owners(), Namers(), now);
  }

  /** What the failing input relies on. */
  lemma FullRootPaths()
    ensures var fs := FullRoot();
      && Inv(fs, Owners(), Namers()) && !HasRoom(fs, 0) && fs.inodes[0] == RootInode() && !fs.inodeMap[255]
      && ParentOf(fs, ABSENT) == Some(0) && Resolve(fs, ABSENT).None?
  {
    hide FullRoot, RootInode, Owners, Namers, Inv, HasRoom, Resolve, BaseName, ParentOf, Names, Entry, LooksFull;
    FullRootIsConsistent();
    FullNames(FullRoot());
    AbsentPath(FullRoot(), Owners(), Namers());
  }

  lemma FullNames(fs: Fs)
    requires LooksFull(fs)
    ensures forall k: nat :: Names(fs, 0, k) ==> |Entry(fs, 0, k).name| == 1
    ensures fs.inodes[0] == RootInode() && !fs.inodeMap[255]
  {
    hide Names, Entry, BlockOf;
  }

  lemma FullLosesFile(fs: Fs, own: seq<(nat, nat)>, named: seq<(nat, nat)>, buf: seq<byte>, now: nat)
    requires Inv(fs, own, named) && Writable(fs, ABSENT) && HasTarget(fs, ABSENT) && !Linked(fs, ABSENT)
    requires |buf| <= FILE_MAX
    ensures WriteFile(fs, ABSENT, buf, now).ret == |buf| && Resolve(WriteFile(fs, ABSENT, buf, now).fs, ABSENT).None?
  {
    InvRoot(fs, own, named);
    hide *;
    var _, _ := WriteKeeps(fs, own, named, ABSENT, buf, now);
    WriteThenRead(fs, own, named, ABSENT, buf, now, 0);
  }

  lemma FullLosesDir(fs: Fs, own: seq<(nat, nat)>, named: seq<(nat, nat)>, now: nat)
    requires Inv(fs, own, named) && Makeable(fs, ABSENT) && HasTarget(fs, ABSENT)
    requires Resolve(fs, ABSENT).None? && ParentOf(fs, ABSENT) == Some(0) && !HasRoom(fs, 0)
    ensures MakeDir(fs, ABSENT, now).ret == 0 && Resolve(MakeDir(fs, ABSENT, now).fs, ABSENT).None?
  {
    InvRoot(fs, own, named);
    hide Inv, Makeable, MakeDir, Resolve, HasRoom, FilesKept, FirstFree;
    var _, _ := MakeDirKeeps(fs, own, named, ABSENT, now);
    MakeDirNew(fs, own, named, ABSENT, now);
  }
}
