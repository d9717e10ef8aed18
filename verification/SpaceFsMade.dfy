/** What the calls of SpaceFS make and take away: the inode mkdir and write leave behind, that files can be
    written in a directory just made, and the inode and blocks unlink gives back. */
module SpaceFsMade {
  import opened Wrappers
  import opened Bytes
  import opened Disk
  import opened Dirents
  import opened SpaceFsState
  import opened SpaceFsPaths
  import opened SpaceFsOps
  import opened SpaceFsDirs

  /** ---- The inode of a new entry ---- */

  /** The entry made for a new inode leaves the inode alone. */
  lemma EntryLeavesInode(fs: Fs, own: seq<(nat, nat)>, named: seq<(nat, nat)>, path: Name, n: nat, kind: nat, now: nat)
    requires Inv(fs, own, named) && Makeable(fs, path) && ParentOf(fs, path).Some?
    requires 0 < n < INODE_MAX && !fs.inodeMap[n]
    ensures fs.freeInodes > 0 && ParentOf(fs, path).value < INODE_MAX
    ensures var fs' := AddEntry(Birth(fs, n, kind, now), ParentOf(fs, path).value, n, BaseName(path)).0;
      && fs'.inodeMap == fs.inodeMap[n := true]
      && fs'.inodes[n] == Inode(kind, 1, 0, now, [0, 0, 0, 0, 0, 0, 0, 0, 0, 0])
  {
    Born(fs, own, named, path, n, kind, now);
    var fs1, dir, name := Birth(fs, n, kind, now), ParentOf(fs, path).value, BaseName(path);
    assert fs1.inodes[n] == Inode(kind, 1, 0, now, [0, 0, 0, 0, 0, 0, 0, 0, 0, 0]);
    assert fs1.inodeMap == fs.inodeMap[n := true];
    hide BlockOf, Names, Entry, Inv, Extends, Untouched, AddEntry, OthersUntouched, Added, FreeSlot, Birth, Unnamed,
         ParentOf, Makeable;
    var fs' := AddEntry(fs1, dir, n, name).0;
    if fs1.inodes[dir].kind == KIND_DIR {
      var own', named' := AddEntryKeeps(fs1, own, named, dir, n, name);
      if AddEntry(fs1, dir, n, name).1 {
        AddedIsLocal(fs1, fs', dir, FreeSlot(fs1.data, fs1.inodes[dir], 0).value, n, name);
        UntouchedAt(fs1, fs', dir, n);
      }
    } else {
      var own' := FileEntryKeeps(fs1, own, named, dir, n, name);
      UntouchedAt(fs1, fs', dir, n);
    }
  }

  lemma AddedIsLocal(fs: Fs, fs': Fs, dir: nat, k: nat, child: nat, name: Name)
    requires Added(fs, fs', dir, k, child, name)
    ensures Shaped(fs) && Shaped(fs') && OthersUntouched(fs, fs', dir) && fs'.inodeMap == fs.inodeMap
  {
  }

  /** An entry makes its directory 32 octets longer and may give it blocks; every other inode stays. Without a slot
      or a block nothing changes. */
  lemma EntryGrowsParent(fs: Fs, dir: nat, child: nat, name: Name)
    requires Shaped(fs) && dir < INODE_MAX
    ensures var (fs', ok) := AddEntry(fs, dir, child, name);
      && (!ok ==> fs' == fs)
      && (ok ==>
        && fs'.inodes[dir] ==
           fs.inodes[dir].(size := fs.inodes[dir].size + 32, blocks := fs'.inodes[dir].blocks)
        && forall m :: 0 <= m < INODE_MAX && m != dir ==> fs'.inodes[m] == fs.inodes[m])
  {
    hide DirentAt, Put;
  }

  /** ---- mkdir ---- */

  /** When mkdir returns 0, the lowest free inode is live and every other as it was; it is a directory without
      blocks, made now, that names nothing. */
  lemma MakeDirMakes(fs: Fs, own: seq<(nat, nat)>, named: seq<(nat, nat)>, path: Name, now: nat)
    requires Inv(fs, own, named) && Makeable(fs, path) && MakeDir(fs, path, now).ret == 0
    ensures var fs', n := MakeDir(fs, path, now).fs, FirstFree(fs.inodeMap, 1);
      && 0 < n < 256 && !fs.inodeMap[n] && fs'.inodeMap == fs.inodeMap[n := true]
      && fs'.inodes[n] == Inode(2, 1, 0, now, [0, 0, 0, 0, 0, 0, 0, 0, 0, 0])
      && forall k: nat :: !Names(fs', n, k)
  {
    var n := FirstFree(fs.inodeMap, 1);
    EntryLeavesInode(fs, own, named, path, n, KIND_DIR, now);
    hide Inv, AddEntry, Birth, Makeable, ParentOf, Names, FirstFree;
    NoBlocksNoNames(MakeDir(fs, path, now).fs, n);
  }

  lemma NoBlocksNoNames(fs: Fs, n: nat)
    requires Shaped(fs) && n < INODE_MAX && fs.inodes[n].blocks == [0, 0, 0, 0, 0, 0, 0, 0, 0, 0]
    ensures forall k: nat :: !Names(fs, n, k)
  {
    hide DirentAt;
    forall k: nat ensures !Names(fs, n, k) {
      assert k < SLOTS ==> fs.inodes[n].blocks[k / PER_BLOCK] == 0;
    }
  }

  /** The path of name in the directory path. */
  function Under(path: Name, name: Name): (p: Name)
    ensures p == path + [47] + name
  {
    path + [47] + name
  }

  lemma ChildPath(path: Name, name: Name)
    requires path != [] && name != [] && forall i :: 0 <= i < |name| ==> name[i] != 47
    ensures ParentPath(Under(path, name)) == path && BaseName(Under(path, name)) == name
  {
    var p := Under(path, name);
    AfterLastSlash(p, |path| + 1);
    assert p[..|path|] == path && p[|path| + 1..] == name;
  }

  lemma {:induction false} AfterLastSlash(p: Name, i: nat)
    requires 0 < i <= |p| && p[i - 1] == SLASH && forall j :: i <= j < |p| ==> p[j] != SLASH
    ensures AfterSlash(p) == i
    decreases |p|
  {
    if i < |p| { AfterLastSlash(p[..|p| - 1], i); }
  }

  /** A write to p returns its size and reads back. */
  predicate Takes(fs: Fs, p: Name, buf: seq<byte>, now: nat, max: nat)
    requires Shaped(fs)
  {
    var w := WriteFile(fs, p, buf, now);
    w.ret == |buf| && ReadFile(w.fs, p, max) == Some(buf[..if |buf| < max then |buf| else max])
  }

  /** The state mkdir leaves. */
  function Made(fs: Fs, path: Name, now: nat): (fs': Fs)
    requires Shaped(fs) && MakeDir(fs, path, now).ret == 0
    ensures Shaped(fs')
  {
    MakeDirShaped(fs, path, now);
    MakeDir(fs, path, now).fs
  }

  lemma MakeDirShaped(fs: Fs, path: Name, now: nat)
    requires Shaped(fs)
    ensures Shaped(MakeDir(fs, path, now).fs)
  {
    hide AddEntry, ParentOf;
  }

  /** A file can be written in a directory just made: when the path leads to it and an inode is left, a write
      under any name that fits an entry returns its size and reads back. */
  lemma MadeDirTakesFiles(fs: Fs, own: seq<(nat, nat)>, named: seq<(nat, nat)>, path: Name, now: nat, name: Name,
        buf: seq<byte>, later: nat, max: nat)
    requires Inv(fs, own, named) && Makeable(fs, path) && MakeDir(fs, path, now).ret == 0 && Leads(fs, path)
    requires 0 < |name| <= 27 && forall i :: 0 <= i < |name| ==> name[i] != 47
    requires |path| + 1 + |name| <= 127 && |buf| <= 5120
    requires exists m: nat :: m < 256 && !Made(fs, path, now).inodeMap[m]
    ensures Takes(Made(fs, path, now), Under(path, name), buf, later, max)
  {
    InvRoot(fs, own, named);
    hide Takes, MakeDir, Leads, Inv, Names, Makeable, Made;
    var p := Under(path, name);
    var own', named', n := MadeDirIsParent(fs, own, named, path, now, name);
    EmptyDirTakes(Made(fs, path, now), own', named', n, p, name, buf, later, max);
  }

  lemma MadeDirIsParent(fs: Fs, own: seq<(nat, nat)>, named: seq<(nat, nat)>, path: Name, now: nat, name: Name)
        returns (own': seq<(nat, nat)>, named': seq<(nat, nat)>, n: nat)
    requires Inv(fs, own, named) && Makeable(fs, path) && MakeDir(fs, path, now).ret == 0 && Leads(fs, path)
    requires name != [] && forall i :: 0 <= i < |name| ==> name[i] != 47
    ensures var fs', p := Made(fs, path, now), Under(path, name);
      && Inv(fs', own', named') && n < INODE_MAX && fs'.inodeMap[n] && fs'.inodes[n].kind == KIND_DIR
      && fs'.inodes[n].size == 0 && (forall k: nat :: !Names(fs', n, k))
      && ParentOf(fs', p) == Some(n) && BaseName(p) == name
  {
    MakeDirMakes(fs, own, named, path, now);
    own', named' := MakeDirKeeps(fs, own, named, path, now);
    MakeDirThenResolve(fs, own, named, path, now, path);
    LeadsHasName(fs, path);
    ChildPath(path, name);
    hide Inv, MakeDir, Leads, Resolve, Hides, FirstFree, BaseName, ParentPath, FilesKept, Names, Makeable;
    n := FirstFree(fs.inodeMap, 1);
  }

  /** The path of a new directory leads to it, and a read of it fails. */
  lemma MadeDirIsNoFile(fs: Fs, own: seq<(nat, nat)>, named: seq<(nat, nat)>, path: Name, now: nat, max: nat)
    requires Inv(fs, own, named) && Makeable(fs, path) && MakeDir(fs, path, now).ret == 0 && Leads(fs, path)
    ensures var fs' := Made(fs, path, now); Resolve(fs', path).Some? && ReadFile(fs', path, max) == None
  {
    MakeDirMakes(fs, own, named, path, now);
    MakeDirThenResolve(fs, own, named, path, now, path);
    hide Inv, MakeDir, Leads, Resolve, Hides, FirstFree, FilesKept, Names, Makeable, ReadBlocks;
  }

  /** A read finds a file exactly where the path leads to an inode of kind 1. */
  lemma ReadSucceedsIff(fs: Fs, own: seq<(nat, nat)>, named: seq<(nat, nat)>, path: Name, max: nat)
    requires Inv(fs, own, named)
    ensures Resolve(fs, path).Some? ==> Resolve(fs, path).value.0 < |fs.inodes|
    ensures ReadFile(fs, path, max).Some? <==> Resolve(fs, path).Some? && fs.inodes[Resolve(fs, path).value.0].kind == 1
  {
    ResolveIsLive(fs, own, named, path);
    InvRoot(fs, own, named);
    hide Inv, Resolve, ReadBlocks;
  }

  lemma LeadsHasName(fs: Fs, path: Name)
    requires Shaped(fs) && Leads(fs, path)
    ensures path != []
  {
  }

  lemma EmptyDirTakes(fs: Fs, own: seq<(nat, nat)>, named: seq<(nat, nat)>, n: nat, p: Name, name: Name, buf: seq<byte>,
        later: nat, max: nat)
    requires Inv(fs, own, named) && n < INODE_MAX && fs.inodeMap[n] && fs.inodes[n].kind == KIND_DIR
    requires fs.inodes[n].size == 0 && forall k: nat :: !Names(fs, n, k)
    requires |p| <= PATH_MAX && ParentOf(fs, p) == Some(n) && BaseName(p) == name && 0 < |name| <= NAME_MAX
    requires |buf| <= FILE_MAX && exists m: nat :: m < INODE_MAX && !fs.inodeMap[m]
    ensures Takes(fs, p, buf, later, max)
  {
    FindIsFirst(fs, own, named, n, name, 0);
    ResolveByParent(fs, p);
    hide Inv, Resolve, BaseName, Find, Names, ReadFile, WriteFile, ParentOf, TargetOf, PathsAfter, FilesKept, Stores;
    assert Resolve(fs, p).None?;
    assert Makeable(fs, p) && Writable(fs, p);
    assert HasTarget(fs, p);
    assert !Names(fs, n, 0);
    assert HasRoom(fs, n) && Linked(fs, p);
    var _, _ := WriteKeeps(fs, own, named, p, buf, later);
    WriteThenRead(fs, own, named, p, buf, later, max);
  }

  /** ---- write ---- */

  /** Where the octets of a file are: octet i is octet i % 512 of the sector in slot i / 512 of its inode. */
  lemma {:induction false} OctetInBlock(fs: Fs, n: nat, b: nat, buf: seq<byte>, i: nat)
    requires Shaped(fs) && n < INODE_MAX && b <= DIRECT && Holds(fs, n, b, buf) && i < |buf|
    ensures b + i / 512 < 10 && var sector := fs.inodes[n].blocks[b + i / 512];
      0 < sector < 65536 && fs.data[sector][i % 512] == buf[i]
    decreases DIRECT - b
  {
    if i >= 512 { OctetInBlock(fs, n, b + 1, After(buf), i - 512); }
  }

  /** A write that returns the size puts its octets there. */
  lemma WrittenOctet(fs: Fs, own: seq<(nat, nat)>, named: seq<(nat, nat)>, path: Name, buf: seq<byte>, now: nat, i: nat)
    requires Inv(fs, own, named) && Writable(fs, path) && WriteFile(fs, path, buf, now).ret == |buf| && i < |buf|
    ensures var fs' := WriteFile(fs, path, buf, now).fs;
      var n := if Resolve(fs, path).Some? then Resolve(fs, path).value.0 else FirstFree(fs.inodeMap, 1);
      && n < 256 && |fs'.inodes| == 256 && fs'.inodes[n].size == |buf| && i / 512 < 10 && |fs'.inodes[n].blocks| == 10
      && var sector := fs'.inodes[n].blocks[i / 512];
      && 0 < sector < 65536 == |fs'.data| && fs'.data[sector][i % 512] == buf[i]
  {
    var own', named' := WriteKeeps(fs, own, named, path, buf, now);
    var fs' := WriteFile(fs, path, buf, now).fs;
    InvRoot(fs', own', named');
    hide Inv, Writable, WriteFile, Resolve, PathsAfter, FilesKept, Holds;
    OctetInBlock(fs', TargetOf(fs, path), 0, buf, i);
  }

  /** A write that returns the size leaves a new file in the lowest free inode, with one link and made now; of a
      file that was there only size and blocks change. No other inode becomes live or unused. */
  lemma WriteMakes(fs: Fs, own: seq<(nat, nat)>, named: seq<(nat, nat)>, path: Name, buf: seq<byte>, now: nat)
    requires Inv(fs, own, named) && Writable(fs, path) && WriteFile(fs, path, buf, now).ret == |buf|
    ensures var fs' := WriteFile(fs, path, buf, now).fs;
      if Resolve(fs, path).Some? then
        var n := Resolve(fs, path).value.0;
        && n < 256 && fs'.inodeMap == fs.inodeMap
        && fs'.inodes[n] == fs.inodes[n].(size := |buf|, blocks := fs'.inodes[n].blocks)
      else
        var n := FirstFree(fs.inodeMap, 1);
        && 0 < n < 256 && !fs.inodeMap[n] && fs'.inodeMap == fs.inodeMap[n := true]
        && fs'.inodes[n] == Inode(1, 1, |buf|, now, fs'.inodes[n].blocks)
  {
    var _, _ := WriteKeeps(fs, own, named, path, buf, now);
    TargetInode(fs, own, named, path, now);
    var own1, named1 := TargetKeeps(fs, own, named, path, now);
    hide Inv, Writable, Target, AppendFrom, Resolve, ParentOf, FirstFree, PathsAfter, FilesKept, Stores, HasTarget,
         Emptied;
    var (fs1, target) := Target(fs, path, now);
    FillLeavesFields(fs1, own1, named1, target.value, buf);
  }

  lemma TargetInode(fs: Fs, own: seq<(nat, nat)>, named: seq<(nat, nat)>, path: Name, now: nat)
    requires Inv(fs, own, named) && Writable(fs, path) && HasTarget(fs, path)
    ensures var (fs1, target) := Target(fs, path, now);
      target == Some(TargetOf(fs, path)) && target.value < INODE_MAX &&
      if Resolve(fs, path).Some? then
        && fs1.inodeMap == fs.inodeMap
        && fs1.inodes[target.value] ==
           fs.inodes[target.value].(size := 0, blocks := fs1.inodes[target.value].blocks)
      else
        && 0 < target.value && !fs.inodeMap[target.value] && fs1.inodeMap == fs.inodeMap[target.value := true]
        && fs1.inodes[target.value] == Inode(1, 1, 0, now, fs1.inodes[target.value].blocks)
  {
    InvRoot(fs, own, named);
    ResolveIsLive(fs, own, named, path);
    if Resolve(fs, path).Some? {
      var n := Resolve(fs, path).value.0;
      DropFromKeeps(fs, own, named, n, 0);
      hide Inv, Resolve, ParentOf, DropFrom, OthersUntouched, SameNames, BlockOf;
    } else {
      FirstFreeInode(fs);
      var n := FirstFree(fs.inodeMap, 1);
      hide Inv, Resolve, ParentOf, AddEntry, Makeable;
      EntryLeavesInode(fs, own, named, path, n, KIND_FILE, now);
    }
  }

  /** Filling an empty file changes its size and blocks and makes nothing live. */
  lemma FillLeavesFields(fs: Fs, own: seq<(nat, nat)>, named: seq<(nat, nat)>, n: nat, buf: seq<byte>)
    requires Inv(fs, own, named) && Emptied(fs, n)
    ensures n < |fs.inodes|
    ensures var fs' := AppendFrom(Relabel(fs, n, fs.inodes[n].kind, |buf|), n, 0, buf).0;
      && fs'.inodeMap == fs.inodeMap
      && fs'.inodes[n] == fs.inodes[n].(size := |buf|, blocks := fs'.inodes[n].blocks)
  {
    var r := Relabel(fs, n, fs.inodes[n].kind, |buf|);
    RelabelKeeps(fs, own, named, n, KIND_FILE, |buf|);
    forall j: nat | 0 <= j < DIRECT ensures BlockOf(r, n, j) == 0 {
      assert BlockOf(fs, n, j) == 0;
    }
    hide Inv, AppendFrom, BlockOf, Names, Entry, Holds, OthersUntouched, SameNames;
    var own' := AppendFromKeeps(r, own, named, n, 0, buf);
  }

  /** ---- unlink ---- */

  /** Inode n holds the block of bit i. */
  ghost predicate HeldBy(fs: Fs, n: nat, i: nat)
    requires Shaped(fs) && n < INODE_MAX
  {
    exists k: nat :: k < DIRECT && BlockOf(fs, n, k) == 99 + i
  }

  /** What unlink gives back: the inode, and exactly the blocks it held. */
  lemma UnlinkFrees(fs: Fs, own: seq<(nat, nat)>, named: seq<(nat, nat)>, path: Name)
    requires Inv(fs, own, named) && Resolve(fs, path).Some? && Resolve(fs, path).value.0 != 0
    ensures var n := Resolve(fs, path).value.0; var fs' := Unlink(fs, path).fs;
      && n < 256 && fs.inodeMap[n] && Shaped(fs')
      && fs'.inodeMap == fs.inodeMap[n := false] && fs'.freeInodes == fs.freeInodes + 1 && fs'.inodes[n].kind == 0
      && forall i: nat :: i < 4096 ==> (fs'.blockMap[i] <==> fs.blockMap[i] && !HeldBy(fs, n, i))
  {
    hide BlocksOwned, NamesUnique, DirsPacked, CountsRight, HeldBy, BlockOf, Names, Entry, NameGone, Walk;
    var (n, parent) := Resolve(fs, path).value;
    ResolveIsLive(fs, own, named, path);
    var k := ResolvedSlot(fs, own, named, path);
    UnlinkFrame(fs, own, named, n, parent, k);
    UnlinkInodes(fs, own, named, n, parent, k);
    var fs' := Unlink(fs, path).fs;
    hide Resolve, Bury, Unname, Vacated, Unlink, Untouched;
    BlocksBack(fs, own, fs', n, parent);
  }

  lemma UnlinkInodes(fs: Fs, own: seq<(nat, nat)>, named: seq<(nat, nat)>, n: nat, parent: nat, k: nat)
    requires Inv(fs, own, named) && 0 < n < INODE_MAX && fs.inodeMap[n] && parent < INODE_MAX && parent != n
    requires Names(fs, parent, k) && Child(fs, parent, k) == n
    ensures var fs' := Bury(Unname(Vacated(fs, n), n, parent), n, fs.inodes[n].(kind := 0));
      && Shaped(fs') && fs'.inodeMap == fs.inodeMap[n := false] && fs'.freeInodes == fs.freeInodes + 1
      && fs'.inodes[n].kind == 0
  {
    VacatedKeeps(fs, own, named, n, parent, k);
    VacatedInodes(fs, own, named, n);
    hide Vacated, FindChild, Inv, Names, Entry, BlockOf;
  }

  lemma VacatedInodes(fs: Fs, own: seq<(nat, nat)>, named: seq<(nat, nat)>, n: nat)
    requires Inv(fs, own, named) && 0 < n < INODE_MAX && fs.inodeMap[n]
    ensures Vacated(fs, n).freeInodes == fs.freeInodes
  {
    DropKeepsInodes(Relabel(fs, n, 0, fs.inodes[n].size), n, 0);
  }

  lemma {:induction false} DropKeepsInodes(fs: Fs, n: nat, k: nat)
    requires Shaped(fs) && n < INODE_MAX && k <= DIRECT
    ensures DropFrom(fs, n, k).freeInodes == fs.freeInodes
    decreases DIRECT - k
  {
    if k < DIRECT { DropKeepsInodes(Drop(fs, n, k), n, k + 1); }
  }

  lemma BlocksBack(fs: Fs, own: seq<(nat, nat)>, fs': Fs, n: nat, parent: nat)
    requires Shaped(fs) && Shaped(fs') && BlocksOwned(fs, own) && BlocksOwned(fs', own)
    requires n < INODE_MAX && fs.inodeMap[n] && !fs'.inodeMap[n] && OnlyGone(fs, fs', n, parent)
    requires forall m: nat :: m < INODE_MAX && m != n && fs'.inodeMap[m] ==> fs.inodeMap[m]
    ensures forall i: nat :: i < 4096 ==> (fs'.blockMap[i] <==> fs.blockMap[i] && !HeldBy(fs, n, i))
  {
    hide Untouched, BlockOf;
    forall i: nat | i < BMAP_BITS
      ensures fs'.blockMap[i] <==> fs.blockMap[i] && !HeldBy(fs, n, i)
    {
      BlockBack(fs, own, fs', n, parent, i);
    }
  }

  lemma BlockBack(fs: Fs, own: seq<(nat, nat)>, fs': Fs, n: nat, parent: nat, i: nat)
    requires Shaped(fs) && Shaped(fs') && BlocksOwned(fs, own) && BlocksOwned(fs', own) && i < BMAP_BITS
    requires n < INODE_MAX && fs.inodeMap[n] && !fs'.inodeMap[n] && OnlyGone(fs, fs', n, parent)
    requires forall m: nat :: m < INODE_MAX && m != n && fs'.inodeMap[m] ==> fs.inodeMap[m]
    ensures fs'.blockMap[i] <==> fs.blockMap[i] && !HeldBy(fs, n, i)
  {
    hide Untouched;
    if fs.blockMap[i] {
      var (m, k) := own[i];
      assert BlockOf(fs, m, k) == DATA_START + i;
      if m != n {
        assert fs'.inodes[m] == fs.inodes[m];
        assert BlockOf(fs', m, k) == DATA_START + i;
        forall j: nat | j < DIRECT ensures BlockOf(fs, n, j) != DATA_START + i { BlocksApart(fs, own, m, k, n, j); }
      }
    }
    if fs'.blockMap[i] {
      var (m, k) := own[i];
      assert BlockOf(fs', m, k) == DATA_START + i;
      assert BlockOf(fs, m, k) == DATA_START + i;
    }
  }
}
