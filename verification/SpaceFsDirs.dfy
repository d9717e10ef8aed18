/** mkdir, unlink and format of SpaceFS, and consistency over every run of the four operations. */
module SpaceFsDirs {
  import opened Wrappers
  import opened Bytes
  import opened Disk
  import opened Dirents
  import opened SpaceFsState
  import opened SpaceFsPaths
  import opened SpaceFsOps

  /** ---- mkdir ---- */

  /** spfs_mkdir: it never looks whether the name is taken. */
  function MakeDir(fs: Fs, path: Name, now: nat): (r: Outcome)
    requires Shaped(fs)
  {
    match ParentOf(fs, path)
    case None => Outcome(fs, -1)
    case Some(dir) =>
      var n := FirstFree(fs.inodeMap, 1);
      if n == INODE_MAX || fs.freeInodes == 0 || dir >= INODE_MAX then Outcome(fs, -1)
      else Outcome(AddEntry(Birth(fs, n, KIND_DIR, now), dir, n, BaseName(path)).0, 0)
  }

  /** mkdir keeps the file system consistent, whether or not the name was taken, and every file. It returns 0
      exactly when the parent is there and an inode is free, and -1 otherwise, changing nothing. */
  lemma MakeDirKeeps(fs: Fs, own: seq<(nat, nat)>, named: seq<(nat, nat)>, path: Name, now: nat)
    returns (own': seq<(nat, nat)>, named': seq<(nat, nat)>)
    requires Inv(fs, own, named) && Makeable(fs, path)
    ensures Inv(MakeDir(fs, path, now).fs, own', named')
    ensures MakeDir(fs, path, now).ret ==
            if ParentOf(fs, path).Some? && exists n: nat :: n < INODE_MAX && !fs.inodeMap[n] then 0 else -1
    ensures MakeDir(fs, path, now).ret < 0 ==> MakeDir(fs, path, now).fs == fs
    ensures MakeDir(fs, path, now).ret == 0 ==>
              FilesKept(fs, MakeDir(fs, path, now).fs, FirstFree(fs.inodeMap, 1), ParentOf(fs, path).value)
  {
    own', named' := own, named;
    FirstFreeInode(fs);
    var n := FirstFree(fs.inodeMap, 1);
    if ParentOf(fs, path).Some? && n < INODE_MAX {
      hide Inv, AddEntry, Makeable, Leads, Hides, FilesKept, ParentOf;
      own', named' := NewEntry(fs, own, named, path, n, KIND_DIR, now);
    }
  }

  /** When mkdir returns 0, the path leads to the new directory exactly when the entry got a slot of a directory,
      its name was not cut and no slot in front of it has the name; otherwise it leads where it led, if anywhere.
      Every other path leads where it led unless it passes the inode the new entry hides; one that led to
      that inode itself leads to the new directory. */
  lemma MakeDirThenResolve(fs: Fs, own: seq<(nat, nat)>, named: seq<(nat, nat)>, path: Name, now: nat, other: Name)
    requires Inv(fs, own, named) && Makeable(fs, path) && MakeDir(fs, path, now).ret == 0
    ensures var r, dir := MakeDir(fs, path, now), ParentOf(fs, path).value;
      && Resolve(r.fs, path) == (if Leads(fs, path) then Some((FirstFree(fs.inodeMap, 1), dir)) else Resolve(fs, path))
      && (Resolve(fs, other).Some? ==>
          && (Resolve(r.fs, other) == Resolve(fs, other) <==> !Hides(fs, path, other))
          && (Shadowed(fs, path) == Some(Resolve(fs, other).value.0) ==>
              Resolve(r.fs, other) == Some((FirstFree(fs.inodeMap, 1), dir))))
  {
    InvRoot(fs, own, named);
    hide Inv, AddEntry, Makeable, Leads, Hides, FilesKept, ParentOf, Resolve;
    var _, _ := NewEntry(fs, own, named, path, FirstFree(fs.inodeMap, 1), KIND_DIR, now);
  }

  /** For a name that was free: the path leads somewhere exactly when the parent is a directory with a slot left
      and the name fits an entry. */
  lemma MakeDirNew(fs: Fs, own: seq<(nat, nat)>, named: seq<(nat, nat)>, path: Name, now: nat)
    requires Inv(fs, own, named) && Makeable(fs, path) && MakeDir(fs, path, now).ret == 0 && Resolve(fs, path).None?
    ensures Resolve(MakeDir(fs, path, now).fs, path).Some? <==>
            InDir(fs, path) && HasRoom(fs, ParentOf(fs, path).value) && |BaseName(path)| <= NAME_MAX
  {
    hide AddEntry, Inv, Leads, Hides, Resolve, HasRoom, ParentOf, FirstFree;
    InvRoot(fs, own, named);
    MakeDirThenResolve(fs, own, named, path, now, path);
    NewIsLinked(fs, own, named, path);
  }

  /** ---- unlink ---- */

  /** The search of spfs_unlink for the entry naming inode n; it is not bounded by the size. */
  function FindChild(data: seq<Sector>, ino: Inode, n: nat, k: nat): (r: Option<nat>)
    requires |ino.blocks| == DIRECT
    ensures r.Some? ==> k <= r.value < SLOTS && 0 < ino.blocks[r.value / PER_BLOCK] < |data|
    decreases SLOTS - k
  {
    if k >= SLOTS || ino.blocks[k / PER_BLOCK] == 0 || ino.blocks[k / PER_BLOCK] >= |data| then None
    else if Slot(data, ino, k).inode == n then Some(k)
    else FindChild(data, ino, n, k + 1)
  }

  /** spfs_unlink: the blocks go back, the inode is marked unused with its block numbers left in
      place, and the entry in the parent is freed. */
  function Unlink(fs: Fs, path: Name): (r: Outcome)
    requires Shaped(fs)
  {
    match Resolve(fs, path)
    case None => Outcome(fs, -1)
    case Some((n, parent)) =>
      if n >= INODE_MAX || parent >= INODE_MAX then Outcome(fs, -1)
      else Outcome(Bury(Unname(Vacated(fs, n), n, parent), n, fs.inodes[n].(kind := 0)), 0)
  }

  /** Inode n unused and without blocks. */
  function Vacated(fs: Fs, n: nat): (fs': Fs)
    requires Shaped(fs) && n < INODE_MAX
    ensures Shaped(fs')
  {
    DropFrom(Relabel(fs, n, 0, fs.inodes[n].size), n, 0)
  }

  function Unname(fs: Fs, n: nat, parent: nat): (fs': Fs)
    requires Shaped(fs) && parent < INODE_MAX
    ensures Shaped(fs')
  {
    match FindChild(fs.data, fs.inodes[parent], n, 0)
    case None => fs
    case Some(k) => Erase(fs, parent, k)
  }

  function Bury(fs: Fs, n: nat, remains: Inode): (fs': Fs)
    requires Shaped(fs) && n < INODE_MAX && |remains.blocks| == DIRECT
    ensures Shaped(fs')
  {
    Kill(fs, n).(inodes := fs.inodes[n := remains])
  }

  /** What is left in an unused inode matters to nothing. */
  lemma RemainsFrame(fs: Fs, n: nat, remains: Inode)
    requires Shaped(fs) && n < INODE_MAX && !fs.inodeMap[n] && |remains.blocks| == DIRECT
    ensures var fs' := fs.(inodes := fs.inodes[n := remains]);
      && Shaped(fs') && SameNames(fs, fs')
      && forall m: nat, j: nat {:trigger BlockOf(fs', m, j)} :: m < INODE_MAX && j < DIRECT && m != n ==>
        BlockOf(fs', m, j) == BlockOf(fs, m, j)
  {
  }

  lemma NamesLive(fs: Fs, n: nat, k: nat)
    requires Shaped(fs) && n < INODE_MAX && Names(fs, n, k)
    ensures fs.inodeMap[n]
  {
  }

  lemma RemainsKeeps(fs: Fs, own: seq<(nat, nat)>, named: seq<(nat, nat)>, n: nat, remains: Inode)
    requires Inv(fs, own, named) && n < INODE_MAX && !fs.inodeMap[n] && |remains.blocks| == DIRECT
    ensures Inv(fs.(inodes := fs.inodes[n := remains]), own, named)
  {
    hide BlocksOwned, NamesUnique, DirsPacked, CountsRight;
    RemainsFrame(fs, n, remains);
    RemainsBlocks(fs, own, n, remains);
    RemainsNames(fs, named, n, remains);
    var fs' := fs.(inodes := fs.inodes[n := remains]);
    SameCounters(fs, fs');
  }

  lemma RemainsBlocks(fs: Fs, own: seq<(nat, nat)>, n: nat, remains: Inode)
    requires Shaped(fs) && BlocksOwned(fs, own) && n < INODE_MAX && !fs.inodeMap[n] && |remains.blocks| == DIRECT
    ensures var fs' := fs.(inodes := fs.inodes[n := remains]); Shaped(fs') && BlocksOwned(fs', own)
  {
    hide BlocksOwned, BlockOf, SameNames;
    RemainsFrame(fs, n, remains);
    SameOwners(fs, fs.(inodes := fs.inodes[n := remains]), own);
  }

  lemma SameOwners(fs: Fs, fs': Fs, own: seq<(nat, nat)>)
    requires Shaped(fs) && Shaped(fs') && BlocksOwned(fs, own)
    requires fs'.blockMap == fs.blockMap && fs'.inodeMap == fs.inodeMap
    requires forall m: nat, j: nat {:trigger BlockOf(fs', m, j)} ::
        m < INODE_MAX && j < DIRECT && fs.inodeMap[m] ==> BlockOf(fs', m, j) == BlockOf(fs, m, j)
    ensures BlocksOwned(fs', own)
  {
    hide BlockOf;
  }

  lemma RemainsNames(fs: Fs, named: seq<(nat, nat)>, n: nat, remains: Inode)
    requires Shaped(fs) && NamesUnique(fs, named) && DirsPacked(fs)
    requires n < INODE_MAX && !fs.inodeMap[n] && |remains.blocks| == DIRECT
    ensures var fs' := fs.(inodes := fs.inodes[n := remains]);
      Shaped(fs') && NamesUnique(fs', named) && DirsPacked(fs')
  {
    RemainsFrame(fs, n, remains);
    forall m: nat, k: nat | m < INODE_MAX && Names(fs, m, k) ensures m != n { NamesLive(fs, m, k); }
    hide BlockOf, Names, Entry, DirentAt;
  }

  /** In a consistent file system the search finds the one slot that names n. */
  lemma {:induction false} FindChildFinds(fs: Fs, own: seq<(nat, nat)>, named: seq<(nat, nat)>, n: nat, dir: nat,
        slot: nat, k: nat)
    requires Inv(fs, own, named) && dir < INODE_MAX && Names(fs, dir, slot) && Child(fs, dir, slot) == n && k <= slot
    ensures FindChild(fs.data, fs.inodes[dir], n, k) == Some(slot)
    decreases slot - k
  {
    hide DirentAt, BlocksOwned, CountsRight, NamesUnique;
    if k < slot {
      assert BlockOf(fs, dir, slot / PER_BLOCK) != 0;
      assert BlockOf(fs, dir, k / PER_BLOCK) != 0;
      BlockBelow(fs, own, named, dir, k / PER_BLOCK);
      FindChildFinds(fs, own, named, n, dir, slot, k + 1);
      if Slot(fs.data, fs.inodes[dir], k).inode == n {
        OneSlot(fs, own, named, dir, k, slot);
      }
    }
  }

  lemma OneSlot(fs: Fs, own: seq<(nat, nat)>, named: seq<(nat, nat)>, dir: nat, i: nat, k: nat)
    requires Inv(fs, own, named) && dir < INODE_MAX && Names(fs, dir, i) && Names(fs, dir, k)
             && Child(fs, dir, i) == Child(fs, dir, k)
    ensures i == k
  {
  }

  lemma BlockBelow(fs: Fs, own: seq<(nat, nat)>, named: seq<(nat, nat)>, n: nat, b: nat)
    requires Inv(fs, own, named) && n < INODE_MAX && fs.inodeMap[n] && b < DIRECT
    ensures BlockOf(fs, n, b) < TOTAL_SECTORS
  {
    BlockInRange(fs, own, n, b);
  }

  /** The entry through which a path other than the root was resolved. */
  lemma ResolvedSlot(fs: Fs, own: seq<(nat, nat)>, named: seq<(nat, nat)>, path: Name) returns (k: nat)
    requires Inv(fs, own, named) && Resolve(fs, path).Some? && Resolve(fs, path).value.0 != 0
    ensures var (n, parent) := Resolve(fs, path).value;
      && 0 < n < INODE_MAX && fs.inodeMap[n] && parent < INODE_MAX && parent != n
      && Names(fs, parent, k) && Child(fs, parent, k) == n
  {
    WalkIsLive(fs, own, named, 0, 0, PathTokens(path));
    var ts := PathTokens(path);
    k := LastStep(fs, own, named, 0, 0, ts);
  }

  lemma {:induction false} LastStep(fs: Fs, own: seq<(nat, nat)>, named: seq<(nat, nat)>, cur: nat, parent: nat,
        ts: seq<Name>) returns (k: nat)
    requires Inv(fs, own, named) && cur < INODE_MAX && fs.inodeMap[cur] && ts != [] && Walk(fs, cur, parent, ts).Some?
    ensures var (n, p) := Walk(fs, cur, parent, ts).value;
      p < INODE_MAX && Names(fs, p, k) && Child(fs, p, k) == n && p != n
    decreases |ts|
  {
    hide DirentAt, BlocksOwned, CountsRight, DirsPacked;
    FindIsFirst(fs, own, named, cur, ts[0], 0);
    k := Find(fs.data, fs.inodes[cur], ts[0], 0).value;
    var c := Child(fs, cur, k);
    if |ts| > 1 {
      k := LastStep(fs, own, named, c, cur, ts[1..]);
    }
  }

  /** unlink keeps the file system consistent; of a directory that still has entries it drops the
      names and leaves their inodes allocated. */
  lemma UnlinkKeeps(fs: Fs, own: seq<(nat, nat)>, named: seq<(nat, nat)>, path: Name)
    requires Inv(fs, own, named) && (Resolve(fs, path).Some? ==> Resolve(fs, path).value.0 != 0)
    ensures Inv(Unlink(fs, path).fs, own, named)
    ensures Unlink(fs, path).ret < 0 ==> Unlink(fs, path).fs == fs
    ensures Unlink(fs, path).ret == 0 <==> Resolve(fs, path).Some?
  {
    if Resolve(fs, path).Some? {
      var (n, parent) := Resolve(fs, path).value;
      var k := ResolvedSlot(fs, own, named, path);
      UnlinkSteps(fs, own, named, n, parent, k);
    }
  }

  /** Consistency is lost exactly by unlinking the root. */
  lemma UnlinkConsistentIff(fs: Fs, path: Name)
    requires Consistent(fs)
    ensures Shaped(fs)
    ensures Consistent(Unlink(fs, path).fs) <==> !(Resolve(fs, path).Some? && Resolve(fs, path).value.0 == 0)
  {
    var own, named :| Inv(fs, own, named);
    if Resolve(fs, path).Some? && Resolve(fs, path).value.0 == 0 {
      WalkIsLive(fs, own, named, 0, 0, PathTokens(path));
      RootGone(fs, path);
    } else {
      UnlinkKeeps(fs, own, named, path);
    }
  }

  lemma RootGone(fs: Fs, path: Name)
    requires Shaped(fs) && Resolve(fs, path).Some? && Resolve(fs, path).value.0 == 0
    requires Resolve(fs, path).value.1 < INODE_MAX
    ensures !Consistent(Unlink(fs, path).fs)
  {
    hide Resolve, Vacated, Unname, BlocksOwned, NamesUnique, DirsPacked, CountsRight;
  }

  lemma UnlinkSteps(fs: Fs, own: seq<(nat, nat)>, named: seq<(nat, nat)>, n: nat, parent: nat, k: nat)
    requires Inv(fs, own, named) && 0 < n < INODE_MAX && fs.inodeMap[n] && parent < INODE_MAX && parent != n
    requires Names(fs, parent, k) && Child(fs, parent, k) == n
    ensures var fs1 := Vacated(fs, n);
      && Names(fs1, parent, k) && Unname(fs1, n, parent) == Erase(fs1, parent, k)
      && Inv(Bury(Unname(fs1, n, parent), n, fs.inodes[n].(kind := 0)), own, named)
  {
    VacatedKeeps(fs, own, named, n, parent, k);
    var fs1 := Vacated(fs, n);
    FindChildFinds(fs1, own, named, n, parent, k, 0);
    EraseKeeps(fs1, own, named, parent, k);
    EraseFrame(fs1, own, named, parent, k);
    var fs2 := Erase(fs1, parent, k);
    hide Vacated, Inv, Names, Entry, Erase, FindChild;
    forall j: nat | j < DIRECT
      ensures fs2.inodes[n].blocks[j] == 0
    {
      assert BlockOf(fs2, n, j) == BlockOf(fs1, n, j) == 0;
    }
    KillKeeps(fs2, own, named, n);
    RemainsKeeps(Kill(fs2, n), own, named, n, fs.inodes[n].(kind := 0));
  }

  lemma VacatedKeeps(fs: Fs, own: seq<(nat, nat)>, named: seq<(nat, nat)>, n: nat, parent: nat, k: nat)
    requires Inv(fs, own, named) && 0 < n < INODE_MAX && fs.inodeMap[n] && parent < INODE_MAX && parent != n
    requires Names(fs, parent, k) && Child(fs, parent, k) == n
    ensures var fs1 := Vacated(fs, n);
      && Inv(fs1, own, named) && fs1.inodeMap == fs.inodeMap && fs1.inodes[n].kind == 0 && Names(fs1, parent, k)
        && Child(fs1, parent, k) == n
      && forall j: nat {:trigger BlockOf(fs1, n, j)} :: j < DIRECT ==> BlockOf(fs1, n, j) == 0
  {
    var r := Relabel(fs, n, 0, fs.inodes[n].size);
    RelabelKeeps(fs, own, named, n, 0, fs.inodes[n].size);
    DropFromKeeps(r, own, named, n, 0);
    hide DropFrom, Inv, Entry, Names, BlockOf;
  }

  /** ---- What unlink leaves alone ---- */

  /** Removing the name of n from a directory does not move any other search in it. */
  lemma ErasedDirFinds(fs: Fs, own: seq<(nat, nat)>, named: seq<(nat, nat)>, fs': Fs, own': seq<(nat, nat)>,
        named': seq<(nat, nat)>, n: nat, m: nat, k: nat, name: Name)
    requires Inv(fs, own, named) && Inv(fs', own', named') && m < INODE_MAX && fs.inodeMap[m] && fs'.inodeMap[m]
    requires fs.inodes[m].kind == fs'.inodes[m].kind == KIND_DIR
    requires Names(fs, m, k) ==> Child(fs, m, k) == n
    requires !Names(fs', m, k)
    requires forall s: nat {:trigger Names(fs', m, s)} {:trigger Names(fs, m, s)} :: s != k ==>
               Names(fs', m, s) == Names(fs, m, s) && (Names(fs', m, s) ==> Entry(fs', m, s) == Entry(fs, m, s))
    ensures var f, f' := Find(fs.data, fs.inodes[m], name, 0), Find(fs'.data, fs'.inodes[m], name, 0);
      f.Some? && Slot(fs.data, fs.inodes[m], f.value).inode != n ==>
      f' == f && Slot(fs'.data, fs'.inodes[m], f.value) == Slot(fs.data, fs.inodes[m], f.value)
  {
    hide Find, DirentAt, BlocksOwned, NamesUnique, DirsPacked, CountsRight, Names, Slot;
    FindIsFirst(fs, own, named, m, name, 0);
    FindIsFirst(fs', own', named', m, name, 0);
    var f, f' := Find(fs.data, fs.inodes[m], name, 0), Find(fs'.data, fs'.inodes[m], name, 0);
    if f.Some? && Child(fs, m, f.value) != n {
      assert f.value != k;
      assert Names(fs', m, f.value) && Entry(fs', m, f.value) == Entry(fs, m, f.value);
      assert f'.Some? && f'.value <= f.value;
      assert Names(fs, m, f'.value);
    }
  }

  /** Directories other than n keep their names, except that slot k of parent has none. */
  ghost predicate NameGone(fs: Fs, fs': Fs, n: nat, parent: nat, k: nat)
    requires Shaped(fs) && Shaped(fs') && parent < INODE_MAX
  {
    && !Names(fs', parent, k)
    && forall m: nat, s: nat {:trigger Names(fs', m, s)} {:trigger Names(fs, m, s)} ::
      m < INODE_MAX && m != n && (m, s) != (parent, k) ==>
         Names(fs', m, s) == Names(fs, m, s) && (Names(fs', m, s) ==> Entry(fs', m, s) == Entry(fs, m, s))
  }

  /** Live inodes other than n are as before, and but for the directory parent so are their sectors. */
  ghost predicate OnlyGone(fs: Fs, fs': Fs, n: nat, parent: nat)
    requires Shaped(fs) && Shaped(fs')
  {
    && (forall j: nat {:trigger fs.inodeMap[j]} :: j < INODE_MAX && j != n && fs.inodeMap[j] ==>
      fs'.inodeMap[j] && fs'.inodes[j] == fs.inodes[j])
    && (forall j: nat {:trigger fs.inodeMap[j]} :: j < INODE_MAX && j != n && j != parent && fs.inodeMap[j] ==>
      Untouched(fs, fs', j))
  }

  /** Every inode but n and the parent is untouched, and the parent lost slot k. */
  lemma UnlinkFrame(fs: Fs, own: seq<(nat, nat)>, named: seq<(nat, nat)>, n: nat, parent: nat, k: nat)
    requires Inv(fs, own, named) && 0 < n < INODE_MAX && fs.inodeMap[n] && parent < INODE_MAX && parent != n
    requires Names(fs, parent, k) && Child(fs, parent, k) == n
    ensures var fs' := Bury(Unname(Vacated(fs, n), n, parent), n, fs.inodes[n].(kind := 0));
      Inv(fs', own, named) && !fs'.inodeMap[n] && OnlyGone(fs, fs', n, parent) && NameGone(fs, fs', n, parent, k)
  {
    hide Entry, FindChild, BlockOf, OthersUntouched, Untouched, NameGone, OnlyGone;
    var fs1 := Vacated(fs, n);
    VacatedKeeps(fs, own, named, n, parent, k);
    VacatedFrame(fs, own, named, n);
    UnlinkSteps(fs, own, named, n, parent, k);
    var fs2 := Erase(fs1, parent, k);
    hide Vacated, Inv, Names, Bury, Unname, Erase, Shaped;
    ErasedFrame(fs, fs1, own, named, n, parent, k);
    BuriedFrame(fs, fs2, n, parent, k, fs.inodes[n].(kind := 0));
  }

  lemma ErasedFrame(fs: Fs, fs1: Fs, own: seq<(nat, nat)>, named: seq<(nat, nat)>, n: nat, parent: nat, k: nat)
    requires Shaped(fs) && n < INODE_MAX && parent < INODE_MAX && parent != n
    requires Inv(fs1, own, named) && fs1.inodes[n].kind == 0 && OthersUntouched(fs, fs1, n)
             && NamesOfOthers(fs, fs1, n) && Names(fs1, parent, k)
    ensures var fs2 := Erase(fs1, parent, k);
      Shaped(fs2) && fs2.inodes[n].kind == 0 && OnlyGone(fs, fs2, n, parent) && NameGone(fs, fs2, n, parent, k)
  {
    assert k < SLOTS && fs1.inodes[parent].blocks[k / PER_BLOCK] < |fs1.data|;
    hide BlocksOwned, NamesUnique, DirsPacked, CountsRight, Names, Entry, Erase, NameGone, OthersUntouched, Untouched,
         NamesBut, NamesOfOthers, BlockOf;
    EraseFrame(fs1, own, named, parent, k);
    EraseIsLocal(fs1, own, named, parent, k);
    var fs2 := Erase(fs1, parent, k);
    GoneName(fs, fs1, fs2, n, parent, k);
    forall j: nat | j < INODE_MAX && j != n && fs.inodeMap[j]
      ensures fs2.inodeMap[j] && fs2.inodes[j] == fs.inodes[j]
      ensures j != parent ==> Untouched(fs, fs2, j)
    {
      UntouchedAt(fs, fs1, n, j);
      if j != parent {
        UntouchedAt(fs1, fs2, parent, j);
        TwoUntouched(fs, fs1, fs2, j);
      }
    }
  }

  lemma GoneName(fs: Fs, fs1: Fs, fs2: Fs, n: nat, parent: nat, k: nat)
    requires Shaped(fs) && Shaped(fs1) && Shaped(fs2) && parent < INODE_MAX && parent != n
    requires NamesOfOthers(fs, fs1, n) && NamesBut(fs1, fs2, parent, k) && !Names(fs2, parent, k)
    ensures NameGone(fs, fs2, n, parent, k)
  {
    hide Names, Entry, Shaped;
  }

  /** What is left in the inode changes nothing more. */
  lemma BuriedFrame(fs: Fs, fs2: Fs, n: nat, parent: nat, k: nat, remains: Inode)
    requires Shaped(fs) && Shaped(fs2) && n < INODE_MAX && |remains.blocks| == DIRECT && fs2.inodes[n].kind != KIND_DIR
             && parent < INODE_MAX
    requires OnlyGone(fs, fs2, n, parent) && NameGone(fs, fs2, n, parent, k)
    ensures var fs' := Bury(fs2, n, remains);
      !fs'.inodeMap[n] && OnlyGone(fs, fs', n, parent) && NameGone(fs, fs', n, parent, k)
  {
    BuryFrame(fs2, n, remains);
    var fs' := Bury(fs2, n, remains);
    assert NameGone(fs, fs', n, parent, k) by { hide Names, Entry, Bury; }
    hide Names, Bury, NameGone, BlockOf;
    forall j: nat | j < INODE_MAX && j != n && fs.inodeMap[j]
      ensures fs'.inodeMap[j] && fs'.inodes[j] == fs.inodes[j]
      ensures j != parent ==> Untouched(fs, fs', j)
    {
      assert fs2.inodeMap[j];
    }
  }

  /** Directories other than n keep their names. */
  ghost predicate NamesOfOthers(fs: Fs, fs': Fs, n: nat)
    requires Shaped(fs) && Shaped(fs')
  {
    forall m: nat, k: nat {:trigger Names(fs', m, k)} {:trigger Names(fs, m, k)} :: m < INODE_MAX && m != n ==>
      Names(fs', m, k) == Names(fs, m, k) && (Names(fs', m, k) ==> Entry(fs', m, k) == Entry(fs, m, k))
  }

  lemma VacatedFrame(fs: Fs, own: seq<(nat, nat)>, named: seq<(nat, nat)>, n: nat)
    requires Inv(fs, own, named) && 0 < n < INODE_MAX && fs.inodeMap[n]
    ensures OthersUntouched(fs, Vacated(fs, n), n) && NamesOfOthers(fs, Vacated(fs, n), n)
  {
    hide DropFrom, BlocksOwned, NamesUnique, DirsPacked, CountsRight, Entry, Names, BlockOf, OthersUntouched;
    var r := Relabel(fs, n, 0, fs.inodes[n].size);
    RelabelKeeps(fs, own, named, n, 0, fs.inodes[n].size);
    RelabelLeavesOthers(fs, n, 0, fs.inodes[n].size);
    DropFromKeeps(r, own, named, n, 0);
    UntouchedTrans(fs, r, Vacated(fs, n), n);
  }

  lemma EraseIsLocal(fs: Fs, own: seq<(nat, nat)>, named: seq<(nat, nat)>, n: nat, k: nat)
    requires Inv(fs, own, named) && n < INODE_MAX && Names(fs, n, k)
    ensures var fs' := Erase(fs, n, k);
      Shaped(fs') && OthersUntouched(fs, fs', n) && fs'.inodes == fs.inodes && fs'.inodeMap == fs.inodeMap
  {
    EraseLeavesOthers(fs, own, n, k);
  }

  lemma EraseLeavesOthers(fs: Fs, own: seq<(nat, nat)>, n: nat, k: nat)
    requires Shaped(fs) && BlocksOwned(fs, own) && n < INODE_MAX && Names(fs, n, k)
    ensures Shaped(Erase(fs, n, k)) && OthersUntouched(fs, Erase(fs, n, k), n)
  {
    hide Clear, DirentAt;
    var fs' := Erase(fs, n, k);
    forall j: nat | j < INODE_MAX && j != n && fs.inodeMap[j]
      ensures Untouched(fs, fs', j)
    {
      forall b: nat | b < DIRECT && 0 < BlockOf(fs, j, b) < TOTAL_SECTORS
        ensures fs'.data[BlockOf(fs, j, b)] == fs.data[BlockOf(fs, j, b)]
      {
        BlocksApart(fs, own, n, k / PER_BLOCK, j, b);
      }
    }
  }

  lemma BuryFrame(fs: Fs, n: nat, remains: Inode)
    requires Shaped(fs) && n < INODE_MAX && |remains.blocks| == DIRECT && fs.inodes[n].kind != KIND_DIR
    ensures var fs' := Bury(fs, n, remains);
      && Shaped(fs') && fs'.data == fs.data && SameNames(fs, fs') && !fs'.inodeMap[n]
      && (forall j: nat {:trigger fs.inodeMap[j]} :: j < INODE_MAX && j != n && fs.inodeMap[j] ==>
        fs'.inodeMap[j] && fs'.inodes[j] == fs.inodes[j])
  {
  }

  /** Unlinking a file or a directory: a path leads where it led exactly when it does not pass the inode
      unlinked, and a file it leads to reads the same. */
  lemma UnlinkLeavesOtherFiles(fs: Fs, own: seq<(nat, nat)>, named: seq<(nat, nat)>, path: Name, other: Name, max: nat)
    requires Inv(fs, own, named) && Resolve(fs, path).Some? && Resolve(fs, path).value.0 != 0
    requires Resolve(fs, other).Some?
    ensures var fs' := Unlink(fs, path).fs;
      && (Resolve(fs', other) == Resolve(fs, other) <==> !Passes(fs, PathTokens(other), Resolve(fs, path).value.0))
      && (ReadFile(fs, other, max).Some? && Resolve(fs', other) == Resolve(fs, other) ==>
          ReadFile(fs', other, max) == ReadFile(fs, other, max))
  {
    InvRoot(fs, own, named);
    hide Walk, Find, FindChild, Vacated, Unname, Bury, Inv, Untouched, Names, Entry, NameGone, ExtendsExcept, Passes,
         PathTokens;
    ResolveIsLive(fs, own, named, path);
    ResolveIsLive(fs, own, named, other);
    var (n, parent) := Resolve(fs, path).value;
    var ts := PathTokens(other);
    var k := ResolvedSlot(fs, own, named, path);
    UnlinkFrame(fs, own, named, n, parent, k);
    var fs' := Unlink(fs, path).fs;
    hide Unlink;
    UnlinkExtends(fs, own, named, fs', n, parent, k);
    if !Passes(fs, ts, n) {
      PathKept(fs, own, named, fs', n, ts);
    } else if Resolve(fs', other).Some? {
      UnlinkedCut(fs, own, named, fs', n, ts);
    }
    if ReadFile(fs, other, max).Some? && Resolve(fs', other) == Resolve(fs, other) {
      var j := Resolve(fs, other).value.0;
      SelfPasses(fs, ts);
      DirIsNoFile(fs, own, named, parent, k, j);
      assert Untouched(fs, fs', j);
      SameFileReads(fs, own, named, fs', other, max);
    }
  }

  lemma DirIsNoFile(fs: Fs, own: seq<(nat, nat)>, named: seq<(nat, nat)>, dir: nat, k: nat, j: nat)
    requires Inv(fs, own, named) && dir < INODE_MAX && Names(fs, dir, k) && j < INODE_MAX
    requires fs.inodes[j].kind == KIND_FILE
    ensures dir != j
  {
  }

  lemma UnlinkedCut(fs: Fs, own: seq<(nat, nat)>, named: seq<(nat, nat)>, fs': Fs, n: nat, ts: seq<Name>)
    requires Inv(fs, own, named) && Inv(fs', own, named) && n < INODE_MAX && !fs'.inodeMap[n]
    requires Walk(fs, 0, 0, ts).Some? && Passes(fs, ts, n) && Walk(fs', 0, 0, ts).Some?
    ensures Walk(fs', 0, 0, ts) != Walk(fs, 0, 0, ts)
  {
    hide Walk, Passes, Names, Entry, BlocksOwned, DirsPacked, CountsRight;
    forall vs: seq<Name> | Walk(fs', 0, 0, vs).Some?
      ensures Walk(fs', 0, 0, vs).value.0 != n
    {
      DeadUnreached(fs', own, named, n, vs);
    }
    PathCut(fs, own, named, fs', own, named, n, ts, ts);
  }

  lemma UnlinkExtends(fs: Fs, own: seq<(nat, nat)>, named: seq<(nat, nat)>, fs': Fs, n: nat, parent: nat, k: nat)
    requires Inv(fs, own, named) && Inv(fs', own, named) && n < INODE_MAX && parent < INODE_MAX && parent != n
    requires Names(fs, parent, k) && Child(fs, parent, k) == n
    requires OnlyGone(fs, fs', n, parent) && NameGone(fs, fs', n, parent, k)
    ensures ExtendsExcept(fs, fs', n)
  {
    forall m: nat, name: Name | m < INODE_MAX && m != n && fs.inodeMap[m] && fs.inodes[m].kind == KIND_DIR
      && Find(fs.data, fs.inodes[m], name, 0).Some?
      && Slot(fs.data, fs.inodes[m], Find(fs.data, fs.inodes[m], name, 0).value).inode != n
      ensures fs'.inodeMap[m] && fs'.inodes[m].kind == KIND_DIR
      ensures var f, f' := Find(fs.data, fs.inodes[m], name, 0), Find(fs'.data, fs'.inodes[m], name, 0);
         f' == f && Slot(fs'.data, fs'.inodes[m], f.value) == Slot(fs.data, fs.inodes[m], f.value)
    {
      if m == parent {
        ErasedDirFinds(fs, own, named, fs', own, named, n, m, k, name);
      } else {
        SameDirFinds(fs, own, named, fs', own, named, m, name);
      }
    }
  }

  /** ---- What unlink takes away ---- */

  /** A search of the directory that lost slot k. */
  lemma NameLost(fs: Fs, own: seq<(nat, nat)>, named: seq<(nat, nat)>, fs': Fs, n: nat, parent: nat, k: nat, name: Name)
    requires Inv(fs, own, named) && Inv(fs', own, named) && parent < INODE_MAX && parent != n
             && NameGone(fs, fs', n, parent, k)
    requires fs'.inodeMap[parent] && fs'.inodes[parent].kind == KIND_DIR
    ensures Find(fs'.data, fs'.inodes[parent], name, 0).None? <==>
            forall s: nat :: s != k && Names(fs, parent, s) ==> Entry(fs, parent, s).name != name
  {
    FindIsFirst(fs', own, named, parent, name, 0);
    hide Find, Names, Entry, BlocksOwned, CountsRight, DirsPacked, NamesUnique;
    forall s: nat | s != k
      ensures Names(fs', parent, s) == Names(fs, parent, s)
      ensures Names(fs', parent, s) ==> Entry(fs', parent, s) == Entry(fs, parent, s)
    {
    }
  }

  /** After unlink the path leads nowhere exactly when no other slot of its directory holds the same
      name, which mkdir allows. */
  lemma UnlinkThenResolve(fs: Fs, own: seq<(nat, nat)>, named: seq<(nat, nat)>, path: Name)
    requires Inv(fs, own, named) && Resolve(fs, path).Some? && Resolve(fs, path).value.0 != 0
    ensures var (n, parent) := Resolve(fs, path).value;
      && n < INODE_MAX && parent < INODE_MAX && Names(fs, parent, named[n].1) && Child(fs, parent, named[n].1) == n
      && (Resolve(Unlink(fs, path).fs, path).None? <==>
          forall s: nat :: s != named[n].1 && Names(fs, parent, s) ==>
            Entry(fs, parent, s).name != Entry(fs, parent, named[n].1).name)
  {
    var ts := PathTokens(path);
    var (n, parent) := Resolve(fs, path).value;
    assert ts != [];
    StepBefore(fs, own, named, ts);
    var k, last := named[n].1, ts[|ts| - 1];
    hide Inv, Names, Entry, Find, Walk;
    UnlinkedWalk(fs, own, named, ts);
  }

  lemma UnlinkedWalk(fs: Fs, own: seq<(nat, nat)>, named: seq<(nat, nat)>, ts: seq<Name>)
    requires Inv(fs, own, named) && ts != [] && Walk(fs, 0, 0, ts).Some?
    ensures var (n, parent) := Walk(fs, 0, 0, ts).value;
      && 0 < n < INODE_MAX && parent < INODE_MAX
      && var fs' := Bury(Unname(Vacated(fs, n), n, parent), n, fs.inodes[n].(kind := 0));
         Walk(fs', 0, 0, ts).None? <==>
         forall s: nat :: s != named[n].1 && Names(fs, parent, s) ==> Entry(fs, parent, s).name != ts[|ts| - 1]
  {
    assert |named| == INODE_MAX;
    hide Walk, Find, Names, Entry, Inv, Bury, Unname, Vacated, NameGone, ExtendsExcept, Untouched, OnlyGone;
    StepBefore(fs, own, named, ts);
    var (n, parent) := Walk(fs, 0, 0, ts).value;
    var fs' := Bury(Unname(Vacated(fs, n), n, parent), n, fs.inodes[n].(kind := 0));
    UnlinkFrame(fs, own, named, n, parent, named[n].1);
    OthersLive(fs, fs', n, parent, parent);
    UnlinkExtends(fs, own, named, fs', n, parent, named[n].1);
    WayStays(fs, own, named, fs', ts, |ts| - 1);
    NameLost(fs, own, named, fs', n, parent, named[n].1, ts[|ts| - 1]);
    LastStepFails(fs', ts, parent);
  }

  lemma OthersLive(fs: Fs, fs': Fs, n: nat, parent: nat, j: nat)
    requires Shaped(fs) && Shaped(fs') && OnlyGone(fs, fs', n, parent) && j < INODE_MAX && j != n && fs.inodeMap[j]
    ensures fs'.inodeMap[j] && fs'.inodes[j] == fs.inodes[j]
  {
  }

  /** ---- format, and every run ---- */

  /** spfs_format: everything cleared but the data; the sector of the root inode is written from a
      64-octet record, so inodes 1 to 7 hold whatever followed it in memory. */
  function Format(data: seq<Sector>, garbage: seq<Inode>): (fs: Fs)
    requires |data| == TOTAL_SECTORS && |garbage| == 7 && forall i :: 0 <= i < 7 ==> |garbage[i].blocks| == DIRECT
    ensures Shaped(fs)
  {
    Fs(TOTAL_BLOCKS, INODE_MAX - 1, seq(INODE_MAX, i => i == 0), seq(BMAP_BITS, i => false),
       [FreshInode(KIND_DIR, 0)] + garbage + seq(INODE_MAX - 8, i => Inode(0, 0, 0, 0, NO_BLOCKS)), data)
  }

  lemma {:induction false} CountNone(bits: seq<bool>)
    requires forall i :: 0 <= i < |bits| ==> !bits[i]
    ensures Count(bits) == 0
  {
    if bits != [] { CountNone(bits[1..]); }
  }

  lemma FormatIsConsistent(data: seq<Sector>, garbage: seq<Inode>, own: seq<(nat, nat)>, named: seq<(nat, nat)>)
    requires |data| == TOTAL_SECTORS && |garbage| == 7 && forall i :: 0 <= i < 7 ==> |garbage[i].blocks| == DIRECT
    requires |own| == BMAP_BITS && |named| == INODE_MAX
    ensures Inv(Format(data, garbage), own, named)
  {
    var fs := Format(data, garbage);
    CountNone(fs.blockMap);
    CountNone(fs.inodeMap[1..]);
    assert fs.inodes[0] == FreshInode(KIND_DIR, 0);
  }

  /** A formatted volume: everything is free but the root, which names nothing, and only paths without a component
      lead anywhere. */
  lemma FormatMakes(data: seq<Sector>, garbage: seq<Inode>, path: Name)
    requires |data| == TOTAL_SECTORS && |garbage| == 7 && forall i :: 0 <= i < 7 ==> |garbage[i].blocks| == DIRECT
    ensures var fs := Format(data, garbage);
      && fs.freeBlocks == 65437 && fs.freeInodes == 255 && |fs.blockMap| == 4096 && |fs.inodeMap| == 256
      && (forall i :: 0 <= i < 4096 ==> !fs.blockMap[i]) && (forall n :: 0 <= n < 256 ==> fs.inodeMap[n] == (n == 0))
      && fs.inodes[0] == Inode(2, 1, 0, 0, [0, 0, 0, 0, 0, 0, 0, 0, 0, 0])
      && (forall n :: 8 <= n < 256 ==> fs.inodes[n] == Inode(0, 0, 0, 0, [0, 0, 0, 0, 0, 0, 0, 0, 0, 0]))
      && Resolve(fs, path) == if PathTokens(path) == [] then Some((0, 0)) else None
  {
    hide PathTokens;
  }

  /** A write over a directory puts its octets in the place of the entries: one octet written to the root of a
      new volume names a dead inode. */
  lemma WriteOverRootBreaks(data: seq<Sector>, garbage: seq<Inode>, now: nat)
    requires |data| == TOTAL_SECTORS && |garbage| == 7 && forall i :: 0 <= i < 7 ==> |garbage[i].blocks| == DIRECT
    ensures var r := WriteFile(Format(data, garbage), [], [9], now);
      r.ret == 1 && !Consistent(r.fs)
  {
    var fs := Format(data, garbage);
    assert PathTokens([]) == [] && ParentPath([]) == [];
    BareRoot(data, garbage);
    hide Format;
    var fs1 := Relabel(fs, 0, KIND_DIR, 1);
    OneOctet(fs1, 0, 9);
    hide AppendFrom, DropFrom;
    BadRoot(WriteFile(fs, [], [9], now).fs);
  }

  lemma BareRoot(data: seq<Sector>, garbage: seq<Inode>)
    requires |data| == TOTAL_SECTORS && |garbage| == 7 && forall i :: 0 <= i < 7 ==> |garbage[i].blocks| == DIRECT
    ensures var fs := Format(data, garbage);
      && fs.inodes[0] == FreshInode(KIND_DIR, 0) && DropFrom(fs, 0, 0) == fs && !fs.blockMap[0] && fs.freeBlocks > 0
      && fs.inodeMap[0] && !fs.inodeMap[9] && Relabel(fs, 0, KIND_DIR, 0) == fs
  {
    hide DropFrom;
    DropBare(Format(data, garbage), 0, 0);
  }

  lemma {:induction false} DropBare(fs: Fs, n: nat, k: nat)
    requires Shaped(fs) && n < INODE_MAX && k <= DIRECT && fs.inodes[n].blocks == NO_BLOCKS
    ensures DropFrom(fs, n, k) == fs
    decreases DIRECT - k
  {
    if k < DIRECT { DropBare(fs, n, k + 1); }
  }

  /** One octet written to an inode without blocks. */
  lemma OneOctet(fs: Fs, n: nat, x: byte)
    requires Shaped(fs) && n < INODE_MAX && !fs.blockMap[0] && fs.freeBlocks > 0
    ensures AppendFrom(fs, n, 0, [x]) == (Attach(fs, n, 0, 0, [x] + Zeros(511)), 1)
  {
  }

  /** A directory that names a dead inode. */
  lemma BadRoot(fs: Fs)
    requires Shaped(fs) && fs.inodeMap[0] && fs.inodes[0].kind == KIND_DIR && fs.inodes[0].blocks[0] == DATA_START
    requires fs.data[DATA_START] == [9] + Zeros(511) && !fs.inodeMap[9]
    ensures !Consistent(fs)
  {
    var s := fs.data[DATA_START];
    assert s[0..4] == [9, 0, 0, 0];
    assert Slot(fs.data, fs.inodes[0], 0).inode == 9 by {
      hide Le, CString;
      SmallWord(9);
    }
    assert Names(fs, 0, 0) && Child(fs, 0, 0) == 9;
    hide Consistent, DirentAt;
    if Consistent(fs) { ConsistencyMeans(fs); }
  }

  datatype Op = WriteOp(path: Name, buf: seq<byte>, now: nat) | MakeDirOp(path: Name, now: nat) | UnlinkOp(path: Name)

  function Do(fs: Fs, op: Op): (r: Outcome)
    requires Shaped(fs)
  {
    match op
    case WriteOp(path, buf, now) => WriteFile(fs, path, buf, now)
    case MakeDirOp(path, now) => MakeDir(fs, path, now)
    case UnlinkOp(path) => Unlink(fs, path)
  }

  /** What each operation expects of its caller. */
  ghost predicate Allowed(fs: Fs, op: Op)
    requires Shaped(fs)
  {
    match op
    case WriteOp(path, _, _) => Writable(fs, path)
    case MakeDirOp(path, _) => Makeable(fs, path)
    case UnlinkOp(path) => Resolve(fs, path).Some? ==> Resolve(fs, path).value.0 != 0
  }

  lemma DoKeeps(fs: Fs, own: seq<(nat, nat)>, named: seq<(nat, nat)>, op: Op)
        returns (own': seq<(nat, nat)>, named': seq<(nat, nat)>)
    requires Inv(fs, own, named) && Allowed(fs, op)
    ensures Inv(Do(fs, op).fs, own', named')
    ensures Do(fs, op).ret < 0 ==> Do(fs, op).fs == fs
  {
    own', named' := own, named;
    hide Inv, WriteFile, MakeDir, Unlink, Writable, Makeable, Linked, Target, Stores;
    match op
    case WriteOp(path, buf, now) => own', named' := WriteKeeps(fs, own, named, path, buf, now);
    case MakeDirOp(path, now) => own', named' := MakeDirKeeps(fs, own, named, path, now);
    case UnlinkOp(path) => UnlinkKeeps(fs, own, named, path);
  }

  /** A run: each operation allowed in the state it meets. */
  ghost predicate RunTo(fs: Fs, ops: seq<Op>, fs': Fs)
    decreases |ops|
  {
    if ops == [] then fs' == fs
    else Shaped(fs) && Allowed(fs, ops[0]) && RunTo(Do(fs, ops[0]).fs, ops[1..], fs')
  }

  /** Consistency over every run of write, mkdir and unlink. */
  lemma {:induction false} RunKeeps(fs: Fs, ops: seq<Op>, fs': Fs)
    requires Consistent(fs) && RunTo(fs, ops, fs')
    ensures Consistent(fs')
    decreases |ops|
  {
    if ops != [] {
      hide Inv, Allowed, Do;
      var own, named :| Inv(fs, own, named);
      var own', named' := DoKeeps(fs, own, named, ops[0]);
      assert Consistent(Do(fs, ops[0]).fs);
      RunKeeps(Do(fs, ops[0]).fs, ops[1..], fs');
    }
  }

  /** Every state reached from a format. */
  lemma FormattedRunsAreConsistent(data: seq<Sector>, garbage: seq<Inode>, ops: seq<Op>, fs': Fs)
    requires |data| == TOTAL_SECTORS && |garbage| == 7 && forall i :: 0 <= i < 7 ==> |garbage[i].blocks| == DIRECT
    requires RunTo(Format(data, garbage), ops, fs')
    ensures Consistent(fs')
  {
    FormatIsConsistent(data, garbage, seq(BMAP_BITS, i => (0, 0)), seq(INODE_MAX, i => (0, 0)));
    hide Inv, Format, RunTo;
    RunKeeps(Format(data, garbage), ops, fs');
  }

  /** What consistency says without its witnesses: a block bit is set exactly when a slot of a live
      inode holds that block, no two slots hold the same one, every name in a live directory names
      a live inode other than the root and fits its entry, no inode has two names, and the free counters are exact. */
  lemma ConsistencyMeans(fs: Fs)
    requires Consistent(fs)
    ensures Shaped(fs)
    ensures forall i: nat {:trigger fs.blockMap[i]} :: i < BMAP_BITS ==>
              (fs.blockMap[i] <==> exists n: nat, k: nat ::
                  n < INODE_MAX && fs.inodeMap[n] && k < DIRECT && BlockOf(fs, n, k) == DATA_START + i)
    ensures forall n: nat, k: nat, m: nat, j: nat {:trigger BlockOf(fs, n, k), BlockOf(fs, m, j)} ::
              n < INODE_MAX && m < INODE_MAX && fs.inodeMap[n] && fs.inodeMap[m] && k < DIRECT && j < DIRECT ==>
              BlockOf(fs, n, k) == BlockOf(fs, m, j) != 0 ==> (n, k) == (m, j)
    ensures forall n: nat, k: nat {:trigger Names(fs, n, k)} :: n < INODE_MAX && Names(fs, n, k) ==>
              0 < Child(fs, n, k) < INODE_MAX && fs.inodeMap[Child(fs, n, k)] && |Entry(fs, n, k).name| <= NAME_MAX
    ensures forall n: nat, k: nat, m: nat, j: nat {:trigger Names(fs, n, k), Names(fs, m, j)} ::
              n < INODE_MAX && m < INODE_MAX && Names(fs, n, k) && Names(fs, m, j) ==>
              Child(fs, n, k) == Child(fs, m, j) ==> (n, k) == (m, j)
    ensures fs.freeBlocks == TOTAL_BLOCKS - Count(fs.blockMap) && fs.freeInodes == INODE_MAX - Count(fs.inodeMap)
  {
    var own: seq<(nat, nat)>, named: seq<(nat, nat)> :| Inv(fs, own, named);
    BlocksMean(fs, own);
    hide BlockOf, Names, Entry, BlocksOwned, DirsPacked;
  }

  lemma BlocksMean(fs: Fs, own: seq<(nat, nat)>)
    requires Shaped(fs) && BlocksOwned(fs, own)
    ensures forall i: nat {:trigger fs.blockMap[i]} :: i < BMAP_BITS ==>
              (fs.blockMap[i] <==> exists n: nat, k: nat ::
                  n < INODE_MAX && fs.inodeMap[n] && k < DIRECT && BlockOf(fs, n, k) == DATA_START + i)
    ensures forall n: nat, k: nat, m: nat, j: nat {:trigger BlockOf(fs, n, k), BlockOf(fs, m, j)} ::
              n < INODE_MAX && m < INODE_MAX && fs.inodeMap[n] && fs.inodeMap[m] && k < DIRECT && j < DIRECT ==>
              BlockOf(fs, n, k) == BlockOf(fs, m, j) != 0 ==> (n, k) == (m, j)
  {
    hide BlockOf;
    forall i: nat | i < BMAP_BITS
      ensures fs.blockMap[i] <==> exists n: nat, k: nat ::
                n < INODE_MAX && fs.inodeMap[n] && k < DIRECT && BlockOf(fs, n, k) == DATA_START + i
    {
      OneBlockMeans(fs, own, i);
    }
    forall n: nat, k: nat, m: nat, j: nat | n < INODE_MAX && m < INODE_MAX && fs.inodeMap[n] && fs.inodeMap[m]
      && k < DIRECT && j < DIRECT
      ensures BlockOf(fs, n, k) == BlockOf(fs, m, j) != 0 ==> (n, k) == (m, j)
    {
      if (n, k) != (m, j) && BlockOf(fs, n, k) != 0 { BlocksApart(fs, own, n, k, m, j); }
    }
  }

  lemma OneBlockMeans(fs: Fs, own: seq<(nat, nat)>, i: nat)
    requires Shaped(fs) && BlocksOwned(fs, own) && i < BMAP_BITS
    ensures fs.blockMap[i] <==> exists n: nat, k: nat ::
              n < INODE_MAX && fs.inodeMap[n] && k < DIRECT && BlockOf(fs, n, k) == DATA_START + i
  {
    hide BlockOf;
    if fs.blockMap[i] {
      assert BlockOf(fs, own[i].0, own[i].1) == DATA_START + i;
    }
  }
}
