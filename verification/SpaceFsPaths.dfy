/** Paths of SpaceFS: how they are split, how a directory is searched, where a path leads, and when two
    states of the file system agree on that. */
module SpaceFsPaths {
  import opened Wrappers
  import opened Bytes
  import opened Disk
  import opened Dirents
  import opened SpaceFsState

  const SLASH: byte := 47
  const PATH_MAX: nat := 127

  /** ---- Paths ---- */

  /** The octets before the first slash. */
  function Head(p: Name): (h: Name)
    ensures |h| <= |p| && h == p[..|h|]
    ensures forall i :: 0 <= i < |h| ==> h[i] != SLASH
    ensures |h| < |p| ==> p[|h|] == SLASH
    ensures p != [] && p[0] != SLASH ==> h != []
  {
    if p == [] || p[0] == SLASH then [] else [p[0]] + Head(p[1..])
  }

  /** The non-empty components between slashes. */
  function Tokens(p: Name): (ts: seq<Name>)
    decreases |p|
  {
    if p == [] then []
    else if p[0] == SLASH then Tokens(p[1..])
    else [Head(p)] + Tokens(p[|Head(p)|..])
  }

  /** path_find drops one leading slash and copies at most 127 octets. */
  function PathTokens(p: Name): (ts: seq<Name>)
  {
    var q := if p != [] && p[0] == SLASH then p[1..] else p;
    Tokens(if |q| <= PATH_MAX then q else q[..PATH_MAX])
  }

  /** One past the last slash, zero if there is none. */
  function AfterSlash(p: Name): (i: nat)
    ensures i <= |p|
    ensures i > 0 ==> p[i - 1] == SLASH
    ensures forall j :: i <= j < |p| ==> p[j] != SLASH
  {
    if p == [] then 0 else if p[|p| - 1] == SLASH then |p| else AfterSlash(p[..|p| - 1])
  }

  /** path_split: what precedes the last slash, and what follows it. */
  function ParentPath(p: Name): (q: Name) { if AfterSlash(p) == 0 then [] else p[..AfterSlash(p) - 1] }

  function BaseName(p: Name): (q: Name)
    ensures forall j :: 0 <= j < |q| ==> q[j] != SLASH
  {
    p[AfterSlash(p)..]
  }

  lemma {:induction false} TokensConcat(a: Name, b: Name)
    ensures Tokens(a + [SLASH] + b) == Tokens(a) + Tokens(b)
    decreases |a|
  {
    var p := a + [SLASH] + b;
    if a == [] {
      assert p[1..] == b;
    } else if a[0] == SLASH {
      assert p[1..] == a[1..] + [SLASH] + b;
      TokensConcat(a[1..], b);
    } else {
      HeadConcat(a, b);
      var h := Head(a);
      assert p[|h|..] == a[|h|..] + [SLASH] + b;
      TokensConcat(a[|h|..], b);
    }
  }

  lemma {:induction false} HeadConcat(a: Name, b: Name)
    ensures Head(a + [SLASH] + b) == Head(a)
  {
    if a != [] && a[0] != SLASH {
      assert (a + [SLASH] + b)[1..] == a[1..] + [SLASH] + b;
      HeadConcat(a[1..], b);
    }
  }

  lemma {:induction false} HeadWhole(n: Name)
    requires forall j :: 0 <= j < |n| ==> n[j] != SLASH
    ensures Head(n) == n
  {
    if n != [] { HeadWhole(n[1..]); }
  }

  lemma TokensOfName(n: Name)
    requires forall j :: 0 <= j < |n| ==> n[j] != SLASH
    ensures Tokens(n) == if n == [] then [] else [n]
  {
    HeadWhole(n);
    if n != [] {
      assert n[|Head(n)|..] == [];
      assert Tokens([]) == [];
    }
  }

  lemma {:induction false} TokensFilled(p: Name)
    ensures forall i :: 0 <= i < |Tokens(p)| ==> Tokens(p)[i] != []
    decreases |p|
  {
    if p != [] {
      if p[0] == SLASH { TokensFilled(p[1..]); } else { TokensFilled(p[|Head(p)|..]); }
    }
  }

  /** Cutting a path behind its last slash leaves the slash where it is. */
  lemma {:induction false} AfterSlashOfPrefix(p: Name, m: nat)
    requires AfterSlash(p) <= m <= |p|
    ensures AfterSlash(p[..m]) == AfterSlash(p)
    decreases |p|
  {
    if m < |p| {
      assert p[|p| - 1] != SLASH;
      AfterSlashOfPrefix(p[..|p| - 1], m);
      assert p[..|p| - 1][..m] == p[..m];
    } else {
      assert p[..m] == p;
    }
  }

  /** A path with its last component cut. */
  lemma CutSplit(p: Name, m: nat) returns (q: Name)
    requires m <= |BaseName(p)|
    ensures |q| <= |p| && BaseName(q) == BaseName(p)[..m] && ParentPath(q) == ParentPath(p)
  {
    q := p[..AfterSlash(p) + m];
    AfterSlashOfPrefix(p, AfterSlash(p) + m);
    hide AfterSlash;
    assert BaseName(q) == BaseName(p)[..m];
  }

  lemma PathTokensFilled(p: Name)
    ensures forall i :: 0 <= i < |PathTokens(p)| ==> PathTokens(p)[i] != []
  {
    hide Tokens;
    var q := if p != [] && p[0] == SLASH then p[1..] else p;
    TokensFilled(if |q| <= PATH_MAX then q else q[..PATH_MAX]);
  }

  /** Splitting a path splits its components. */
  lemma SplitTokens(p: Name)
    ensures Tokens(p) == Tokens(ParentPath(p)) + (if BaseName(p) == [] then [] else [BaseName(p)])
  {
    hide Tokens, Head, AfterSlash;
    var i, b := AfterSlash(p), BaseName(p);
    TokensOfName(b);
    TokensOfName([]);
    if i == 0 {
      assert p == b;
    } else {
      assert p == ParentPath(p) + [SLASH] + b;
      TokensConcat(ParentPath(p), b);
    }
  }

  lemma LongPath(a: Name)
    requires |a| > 127
    ensures a[0] != 47 ==> PathTokens(a) == Tokens(a[..127])
    ensures |a| > 128 && a[0] == 47 ==> PathTokens(a) == Tokens(a[1..128])
  {
    hide Tokens;
    if |a| > 128 { assert a[1..][..127] == a[1..128]; }
  }

  /** What components are: octet 47 separates, and what holds none of it is one component, or none if it is empty.
      A path is cut behind 127 octets, a leading separator not counted. */
  lemma TokensAre(a: Name, b: Name, n: Name)
    requires forall j :: 0 <= j < |n| ==> n[j] != 47
    ensures Tokens(a + [47] + b) == Tokens(a) + Tokens(b)
    ensures Tokens(n) == if n == [] then [] else [n]
    ensures |a| > 127 && a[0] != 47 ==> PathTokens(a) == Tokens(a[..127])
    ensures |a| > 128 && a[0] == 47 ==> PathTokens(a) == Tokens(a[1..128])
  {
    hide Tokens;
    TokensConcat(a, b);
    TokensOfName(n);
    if |a| > 127 { LongPath(a); }
  }

  /** Within the 127 octets a leading slash makes no difference. */
  lemma ShortPath(p: Name)
    requires |p| <= PATH_MAX
    ensures PathTokens(p) == Tokens(p)
  {
  }

  /** ---- Directory search ---- */

  /** The search of path_find from slot k: it stops at size / 32 entries, at a missing block, or at
      a block beyond the disk. */
  function Find(data: seq<Sector>, ino: Inode, name: Name, k: nat): (r: Option<nat>)
    requires |ino.blocks| == DIRECT
    ensures r.Some? ==> k <= r.value < SLOTS && HasSlot(ino, r.value) && ino.blocks[r.value / PER_BLOCK] < |data|
    decreases SLOTS - k
  {
    if k >= SLOTS || k >= ino.size / 32 || ino.blocks[k / PER_BLOCK] == 0
      || ino.blocks[k / PER_BLOCK] >= |data| then None
    else
      var e := Slot(data, ino, k);
      if e.inode != 0 && e.name == name then Some(k) else Find(data, ino, name, k + 1)
  }

  /** In a consistent file system the bounds of the search miss nothing: it finds the first slot with
      the name, and fails only when no slot has it. */
  lemma {:induction false} FindIsFirst(fs: Fs, own: seq<(nat, nat)>, named: seq<(nat, nat)>, n: nat, name: Name, k: nat)
    requires Inv(fs, own, named) && n < INODE_MAX && fs.inodeMap[n] && fs.inodes[n].kind == KIND_DIR
    requires k <= SLOTS
    ensures match Find(fs.data, fs.inodes[n], name, k)
            case Some(j) => Names(fs, n, j) && Entry(fs, n, j).name == name
                            && forall i: nat :: k <= i < j && Names(fs, n, i) ==> Entry(fs, n, i).name != name
            case None => forall i: nat :: k <= i && Names(fs, n, i) ==> Entry(fs, n, i).name != name
    decreases SLOTS - k
  {
    hide DirentAt, BlocksOwned, NamesUnique, CountsRight;
    var ino := fs.inodes[n];
    if k >= SLOTS || k >= ino.size / 32 {
    } else if ino.blocks[k / PER_BLOCK] == 0 {
      assert BlockOf(fs, n, k / PER_BLOCK) == 0;
      forall i: nat | k <= i
        ensures !Names(fs, n, i)
      {
        assert i < SLOTS ==> BlockOf(fs, n, i / PER_BLOCK) == 0;
      }
    } else {
      BlockInRange(fs, own, n, k / PER_BLOCK);
      FindIsFirst(fs, own, named, n, name, k + 1);
    }
  }

  lemma BlockInRange(fs: Fs, own: seq<(nat, nat)>, n: nat, b: nat)
    requires Shaped(fs) && BlocksOwned(fs, own) && n < INODE_MAX && fs.inodeMap[n] && b < DIRECT
    ensures BlockOf(fs, n, b) == 0 || DATA_START <= BlockOf(fs, n, b) < DATA_START + BMAP_BITS
  {
  }

  /** path_find: follow the components from directory cur. The result is the inode reached and the
      directory it was found in. */
  function Walk(fs: Fs, cur: nat, parent: nat, ts: seq<Name>): (r: Option<(nat, nat)>)
    decreases |ts|
  {
    if ts == [] then Some((cur, parent))
    else if cur >= |fs.inodes| || |fs.inodes[cur].blocks| != DIRECT || fs.inodes[cur].kind != KIND_DIR then None
    else
      match Find(fs.data, fs.inodes[cur], ts[0], 0)
      case None => None
      case Some(k) => Walk(fs, Slot(fs.data, fs.inodes[cur], k).inode, cur, ts[1..])
  }

  function Resolve(fs: Fs, path: Name): (r: Option<(nat, nat)>)
  {
    Walk(fs, 0, 0, PathTokens(path))
  }

  /** Every path resolves to a live inode, found in a live directory. */
  lemma {:induction false} WalkIsLive(fs: Fs, own: seq<(nat, nat)>, named: seq<(nat, nat)>, cur: nat, parent: nat,
        ts: seq<Name>)
    requires Inv(fs, own, named) && cur < INODE_MAX && fs.inodeMap[cur]
    requires parent < INODE_MAX && fs.inodeMap[parent]
    ensures var r := Walk(fs, cur, parent, ts);
      r.Some? ==> r.value.0 < INODE_MAX && fs.inodeMap[r.value.0] && r.value.1 < INODE_MAX && fs.inodeMap[r.value.1]
                  && (ts != [] ==> fs.inodes[r.value.1].kind == KIND_DIR
                                   && Find(fs.data, fs.inodes[r.value.1], ts[|ts| - 1], 0).Some?
                                   && named[r.value.0] == (r.value.1,
                                     Find(fs.data, fs.inodes[r.value.1], ts[|ts| - 1], 0).value))
    decreases |ts|
  {
    hide DirentAt, BlocksOwned, CountsRight, DirsPacked;
    if ts != [] && fs.inodes[cur].kind == KIND_DIR {
      FindIsFirst(fs, own, named, cur, ts[0], 0);
      var f := Find(fs.data, fs.inodes[cur], ts[0], 0);
      if f.Some? {
        assert Child(fs, cur, f.value) == Slot(fs.data, fs.inodes[cur], f.value).inode;
        WalkIsLive(fs, own, named, Child(fs, cur, f.value), cur, ts[1..]);
      }
    }
  }

  /** Resolving in two stages is resolving the whole. */
  lemma {:induction false} WalkConcat(fs: Fs, cur: nat, parent: nat, ts: seq<Name>, us: seq<Name>)
    ensures var r := Walk(fs, cur, parent, ts);
      Walk(fs, cur, parent, ts + us) == if r.None? then None else Walk(fs, r.value.0, r.value.1, us)
    decreases |ts|
  {
    hide Find, Slot;
    if ts == [] {
      assert ts + us == us;
    } else {
      assert (ts + us)[1..] == ts[1..] + us;
      if cur < |fs.inodes| && |fs.inodes[cur].blocks| == DIRECT && fs.inodes[cur].kind == KIND_DIR {
        var f := Find(fs.data, fs.inodes[cur], ts[0], 0);
        if f.Some? && HasSlot(fs.inodes[cur], f.value) && fs.inodes[cur].blocks[f.value / PER_BLOCK] < |fs.data| {
          WalkConcat(fs, Slot(fs.data, fs.inodes[cur], f.value).inode, cur, ts[1..], us);
        }
      }
    }
  }

  /** ---- Parents ---- */

  /** Where a new entry for path goes: the root when path_split leaves no parent. */
  function ParentOf(fs: Fs, path: Name): (p: Option<nat>)
  {
    if ParentPath(path) == [] then Some(0)
    else match Resolve(fs, ParentPath(path)) case None => None case Some((n, _)) => Some(n)
  }

  lemma InvRoot(fs: Fs, own: seq<(nat, nat)>, named: seq<(nat, nat)>)
    requires Inv(fs, own, named)
    ensures Shaped(fs) && fs.inodeMap[0] && fs.inodes[0].kind == KIND_DIR
  {
  }

  lemma ResolveIsLive(fs: Fs, own: seq<(nat, nat)>, named: seq<(nat, nat)>, path: Name)
    requires Inv(fs, own, named)
    ensures Resolve(fs, path).Some? ==> Resolve(fs, path).value.0 < INODE_MAX && fs.inodeMap[Resolve(fs, path).value.0]
    ensures ParentOf(fs, path).Some? ==> ParentOf(fs, path).value < INODE_MAX && fs.inodeMap[ParentOf(fs, path).value]
  {
    WalkIsLive(fs, own, named, 0, 0, PathTokens(path));
    WalkIsLive(fs, own, named, 0, 0, PathTokens(ParentPath(path)));
  }

  /** A path whose parent resolves resolves to what the parent directory has under the last component. */
  lemma ResolveByParent(fs: Fs, path: Name)
    requires |path| <= PATH_MAX && ParentOf(fs, path).Some?
    ensures BaseName(path) == [] ==> Resolve(fs, path).Some?
    ensures var dir := ParentOf(fs, path).value;
      BaseName(path) != [] && dir < |fs.inodes| && fs.inodes[dir].kind != KIND_DIR ==> Resolve(fs, path).None?
    ensures var dir := ParentOf(fs, path).value;
      BaseName(path) != [] && dir < |fs.inodes| && |fs.inodes[dir].blocks| == DIRECT
        && fs.inodes[dir].kind == KIND_DIR ==>
        var f := Find(fs.data, fs.inodes[dir], BaseName(path), 0);
        Resolve(fs, path) == if f.None? then None else Some((Slot(fs.data, fs.inodes[dir], f.value).inode, dir))
  {
    hide Find, Slot, Head;
    var pp, b := ParentPath(path), BaseName(path);
    ShortPath(path);
    ShortPath(pp);
    SplitTokens(path);
    var us: seq<Name> := if b == [] then [] else [b];
    WalkConcat(fs, 0, 0, Tokens(pp), us);
    if b != [] { assert us[1..] == []; }
  }

  /** ---- Two states that agree on searches ---- */

  /** Whatever a search of fs finds, the same search of fs' finds in the same slot. */
  ghost predicate Extends(fs: Fs, fs': Fs)
    requires Shaped(fs) && Shaped(fs')
  {
    forall m: nat, name: Name {:trigger Find(fs.data, fs.inodes[m], name, 0)} ::
      m < INODE_MAX && fs.inodeMap[m] && fs.inodes[m].kind == KIND_DIR && Find(fs.data, fs.inodes[m], name, 0).Some? ==>
      && fs'.inodeMap[m] && fs'.inodes[m].kind == KIND_DIR
      && var f, f' := Find(fs.data, fs.inodes[m], name, 0), Find(fs'.data, fs'.inodes[m], name, 0);
         f' == f && Slot(fs'.data, fs'.inodes[m], f.value) == Slot(fs.data, fs.inodes[m], f.value)
  }

  lemma {:induction false} WalkExtends(fs: Fs, own: seq<(nat, nat)>, named: seq<(nat, nat)>, fs': Fs, cur: nat,
        parent: nat, ts: seq<Name>)
    requires Inv(fs, own, named) && Shaped(fs') && Extends(fs, fs') && cur < INODE_MAX && fs.inodeMap[cur]
    ensures Walk(fs, cur, parent, ts).Some? ==> Walk(fs', cur, parent, ts) == Walk(fs, cur, parent, ts)
    decreases |ts|
  {
    hide DirentAt, BlocksOwned, CountsRight, DirsPacked;
    if ts != [] && fs.inodes[cur].kind == KIND_DIR {
      FindIsFirst(fs, own, named, cur, ts[0], 0);
      var f := Find(fs.data, fs.inodes[cur], ts[0], 0);
      if f.Some? {
        var c := Slot(fs.data, fs.inodes[cur], f.value).inode;
        assert c == Child(fs, cur, f.value);
        WalkExtends(fs, own, named, fs', c, cur, ts[1..]);
      }
    }
  }

  /** Whatever a path led to, it still does. */
  lemma FinishPath(fs: Fs, own: seq<(nat, nat)>, named: seq<(nat, nat)>, fs': Fs, path: Name)
    requires Inv(fs, own, named) && Shaped(fs') && Extends(fs, fs')
    ensures Resolve(fs, path).Some? ==> Resolve(fs', path) == Resolve(fs, path)
  {
    WalkExtends(fs, own, named, fs', 0, 0, PathTokens(path));
  }

  /** Any search that did not end at inode n still ends where it did. */
  ghost predicate ExtendsExcept(fs: Fs, fs': Fs, n: nat)
    requires Shaped(fs) && Shaped(fs')
  {
    forall m: nat, name: Name {:trigger Find(fs.data, fs.inodes[m], name, 0)} ::
      m < INODE_MAX && m != n && fs.inodeMap[m] && fs.inodes[m].kind == KIND_DIR
        && Find(fs.data, fs.inodes[m], name, 0).Some?
      && Slot(fs.data, fs.inodes[m], Find(fs.data, fs.inodes[m], name, 0).value).inode != n ==>
      && fs'.inodeMap[m] && fs'.inodes[m].kind == KIND_DIR
      && var f, f' := Find(fs.data, fs.inodes[m], name, 0), Find(fs'.data, fs'.inodes[m], name, 0);
         f' == f && Slot(fs'.data, fs'.inodes[m], f.value) == Slot(fs.data, fs.inodes[m], f.value)
  }

  /** ---- The one way to an inode ---- */

  lemma PrefixWalks(fs: Fs, ts: seq<Name>, j: nat)
    requires Walk(fs, 0, 0, ts).Some? && j <= |ts|
    ensures Walk(fs, 0, 0, ts[..j]).Some?
  {
    assert ts == ts[..j] + ts[j..];
    WalkConcat(fs, 0, 0, ts[..j], ts[j..]);
  }

  lemma LastSplit(ts: seq<Name>)
    requires ts != []
    ensures ts == ts[..|ts| - 1] + [ts[|ts| - 1]]
  {
  }

  /** A walk of one component. */
  lemma WalkOne(fs: Fs, cur: nat, parent: nat, name: Name)
    requires Shaped(fs)
    ensures Walk(fs, cur, parent, [name]) ==
            if cur >= INODE_MAX || fs.inodes[cur].kind != KIND_DIR
              || Find(fs.data, fs.inodes[cur], name, 0).None? then None
            else Some((Slot(fs.data, fs.inodes[cur], Find(fs.data, fs.inodes[cur], name, 0).value).inode, cur))
  {
    hide Find, Slot;
    assert [name][1..] == [];
  }

  /** A walk ends with a search of the directory reached before. */
  lemma LastStepIs(fs: Fs, ts: seq<Name>)
    requires Shaped(fs) && ts != [] && Walk(fs, 0, 0, ts[..|ts| - 1]).Some? && Walk(fs, 0, 0, ts).Some?
    ensures var (cur, _), (n, parent) := Walk(fs, 0, 0, ts[..|ts| - 1]).value, Walk(fs, 0, 0, ts).value;
      && parent == cur < INODE_MAX && Find(fs.data, fs.inodes[cur], ts[|ts| - 1], 0).Some?
      && n == Slot(fs.data, fs.inodes[cur], Find(fs.data, fs.inodes[cur], ts[|ts| - 1], 0).value).inode
  {
    hide Find, Slot, Walk;
    LastSplit(ts);
    WalkConcat(fs, 0, 0, ts[..|ts| - 1], [ts[|ts| - 1]]);
    var (cur, parent) := Walk(fs, 0, 0, ts[..|ts| - 1]).value;
    WalkOne(fs, cur, parent, ts[|ts| - 1]);
  }

  lemma LastStepFails(fs: Fs, ts: seq<Name>, cur: nat)
    requires Shaped(fs) && ts != [] && Walk(fs, 0, 0, ts[..|ts| - 1]).Some?
             && Walk(fs, 0, 0, ts[..|ts| - 1]).value.0 == cur
    requires cur < INODE_MAX && fs.inodes[cur].kind == KIND_DIR
    ensures Walk(fs, 0, 0, ts).None? <==> Find(fs.data, fs.inodes[cur], ts[|ts| - 1], 0).None?
  {
    hide Find, Slot, Walk;
    LastSplit(ts);
    WalkConcat(fs, 0, 0, ts[..|ts| - 1], [ts[|ts| - 1]]);
    WalkOne(fs, cur, Walk(fs, 0, 0, ts[..|ts| - 1]).value.1, ts[|ts| - 1]);
  }

  /** What a search finds is a name of the directory. */
  lemma FoundName(fs: Fs, own: seq<(nat, nat)>, named: seq<(nat, nat)>, cur: nat, name: Name)
    requires Inv(fs, own, named) && cur < INODE_MAX && fs.inodeMap[cur] && fs.inodes[cur].kind == KIND_DIR
    requires Find(fs.data, fs.inodes[cur], name, 0).Some?
    ensures var k := Find(fs.data, fs.inodes[cur], name, 0).value;
      && Names(fs, cur, k) && Entry(fs, cur, k).name == name
        && Slot(fs.data, fs.inodes[cur], k).inode == Child(fs, cur, k)
      && 0 < Child(fs, cur, k) < INODE_MAX && Child(fs, cur, k) != cur
  {
    FindIsFirst(fs, own, named, cur, name, 0);
    hide Find, DirentAt, BlocksOwned, CountsRight, DirsPacked;
  }

  /** The last step of a walk: from the directory that names the inode reached. */
  lemma StepBefore(fs: Fs, own: seq<(nat, nat)>, named: seq<(nat, nat)>, ts: seq<Name>)
    requires Inv(fs, own, named) && ts != [] && Walk(fs, 0, 0, ts).Some?
    ensures Walk(fs, 0, 0, ts[..|ts| - 1]).Some?
    ensures var (n, parent) := Walk(fs, 0, 0, ts).value;
      && Walk(fs, 0, 0, ts[..|ts| - 1]).value.0 == parent < INODE_MAX && 0 < n < INODE_MAX && n != parent
      && fs.inodeMap[parent] && fs.inodes[parent].kind == KIND_DIR
      && named[n].0 == parent && Names(fs, parent, named[n].1) && Child(fs, parent, named[n].1) == n
      && Find(fs.data, fs.inodes[parent], ts[|ts| - 1], 0) == Some(named[n].1)
      && Entry(fs, parent, named[n].1).name == ts[|ts| - 1]
  {
    hide Walk, Find, Names, Entry, Slot, HasSlot, BlocksOwned, CountsRight, DirsPacked, NamesUnique;
    var most, last := ts[..|ts| - 1], ts[|ts| - 1];
    PrefixWalks(fs, ts, |ts| - 1);
    WalkIsLive(fs, own, named, 0, 0, most);
    WalkIsLive(fs, own, named, 0, 0, ts);
    LastStepIs(fs, ts);
    FoundName(fs, own, named, Walk(fs, 0, 0, ts).value.1, last);
  }

  /** Two walks from the root to the same inode are equally long: every inode but the root is named
      once, the root never. */
  lemma {:induction false} OneWay(fs: Fs, own: seq<(nat, nat)>, named: seq<(nat, nat)>, ts: seq<Name>, us: seq<Name>)
    requires Inv(fs, own, named) && Walk(fs, 0, 0, ts).Some? && Walk(fs, 0, 0, us).Some?
    requires Walk(fs, 0, 0, ts).value.0 == Walk(fs, 0, 0, us).value.0
    ensures |ts| == |us|
    decreases |ts| + |us|
  {
    if ts != [] { StepBefore(fs, own, named, ts); }
    if us != [] { StepBefore(fs, own, named, us); }
    if ts != [] && us != [] {
      hide Walk, Inv, Names, Entry;
      OneWay(fs, own, named, ts[..|ts| - 1], us[..|us| - 1]);
    }
  }

  /** A walk does not pass the inode it ends at. */
  lemma NotYetThere(fs: Fs, own: seq<(nat, nat)>, named: seq<(nat, nat)>, ts: seq<Name>, j: nat)
    requires Inv(fs, own, named) && Walk(fs, 0, 0, ts).Some? && j < |ts|
    ensures Walk(fs, 0, 0, ts[..j]).Some? && Walk(fs, 0, 0, ts[..j]).value.0 != Walk(fs, 0, 0, ts).value.0
  {
    hide Walk, Inv;
    PrefixWalks(fs, ts, j);
    if Walk(fs, 0, 0, ts[..j]).value.0 == Walk(fs, 0, 0, ts).value.0 { OneWay(fs, own, named, ts[..j], ts); }
  }

  lemma NoSteps(fs: Fs, ts: seq<Name>)
    ensures Walk(fs, 0, 0, ts[..0]) == Some((0, 0))
  {
  }

  lemma PrefixOfPrefix(ts: seq<Name>, j: nat)
    requires 0 < j <= |ts|
    ensures ts[..j][..j - 1] == ts[..j - 1] && ts[..j][j - 1] == ts[j - 1]
  {
  }

  /** A step that neither starts at n nor leads there. */
  lemma SameStep(fs: Fs, own: seq<(nat, nat)>, named: seq<(nat, nat)>, fs': Fs, n: nat, us: seq<Name>)
    requires Inv(fs, own, named) && Shaped(fs') && ExtendsExcept(fs, fs', n) && us != [] && Walk(fs, 0, 0, us).Some?
    requires Walk(fs, 0, 0, us).value.0 != n
    requires Walk(fs, 0, 0, us[..|us| - 1]).Some? && Walk(fs, 0, 0, us[..|us| - 1]).value.0 != n
    requires Walk(fs', 0, 0, us[..|us| - 1]) == Walk(fs, 0, 0, us[..|us| - 1])
    ensures Walk(fs', 0, 0, us) == Walk(fs, 0, 0, us)
  {
    hide Walk, Find, Slot, Names, Entry, BlocksOwned, CountsRight, DirsPacked, NamesUnique;
    StepBefore(fs, own, named, us);
    LastSplit(us);
    var (cur, parent) := Walk(fs, 0, 0, us[..|us| - 1]).value;
    var last := us[|us| - 1];
    WalkConcat(fs, 0, 0, us[..|us| - 1], [last]);
    WalkConcat(fs', 0, 0, us[..|us| - 1], [last]);
    WalkOne(fs, cur, parent, last);
    WalkOne(fs', cur, parent, last);
  }

  /** The way to the directory of the unlinked inode is as before. */
  lemma {:induction false} WayStays(fs: Fs, own: seq<(nat, nat)>, named: seq<(nat, nat)>, fs': Fs, ts: seq<Name>,
        j: nat)
    requires Inv(fs, own, named) && ts != [] && Walk(fs, 0, 0, ts).Some? && j < |ts|
    requires Shaped(fs') && ExtendsExcept(fs, fs', Walk(fs, 0, 0, ts).value.0)
    ensures Walk(fs, 0, 0, ts[..j]).Some? && Walk(fs', 0, 0, ts[..j]) == Walk(fs, 0, 0, ts[..j])
    decreases j
  {
    hide Walk, Find, Slot, Names, Entry, Inv, ExtendsExcept;
    PrefixWalks(fs, ts, j);
    if j == 0 {
      NoSteps(fs, ts);
      NoSteps(fs', ts);
    } else {
      WayStays(fs, own, named, fs', ts, j - 1);
      NotYetThere(fs, own, named, ts, j - 1);
      NotYetThere(fs, own, named, ts, j);
      PrefixOfPrefix(ts, j);
      SameStep(fs, own, named, fs', Walk(fs, 0, 0, ts).value.0, ts[..j]);
    }
  }

  /** ---- Paths through an inode ---- */

  /** Some beginning of the components leads to inode n. */
  ghost predicate Passes(fs: Fs, ts: seq<Name>, n: nat)
    decreases |ts|
  {
    || (Walk(fs, 0, 0, ts).Some? && Walk(fs, 0, 0, ts).value.0 == n)
    || (ts != [] && Passes(fs, ts[..|ts| - 1], n))
  }

  lemma {:induction false} SamePasses(fs: Fs, own: seq<(nat, nat)>, named: seq<(nat, nat)>, fs': Fs, ts: seq<Name>,
        n: nat)
    requires Inv(fs, own, named) && Shaped(fs') && Extends(fs, fs') && Walk(fs, 0, 0, ts).Some?
    ensures Passes(fs', ts, n) <==> Passes(fs, ts, n)
    decreases |ts|
  {
    InvRoot(fs, own, named);
    hide Walk, Inv, Extends;
    WalkExtends(fs, own, named, fs', 0, 0, ts);
    if ts != [] {
      PrefixWalks(fs, ts, |ts| - 1);
      SamePasses(fs, own, named, fs', ts[..|ts| - 1], n);
    }
  }

  /** When every search that does not end at n stays the same, so does every path that does not pass n. */
  lemma {:induction false} PathKept(fs: Fs, own: seq<(nat, nat)>, named: seq<(nat, nat)>, fs': Fs, n: nat,
        ts: seq<Name>)
    requires Inv(fs, own, named) && Shaped(fs') && ExtendsExcept(fs, fs', n)
    requires Walk(fs, 0, 0, ts).Some? && !Passes(fs, ts, n)
    ensures Walk(fs', 0, 0, ts) == Walk(fs, 0, 0, ts)
    decreases |ts|
  {
    hide Walk, Find, Slot, Names, Entry, Inv, ExtendsExcept;
    if ts == [] {
      assert ts == ts[..0];
      NoSteps(fs, ts);
      NoSteps(fs', ts);
    } else {
      PrefixWalks(fs, ts, |ts| - 1);
      assert !Passes(fs, ts[..|ts| - 1], n);
      PathKept(fs, own, named, fs', n, ts[..|ts| - 1]);
      SameStep(fs, own, named, fs', n, ts);
    }
  }

  /** When no path leads to n any more, no path leads to what a path through n led to. */
  lemma {:induction false} PathCut(fs: Fs, own: seq<(nat, nat)>, named: seq<(nat, nat)>,
                                   fs': Fs, own': seq<(nat, nat)>, named': seq<(nat, nat)>,
                                   n: nat, ts: seq<Name>, us: seq<Name>)
    requires Inv(fs, own, named) && Inv(fs', own', named')
    requires forall d: nat, k: nat {:trigger Names(fs, d, k)} :: d < INODE_MAX && Names(fs, d, k) ==>
               Child(fs, d, k) < |named'| && named'[Child(fs, d, k)] == (d, k)
    requires forall vs: seq<Name> :: Walk(fs', 0, 0, vs).Some? ==> Walk(fs', 0, 0, vs).value.0 != n
    requires Walk(fs, 0, 0, ts).Some? && Passes(fs, ts, n) && Walk(fs', 0, 0, us).Some?
    ensures Walk(fs', 0, 0, us).value.0 != Walk(fs, 0, 0, ts).value.0
    decreases |ts|
  {
    InvRoot(fs, own, named);
    hide Walk, Find, Slot, Names, Entry, Inv;
    var m := Walk(fs, 0, 0, ts).value.0;
    if Walk(fs', 0, 0, us).value.0 == m {
      assert m != n;
      StepBefore(fs, own, named, ts);
      if us == [] { WalkNone(fs'); }
      StepBefore(fs', own', named', us);
      PathCut(fs, own, named, fs', own', named', n, ts[..|ts| - 1], us[..|us| - 1]);
    }
  }

  lemma SelfPasses(fs: Fs, ts: seq<Name>)
    requires Walk(fs, 0, 0, ts).Some?
    ensures Passes(fs, ts, Walk(fs, 0, 0, ts).value.0)
  {
  }

  /** Only an empty component leads to an inode with an empty name. */
  lemma {:induction false} EmptyNamePassed(fs: Fs, own: seq<(nat, nat)>, named: seq<(nat, nat)>, dir: nat, k: nat,
        ts: seq<Name>)
    requires Inv(fs, own, named) && dir < INODE_MAX && Names(fs, dir, k) && Entry(fs, dir, k).name == []
    requires forall i :: 0 <= i < |ts| ==> ts[i] != []
    ensures !Passes(fs, ts, Child(fs, dir, k))
    decreases |ts|
  {
    var c := Child(fs, dir, k);
    assert 0 < c < INODE_MAX && named[c] == (dir, k);
    hide Walk, Find, Slot, Names, Entry, Inv;
    if ts != [] { EmptyNamePassed(fs, own, named, dir, k, ts[..|ts| - 1]); }
    if Walk(fs, 0, 0, ts).Some? && Walk(fs, 0, 0, ts).value.0 == c {
      if ts == [] { WalkNone(fs); }
      StepBefore(fs, own, named, ts);
    }
  }

  lemma WalkNone(fs: Fs)
    ensures Walk(fs, 0, 0, []) == Some((0, 0))
  {
  }

  /** The way to a directory, however far it is followed, does not pass an inode the directory names. */
  lemma {:induction false} WayMissesChild(fs: Fs, own: seq<(nat, nat)>, named: seq<(nat, nat)>, ts: seq<Name>,
        us: seq<Name>, k: nat)
    requires Inv(fs, own, named) && Walk(fs, 0, 0, ts).Some? && Walk(fs, 0, 0, ts).value.0 < INODE_MAX
    requires Names(fs, Walk(fs, 0, 0, ts).value.0, k) && |us| <= |ts|
    ensures !Passes(fs, us, Child(fs, Walk(fs, 0, 0, ts).value.0, k))
    decreases |us|
  {
    var dir := Walk(fs, 0, 0, ts).value.0;
    var c := Child(fs, dir, k);
    assert 0 < c < INODE_MAX && named[c] == (dir, k);
    hide Walk, Find, Slot, Names, Entry, Inv;
    if us != [] { WayMissesChild(fs, own, named, ts, us[..|us| - 1], k); }
    if Walk(fs, 0, 0, us).Some? && Walk(fs, 0, 0, us).value.0 == c {
      if us == [] { WalkNone(fs); }
      StepBefore(fs, own, named, us);
      OneWay(fs, own, named, us[..|us| - 1], ts);
    }
  }

  /** No path leads to an inode whose name a search of its directory finds in another slot. */
  lemma Unreachable(fs: Fs, own: seq<(nat, nat)>, named: seq<(nat, nat)>, dir: nat, j: nat, us: seq<Name>)
    requires Inv(fs, own, named) && dir < INODE_MAX && Names(fs, dir, j)
    requires Find(fs.data, fs.inodes[dir], Entry(fs, dir, j).name, 0) != Some(j) && Walk(fs, 0, 0, us).Some?
    ensures Walk(fs, 0, 0, us).value.0 != Child(fs, dir, j)
  {
    var c := Child(fs, dir, j);
    assert 0 < c < INODE_MAX && named[c] == (dir, j);
    hide Walk, Find, Slot, Names, Entry, Inv;
    if Walk(fs, 0, 0, us).value.0 == c {
      if us == [] { WalkNone(fs); }
      StepBefore(fs, own, named, us);
    }
  }

  /** No path leads to a dead inode. */
  lemma DeadUnreached(fs: Fs, own: seq<(nat, nat)>, named: seq<(nat, nat)>, n: nat, us: seq<Name>)
    requires Inv(fs, own, named) && n < INODE_MAX && !fs.inodeMap[n] && Walk(fs, 0, 0, us).Some?
    ensures Walk(fs, 0, 0, us).value.0 != n
  {
    WalkIsLive(fs, own, named, 0, 0, us);
  }
}
