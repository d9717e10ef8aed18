/** The packer (mkspk.py:47-139) and the installer (kernel/pkg/pkg_install.c:37-173) as programs. */
module SpkTools {
  import opened Bits
  import opened Bytes
  import opened Spk
  import Djb2

  datatype PackResult = TooManyFiles | TooManyDeps | Written(bytes: seq<byte>)

  /** criar_spk on the files of a manifest, in order. */
  method Pack(m: Meta, files: seq<File>) returns (r: PackResult)
    requires |Payload(files)| < 0x1_0000_0000
    ensures |files| > MAX_FILES ==> r == TooManyFiles
    ensures |files| <= MAX_FILES && |m.deps| > 8 ==> r == TooManyDeps
    ensures |files| <= MAX_FILES && |m.deps| <= 8 ==> r == Written(Packed(m, files))
  {
    hide Payload, LeBytes, PackStr, RecordBytes, Offset;
    if |files| > MAX_FILES { return TooManyFiles; }
    if |m.deps| > 8 { return TooManyDeps; }
    var payload, offsets := JoinContents(files);
    var checksum := Djb2.PackerChecksum(payload);
    var header := LeBytes(MAGIC, 4);
    header := header + LeBytes(VERSION, 4);
    header := header + PackStr(m.name, 32);
    header := header + PackStr(m.version, 16);
    header := header + PackStr(m.author, 32);
    header := header + LeBytes(|m.deps|, 4);
    var deps := PackDeps(m.deps);
    header := header + deps;
    assert header == Front(m);
    header := header + LeBytes(|files|, 4);
    header := header + LeBytes(|payload|, 4);
    header := header + LeBytes(checksum, 4);
    header := header + Zeros(32);
    var records := [];
    var i := 0;
    while i < |files|
      invariant 0 <= i <= |files| && records == Records(files, i)
    {
      records := records + RecordBytes(files[i], offsets[i]);
      i := i + 1;
    }
    r := Written(header + records + payload);
  }

  /** The loops that compute the offsets and join the contents. */
  method JoinContents(files: seq<File>) returns (payload: seq<byte>, offsets: seq<nat>)
    ensures payload == Payload(files) && |offsets| == |files|
    ensures forall i :: 0 <= i < |files| ==> offsets[i] == Offset(files, i)
  {
    payload, offsets := [], [];
    var offset: nat := 0;
    var i := 0;
    assert files[..0] == [];
    while i < |files|
      invariant 0 <= i <= |files| && payload == Payload(files[..i]) && offset == |payload| && |offsets| == i
      invariant forall k :: 0 <= k < i ==> offsets[k] == Offset(files, k)
    {
      assert files[..i + 1][..i] == files[..i];
      offsets := offsets + [offset];
      offset := offset + |files[i].content|;
      payload := payload + files[i].content;
      i := i + 1;
    }
    assert files[..i] == files;
  }

  method PackDeps(deps: seq<seq<byte>>) returns (s: seq<byte>)
    ensures s == Deps(deps, 8)
  {
    hide PackStr;
    s := [];
    var i: nat := 0;
    while i < 8
      invariant i <= 8 && s == Deps(deps, i)
    {
      s := s + PackStr(if i < |deps| then deps[i] else [], 32);
      i := i + 1;
    }
  }

  /** ---- The installer ---- */

  /** The file system as the installer sees it: what each path holds. */
  type Tree = map<seq<byte>, seq<byte>>

  /** Every path of a package that is accepted ends inside its field. */
  ghost predicate PathsEnd(mem: Image, len: nat)
  {
    Acceptable(mem, len) ==> forall i: nat :: i < NumFiles(mem) ==> |PathAt(mem, i)| < 64
  }

  /** The first i records written, in order. */
  function Extracted(t: Tree, mem: Image, i: nat): (t': Tree)
    requires i <= NumFiles(mem) <= MAX_FILES
  {
    if i == 0 then t else Extracted(t, mem, i - 1)[PathAt(mem, i - 1) := ContentAt(mem, i - 1)]
  }

  ghost function PathsBelow(mem: Image, i: nat): (p: set<seq<byte>>)
    requires i <= MAX_FILES
  {
    if i == 0 then {} else PathsBelow(mem, i - 1) + {PathAt(mem, i - 1)}
  }

  /** The first record that does not pass or cannot be written, the number of records if none;
      writes[i] says whether the file system takes file i. */
  function FirstBad(mem: Image, writes: seq<bool>, i: nat): (k: nat)
    requires i <= NumFiles(mem) <= MAX_FILES == |writes|
    ensures i <= k <= NumFiles(mem)
    decreases NumFiles(mem) - i
  {
    if i == NumFiles(mem) || !RecordPasses(mem, i) || !writes[i] then i else FirstBad(mem, writes, i + 1)
  }

  /** Does the installation of an accepted package go through. */
  predicate Completes(mem: Image, writes: seq<bool>, registered: bool)
    requires NumFiles(mem) <= MAX_FILES == |writes|
  {
    FirstBad(mem, writes, 0) == NumFiles(mem) && registered
  }

  /** What the installation of an accepted package leaves: all its records, or what the rollback leaves. */
  ghost function After(t: Tree, mem: Image, writes: seq<bool>, registered: bool): (t': Tree)
    requires NumFiles(mem) <= MAX_FILES == |writes|
  {
    if Completes(mem, writes, registered) then Extracted(t, mem, NumFiles(mem))
    else t - PathsBelow(mem, FirstBad(mem, writes, 0))
  }

  /** An installation goes through exactly when every record passes, every file can be written, and the
      package database takes the entry. */
  lemma CompletesIff(mem: Image, writes: seq<bool>, registered: bool)
    requires NumFiles(mem) <= MAX_FILES == |writes|
    ensures Completes(mem, writes, registered)
       <==> registered && forall i: nat :: i < NumFiles(mem) ==> RecordPasses(mem, i) && writes[i]
  {
    hide RecordPasses, U32At;
    NoneBad(mem, writes, 0);
  }

  lemma {:induction false} NoneBad(mem: Image, writes: seq<bool>, i: nat)
    requires i <= NumFiles(mem) <= MAX_FILES == |writes|
    ensures FirstBad(mem, writes, i) == NumFiles(mem)
       <==> forall k: nat :: i <= k < NumFiles(mem) ==> RecordPasses(mem, k) && writes[k]
    decreases NumFiles(mem) - i
  {
    hide RecordPasses, U32At;
    if i < NumFiles(mem) && RecordPasses(mem, i) && writes[i] { NoneBad(mem, writes, i + 1); }
  }

  class Installer {
    var tree: Tree

    constructor (tree: Tree)
      ensures this.tree == tree
    {
      this.tree := tree;
    }

    /** instalar_spk of a file of len octets: mem is the memory from the buffer on, room says whether
        kmalloc has room, already whether the package is installed, writes which files can be written,
        registered whether the package database takes the entry. */
    method Install(mem: Image, len: nat, room: bool, already: bool, writes: seq<bool>, registered: bool)
          returns (ret: int)
      requires PathsEnd(mem, len) && |writes| == MAX_FILES
      modifies this
      ensures !Acceptable(mem, len) || !room || already ==> ret == -1 && tree == old(tree)
      ensures Acceptable(mem, len) && room && !already ==>
        && ret == (if Completes(mem, writes, registered) then 0 else -1)
        && tree == After(old(tree), mem, writes, registered)
    {
      hide Djb2.Hash, RecordAt, CString, U32At, Region;
      if len > MAX_SIZE { return -1; }
      if len < HEADER { return -1; }
      if !room { return -1; }
      if U32At(mem, 0) != MAGIC { return -1; }
      if U32At(mem, 4) != VERSION { return -1; }
      var numFiles := NumFiles(mem);
      if numFiles == 0 || numFiles > MAX_FILES { return -1; }
      var headerTotal := HEADER + numFiles * RECORD;
      if U32(headerTotal + Total(mem)) > len { return -1; }
      var csum := Djb2.Checksum(Region(mem, headerTotal, Total(mem)));
      if csum != U32At(mem, 356) { return -1; }
      if already { return -1; }
      var done, n, installed := Extract(mem, writes);
      if done && registered { return 0; }
      Rollback(mem, n, installed, old(tree));
      ret := -1;
    }

    /** The loop over the records; what was written is kept for a rollback. */
    method Extract(mem: Image, writes: seq<bool>) returns (done: bool, n: nat, installed: seq<seq<byte>>)
      requires NumFiles(mem) <= MAX_FILES == |writes|
      modifies this
      ensures n == FirstBad(mem, writes, 0) && (done <==> n == NumFiles(mem))
      ensures tree == Extracted(old(tree), mem, n)
      ensures |installed| == n && forall k :: 0 <= k < n ==> installed[k] == PathAt(mem, k)
    {
      hide RecordAt, CString, U32At, Region;
      n, installed := 0, [];
      while n < NumFiles(mem)
        invariant n <= NumFiles(mem) && FirstBad(mem, writes, 0) == FirstBad(mem, writes, n)
        invariant |installed| == n && forall k :: 0 <= k < n ==> installed[k] == PathAt(mem, k)
        invariant tree == Extracted(old(tree), mem, n)
        decreases NumFiles(mem) - n
      {
        if U32(OffsetAt(mem, n) + SizeAt(mem, n)) > Total(mem) { return false, n, installed; }
        var data := Region(mem, U32(PayloadStart(mem) + OffsetAt(mem, n)), SizeAt(mem, n));
        if !writes[n] { return false, n, installed; }
        tree := tree[PathAt(mem, n) := data];
        installed := installed + [PathAt(mem, n)];
        n := n + 1;
      }
      done := true;
    }

    /** The loop after the label rollback. */
    method Rollback(mem: Image, n: nat, installed: seq<seq<byte>>, ghost before: Tree)
      requires n <= NumFiles(mem) <= MAX_FILES
      requires tree == Extracted(before, mem, n)
      requires |installed| == n && forall k :: 0 <= k < n ==> installed[k] == PathAt(mem, k)
      modifies this
      ensures tree == before - PathsBelow(mem, n)
    {
      hide RecordAt, CString, U32At;
      var i := 0;
      while i < n
        invariant 0 <= i <= n
        invariant tree == Extracted(before, mem, n) - PathsBelow(mem, i)
      {
        tree := tree - {installed[i]};
        i := i + 1;
      }
      ExtractedThenRemoved(before, mem, n);
    }
  }

  lemma {:induction false} ExtractedThenRemoved(t: Tree, mem: Image, n: nat)
    requires n <= NumFiles(mem) <= MAX_FILES
    ensures Extracted(t, mem, n) - PathsBelow(mem, n) == t - PathsBelow(mem, n)
  {
    hide PathAt, ContentAt, U32At;
    if n > 0 {
      ExtractedThenRemoved(t, mem, n - 1);
      var a, p := Extracted(t, mem, n - 1), PathsBelow(mem, n - 1);
      var x := PathAt(mem, n - 1);
      forall y ensures y in Extracted(t, mem, n) - PathsBelow(mem, n) <==> y in t - PathsBelow(mem, n) {
        assert y in a - p <==> y in t - p;
      }
      forall y | y in t - PathsBelow(mem, n)
        ensures y in Extracted(t, mem, n) && Extracted(t, mem, n)[y] == t[y]
      {
        assert y in t - p && y in a - p && (a - p)[y] == (t - p)[y];
      }
    }
  }

  /** ---- What a failed installation leaves ---- */

  /** A failed installation leaves the file system as it was exactly when none of the paths it had written
      existed before: a file it had overwritten is removed, not restored. */
  lemma RollbackRestores(t: Tree, mem: Image, len: nat, writes: seq<bool>, registered: bool)
    requires Acceptable(mem, len) && |writes| == MAX_FILES && !Completes(mem, writes, registered)
    ensures After(t, mem, writes, registered) == t <==> t.Keys !! PathsBelow(mem, FirstBad(mem, writes, 0))
  {
    assert NumFiles(mem) <= MAX_FILES;
    hide Acceptable, PathAt, FirstBad;
    var p := PathsBelow(mem, FirstBad(mem, writes, 0));
    if t - p == t {
      forall x | x in t.Keys ensures x !in p { assert x in t - p; }
    }
  }

  const PATH_A: seq<byte> := [47, 97]
  const ONE_FILE: seq<File> := [File(PATH_A, [1])]
  const NAMELESS: Meta := Meta([], [], [], [])

  lemma OneFilePackable()
    ensures Packable(NAMELESS, ONE_FILE)
  {
    PackedSize(NAMELESS, ONE_FILE);
    assert Payload(ONE_FILE) == [1] by { assert ONE_FILE[..0] == []; }
    hide Packed, Payload;
  }

  /** The failing input: a package of the one file /a, a file system that holds /a, and a package database
      that does not take the entry. The installation fails and /a is gone. */
  lemma RollbackDestroys(mem: Image)
    requires Packed(NAMELESS, ONE_FILE) <= mem
    ensures Acceptable(mem, |Packed(NAMELESS, ONE_FILE)|) && PathsEnd(mem, |Packed(NAMELESS, ONE_FILE)|)
    ensures NumFiles(mem) <= MAX_FILES && !Completes(mem, seq(MAX_FILES, _ => true), false)
    ensures After(map[PATH_A := [9]], mem, seq(MAX_FILES, _ => true), false) == map[]
  {
    OneFilePackable();
    hide PathAt, Acceptable, Packed, U32At, RecordPasses, Packable, ContentAt;
    PackedAcceptable(mem, NAMELESS, ONE_FILE);
    PackedHasFile(mem, NAMELESS, ONE_FILE, 0);
    assert FirstBad(mem, seq(MAX_FILES, _ => true), 1) == 1;
    assert PathsBelow(mem, 1) == {PATH_A} by { assert PathsBelow(mem, 0) == {}; }
  }

  /** ---- Installing what was packed ---- */

  /** The round trip: with nothing in the way, the installation of a package goes through, and puts every
      file of it at its path if and only if no two of them have the same path and different contents.
      Paths that are not in the package keep what they had. */
  lemma InstallAfterPack(t: Tree, mem: Image, m: Meta, files: seq<File>)
    requires Holds(mem, m, files)
    ensures Acceptable(mem, |Packed(m, files)|) && PathsEnd(mem, |Packed(m, files)|)
    ensures NumFiles(mem) <= MAX_FILES && Completes(mem, seq(MAX_FILES, _ => true), true)
    ensures var t' := After(t, mem, seq(MAX_FILES, _ => true), true);
      && (AtTheirPaths(t', files) <==> Agree(files))
      && (forall p: seq<byte> {:trigger p in t'} :: (forall i: nat :: i < |files| ==> files[i].path != p) ==>
            (p in t' <==> p in t) && (p in t ==> t'[p] == t[p]))
  {
    hide Packed, Packable, PathAt, ContentAt, Inside, SizeAt, OffsetAt, RecordPasses, Acceptable, U32At, AtTheirPaths,
         Agree, Placed;
    PackedAcceptable(mem, m, files);
    forall k: nat | k < |files| ensures PackedHas(mem, files, k) { PackedHasFile(mem, m, files, k); }
    AllGood(mem, files, 0);
    ExtractedIsPlaced(t, mem, files, |files|);
    PlacedAll(t, files);
    forall p: seq<byte> | forall i: nat :: i < |files| ==> files[i].path != p
      ensures (p in Placed(t, files, |files|) <==> p in t) && (p in t ==> Placed(t, files, |files|)[p] == t[p])
    {
      PlacedOther(t, files, |files|, p);
    }
  }

  /** The files of a package written to their paths, in order. */
  function Placed(t: Tree, files: seq<File>, i: nat): (t': Tree)
    requires i <= |files|
  {
    if i == 0 then t else Placed(t, files, i - 1)[files[i - 1].path := files[i - 1].content]
  }

  /** The last file of a path is what the path holds. */
  lemma {:induction false} PlacedLast(t: Tree, files: seq<File>, i: nat, j: nat)
    requires j < i <= |files| && forall k: nat :: j < k < i ==> files[k].path != files[j].path
    ensures files[j].path in Placed(t, files, i) && Placed(t, files, i)[files[j].path] == files[j].content
  {
    if j < i - 1 { PlacedLast(t, files, i - 1, j); }
  }

  /** Other paths are untouched. */
  lemma {:induction false} PlacedOther(t: Tree, files: seq<File>, i: nat, p: seq<byte>)
    requires i <= |files| && forall j: nat :: j < i ==> files[j].path != p
    ensures (p in Placed(t, files, i) <==> p in t) && (p in t ==> Placed(t, files, i)[p] == t[p])
  {
    if i > 0 { PlacedOther(t, files, i - 1, p); }
  }

  /** The last of the files from i on that have the path of file i. */
  lemma {:induction false} LastOfPath(files: seq<File>, i: nat, from: nat) returns (j: nat)
    requires i <= from < |files| && files[from].path == files[i].path
    ensures from <= j < |files| && files[j].path == files[i].path
    ensures forall k: nat :: j < k < |files| ==> files[k].path != files[i].path
    decreases |files| - from
  {
    j := from;
    if k: nat :| from < k < |files| && files[k].path == files[i].path { j := LastOfPath(files, i, k); }
  }

  /** What the path of file i holds in the end, and where it comes from. */
  lemma PlacedFrom(t: Tree, files: seq<File>, i: nat) returns (j: nat)
    requires i < |files|
    ensures i <= j < |files| && files[j].path == files[i].path
    ensures forall k: nat :: j < k < |files| ==> files[k].path != files[i].path
    ensures files[i].path in Placed(t, files, |files|) && Placed(t, files, |files|)[files[i].path] == files[j].content
  {
    hide Placed;
    j := LastOfPath(files, i, i);
    PlacedLast(t, files, |files|, j);
  }

  /** No two files have the same path and different contents. */
  ghost predicate Agree(files: seq<File>)
  {
    forall i: nat, j: nat :: i < j < |files| && files[i].path == files[j].path ==> files[i].content == files[j].content
  }

  /** Every file is at its path. */
  ghost predicate AtTheirPaths(t: Tree, files: seq<File>)
  {
    forall i: nat :: i < |files| ==> files[i].path in t && t[files[i].path] == files[i].content
  }

  lemma PlacedAll(t: Tree, files: seq<File>)
    ensures AtTheirPaths(Placed(t, files, |files|), files) <==> Agree(files)
  {
    hide Placed;
    var t' := Placed(t, files, |files|);
    if AtTheirPaths(t', files) {
      forall i: nat, j: nat | i < j < |files| && files[i].path == files[j].path
        ensures files[i].content == files[j].content {
        assert t'[files[i].path] == files[i].content && t'[files[j].path] == files[j].content;
      }
    } else {
      var i: nat :| i < |files| && !(files[i].path in t' && t'[files[i].path] == files[i].content);
      var j := PlacedFrom(t, files, i);
      assert i < j && files[i].content != files[j].content;
    }
  }

  ghost predicate PackedHas(mem: Image, files: seq<File>, k: nat)
    requires NumFiles(mem) == |files| <= MAX_FILES && k < |files|
  {
    RecordPasses(mem, k) && PathAt(mem, k) == files[k].path && ContentAt(mem, k) == files[k].content
  }

  lemma PackedHasFile(mem: Image, m: Meta, files: seq<File>, k: nat)
    requires Holds(mem, m, files) && k < |files|
    ensures NumFiles(mem) == |files| <= MAX_FILES && PackedHas(mem, files, k)
  {
    hide Packed, PathAt, ContentAt, RecordPasses, Acceptable, U32At;
    PackedInstalls(mem, m, files, k);
  }

  lemma PackedAcceptable(mem: Image, m: Meta, files: seq<File>)
    requires Holds(mem, m, files)
    ensures Acceptable(mem, |Packed(m, files)|) && PathsEnd(mem, |Packed(m, files)|)
            && NumFiles(mem) == |files| <= MAX_FILES
  {
    hide Packed, PathAt, ContentAt, Acceptable, U32At;
    PackedInstalls(mem, m, files, 0);
    forall i: nat | i < NumFiles(mem) ensures |PathAt(mem, i)| < 64 {
      PackedInstalls(mem, m, files, i);
    }
  }

  lemma {:induction false} AllGood(mem: Image, files: seq<File>, i: nat)
    requires NumFiles(mem) == |files| <= MAX_FILES && i <= |files|
    requires forall k: nat :: k < |files| ==> PackedHas(mem, files, k)
    ensures FirstBad(mem, seq(MAX_FILES, _ => true), i) == |files|
    decreases |files| - i
  {
    hide PathAt, ContentAt, RecordPasses, U32At;
    if i < |files| {
      assert PackedHas(mem, files, i);
      AllGood(mem, files, i + 1);
    }
  }

  lemma {:induction false} ExtractedIsPlaced(t: Tree, mem: Image, files: seq<File>, i: nat)
    requires NumFiles(mem) == |files| <= MAX_FILES && i <= |files|
    requires forall k: nat :: k < |files| ==> PackedHas(mem, files, k)
    ensures Extracted(t, mem, i) == Placed(t, files, i)
  {
    hide PathAt, ContentAt, RecordPasses, U32At;
    if i > 0 {
      ExtractedIsPlaced(t, mem, files, i - 1);
      assert PackedHas(mem, files, i - 1);
    }
  }

  /** ---- A record that passes and lies outside the payload ---- */

  /** Installing such a package succeeds and writes an octet of the record table to its path. */
  lemma WrappingInstalls(t: Tree, mem: Image, m: Meta, path: seq<byte>)
    requires WrappingPackage(m, path) <= mem && |path| < 64 && 0 !in path
    ensures Acceptable(mem, HEADER + RECORD) && PathsEnd(mem, HEADER + RECORD) && !Inside(mem, 0)
    ensures Completes(mem, seq(MAX_FILES, _ => true), true)
    ensures After(t, mem, seq(MAX_FILES, _ => true), true) == t[path := [Executable(path)]]
  {
    WrappingRecordPasses(mem, m, path);
    hide U32At, PathAt, ContentAt, WrappingPackage, RecordPasses, Inside, Acceptable, Executable;
    assert FirstBad(mem, seq(MAX_FILES, _ => true), 1) == 1;
    assert Extracted(t, mem, 0) == t;
  }
}
