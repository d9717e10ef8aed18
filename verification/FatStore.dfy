/** A FAT32 directory together with the files it names: over every run of creations, writes and deletions
    by name it holds under each name a list of contents, and a map from names to contents when no name is
    created that a slot answers to (kernel/fs/fat32.c:239-278, 283-499). */
module FatStore {
  import opened Wrappers
  import opened Bytes
  import opened Disk
  import opened FatChains
  import opened FatDirScan
  import opened FatLists
  import opened Fat32Dirs
  import Fat32
  import F = FatFiles
  import D = FatDirs

  /** The volume, a directory with its clusters, by first cluster what every file was last given, and whose
      each used cluster is (0: of no file). */
  datatype Store = Store(vol: Vol, dir: nat, list: seq<nat>, files: map<nat, seq<byte>>, own: map<nat, nat>)

  function Slots(s: Store): (d: seq<D.Slot>) { DirSlots(s.vol.data, s.list) }

  /** The clusters of the directory are used and belong to no file. */
  ghost predicate DirApart(list: seq<nat>, own: map<nat, nat>)
  {
    forall x :: x in list ==> x in own && own[x] == 0
  }

  ghost predicate Inv(s: Store)
  {
    && F.Inv(F.State(s.vol, s.files), s.own)
    && Chain(s.vol.fat, s.dir, s.list) && DirApart(s.list, s.own)
    && DirOk(Slots(s), s.files)
  }

  /** The contents under a name, in the order in which they are found. */
  function Under(s: Store, name: seq<byte>): (r: seq<seq<byte>>)
    requires |name| == 11
  {
    Contents(Slots(s), s.files, name)
  }

  /** A volume on which only the directory has clusters, all of its slots free, is the empty map. */
  lemma EmptyDirectory(v: Vol, dir: nat, list: seq<nat>) returns (s: Store)
    requires Shaped(v) && F.InRange(v.fat) && Chain(v.fat, dir, list)
    requires forall x: nat :: 2 <= x < |v.fat| && v.fat[x] != 0 ==> x in list
    requires forall k :: 0 <= k < |DirSlots(v.data, list)| ==> D.Ends(DirSlots(v.data, list)[k])
    ensures Inv(s) && s.vol == v && s.dir == dir && s.list == list && s.files == map[]
    ensures D.UniqueNames(Slots(s)) && Models(s, map[]) && IsMap(s, map[])
  {
    hide DirSlots, Chain;
    forall x | x in list ensures 2 <= x < |v.fat| && v.fat[x] != 0 { ChainInUse(v.fat, dir, list, x); }
    s := Store(v, dir, list, map[], map x | x in F.Elements(list) :: 0);
  }

  /** What fat32_delete needs of the directory always holds. */
  lemma EntriesLeadIntoTable(s: Store)
    requires Inv(s)
    ensures F.InRange(s.vol.fat) && EntriesInTable(s.vol, s.list)
  {
    var d, st := Slots(s), F.State(s.vol, s.files);
    forall k | 0 <= k < |d| && D.IsEntry(d[k]) ensures InTable(s.vol.fat, D.ClusterOf(d[k])) {
      assert Plain(d[k]) || Label(d[k]);
      if Plain(d[k]) { assert F.FileOk(st, s.own, D.ClusterOf(d[k])); }
    }
  }

  /** ---- Creating ---- */

  /** The volume after a cluster was claimed, for a file or in vain: the clusters of files are as before. */
  lemma ClaimKeeps(s: F.State, own: map<nat, nat>, v': Vol, i: nat, named: bool)
    requires F.Inv(s, own) && i == FirstFree(s.vol.fat, 2) && i < |s.vol.fat|
    requires Shaped(v') && v'.spc == s.vol.spc && v'.fat == s.vol.fat[i := LAST] && |v'.data| == |s.vol.data|
    requires forall x :: x in own && own[x] != 0 && x < |v'.data| ==> v'.data[x] == s.vol.data[x]
    ensures i !in s.files && i !in own
    ensures F.Inv(F.State(v', if named then s.files[i := []] else s.files), own[i := if named then i else 0])
  {
    hide F.FreeFrom, Chain, F.FileOk, F.ListOf;
    var own' := own[i := if named then i else 0];
    var s' := F.State(v', if named then s.files[i := []] else s.files);
    F.FreeIsNoHead(s, own, i);
    if named { F.CreatedFile(s', own', i); }
    forall h | h in s'.files && h != i ensures F.FileOk(s', own', h) {
      F.FileParts(s, own, h);
      F.HeadNotZero(s, own, h);
      F.FileKept(s, own, s', own', h);
    }
  }

  /** Creating: if the creation was reported the name holds one more, empty content, behind those of the slots in
      front of the one taken; every other name is as before. */
  lemma CreateKeeps(s: Store, v': Vol, name: seq<byte>, attr: byte, ret: nat) returns (s': Store)
    requires Inv(s) && D.Storable(name, attr)
    requires Shaped(v') && Created(s.vol, v', s.list, s.dir, name, attr, ret)
    ensures Inv(s') && s'.vol == v' && s'.dir == s.dir && s'.list == s.list
    ensures forall other: seq<byte> :: |other| == 11 ==>
              Under(s', other) ==
              if ret != 0 && D.SameName(name, other) then Inserted(Under(s, other), Ahead(Slots(s), name), [])
              else Under(s, other)
  {
    hide DirSlots, D.Add, NewCluster, D.SameName, DirOk, F.FileOk, Contents, Inserted, Ahead;
    var n, d := FirstFree(s.vol.fat, 2), Slots(s);
    if n == |s.vol.fat| {
      s' := s;
    } else {
      var named := D.FirstVacant(d, 0) < |d|;
      var files' := if named then s.files[n := []] else s.files;
      s' := s.(vol := v', files := files', own := s.own[n := if named then n else 0]);
      ClaimedCluster(s, v', name, attr, ret, named);
      hide Created, Inv, Chain, DirApart, F.Inv, FirstFree;
      if named { AddedDir(d, s.files, name, attr, n); } else { FullDirectory(d, name, attr, n); }
      forall other: seq<byte> | |other| == 11
        ensures Under(s', other) ==
                if ret != 0 && D.SameName(name, other) then Inserted(Under(s, other), Ahead(d, name), [])
                else Under(s, other)
      {
        if named { AddedContents(d, s.files, name, attr, n, other); }
      }
    }
  }

  lemma ClaimedCluster(s: Store, v': Vol, name: seq<byte>, attr: byte, ret: nat, named: bool)
    requires Inv(s) && |name| == 11 && Shaped(v') && Created(s.vol, v', s.list, s.dir, name, attr, ret)
    requires FirstFree(s.vol.fat, 2) < |s.vol.fat| && named == (D.FirstVacant(Slots(s), 0) < |Slots(s)|)
    ensures var n := FirstFree(s.vol.fat, 2);
      && n !in s.files && n < 0x1_0000_0000 && n != 0
      && F.Inv(F.State(v', if named then s.files[n := []] else s.files), s.own[n := if named then n else 0])
      && Chain(v'.fat, s.dir, s.list) && DirApart(s.list, s.own[n := if named then n else 0])
      && DirSlots(v'.data, s.list) == D.Add(Slots(s), name, attr, n) && ret == if named then n else 0
  {
    hide DirSlots, D.Add, NewCluster, DirOk, F.FileOk;
    var n := FirstFree(s.vol.fat, 2);
    ClaimKeeps(F.State(s.vol, s.files), s.own, v', n, named);
    ChainFrame(s.vol.fat, v'.fat, s.dir, s.list);
  }

  lemma FullDirectory(d: seq<D.Slot>, name: seq<byte>, attr: byte, n: nat)
    requires |name| == 11 && D.FirstVacant(d, 0) == |d|
    ensures D.Add(d, name, attr, n) == d
  {
  }

  /** ---- Writing ---- */

  /** What a write of buf to the file at h leaves in it. */
  ghost function Kept(r: Written, h: nat, buf: seq<byte>): (kept: seq<byte>)
  {
    var room := FatChains.Room(r.vol.spc, |F.ListOf(r.vol.fat, h)|);
    if |buf| <= room then buf else buf[..room]
  }

  lemma FileMissesDir(s: Store, h: nat) returns (l: seq<nat>)
    requires Inv(s) && h in s.files
    ensures Shaped(s.vol) && F.InRange(s.vol.fat) && l != [] && Chain(s.vol.fat, h, l) && F.Disjoint(l, s.list)
    ensures Chain(s.vol.fat, s.dir, s.list)
  {
    hide DirSlots, DirOk, ReadAlong, Chain;
    var st := F.State(s.vol, s.files);
    assert F.FileOk(st, s.own, h);
    l := F.ListOf(s.vol.fat, h);
    F.HeadNotZero(st, s.own, h);
  }

  /** The chain of the directory is none of the file's. */
  lemma WriteMissesDir(s: Store, h: nat, buf: seq<byte>)
    requires Inv(s) && h in s.files
    ensures var v' := WriteFrom(s.vol, h, 0, buf).vol;
      Chain(v'.fat, s.dir, s.list) && DirSlots(v'.data, s.list) == Slots(s)
  {
    hide DirSlots, WriteFrom, DirOk, ReadAlong, FatChains.Room, Inv, Chain, F.InRange;
    var l := FileMissesDir(s, h);
    var l' := F.WriteThenRead(s.vol, h, l, buf);
    var v' := WriteFrom(s.vol, h, 0, buf).vol;
    F.WriteLeavesOtherChains(s.vol, v', h, l, l', s.dir, s.list);
    forall x | x in s.list && x < |s.vol.data| ensures v'.data[x] == s.vol.data[x] { assert x !in l'; }
    DirSlotsFrame(s.vol.data, v'.data, s.list);
  }

  /** Writing to the file a name leads to: the first content of the name is what was written, as far as it fitted,
      and everything else is as before. */
  lemma WriteKeeps(s: Store, name: seq<byte>, buf: seq<byte>) returns (s': Store)
    requires Inv(s) && |name| == 11 && D.Find(Slots(s), name).Some?
    ensures var h := D.Find(Slots(s), name).value.cluster;
      var r := WriteFrom(s.vol, h, 0, buf);
      && Inv(s') && s'.vol == r.vol && s'.dir == s.dir && s'.list == s.list && Slots(s') == Slots(s)
      && forall other: seq<byte> :: |other| == 11 ==>
           Under(s', other) ==
           if D.SameName(name, other) then [Kept(r, h, buf)] + Tail(Under(s, other)) else Under(s, other)
  {
    hide DirSlots, WriteFrom, F.FileOk, D.SameName, D.Hits, F.InRange, D.EndMarked, Chain, Kept, Contents;
    var d := Slots(s);
    var k := FoundSlot(d, s.files, name);
    var h := D.ClusterOf(d[k]);
    var st := F.State(s.vol, s.files);
    var own' := F.StoreKeeps(st, s.own, h, buf);
    WriteMissesDir(s, h, buf);
    var r := WriteFrom(s.vol, h, 0, buf);
    StoreIs(st, h, buf);
    s' := s.(vol := r.vol, files := s.files[h := Kept(r, h, buf)], own := own');
    forall other: seq<byte> | |other| == 11
      ensures Contents(d, s'.files, other) ==
              if D.SameName(name, other) then [Kept(r, h, buf)] + Tail(Contents(d, s.files, other))
              else Contents(d, s.files, other)
    {
      StoredContents(d, s.files, name, Kept(r, h, buf), other);
    }
  }

  lemma StoreIs(st: F.State, h: nat, buf: seq<byte>)
    requires Shaped(st.vol) && F.InRange(st.vol.fat) && h in st.files
    ensures var r := WriteFrom(st.vol, h, 0, buf);
      F.Do(st, F.Store(h, buf)) == F.State(r.vol, st.files[h := Kept(r, h, buf)])
  {
    hide WriteFrom;
  }

  /** ---- Deleting ---- */

  /** Clusters of no file may hold anything. */
  lemma DataKeeps(s: F.State, own: map<nat, nat>, data': seq<seq<Sector>>)
    requires F.Inv(s, own) && Shaped(s.vol.(data := data'))
    requires forall x :: x in own && own[x] != 0 && x < |data'| ==> data'[x] == s.vol.data[x]
    ensures F.Inv(F.State(s.vol.(data := data'), s.files), own)
  {
    hide Chain, F.FileOk, F.ListOf;
    var s' := F.State(s.vol.(data := data'), s.files);
    forall h | h in s'.files ensures F.FileOk(s', own, h) {
      F.FileParts(s, own, h);
      F.HeadNotZero(s, own, h);
      F.FileKept(s, own, s', own, h);
    }
  }

  /** fat32_delete takes a volume label for the file. */
  predicate TakesLabel(d: seq<D.Slot>, name: seq<byte>)
    requires |name| == 11
  {
    var at := D.Search(d, name, true, 0);
    at < |d| && !Plain(d[at])
  }

  /** Deleting: the first content of the name is gone, unless a label was taken for it; everything else is as
      before. */
  lemma DeleteKeeps(s: Store, v': Vol, name: seq<byte>, ret: int) returns (s': Store)
    requires Inv(s) && |name| == 11 && Shaped(v') && v'.spc == s.vol.spc && Deleted(s.vol, v', s.list, name, ret)
    ensures Inv(s') && s'.vol == v' && s'.dir == s.dir && s'.list == s.list
    ensures forall other: seq<byte> :: |other| == 11 ==>
              Under(s', other) ==
              if D.SameName(name, other) && !TakesLabel(Slots(s), name) then Tail(Under(s, other)) else Under(s, other)
  {
    hide DirSlots, F.FileOk, D.SameName, D.Hits, DirOk, Chain, F.FreeFrom, D.Drop, Contents, Plain, Label;
    var d := Slots(s);
    var at := D.Search(d, name, true, 0);
    if at == |d| {
      s' := s;
      forall other: seq<byte> | |other| == 11 && D.SameName(name, other) ensures Under(s, other) == [] {
        UnknownName(d, s.files, name, other);
      }
    } else {
      DroppedDir(d, s.files, name);
      var files', own' := FreedFile(s, v', D.ClusterOf(d[at]), Plain(d[at]));
      s' := s.(vol := v', files := files', own := own');
      forall other: seq<byte> | |other| == 11
        ensures Under(s', other) ==
                if D.SameName(name, other) && Plain(d[at]) then Tail(Under(s, other)) else Under(s, other)
      {
        DroppedContents(d, s.files, name, other);
      }
    }
  }

  /** The clusters of the deleted file are free; those of the directory may have changed in content. */
  lemma FreedFile(s: Store, v': Vol, c: nat, plain: bool) returns (files': map<nat, seq<byte>>, own': map<nat, nat>)
    requires Inv(s) && Shaped(v') && v'.spc == s.vol.spc && (if plain then c in s.files else c < 2)
    requires v'.fat == F.FreeFrom(s.vol.fat, c) && |v'.data| == |s.vol.data|
    requires forall x :: 0 <= x < |s.vol.data| && x !in s.list ==> v'.data[x] == s.vol.data[x]
    ensures files' == if plain then s.files - {c} else s.files
    ensures F.Inv(F.State(v', files'), own') && Chain(v'.fat, s.dir, s.list) && DirApart(s.list, own')
  {
    hide DirSlots, DirOk;
    var st := F.State(s.vol, s.files);
    files' := if plain then s.files - {c} else s.files;
    if plain {
      assert F.FileOk(st, s.own, c);
      F.HeadNotZero(st, s.own, c);
      var l := F.ListOf(s.vol.fat, c);
      own' := F.DeleteKeeps(st, s.own, c);
      F.FreeChain(s.vol.fat, c, l);
      ChainFrame(s.vol.fat, v'.fat, s.dir, s.list);
      hide F.FreeFrom, Chain, F.FileOk;
      DataKeeps(F.State(s.vol.(fat := v'.fat), files'), own', v'.data);
    } else {
      own' := s.own;
      assert v'.fat == s.vol.fat;
      DataKeeps(st, own', v'.data);
    }
    assert v' == s.vol.(fat := v'.fat).(data := v'.data);
  }

  /** ---- Runs ---- */

  /** Calls by name with what they reported: a creation and how many slots of the name it came behind, a write to
      the file a name leads to and what of it was kept, a deletion and whether it took a volume label. */
  datatype Event =
    | Made(name: seq<byte>, attr: byte, ret: nat, ahead: nat)
    | Stored(name: seq<byte>, buf: seq<byte>, kept: seq<byte>)
    | Gone(name: seq<byte>, result: int, ofLabel: bool)

  /** One call takes the volume from v to v'. */
  ghost predicate Step(v: Vol, dir: nat, list: seq<nat>, e: Event, v': Vol)
  {
    && Shaped(v) && Shaped(v') && v'.spc == v.spc && F.InRange(v.fat) && |e.name| == 11
    && var d := DirSlots(v.data, list);
       match e
       case Made(name, attr, ret, ahead) =>
         D.Storable(name, attr) && Created(v, v', list, dir, name, attr, ret) && ahead == Ahead(d, name)
       case Stored(name, buf, kept) =>
         if D.Find(d, name).None? then v' == v
         else
           var h := D.Find(d, name).value.cluster;
           v' == WriteFrom(v, h, 0, buf).vol && kept == Kept(WriteFrom(v, h, 0, buf), h, buf)
       case Gone(name, result, ofLabel) => Deleted(v, v', list, name, result) && ofLabel == TakesLabel(d, name)
  }

  type Lists = map<seq<byte>, seq<seq<byte>>>

  function At(m: Lists, key: seq<byte>): (c: seq<seq<byte>>) { if key in m then m[key] else [] }

  /** What a call means to lists of contents by name. */
  function Relist(m: Lists, e: Event): (m': Lists)
  {
    var key := CString(e.name);
    match e
    case Made(_, _, ret, ahead) => if ret != 0 then m[key := Inserted(At(m, key), ahead, [])] else m
    case Stored(_, _, kept) => if At(m, key) != [] then m[key := [kept] + Tail(At(m, key))] else m
    case Gone(_, _, ofLabel) => if ofLabel then m else m[key := Tail(At(m, key))]
  }

  function RelistAll(m: Lists, es: seq<Event>): (m': Lists)
  {
    if es == [] then m else Relist(RelistAll(m, es[..|es| - 1]), es[|es| - 1])
  }

  /** The directory and its files are the lists m. */
  ghost predicate Models(s: Store, m: Lists)
  {
    forall name: seq<byte> :: |name| == 11 ==> Under(s, name) == At(m, CString(name))
  }

  /** One call on the store: what the names hold afterwards. */
  ghost predicate Follows(s: Store, e: Event, s': Store)
    requires |e.name| == 11
  {
    forall other: seq<byte> :: |other| == 11 ==>
      Under(s', other) ==
      if !D.SameName(e.name, other) then Under(s, other)
      else
        match e
        case Made(_, _, ret, ahead) => if ret != 0 then Inserted(Under(s, other), ahead, []) else Under(s, other)
        case Stored(_, _, kept) => if Under(s, other) != [] then [kept] + Tail(Under(s, other)) else []
        case Gone(_, _, ofLabel) => if ofLabel then Under(s, other) else Tail(Under(s, other))
  }

  lemma StepFollows(s: Store, v': Vol, e: Event) returns (s': Store)
    requires Inv(s) && Step(s.vol, s.dir, s.list, e, v')
    ensures Inv(s') && s'.vol == v' && s'.dir == s.dir && s'.list == s.list
    ensures Follows(s, e, s')
    ensures e.Stored? ==> Slots(s') == Slots(s)
  {
    hide Inv, CString, Created, Deleted, WriteFrom, Kept, DirSlots, Contents, D.Hits, Inserted, Ahead, TakesLabel;
    match e
    case Made(name, attr, ret, ahead) => s' := CreateKeeps(s, v', name, attr, ret);
    case Stored(name, buf, kept) =>
      NamedIffFound(s, name);
      if D.Find(Slots(s), name).None? {
        s' := s;
      } else {
        s' := WriteKeeps(s, name, buf);
      }
    case Gone(name, result, _) => s' := DeleteKeeps(s, v', name, result);
  }

  /** A name is found exactly when it holds something, and then its first content. */
  lemma NamedIffFound(s: Store, name: seq<byte>)
    requires Inv(s) && |name| == 11
    ensures D.Find(Slots(s), name).None? <==> Under(s, name) == []
    ensures forall other: seq<byte> :: |other| == 11 && D.SameName(name, other) ==> Under(s, other) == Under(s, name)
    ensures Lookup(Slots(s), s.files, name) == if Under(s, name) == [] then None else Some(Under(s, name)[0])
  {
    hide DirSlots, D.Find, Lookup, D.SameName;
    LookupIsFirst(Slots(s), s.files, name);
    forall other: seq<byte> | |other| == 11 && D.SameName(name, other) ensures Under(s, other) == Under(s, name) {
      SameContents(Slots(s), s.files, name, other, 0);
    }
  }

  /** The main result: after any run each name holds exactly the contents, in order, that the same calls give
      its list; the first of them is what a search for the name leads to. */
  lemma {:induction false} RunIsLists(s: Store, vols: seq<Vol>, es: seq<Event>, m: Lists) returns (s': Store)
    requires Inv(s) && Models(s, m)
    requires |vols| == |es| + 1 && vols[0] == s.vol
    requires forall i :: 0 <= i < |es| ==> Step(vols[i], s.dir, s.list, es[i], vols[i + 1])
    ensures Inv(s') && s'.vol == vols[|es|] && s'.dir == s.dir && s'.list == s.list
    ensures Models(s', RelistAll(m, es))
    decreases |es|
  {
    hide Inv, Models, Step, Slots;
    if es == [] {
      s' := s;
    } else {
      var n := |es| - 1;
      var s1 := RunIsLists(s, vols[..n + 1], es[..n], m);
      s' := StepIsLists(s1, vols[n + 1], es[n], RelistAll(m, es[..n]));
    }
  }

  lemma StepIsLists(s: Store, v': Vol, e: Event, m: Lists) returns (s': Store)
    requires Inv(s) && Models(s, m) && Step(s.vol, s.dir, s.list, e, v')
    ensures Inv(s') && s'.vol == v' && s'.dir == s.dir && s'.list == s.list
    ensures Models(s', Relist(m, e))
  {
    hide Inv, CString, Under, Inserted, Created, Deleted, WriteFrom, Kept, Ahead, TakesLabel;
    s' := StepFollows(s, v', e);
  }

  /** ---- When names are not created twice ---- */

  /** What the calls mean to a map from names to contents. */
  function Replay1(m: map<seq<byte>, seq<byte>>, e: Event): (m': map<seq<byte>, seq<byte>>)
  {
    match e
    case Made(name, _, ret, _) => if ret != 0 then m[CString(name) := []] else m
    case Stored(name, _, kept) => if CString(name) in m then m[CString(name) := kept] else m
    case Gone(name, _, _) => m - {CString(name)}
  }

  function Replay(m: map<seq<byte>, seq<byte>>, es: seq<Event>): (m': map<seq<byte>, seq<byte>>)
  {
    if es == [] then m else Replay1(Replay(m, es[..|es| - 1]), es[|es| - 1])
  }

  /** The directory and its files are the map m. */
  ghost predicate IsMap(s: Store, m: map<seq<byte>, seq<byte>>)
  {
    forall name: seq<byte> :: |name| == 11 ==>
      Under(s, name) == if CString(name) in m then [m[CString(name)]] else []
  }

  /** No name is created that a slot answers to. */
  ghost predicate Fresh(v: Vol, list: seq<nat>, e: Event)
    requires |e.name| == 11
  {
    e.Made? ==> var d := DirSlots(v.data, list); forall k :: 0 <= k < |d| ==> !D.Hits(d[k], e.name, true)
  }

  lemma StepIsMap(s: Store, v': Vol, e: Event, m: map<seq<byte>, seq<byte>>) returns (s': Store)
    requires Inv(s) && D.UniqueNames(Slots(s)) && IsMap(s, m)
    requires Step(s.vol, s.dir, s.list, e, v') && Fresh(s.vol, s.list, e)
    ensures Inv(s') && D.UniqueNames(Slots(s')) && s'.vol == v' && s'.dir == s.dir && s'.list == s.list
    ensures IsMap(s', Replay1(m, e))
  {
    hide Inv, CString, Under, Inserted, Created, Deleted, WriteFrom, Kept, Ahead, TakesLabel, D.UniqueNames, D.Hits;
    s' := StepFollows(s, v', e);
    StepUnique(s, v', e, s');
    if e.Made? { FreshAhead(s, e); }
    if e.Gone? && e.ofLabel { LabelAlone(s, e.name); }
  }

  lemma StepUnique(s: Store, v': Vol, e: Event, s': Store)
    requires D.UniqueNames(Slots(s)) && Step(s.vol, s.dir, s.list, e, v') && Fresh(s.vol, s.list, e)
    requires s'.vol == v' && s'.list == s.list && (e.Stored? ==> Slots(s') == Slots(s))
    ensures D.UniqueNames(Slots(s'))
  {
    hide DirSlots, D.UniqueNames, D.Hits, WriteFrom, D.Add, D.Drop, D.Storable, TakesLabel, Ahead;
    var d := Slots(s);
    match e
    case Made(name, attr, ret, _) =>
      if FirstFree(s.vol.fat, 2) < |s.vol.fat| { D.AddKeepsUnique(d, name, attr, FirstFree(s.vol.fat, 2)); }
    case Stored(_, _, _) =>
    case Gone(name, _, _) => D.DropKeeps(d, name);
  }

  lemma FreshAhead(s: Store, e: Event)
    requires Inv(s) && e.Made? && |e.name| == 11 && Fresh(s.vol, s.list, e)
    ensures Ahead(Slots(s), e.name) == 0
    ensures forall other: seq<byte> :: |other| == 11 && D.SameName(e.name, other) ==> Under(s, other) == []
    ensures Inserted([], 0, []) == [[]]
  {
    hide DirSlots, D.SameName, DirOk, Contents;
    var d := Slots(s);
    forall k | 0 <= k < |d| ensures !D.Hits(d[k], e.name, false) { assert !D.Hits(d[k], e.name, true); }
    NoHits(d, e.name, 0, D.FirstVacant(d, 0));
    FailedSearch(d, e.name);
    forall other: seq<byte> | |other| == 11 && D.SameName(e.name, other) ensures Under(s, other) == [] {
      UnknownName(d, s.files, e.name, other);
    }
  }

  lemma FailedSearch(d: seq<D.Slot>, name: seq<byte>)
    requires |name| == 11 && forall k :: 0 <= k < |d| ==> !D.Hits(d[k], name, true)
    ensures D.Search(d, name, true, 0) == |d|
  {
    hide D.Hits;
    var r := D.Search(d, name, true, 0);
  }

  /** With unique names a name that a label has is no file's. */
  lemma LabelAlone(s: Store, name: seq<byte>)
    requires Inv(s) && D.UniqueNames(Slots(s)) && |name| == 11 && TakesLabel(Slots(s), name)
    ensures forall other: seq<byte> :: |other| == 11 && D.SameName(name, other) ==> Under(s, other) == []
  {
    var d := Slots(s);
    var at := D.Search(d, name, true, 0);
    forall k | 0 <= k < |d| ensures !D.Hits(d[k], name, false) {
      assert D.Hits(d[at], name, true);
      if k != at { assert !D.Hits(d[k], name, true); }
    }
    hide D.Hits, D.UniqueNames, DirOk, DirSlots, D.SameName;
    NoneBehind(d, s.files, name, 0);
    NamedIffFound(s, name);
  }

  /** After a run that creates no name a slot answers to, the directory holds exactly the names, and each name
      exactly the contents, that the same calls give a map. */
  lemma {:induction false} RunIsMap(s: Store, vols: seq<Vol>, es: seq<Event>, m: map<seq<byte>, seq<byte>>)
        returns (s': Store)
    requires Inv(s) && D.UniqueNames(Slots(s)) && IsMap(s, m)
    requires |vols| == |es| + 1 && vols[0] == s.vol
    requires forall i :: 0 <= i < |es| ==>
               Step(vols[i], s.dir, s.list, es[i], vols[i + 1]) && Fresh(vols[i], s.list, es[i])
    ensures Inv(s') && D.UniqueNames(Slots(s')) && s'.vol == vols[|es|] && s'.dir == s.dir && s'.list == s.list
    ensures IsMap(s', Replay(m, es))
    decreases |es|
  {
    hide Inv, IsMap, Step, Slots, Fresh, D.UniqueNames;
    if es == [] {
      s' := s;
    } else {
      var n := |es| - 1;
      var s1 := RunIsMap(s, vols[..n + 1], es[..n], m);
      s' := StepIsMap(s1, vols[n + 1], es[n], Replay(m, es[..n]));
    }
  }

  /** What a name holds first is what a read along its chain gives. */
  lemma LookupReads(s: Store, name: seq<byte>)
    requires Inv(s) && |name| == 11 && Under(s, name) != []
    ensures D.Find(Slots(s), name).Some?
    ensures var h, content := D.Find(Slots(s), name).value.cluster, Under(s, name)[0];
      var l := F.ListOf(s.vol.fat, h);
      Chain(s.vol.fat, h, l) && ReadAlong(s.vol.data, l, |content|) == content
  {
    NamedIffFound(s, name);
    hide Contents;
    var h := D.Find(Slots(s), name).value.cluster;
    F.FilesMean(F.State(s.vol, s.files), s.own, h, h);
  }

  /** ---- The driver ---- */

  /** A call by name. */
  datatype Call = Make(name: seq<byte>, attr: byte) | Save(name: seq<byte>, buf: seq<byte>) | Remove(name: seq<byte>)

  predicate CallOk(c: Call)
  {
    && |c.name| == 11
    && match c
       case Make(name, attr) => D.Storable(name, attr)
       case Save(_, buf) => |buf| < 0x1_0000_0000
       case Remove(_) => true
  }

  /** The event reports the call. */
  predicate Reports(e: Event, c: Call)
  {
    match c
    case Make(name, attr) => e.Made? && e.name == name && e.attr == attr
    case Save(name, buf) => e.Stored? && e.name == name && e.buf == buf
    case Remove(name) => e.Gone? && e.name == name
  }

  /** fat32_create, fat32_find and fat32_write_file, or fat32_delete, on a drive: the directory goes on holding
      the lists that the calls make of it. */
  method Perform(dr: Fat32.Driver, dir: nat, c: Call, ghost s: Store, ghost m: Lists)
    returns (ghost s': Store, ghost e: Event)
    requires dr.Valid() && Inv(s) && s.vol == dr.View() && s.dir == dir && Models(s, m)
    requires CallOk(c)
    modifies dr.drive
    ensures dr.Valid() && Inv(s') && s'.vol == dr.View() && s'.dir == dir && s'.list == s.list
    ensures Reports(e, c) && Models(s', Relist(m, e))
  {
    hide Models, Deleted, Created, DirOk, CString, F.FileOk, Fat32.ViewOf, Ahead, TakesLabel;
    match c
    case Make(name, attr) =>
      var ret := Fat32Dirs.Create(dr, dir, name, attr, s.list);
      e := Made(name, attr, ret, Ahead(Slots(s), name));
      s' := StepIsLists(s, dr.View(), e, m);
    case Save(name, buf) =>
      var r := Fat32Dirs.Find(dr, dir, name, s.list);
      var h := 0;
      if r.Some? {
        h := r.value.cluster;
        HeadOfName(s, name);
        ChainClosed(s.vol.fat, h, F.ListOf(s.vol.fat, h));
        var ret := dr.WriteFile(h, buf, set x | x in F.ListOf(s.vol.fat, h));
      }
      e := Stored(name, buf, Kept(WriteFrom(s.vol, h, 0, buf), h, buf));
      s' := StepIsLists(s, dr.View(), e, m);
    case Remove(name) =>
      EntriesLeadIntoTable(s);
      var ret := Fat32Dirs.Delete(dr, dir, name, s.list);
      e := Gone(name, ret, TakesLabel(Slots(s), name));
      s' := StepIsLists(s, dr.View(), e, m);
  }

  /** A name leads to the head of a chain. */
  lemma HeadOfName(s: Store, name: seq<byte>)
    requires Inv(s) && |name| == 11 && D.Find(Slots(s), name).Some?
    ensures var h := D.Find(Slots(s), name).value.cluster; Chain(s.vol.fat, h, F.ListOf(s.vol.fat, h))
  {
    var k := FoundSlot(Slots(s), s.files, name);
    assert F.FileOk(F.State(s.vol, s.files), s.own, D.ClusterOf(Slots(s)[k]));
  }
}
