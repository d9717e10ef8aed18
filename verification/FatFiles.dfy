/** Whole files on FAT32 cluster chains: a write reads back, a delete frees its chain, and over any run
    of creations, writes and deletions the chains stay acyclic and disjoint and every file keeps what
    was last written to it (kernel/fs/fat32.c). */
module FatFiles {
  import opened Bytes
  import opened Disk
  import opened FatChains

  ghost predicate Disjoint(l: seq<nat>, m: seq<nat>)
  {
    forall x :: x in l ==> x !in m
  }

  function Elements(l: seq<nat>): (s: set<nat>)
    ensures forall x :: x in s <==> x in l
  {
    set x | x in l
  }

  lemma {:induction false} DistinctCount(l: seq<nat>)
    requires forall i, j :: 0 <= i < j < |l| ==> l[i] != l[j]
    ensures |Elements(l)| == |l|
  {
    if l != [] {
      DistinctCount(l[1..]);
      assert Elements(l) == Elements(l[1..]) + {l[0]};
      assert l[0] !in l[1..];
    }
  }

  lemma {:induction false} RoomMonotone(spc: nat, a: nat, b: nat)
    requires a <= b
    ensures Room(spc, a) <= Room(spc, b)
    decreases b - a
  {
    if a < b {
      RoomSucc(spc, b - 1);
      RoomMonotone(spc, a, b - 1);
    }
  }

  /** ---- Writing and reading back ---- */

  /** A write of buf at the head of a chain succeeds exactly when the chain and the free clusters hold
      it; then the same octets read back. It takes free clusters only, no more than it needs. */
  lemma WriteThenRead(v: Vol, first: nat, l: seq<nat>, buf: seq<byte>) returns (l': seq<nat>)
    requires Shaped(v) && l != [] && Chain(v.fat, first, l)
    ensures var r := WriteFrom(v, first, 0, buf);
      && Extends(v, r.vol, first, l, l')
      && (r.ok <==> |buf| <= Room(v.spc, |l| + |FreeSet(v.fat)|))
      && (r.ok <==> |buf| <= Room(v.spc, |l'|))
      && ReadAlong(r.vol.data, l', |buf|) == (if r.ok then buf else buf[..Room(v.spc, |l'|)])
      && FreeSet(r.vol.fat) == FreeSet(v.fat) - Elements(l'[|l|..])
      && |FreeSet(r.vol.fat)| + |l'| == |FreeSet(v.fat)| + |l|
      && (|l'| > |l| ==> Room(v.spc, |l'| - 1) < |buf|)
  {
    hide WriteFrom, Room, ReadAlong, Extends, FreeSet, Chain, Shaped, Elements;
    var r := WriteFrom(v, first, 0, buf);
    assert [] + l == l;
    l' := WriteExtends(v, first, [], l, first, 0, buf);
    assert l'[0..] == l';
    ClaimedCount(v, r.vol, first, l, l');
    if r.ok {
      RoomMonotone(v.spc, |l'|, |l| + |FreeSet(v.fat)|);
    }
  }

  lemma ClaimedCount(v: Vol, v': Vol, first: nat, l: seq<nat>, l': seq<nat>)
    requires Extends(v, v', first, l, l') && Chain(v.fat, first, l)
    ensures |l| <= |l'| && FreeSet(v'.fat) == FreeSet(v.fat) - Elements(l'[|l|..])
    ensures |FreeSet(v'.fat)| + |l'| == |FreeSet(v.fat)| + |l|
  {
    var claimed := l'[|l|..];
    forall x | 2 <= x < |v.fat| ensures (v'.fat[x] == 0) == (v.fat[x] == 0 && x !in claimed) {
      if x in l' {
        ChainInUse(v'.fat, first, l', x);
        assert l' == l + claimed;
        if x in l { ChainInUse(v.fat, first, l, x); }
      }
    }
    assert FreeSet(v'.fat) == FreeSet(v.fat) - Elements(claimed);
    forall i, j | 0 <= i < j < |claimed| ensures claimed[i] != claimed[j] {
      ChainAcyclic(v'.fat, first, l', |l| + i, |l| + j);
    }
    DistinctCount(claimed);
    assert Elements(claimed) <= FreeSet(v.fat);
  }

  /** A chain that shares no cluster with the written one keeps its links and its data, and the written
      chain still shares none with it. */
  lemma WriteLeavesOtherChains(v: Vol, v': Vol, first: nat, l: seq<nat>, l': seq<nat>, other: nat, m: seq<nat>)
    requires Extends(v, v', first, l, l')
    requires Chain(v.fat, other, m) && Disjoint(l, m)
    ensures Chain(v'.fat, other, m) && Disjoint(l', m)
    ensures forall want: nat :: ReadAlong(v'.data, m, want) == ReadAlong(v.data, m, want)
  {
    forall x | x in m ensures 2 <= x < |v.fat| && x !in l' {
      ChainInUse(v.fat, other, m, x);
    }
    ChainFrame(v.fat, v'.fat, other, m);
    forall want: nat ensures ReadAlong(v'.data, m, want) == ReadAlong(v.data, m, want) {
      ReadFrame(v.data, v'.data, m, want);
    }
  }

  lemma {:induction false} ReadFrame(data: seq<seq<Sector>>, data': seq<seq<Sector>>, l: seq<nat>, want: nat)
    requires |data'| == |data| && forall x :: x in l && x < |data| ==> data'[x] == data[x]
    ensures ReadAlong(data', l, want) == ReadAlong(data, l, want)
    decreases |l|
  {
    hide TakeSectors;
    if l != [] && want > 0 && l[0] < |data| {
      ReadFrame(data, data', l[1..], want - |TakeSectors(data[l[0]], 0, want)|);
    }
  }

  /** Asking for less gives a prefix. */
  lemma {:induction false} TakeShorter(sectors: seq<Sector>, s: nat, want: nat, less: nat)
    requires s <= |sectors| && less <= want
    ensures var all := TakeSectors(sectors, s, want);
      TakeSectors(sectors, s, less) == if less <= |all| then all[..less] else all
    decreases |sectors| - s
  {
    if s < |sectors| && less > SECTOR {
      TakeShorter(sectors, s + 1, want - SECTOR, less - SECTOR);
    }
  }

  lemma {:induction false} ReadShorter(data: seq<seq<Sector>>, l: seq<nat>, want: nat, less: nat)
    requires less <= |ReadAlong(data, l, want)|
    ensures ReadAlong(data, l, less) == ReadAlong(data, l, want)[..less]
    decreases |l|
  {
    hide TakeSectors;
    if less > 0 {
      assert l != [] && want > 0 && l[0] < |data|;
      TakeShorter(data[l[0]], 0, want, less);
      var all := TakeSectors(data[l[0]], 0, want);
      if less > |all| {
        ReadShorter(data, l[1..], want - |all|, less - |all|);
      } else {
        assert ReadAlong(data, l[1..], 0) == [];
      }
    }
  }

  /** ---- Deleting ---- */

  /** Every link stays in the table or ends the chain. */
  ghost predicate InRange(fat: seq<nat>)
  {
    |fat| <= EOF && forall c :: 0 <= c < |fat| ==> fat[c] < |fat| || fat[c] >= EOF
  }

  /** The loop that frees a chain: read the link, clear the entry, follow. It ends on every in-range
      table, cyclic or not, because an entry is cleared or the next step stops. */
  function FreeFrom(fat: seq<nat>, c: nat): (r: seq<nat>)
    requires InRange(fat) && (c < |fat| || c >= EOF)
    ensures |r| == |fat| && InRange(r)
    ensures forall x :: 0 <= x < |fat| ==> r[x] == fat[x] || (2 <= x && r[x] == 0)
    ensures 2 <= c < EOF ==> r[c] == 0
    decreases |fat| - |FreeSet(fat)|, c
  {
    assert |FreeSet(fat)| <= |fat| by { FreeBound(fat); }
    if c < 2 || c >= EOF then fat
    else
      assert fat[c] != 0 ==> |FreeSet(fat[c := 0])| > |FreeSet(fat)| by { FreeOneMore(fat, c); }
      assert fat[c] == 0 ==> fat[c := 0] == fat;
      assert |FreeSet(fat[c := 0])| <= |fat| by { FreeBound(fat[c := 0]); }
      FreeFrom(fat[c := 0], fat[c])
  }

  lemma FreeBound(fat: seq<nat>)
    ensures |FreeSet(fat)| <= |fat|
  {
    BelowCount(FreeSet(fat), |fat|);
  }

  lemma {:induction false} BelowCount(s: set<nat>, n: nat)
    requires forall x :: x in s ==> x < n
    ensures |s| <= n
    decreases n
  {
    if n == 0 {
      assert s == {};
    } else {
      BelowCount(s - {n - 1}, n - 1);
    }
  }

  lemma FreeOneMore(fat: seq<nat>, c: nat)
    requires 2 <= c < |fat|
    ensures FreeSet(fat[c := 0]) == FreeSet(fat) + {c}
    ensures fat[c] != 0 ==> |FreeSet(fat[c := 0])| == |FreeSet(fat)| + 1
  {
  }

  /** On a well-formed chain exactly its clusters are freed. */
  lemma {:induction false} FreeChain(fat: seq<nat>, c: nat, l: seq<nat>)
    requires InRange(fat) && Chain(fat, c, l)
    ensures forall x :: 0 <= x < |fat| ==> FreeFrom(fat, c)[x] == if x in l then 0 else fat[x]
    decreases |l|
  {
    if l != [] {
      var fat1 := fat[c := 0];
      forall x | x in l[1..] && x < |fat| ensures fat1[x] == fat[x] {
        var k: nat :| k < |l| - 1 && l[1..][k] == x;
        ChainAcyclic(fat, c, l, 0, k + 1);
      }
      ChainFrame(fat, fat1, fat[c], l[1..]);
      FreeChain(fat1, fat[c], l[1..]);
    }
  }

  /** Deleting a file frees the clusters of its chain, as many as the chain is long, and leaves every
      chain disjoint from it as it was. */
  lemma DeleteFrees(fat: seq<nat>, c: nat, l: seq<nat>)
    requires InRange(fat) && Chain(fat, c, l)
    ensures FreeSet(FreeFrom(fat, c)) == FreeSet(fat) + Elements(l)
    ensures |FreeSet(FreeFrom(fat, c))| == |FreeSet(fat)| + |l|
    ensures forall other: nat, m :: Chain(fat, other, m) && Disjoint(l, m) ==> Chain(FreeFrom(fat, c), other, m)
  {
    FreeChain(fat, c, l);
    var fat' := FreeFrom(fat, c);
    forall x | x in l ensures 2 <= x < |fat| && fat[x] != 0 { ChainInUse(fat, c, l, x); }
    assert FreeSet(fat') == FreeSet(fat) + Elements(l);
    forall i, j | 0 <= i < j < |l| ensures l[i] != l[j] { ChainAcyclic(fat, c, l, i, j); }
    DistinctCount(l);
    assert FreeSet(fat) !! Elements(l);
    forall other: nat, m | Chain(fat, other, m) && Disjoint(l, m) ensures Chain(fat', other, m) {
      ChainFrame(fat, fat', other, m);
    }
  }

  /** ---- Runs ---- */

  /** The clusters of the chain that starts at c. */
  ghost function ListOf(fat: seq<nat>, c: nat): (l: seq<nat>)
    ensures (exists m :: Chain(fat, c, m)) ==> Chain(fat, c, l)
  {
    if m: seq<nat> :| Chain(fat, c, m) then m else []
  }

  /** The volume and, by first cluster, what each file was last given. */
  datatype State = State(vol: Vol, files: map<nat, seq<byte>>)

  datatype Op = Create | Store(head: nat, buf: seq<byte>) | Delete(head: nat)

  /** One call: a file is created as one zeroed cluster; a write that runs out of clusters keeps what
      fitted; operations on files that do not exist do nothing. */
  ghost function Do(s: State, op: Op): (s': State)
    requires Shaped(s.vol) && InRange(s.vol.fat)
  {
    match op
    case Create =>
      var i := FirstFree(s.vol.fat, 2);
      if i == |s.vol.fat| then s
      else
        var data' := s.vol.data[i := seq<Sector>(s.vol.spc, _ => Zeros(512))];
        State(s.vol.(fat := s.vol.fat[i := LAST], data := data'), s.files[i := []])
    case Store(h, buf) =>
      if h !in s.files then s
      else
        var r := WriteFrom(s.vol, h, 0, buf);
        var room := Room(s.vol.spc, |ListOf(r.vol.fat, h)|);
        State(r.vol, s.files[h := if |buf| <= room then buf else buf[..room]])
    case Delete(h) =>
      if h !in s.files || h >= |s.vol.fat| then s
      else State(s.vol.(fat := FreeFrom(s.vol.fat, h)), s.files - {h})
  }

  /** own names the file each used cluster belongs to, or 0 for clusters of no file. */
  ghost predicate Inv(s: State, own: map<nat, nat>)
  {
    && Shaped(s.vol) && InRange(s.vol.fat)
    && (forall x: nat :: x in own ==> 2 <= x < |s.vol.fat| && (own[x] == 0 || own[x] in s.files))
    && (forall x: nat :: 2 <= x < |s.vol.fat| ==> (s.vol.fat[x] != 0 <==> x in own))
    && forall h :: h in s.files ==> FileOk(s, own, h)
  }

  ghost predicate FileOk(s: State, own: map<nat, nat>, h: nat)
    requires h in s.files
  {
    var l := ListOf(s.vol.fat, h);
    && l != [] && Chain(s.vol.fat, h, l)
    && (forall x :: x in l <==> x in own && own[x] == h)
    && ReadAlong(s.vol.data, l, |s.files[h]|) == s.files[h]
  }

  lemma FileParts(s: State, own: map<nat, nat>, h: nat)
    requires h in s.files && FileOk(s, own, h)
    ensures var l := ListOf(s.vol.fat, h);
      l != [] && Chain(s.vol.fat, h, l) && forall x :: x in l <==> x in own && own[x] == h
  {
  }

  lemma ExtendsParts(v: Vol, v': Vol, head: nat, l: seq<nat>, l': seq<nat>)
    requires Extends(v, v', head, l, l')
    ensures Chain(v'.fat, head, l') && l <= l' && v'.spc == v.spc && |v'.fat| == |v.fat|
  {
  }

  lemma ListIs(fat: seq<nat>, c: nat, l: seq<nat>)
    requires Chain(fat, c, l)
    ensures ListOf(fat, c) == l
  {
    ChainUnique(fat, c, l, ListOf(fat, c));
  }

  /** A file none of whose clusters or links changed is as it was. */
  lemma FileKept(s: State, own: map<nat, nat>, s': State, own': map<nat, nat>, h: nat)
    requires h in s.files && FileOk(s, own, h) && h in s'.files && s'.files[h] == s.files[h]
    requires |s'.vol.fat| == |s.vol.fat| == |s.vol.data| == |s'.vol.data|
    requires forall x :: x in ListOf(s.vol.fat, h) && x < |s.vol.fat| ==>
        s'.vol.fat[x] == s.vol.fat[x] && s'.vol.data[x] == s.vol.data[x]
    requires forall x :: (x in own && own[x] == h) == (x in own' && own'[x] == h)
    ensures FileOk(s', own', h)
  {
    var l := ListOf(s.vol.fat, h);
    ChainFrame(s.vol.fat, s'.vol.fat, h, l);
    ListIs(s'.vol.fat, h, l);
    ReadFrame(s.vol.data, s'.vol.data, l, |s.files[h]|);
  }

  lemma HeadInUse(s: State, own: map<nat, nat>, h: nat)
    requires h in s.files && FileOk(s, own, h)
    ensures h in own
  {
    assert ListOf(s.vol.fat, h)[0] == h;
  }

  /** A free cluster is the first cluster of no file. */
  lemma FreeIsNoHead(s: State, own: map<nat, nat>, h: nat)
    requires Inv(s, own) && 2 <= h < |s.vol.fat| && s.vol.fat[h] == 0
    ensures h !in s.files && forall x :: x in own ==> own[x] != h
  {
    hide FileOk;
    if h in s.files { HeadInUse(s, own, h); }
  }

  lemma CreatedFile(s': State, own': map<nat, nat>, i: nat)
    requires 2 <= i < |s'.vol.fat| && i < EOF && s'.vol.fat[i] >= EOF
    requires i in s'.files && s'.files[i] == []
    requires forall x :: x in own' && own'[x] == i <==> x == i
    ensures FileOk(s', own', i)
  {
    assert [i][1..] == [];
    ListIs(s'.vol.fat, i, [i]);
  }

  lemma CreateKeeps(s: State, own: map<nat, nat>) returns (own': map<nat, nat>)
    requires Inv(s, own)
    ensures Inv(Do(s, Create), own')
  {
    hide FreeFrom, Chain, FileOk, ListOf;
    var i := FirstFree(s.vol.fat, 2);
    if i == |s.vol.fat| {
      own' := own;
      assert Do(s, Create) == s;
    } else {
      own' := own[i := i];
      var s' := Do(s, Create);
      FreeIsNoHead(s, own, i);
      CreatedFile(s', own', i);
      forall h | h in s'.files && h != i ensures FileOk(s', own', h) {
        FileParts(s, own, h);
        FileKept(s, own, s', own', h);
      }
    }
  }

  /** The clusters l go to the file h. */
  ghost function Claim(own: map<nat, nat>, h: nat, l: seq<nat>): (own': map<nat, nat>)
    ensures forall x :: x in own' <==> x in own || x in l
    ensures forall x :: x in own' ==> own'[x] == if x in l then h else own[x]
  {
    map x | x in own.Keys + Elements(l) :: if x in l then h else own[x]
  }

  lemma StoreKeeps(s: State, own: map<nat, nat>, h: nat, buf: seq<byte>) returns (own': map<nat, nat>)
    requires Inv(s, own)
    ensures Inv(Do(s, Store(h, buf)), own') && StillUnowned(own, own')
  {
    hide FreeFrom, ReadAlong, Chain, WriteFrom, Room, FreeSet, Extends, FileOk, Claim, InRange, Shaped, Elements;
    if h !in s.files {
      own' := own;
    } else {
      FileParts(s, own, h);
      var l := ListOf(s.vol.fat, h);
      var l' := WriteThenRead(s.vol, h, l, buf);
      var s' := Do(s, Store(h, buf));
      ExtendsParts(s.vol, s'.vol, h, l, l');
      ListIs(s'.vol.fat, h, l');
      own' := Claim(own, h, l');
      UnownedStay(s, own, s', h, l, l');
      StoredOwners(s, own, s', h, l, l');
      StoredFile(s, own, s', own', h, l, l', buf);
      forall g | g in s'.files && g != h ensures FileOk(s', own', g) {
        OtherFileKept(s, own, s', own', h, l, l', g);
      }
    }
  }

  /** Used clusters of no file stay so. */
  ghost predicate StillUnowned(own: map<nat, nat>, own': map<nat, nat>)
  {
    forall x: nat :: x in own && own[x] == 0 ==> x in own' && own'[x] == 0
  }

  lemma UnownedStay(s: State, own: map<nat, nat>, s': State, h: nat, l: seq<nat>, l': seq<nat>)
    requires Inv(s, own) && h in s.files && l == ListOf(s.vol.fat, h) && Extends(s.vol, s'.vol, h, l, l')
    ensures StillUnowned(own, Claim(own, h, l'))
  {
    hide Claim, Chain, ListOf;
    FileParts(s, own, h);
    HeadNotZero(s, own, h);
    forall x: nat | x in own && own[x] == 0 ensures x !in l' { }
  }

  lemma HeadNotZero(s: State, own: map<nat, nat>, h: nat)
    requires h in s.files && FileOk(s, own, h)
    ensures h >= 2
  {
  }

  lemma StoredOwners(s: State, own: map<nat, nat>, s': State, h: nat, l: seq<nat>, l': seq<nat>)
    requires Inv(s, own) && h in s'.files && s.files.Keys <= s'.files.Keys
    requires Extends(s.vol, s'.vol, h, l, l') && Chain(s.vol.fat, h, l)
    requires forall x :: x in l ==> x in own
    ensures Shaped(s'.vol) && InRange(s'.vol.fat)
    ensures forall x: nat :: x in Claim(own, h, l') ==>
        2 <= x < |s'.vol.fat| && (Claim(own, h, l')[x] == 0 || Claim(own, h, l')[x] in s'.files)
    ensures forall x: nat :: 2 <= x < |s'.vol.fat| ==> (s'.vol.fat[x] != 0 <==> x in Claim(own, h, l'))
  {
    hide Claim, FileOk, Chain;
    StoredRange(s.vol, s'.vol, h, l, l');
  }

  lemma OtherFileKept(s: State, own: map<nat, nat>, s': State, own': map<nat, nat>, h: nat, l: seq<nat>,
      l': seq<nat>, g: nat)
    requires h in s.files && g in s.files && g != h && FileOk(s, own, h) && FileOk(s, own, g)
    requires l == ListOf(s.vol.fat, h) && Extends(s.vol, s'.vol, h, l, l')
    requires g in s'.files && s'.files[g] == s.files[g]
    requires own' == Claim(own, h, l')
    ensures FileOk(s', own', g)
  {
    hide ReadAlong;
    var m := ListOf(s.vol.fat, g);
    WriteLeavesOtherChains(s.vol, s'.vol, h, l, l', g, m);
    FileKept(s, own, s', own', g);
  }

  lemma StoredRange(v: Vol, v': Vol, h: nat, l: seq<nat>, l': seq<nat>)
    requires Extends(v, v', h, l, l') && Chain(v.fat, h, l) && InRange(v.fat)
    ensures InRange(v'.fat)
    ensures forall x :: x in l' ==> 2 <= x < |v.fat| && v'.fat[x] != 0
    ensures forall x :: 2 <= x < |v.fat| && x !in l' ==> v'.fat[x] == v.fat[x]
    ensures forall x :: x in l' && x !in l ==> v.fat[x] == 0
  {
    forall x | x in l' ensures 2 <= x < |v.fat| && v'.fat[x] != 0 && (v'.fat[x] < |v.fat| || v'.fat[x] >= EOF) {
      ChainInUse(v'.fat, h, l', x);
      var k: nat :| k < |l'| && l'[k] == x;
      ChainSuffix(v'.fat, h, l', k);
      if k + 1 < |l'| { ChainSuffix(v'.fat, h, l', k + 1); }
    }
  }

  lemma StoredFile(s: State, own: map<nat, nat>, s': State, own': map<nat, nat>, h: nat, l: seq<nat>, l': seq<nat>,
      buf: seq<byte>)
    requires h in s.files && FileOk(s, own, h) && l == ListOf(s.vol.fat, h) && l <= l'
    requires Chain(s'.vol.fat, h, l') && ListOf(s'.vol.fat, h) == l'
    requires own' == Claim(own, h, l')
    requires var room := Room(s'.vol.spc, |l'|);
      && s'.files == s.files[h := if |buf| <= room then buf else buf[..room]]
      && ReadAlong(s'.vol.data, l', |buf|) == (if |buf| <= room then buf else buf[..room])
    ensures FileOk(s', own', h)
  {
    hide Room, ReadAlong, Chain, ListOf, Elements;
    assert forall x :: x in l ==> x in l';
    assert forall x :: x in Elements(l') <==> x in l';
    if |buf| > Room(s'.vol.spc, |l'|) {
      ReadShorter(s'.vol.data, l', |buf|, Room(s'.vol.spc, |l'|));
    }
  }

  lemma DeleteKeeps(s: State, own: map<nat, nat>, h: nat) returns (own': map<nat, nat>)
    requires Inv(s, own)
    ensures Inv(Do(s, Delete(h)), own') && StillUnowned(own, own')
  {
    hide FreeFrom, ReadAlong, Chain;
    if h !in s.files || h >= |s.vol.fat| {
      own' := own;
    } else {
      assert FileOk(s, own, h);
      var l := ListOf(s.vol.fat, h);
      FreeChain(s.vol.fat, h, l);
      HeadNotZero(s, own, h);
      var s' := Do(s, Delete(h));
      own' := own - Elements(l);
      forall g | g in s'.files ensures FileOk(s', own', g) {
        assert FileOk(s, own, g);
        FileKept(s, own, s', own', g);
      }
    }
  }

  ghost function Run(s: State, ops: seq<Op>): (s': State)
    requires Shaped(s.vol) && InRange(s.vol.fat)
    decreases |ops|
  {
    if ops == [] then s
    else
      var s1 := Do(s, ops[0]);
      if Shaped(s1.vol) && InRange(s1.vol.fat) then Run(s1, ops[1..]) else s1
  }

  /** Every run keeps the chains of the files well-formed and disjoint, no cluster lost, and each file
      readable as it was last written. */
  lemma {:induction false} RunKeepsFiles(s: State, own: map<nat, nat>, ops: seq<Op>) returns (own': map<nat, nat>)
    requires Inv(s, own)
    ensures Inv(Run(s, ops), own')
    decreases |ops|
  {
    if ops == [] {
      own' := own;
    } else {
      var own1;
      match ops[0] {
        case Create => own1 := CreateKeeps(s, own);
        case Store(h, buf) => own1 := StoreKeeps(s, own, h, buf);
        case Delete(h) => own1 := DeleteKeeps(s, own, h);
      }
      own' := RunKeepsFiles(Do(s, ops[0]), own1, ops[1..]);
    }
  }

  /** What the invariant says of two files: their chains are acyclic, share nothing, and each reads back
      what it was last given. */
  lemma FilesMean(s: State, own: map<nat, nat>, h: nat, g: nat)
    requires Inv(s, own) && h in s.files && g in s.files
    ensures var l := ListOf(s.vol.fat, h);
      && Chain(s.vol.fat, h, l)
      && ReadAlong(s.vol.data, l, |s.files[h]|) == s.files[h]
      && (forall i, j :: 0 <= i < j < |l| ==> l[i] != l[j])
      && (h != g ==> Disjoint(l, ListOf(s.vol.fat, g)))
  {
    assert FileOk(s, own, h) && FileOk(s, own, g);
    var l := ListOf(s.vol.fat, h);
    forall i, j | 0 <= i < j < |l| ensures l[i] != l[j] { ChainAcyclic(s.vol.fat, h, l, i, j); }
  }
}
