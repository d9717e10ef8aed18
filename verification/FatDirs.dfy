/** FAT32 directories (kernel/fs/fat32.c:239-278, 375-499): slots of 32 octets, deleted slots, the end
    marker, and when creating, deleting and finding act as a map from names to entries. */
module FatDirs {
  import opened Wrappers
  import opened Bytes
  import opened FatNames
  import opened Bits

  type Slot = s: seq<byte> | |s| == 32 witness Zeros(32)

  const DELETED: byte := 0xE5
  const LONG_NAME: byte := 0x0F

  function NameOf(s: Slot): (n: seq<byte>)
    ensures |n| == 11
  {
    s[..11]
  }

  predicate Ends(s: Slot) { s[0] == 0 }

  predicate Vacant(s: Slot) { s[0] == 0 || s[0] == DELETED }

  /** Neither free nor part of a long name. */
  predicate IsEntry(s: Slot) { !Vacant(s) && s[11] != LONG_NAME }

  /** FAT32_ATTR_VOLUME. */
  predicate IsLabel(s: Slot) { (s[11] / 8) % 2 == 1 }

  function ClusterOf(s: Slot): (c: nat) { Le(s[20..22]) * 0x1_0000 + Le(s[26..28]) }

  function SizeOf(s: Slot): (n: nat) { Le(s[28..32]) }

  predicate IsDir(s: Slot) { (s[11] / 16) % 2 == 1 }

  /** k_strncmp over eleven octets finds no difference: both agree up to a first NUL. */
  predicate SameName(a: seq<byte>, b: seq<byte>)
    requires |a| == |b| == 11
  {
    CString(a) == CString(b)
  }

  /** The slot answers to name; fat32_find passes over volume labels, fat32_delete does not. */
  predicate Hits(s: Slot, name: seq<byte>, labels: bool)
    requires |name| == 11
  {
    && !Vacant(s) && s[11] != LONG_NAME && (labels || !IsLabel(s))
    && SameName(NameOf(s), name)
  }

  /** The first slot from i on that answers to name, |d| if the end marker or the end comes first. */
  function Search(d: seq<Slot>, name: seq<byte>, labels: bool, i: nat): (r: nat)
    requires |name| == 11 && i <= |d|
    ensures i <= r <= |d|
    ensures r < |d| ==> Hits(d[r], name, labels) && forall k :: i <= k < r ==> !Ends(d[k]) && !Hits(d[k], name, labels)
    decreases |d| - i
  {
    if i == |d| || Ends(d[i]) then |d|
    else if Hits(d[i], name, labels) then i
    else Search(d, name, labels, i + 1)
  }

  datatype Entry = Entry(isDir: bool, cluster: nat, size: nat)

  /** fat32_find. */
  function Find(d: seq<Slot>, name: seq<byte>): (r: Option<Entry>)
    requires |name| == 11
  {
    var i := Search(d, name, false, 0);
    if i == |d| then None else Some(Entry(IsDir(d[i]), ClusterOf(d[i]), SizeOf(d[i])))
  }

  /** The first slot an entry can be stored in, |d| if none. */
  function FirstVacant(d: seq<Slot>, i: nat): (r: nat)
    requires i <= |d|
    ensures i <= r <= |d|
    ensures r < |d| ==> Vacant(d[r])
    ensures forall k :: i <= k < r ==> !Vacant(d[k])
    decreases |d| - i
  {
    if i == |d| || Vacant(d[i]) then i else FirstVacant(d, i + 1)
  }

  function Packed(name: seq<byte>, attr: byte, hi: seq<byte>, lo: seq<byte>): (s: Slot)
    requires |name| == 11 && |hi| == |lo| == 2
    ensures NameOf(s) == name && s[11] == attr && s[20..22] == hi && s[26..28] == lo && s[28..32] == Zeros(4)
  {
    name + [attr] + Zeros(8) + hi + Zeros(4) + lo + Zeros(4)
  }

  /** The slot fat32_create writes. */
  function NewSlot(name: seq<byte>, attr: byte, cluster: nat): (s: Slot)
    requires |name| == 11
    ensures NameOf(s) == name && s[11] == attr && SizeOf(s) == 0
    ensures cluster < 0x1_0000_0000 ==> ClusterOf(s) == cluster
  {
    LeOfLeBytes(cluster / 0x1_0000, 2);
    LeOfLeBytes(cluster, 2);
    LeZeros(4);
    assert Pow256(2) == 0x1_0000;
    Packed(name, attr, LeBytes(cluster / 0x1_0000, 2), LeBytes(cluster, 2))
  }

  function Add(d: seq<Slot>, name: seq<byte>, attr: byte, cluster: nat): (d': seq<Slot>)
    requires |name| == 11
    ensures |d'| == |d|
  {
    var i := FirstVacant(d, 0);
    if i == |d| then d else d[i := NewSlot(name, attr, cluster)]
  }

  /** The slot fat32_delete marks. */
  function Drop(d: seq<Slot>, name: seq<byte>): (d': seq<Slot>)
    requires |name| == 11
    ensures |d'| == |d|
  {
    var i := Search(d, name, true, 0);
    if i == |d| then d else d[i := d[i][0 := DELETED]]
  }

  /** Everything behind an end marker is an end marker. */
  ghost predicate EndMarked(d: seq<Slot>)
  {
    forall i, j :: 0 <= i < j < |d| && Ends(d[i]) ==> Ends(d[j])
  }

  /** No two slots answer to the same name, labels included. */
  ghost predicate UniqueNames(d: seq<Slot>)
  {
    forall i, j, name: seq<byte> :: 0 <= i < j < |d| && |name| == 11 ==>
      !(Hits(d[i], name, true) && Hits(d[j], name, true))
  }

  /** A name an entry can be stored under, with attributes that make it visible. */
  predicate Storable(name: seq<byte>, attr: byte)
  {
    |name| == 11 && name[0] != 0 && name[0] != DELETED && (attr / 8) % 2 == 0
  }

  /** ---- Where a search ends ---- */

  lemma {:induction false} SearchIs(d: seq<Slot>, name: seq<byte>, labels: bool, i: nat, r: nat)
    requires |name| == 11 && i <= r <= |d|
    requires forall k :: i <= k < r ==> !Ends(d[k]) && !Hits(d[k], name, labels)
    requires r < |d| ==> Hits(d[r], name, labels)
    ensures Search(d, name, labels, i) == r
    decreases r - i
  {
    if i < r { SearchIs(d, name, labels, i + 1, r); }
  }

  /** The entry of the first slot that answers is the one found. */
  lemma FoundAt(d: seq<Slot>, name: seq<byte>, r: nat)
    requires |name| == 11 && r < |d| && Hits(d[r], name, false)
    requires forall k :: 0 <= k < r ==> !Ends(d[k]) && !Hits(d[k], name, false)
    ensures Find(d, name) == Some(Entry(IsDir(d[r]), ClusterOf(d[r]), SizeOf(d[r])))
  {
    hide Hits, Ends, ClusterOf, SizeOf;
    SearchIs(d, name, false, 0, r);
  }

  lemma FoundNone(d: seq<Slot>, name: seq<byte>, r: nat)
    requires |name| == 11 && r < |d| && Ends(d[r])
    requires forall k :: 0 <= k < r ==> !Ends(d[k]) && !Hits(d[k], name, false)
    ensures Find(d, name) == None
  {
    hide Hits, Ends, ClusterOf, SizeOf;
    SearchStops(d, name, false, 0, r);
  }

  /** An end marker stops a search. */
  lemma {:induction false} SearchStops(d: seq<Slot>, name: seq<byte>, labels: bool, i: nat, r: nat)
    requires |name| == 11 && i <= r < |d| && Ends(d[r])
    requires forall k :: i <= k < r ==> !Ends(d[k]) && !Hits(d[k], name, labels)
    ensures Search(d, name, labels, i) == |d|
    decreases r - i
  {
    if i < r { SearchStops(d, name, labels, i + 1, r); }
  }

  /** In a directory with an end marker a search fails exactly when no slot answers. */
  lemma {:induction false} SearchFails(d: seq<Slot>, name: seq<byte>, labels: bool, i: nat)
    requires |name| == 11 && i <= |d| && EndMarked(d)
    ensures Search(d, name, labels, i) == |d| <==> forall k :: i <= k < |d| ==> !Hits(d[k], name, labels)
    decreases |d| - i
  {
    if i < |d| && !Ends(d[i]) && !Hits(d[i], name, labels) { SearchFails(d, name, labels, i + 1); }
  }

  /** ---- Creating ---- */

  lemma StoredHits(s: Slot, name: seq<byte>, attr: byte)
    requires Storable(name, attr) && NameOf(s) == name && s[11] == attr
    ensures Hits(s, name, false) && !Ends(s)
  {
    hide CString;
    assert s[0] == NameOf(s)[0];
    assert attr != LONG_NAME;
  }

  /** An entry just created is the one found, whatever stands in the slots behind it, exactly when the
      directory had room and its name was not found in front of the slot taken; otherwise the name leads
      where it led. */
  lemma AddThenFind(d: seq<Slot>, name: seq<byte>, attr: byte, cluster: nat)
    requires Storable(name, attr) && cluster < 0x1_0000_0000
    ensures var v, r := FirstVacant(d, 0), Search(d, name, false, 0);
      Find(Add(d, name, attr, cluster), name) ==
      if v < |d| && v <= r then Some(Entry((attr / 16) % 2 == 1, cluster, 0)) else Find(d, name)
  {
    hide NewSlot, SizeOf, ClusterOf, CString;
    var i, r, d' := FirstVacant(d, 0), Search(d, name, false, 0), Add(d, name, attr, cluster);
    if i < |d| {
      var s := NewSlot(name, attr, cluster);
      StoredHits(s, name, attr);
      hide Hits;
      if r < i {
        SearchIs(d', name, false, 0, r);
      } else {
        forall k | 0 <= k < i ensures !Ends(d'[k]) && !Hits(d'[k], name, false) {
          if r == |d| { NotFoundBefore(d, name, 0, i, k); }
          assert d'[k] == d[k];
        }
        SearchIs(d', name, false, 0, i);
      }
    }
  }

  lemma {:induction false} NotFoundBefore(d: seq<Slot>, name: seq<byte>, from: nat, i: nat, k: nat)
    requires |name| == 11 && from <= k < i <= |d|
    requires Search(d, name, false, from) == |d|
    requires forall j :: from <= j < i ==> !Vacant(d[j])
    ensures !Hits(d[k], name, false)
    decreases k - from
  {
    if from < k { NotFoundBefore(d, name, from + 1, i, k); }
  }

  /** Creating keeps the end marker convention. */
  lemma AddKeepsEnd(d: seq<Slot>, name: seq<byte>, attr: byte, cluster: nat)
    requires EndMarked(d) && Storable(name, attr)
    ensures EndMarked(Add(d, name, attr, cluster))
  {
    var d' := Add(d, name, attr, cluster);
    var v := FirstVacant(d, 0);
    assert forall k :: 0 <= k < v ==> !Ends(d[k]);
    forall i, j | 0 <= i < j < |d| && Ends(d'[i]) ensures Ends(d'[j]) {
      assert i != v && Ends(d[i]);
    }
  }

  lemma SameHit(s: Slot, t: Slot, n: seq<byte>)
    requires |n| == 11
    ensures Hits(s, n, true) && Hits(t, n, true) ==> Hits(s, NameOf(t), true)
  {
  }

  /** Creating a name that no slot answers to keeps names unique. */
  lemma AddKeepsUnique(d: seq<Slot>, name: seq<byte>, attr: byte, cluster: nat)
    requires UniqueNames(d) && Storable(name, attr)
    requires forall k :: 0 <= k < |d| ==> !Hits(d[k], name, true)
    ensures UniqueNames(Add(d, name, attr, cluster))
  {
    var d', v := Add(d, name, attr, cluster), FirstVacant(d, 0);
    forall i, j, n: seq<byte> | 0 <= i < j < |d| && |n| == 11
      ensures !(Hits(d'[i], n, true) && Hits(d'[j], n, true))
    {
      if v < |d| {
        SameHit(d[i], d'[v], n);
        SameHit(d[j], d'[v], n);
      }
    }
  }

  /** Slot v, which is vacant, gets a new entry that does not answer to other. */
  ghost predicate Filled(d: seq<Slot>, d': seq<Slot>, v: nat, other: seq<byte>, labels: bool)
  {
    && v < |d| == |d'| && |other| == 11
    && (forall k :: 0 <= k < |d| && k != v ==> d'[k] == d[k])
    && Vacant(d[v]) && !Ends(d'[v]) && !Hits(d'[v], other, labels)
  }

  /** Behind the slot the searches are the same. */
  lemma {:induction false} FilledBehind(d: seq<Slot>, d': seq<Slot>, v: nat, other: seq<byte>, labels: bool, i: nat)
    requires Filled(d, d', v, other, labels) && v < i <= |d|
    ensures Search(d', other, labels, i) == Search(d, other, labels, i)
    decreases |d| - i
  {
    hide Ends, Hits;
    if i < |d| { FilledBehind(d, d', v, other, labels, i + 1); }
  }

  /** From slot i on: the search goes on behind slot v where it ended before, if v was an end marker. */
  lemma {:induction false} FilledSearch(d: seq<Slot>, d': seq<Slot>, v: nat, other: seq<byte>, labels: bool, i: nat)
    requires Filled(d, d', v, other, labels) && i <= v && forall k :: i <= k < v ==> !Ends(d[k])
    ensures var r, r' := Search(d, other, labels, i), Search(d', other, labels, i);
      if r < v then r' == r
      else r' == Search(d, other, labels, v + 1) && (if Ends(d[v]) then r == |d| else r == r')
    decreases v - i
  {
    hide Hits;
    if i == v {
      assert !Hits(d[v], other, labels) by { VacantHitsNothing(d[v], other, labels); }
      FilledBehind(d, d', v, other, labels, v + 1);
    } else if !Hits(d[i], other, labels) {
      FilledSearch(d, d', v, other, labels, i + 1);
    }
  }

  lemma VacantHitsNothing(s: Slot, name: seq<byte>, labels: bool)
    requires |name| == 11 && Vacant(s)
    ensures !Hits(s, name, labels)
  {
  }

  /** The first vacant slot is an end marker that stops the search for other in front of a slot that
      answers to it. */
  predicate Uncovers(d: seq<Slot>, other: seq<byte>, labels: bool)
    requires |other| == 11
  {
    var v := FirstVacant(d, 0);
    v < |d| && Ends(d[v]) && Search(d, other, labels, 0) == |d| && Search(d, other, labels, v + 1) < |d|
  }

  /** Creating leaves the search for another name alone exactly when it does not use up an end marker
      in front of an entry of that name which no search reached before. */
  lemma AddKeepsOtherIff(d: seq<Slot>, name: seq<byte>, attr: byte, cluster: nat, other: seq<byte>, labels: bool)
    requires Storable(name, attr) && |other| == 11 && !SameName(name, other)
    ensures Search(Add(d, name, attr, cluster), other, labels, 0) == Search(d, other, labels, 0) <==>
            !Uncovers(d, other, labels)
    ensures !labels ==> (Find(Add(d, name, attr, cluster), other) == Find(d, other) <==> !Uncovers(d, other, labels))
  {
    var v, d' := FirstVacant(d, 0), Add(d, name, attr, cluster);
    if v < |d| {
      assert !Hits(d'[v], other, labels) && !Ends(d'[v]);
      VacantHitsNothing(d[v], other, labels);
      hide Hits, Add;
      FilledSearch(d, d', v, other, labels, 0);
    }
  }

  /** Under the end marker convention creating leaves every other name's result alone. */
  lemma AddKeepsOthers(d: seq<Slot>, name: seq<byte>, attr: byte, cluster: nat, other: seq<byte>, labels: bool)
    requires EndMarked(d) && Storable(name, attr) && |other| == 11 && !SameName(name, other)
    ensures Search(Add(d, name, attr, cluster), other, labels, 0) == Search(d, other, labels, 0)
    ensures Find(Add(d, name, attr, cluster), other) == Find(d, other)
  {
    NothingBehind(d, other, labels);
    NothingBehind(d, other, false);
    AddKeepsOtherIff(d, name, attr, cluster, other, labels);
    AddKeepsOtherIff(d, name, attr, cluster, other, false);
  }

  lemma NothingBehind(d: seq<Slot>, other: seq<byte>, labels: bool)
    requires EndMarked(d) && |other| == 11
    ensures var v := FirstVacant(d, 0); v < |d| && Ends(d[v]) ==> Search(d, other, labels, v + 1) == |d|
  {
    var v := FirstVacant(d, 0);
    if v < |d| && Ends(d[v]) && v + 1 < |d| { assert Ends(d[v + 1]); }
  }

  /** Without the convention creating can bring back what lay behind the end marker. */
  lemma StaleSlotReturns()
    ensures exists d: seq<Slot>, name: seq<byte>, other: seq<byte> ::
        && Storable(name, 0x20) && |other| == 11 && !SameName(name, other)
        && Find(d, other) == None && Find(Add(d, name, 0x20, 5), other) != None
  {
    var name: seq<byte> := [65] + seq<byte>(10, _ => 32);
    var other: seq<byte> := [66] + seq<byte>(10, _ => 32);
    var stale := NewSlot(other, 0x20, 7);
    var end: Slot := Zeros(32);
    var d: seq<Slot> := [end, stale];
    assert FirstVacant(d, 0) == 0;
    UntilIs(name, 0, 11);
    UntilIs(other, 0, 11);
    assert CString(name)[0] != CString(other)[0];
    var d' := Add(d, name, 0x20, 5);
    assert d' == [NewSlot(name, 0x20, 5), stale];
    SearchIs(d', other, false, 0, 1);
    assert Find(d, other) == None;
    assert Find(d', other) != None;
  }

  /** ---- Deleting ---- */

  /** A deleted slot answers to nothing. */
  lemma DroppedSlot(s: Slot, name: seq<byte>, labels: bool)
    requires |name| == 11
    ensures !Hits(s[0 := DELETED], name, labels) && !Ends(s[0 := DELETED])
  {
  }

  /** Deleting keeps the end marker convention and unique names. */
  lemma DropKeeps(d: seq<Slot>, name: seq<byte>)
    requires |name| == 11
    ensures EndMarked(d) ==> EndMarked(Drop(d, name))
    ensures UniqueNames(d) ==> UniqueNames(Drop(d, name))
  {
    var d', v := Drop(d, name), Search(d, name, true, 0);
    if EndMarked(d) {
      forall i, j | 0 <= i < j < |d| && Ends(d'[i]) ensures Ends(d'[j]) {
        assert i != v && Ends(d[i]);
      }
    }
    if UniqueNames(d) {
      forall i, j, n: seq<byte> | 0 <= i < j < |d| && |n| == 11
        ensures !(Hits(d'[i], n, true) && Hits(d'[j], n, true))
      {
        if v < |d| { DroppedSlot(d[v], n, true); }
      }
    }
  }

  /** After a deletion the name is not found exactly when every visible slot of that name was the slot
      deleted: not when a volume label of the same name came first, nor when the name was there twice. */
  lemma DropThenFind(d: seq<Slot>, name: seq<byte>)
    requires |name| == 11 && EndMarked(d)
    ensures Find(Drop(d, name), name) == None
       <==> forall k :: 0 <= k < |d| && Hits(d[k], name, false) ==> k == Search(d, name, true, 0)
  {
    var d', v := Drop(d, name), Search(d, name, true, 0);
    DropKeeps(d, name);
    SearchFails(d', name, false, 0);
    SearchFails(d, name, true, 0);
    hide EndMarked;
    if v < |d| {
      DroppedSlot(d[v], name, false);
      hide Hits, Ends;
      forall k | 0 <= k < |d| ensures Hits(d'[k], name, false) == (k != v && Hits(d[k], name, false)) { }
    } else {
      forall k | 0 <= k < |d| ensures !Hits(d[k], name, false) { assert !Hits(d[k], name, true); }
    }
  }

  /** With unique names, labels included, a deleted name is not found. */
  lemma DropThenGone(d: seq<Slot>, name: seq<byte>)
    requires |name| == 11 && EndMarked(d) && UniqueNames(d)
    ensures Find(Drop(d, name), name) == None
  {
    DropThenFind(d, name);
    SearchFails(d, name, true, 0);
  }

  /** fat32_delete may take a volume label for the file: the file is still found. */
  lemma LabelDeletedInstead()
    ensures exists d: seq<Slot>, name: seq<byte> :: |name| == 11 && EndMarked(d) && Find(Drop(d, name), name) != None
  {
    var name: seq<byte> := [65] + seq<byte>(10, _ => 32);
    var d := [NewSlot(name, 0x08, 0), NewSlot(name, 0x20, 7)];
    assert Search(d, name, true, 0) == 0;
    var d' := Drop(d, name);
    SearchIs(d', name, false, 0, 1);
    assert EndMarked(d);
    assert Find(d', name) != None;
  }

  /** A slot that neither ends a search nor answers, before and after, does not matter to it. */
  lemma {:induction false} SearchIgnores(d: seq<Slot>, d': seq<Slot>, v: nat, name: seq<byte>, labels: bool, i: nat)
    requires v < |d| == |d'| && |name| == 11 && i <= |d| && forall k :: 0 <= k < |d| && k != v ==> d'[k] == d[k]
    requires !Ends(d[v]) && !Ends(d'[v]) && !Hits(d[v], name, labels) && !Hits(d'[v], name, labels)
    ensures Search(d', name, labels, i) == Search(d, name, labels, i)
    decreases |d| - i
  {
    hide Ends, Hits;
    if i < |d| { SearchIgnores(d, d', v, name, labels, i + 1); }
  }

  /** Deleting leaves every other name's result alone, in any directory. */
  lemma DropKeepsOthers(d: seq<Slot>, name: seq<byte>, other: seq<byte>)
    requires |name| == 11 && |other| == 11 && !SameName(name, other)
    ensures Find(Drop(d, name), other) == Find(d, other)
  {
    var d', v := Drop(d, name), Search(d, name, true, 0);
    if v < |d| {
      DroppedSlot(d[v], other, false);
      assert !Hits(d[v], other, false);
      SearchIgnores(d, d', v, other, false, 0);
    }
  }

  /** ---- Octet by octet ---- */

  lemma LabelBit(a: byte)
    ensures And8(a, 0x08) == if (a / 8) % 2 == 1 then 8 else 0
  {
    hide Bitwise;
    MaskOverOne(a, 8, 4, 8);
    MaskOverOne(a / 2, 4, 2, 7);
    MaskOverOne(a / 4, 2, 1, 6);
    OddMask(a / 8, 0, 5);
    ZeroAbsorbs(a / 16, 4);
  }

  lemma DirBit(a: byte)
    ensures And8(a, 0x10) == if (a / 16) % 2 == 1 then 16 else 0
  {
    hide Bitwise;
    MaskOverFour(a, 16, 1, 8);
    OddMask(a / 16, 0, 4);
    ZeroAbsorbs(a / 32, 3);
  }

  /** What a slot says, by its octets: the attribute bits, and cluster and size least significant octet
      first, the cluster in two places. */
  lemma SlotOctets(s: Slot)
    ensures IsDir(s) <==> And8(s[11], 0x10) != 0
    ensures IsLabel(s) <==> And8(s[11], 0x08) != 0
    ensures ClusterOf(s) == FromOctets(s[26], s[27], s[20], s[21])
    ensures SizeOf(s) == FromOctets(s[28], s[29], s[30], s[31])
  {
    hide And8, Le;
    DirBit(s[11]);
    LabelBit(s[11]);
    LeOfTwo(s[20..22]);
    LeOfTwo(s[26..28]);
    LeOfFour(s[28..32]);
  }

  /** A slot answers to a name without NUL exactly when it is in use, no part of a long name, no volume
      label, and its first eleven octets are the name. */
  lemma HitsIff(s: Slot, name: seq<byte>)
    requires |name| == 11 && 0 !in name
    ensures Hits(s, name, false)
       <==> s[0] != 0 && s[0] != 0xE5 && s[11] != 0x0F && And8(s[11], 0x08) == 0 && s[..11] == name
  {
    hide And8;
    LabelBit(s[11]);
    UntilIs(name, 0, 11);
    if CString(s[..11]) == name { assert s[..11][..11] == s[..11]; }
  }

  /** What the search finds: the first slot in use of that name, if no end marker stands in front of it. */
  lemma FoundOctets(d: seq<Slot>, name: seq<byte>, r: nat)
    requires |name| == 11 && 0 !in name && r < |d|
    requires forall k :: 0 <= k < r ==> d[k][0] != 0 && d[k][..11] != name
    requires d[r][0] != 0 && d[r][0] != 0xE5 && d[r][11] != 0x0F && And8(d[r][11], 0x08) == 0 && d[r][..11] == name
    ensures var s := d[r];
      Find(d, name) == Some(Entry(And8(s[11], 0x10) != 0, FromOctets(s[26], s[27], s[20], s[21]),
                                  FromOctets(s[28], s[29], s[30], s[31])))
  {
    hide And8;
    HitsIff(d[r], name);
    forall k | 0 <= k < r ensures !Ends(d[k]) && !Hits(d[k], name, false) { HitsIff(d[k], name); }
    FoundAt(d, name, r);
    SlotOctets(d[r]);
  }

  /** The octets of a new slot: the name, the attributes, the cluster in two halves, and zeros. */
  lemma NewSlotOctets(name: seq<byte>, attr: byte, a: byte, b: byte, c: byte, e: byte)
    requires |name| == 11
    ensures NewSlot(name, attr, FromOctets(a, b, c, e))
         == name + [attr, 0, 0, 0, 0, 0, 0, 0, 0, c, e, 0, 0, 0, 0, a, b, 0, 0, 0, 0]
  {
    hide LeBytes;
    var n := FromOctets(a, b, c, e);
    TwoLeBytes(n, a, b, c as nat + 0x100 * e as nat);
    TwoLeBytes(n / 0x1_0000, c, e, 0);
    assert NewSlot(name, attr, n) == name + [attr] + Zeros(8) + [c, e] + Zeros(4) + [a, b] + Zeros(4);
  }

  lemma TwoLeBytes(n: nat, a: byte, b: byte, rest: nat)
    requires n == a as nat + 0x100 * b as nat + 0x1_0000 * rest
    ensures LeBytes(n, 2) == [a, b] && n / 0x1_0000 == rest
  {
    var m := b as nat + 0x100 * rest;
    assert n == 0x100 * m + a;
    assert n / 0x100 == m;
    assert LeBytes(n, 2) == [n % 0x100] + LeBytes(n / 0x100, 1);
    assert LeBytes(n / 0x100, 1) == [(n / 0x100) % 0x100] + LeBytes(n / 0x100 / 0x100, 0);
  }
}
