/** A FAT32 directory read with the contents of its files: under each name a list, one content for each slot
    that answers to it, in the order in which they are found (kernel/fs/fat32.c:239-278, 375-499). Creating
    puts an entry into the list, writing changes its head, deleting takes the head away. */
module FatLists {
  import opened Wrappers
  import opened Bytes
  import D = FatDirs

  type Files = map<nat, seq<byte>>

  /** The slot names a file or a directory. */
  predicate Plain(s: D.Slot) { D.IsEntry(s) && !D.IsLabel(s) }

  predicate Label(s: D.Slot) { D.IsEntry(s) && D.IsLabel(s) }

  /** Every name leads to the head of a file, no two to the same; volume labels have no clusters. */
  ghost predicate EntriesOk(d: seq<D.Slot>, files: Files)
  {
    && (forall k :: 0 <= k < |d| && Plain(d[k]) ==> D.ClusterOf(d[k]) in files)
    && (forall k :: 0 <= k < |d| && Label(d[k]) ==> D.ClusterOf(d[k]) < 2)
    && forall j, k :: 0 <= j < k < |d| && Plain(d[j]) && Plain(d[k]) ==> D.ClusterOf(d[j]) != D.ClusterOf(d[k])
  }

  ghost predicate DirOk(d: seq<D.Slot>, files: Files)
  {
    D.EndMarked(d) && EntriesOk(d, files)
  }

  /** What one slot adds to the list of a name. */
  function Piece(s: D.Slot, files: Files, name: seq<byte>): (p: seq<seq<byte>>)
    requires |name| == 11
    ensures |p| <= 1
  {
    if D.Hits(s, name, false) && D.ClusterOf(s) in files then [files[D.ClusterOf(s)]] else []
  }

  /** The contents under a name from slot i on. */
  function Listing(d: seq<D.Slot>, files: Files, name: seq<byte>, i: nat): (r: seq<seq<byte>>)
    requires |name| == 11 && i <= |d|
    decreases |d| - i
  {
    if i == |d| || D.Ends(d[i]) then [] else Piece(d[i], files, name) + Listing(d, files, name, i + 1)
  }

  function Contents(d: seq<D.Slot>, files: Files, name: seq<byte>): (r: seq<seq<byte>>)
    requires |name| == 11
  {
    Listing(d, files, name, 0)
  }

  /** Those of the slots from i to j. */
  function Between(d: seq<D.Slot>, files: Files, name: seq<byte>, i: nat, j: nat): (r: seq<seq<byte>>)
    requires |name| == 11 && i <= j <= |d|
    decreases j - i
  {
    if i == j then [] else Piece(d[i], files, name) + Between(d, files, name, i + 1, j)
  }

  lemma {:induction false} ListingSplit(d: seq<D.Slot>, files: Files, name: seq<byte>, i: nat, j: nat)
    requires |name| == 11 && i <= j <= |d| && forall k :: i <= k < j ==> !D.Ends(d[k])
    ensures Listing(d, files, name, i) == Between(d, files, name, i, j) + Listing(d, files, name, j)
    decreases j - i
  {
    hide Piece;
    if i < j { ListingSplit(d, files, name, i + 1, j); }
  }

  /** Slots that add the same. */
  ghost predicate SamePiece(s: D.Slot, s': D.Slot, files: Files, files': Files, name: seq<byte>)
    requires |name| == 11
  {
    D.Ends(s') == D.Ends(s) && Piece(s', files', name) == Piece(s, files, name)
  }

  lemma {:induction false} ListingSame(d: seq<D.Slot>, d': seq<D.Slot>, files: Files, files': Files, name: seq<byte>,
        i: nat)
    requires |name| == 11 && i <= |d| == |d'|
    requires forall k :: i <= k < |d| ==> SamePiece(d[k], d'[k], files, files', name)
    ensures Listing(d', files', name, i) == Listing(d, files, name, i)
    decreases |d| - i
  {
    if i < |d| {
      assert SamePiece(d[i], d'[i], files, files', name);
      hide Piece;
      ListingSame(d, d', files, files', name, i + 1);
    }
  }

  lemma {:induction false} BetweenSame(d: seq<D.Slot>, d': seq<D.Slot>, files: Files, files': Files, name: seq<byte>,
        i: nat, j: nat)
    requires |name| == 11 && i <= j <= |d| == |d'|
    requires forall k :: i <= k < j ==> SamePiece(d[k], d'[k], files, files', name)
    ensures Between(d', files', name, i, j) == Between(d, files, name, i, j)
    decreases j - i
  {
    if i < j {
      assert SamePiece(d[i], d'[i], files, files', name);
      hide Piece;
      BetweenSame(d, d', files, files', name, i + 1, j);
    }
  }

  lemma {:induction false} BetweenNone(d: seq<D.Slot>, files: Files, name: seq<byte>, i: nat, j: nat)
    requires |name| == 11 && i <= j <= |d| && forall k :: i <= k < j ==> !D.Hits(d[k], name, false)
    ensures Between(d, files, name, i, j) == []
    decreases j - i
  {
    hide D.Hits;
    if i < j { BetweenNone(d, files, name, i + 1, j); }
  }

  lemma {:induction false} NoneBehind(d: seq<D.Slot>, files: Files, name: seq<byte>, i: nat)
    requires |name| == 11 && i <= |d| && forall k :: i <= k < |d| ==> !D.Hits(d[k], name, false)
    ensures Listing(d, files, name, i) == []
    decreases |d| - i
  {
    hide D.Hits;
    if i < |d| { NoneBehind(d, files, name, i + 1); }
  }

  /** A list around one slot that no end marker precedes. */
  lemma Around(d: seq<D.Slot>, files: Files, name: seq<byte>, at: nat)
    requires |name| == 11 && at < |d| && forall k :: 0 <= k < at ==> !D.Ends(d[k])
    ensures Contents(d, files, name) == Between(d, files, name, 0, at)
            + (if D.Ends(d[at]) then [] else Piece(d[at], files, name) + Listing(d, files, name, at + 1))
  {
    ListingSplit(d, files, name, 0, at);
  }

  /** ---- Finding ---- */

  /** The first of the list is what the name is found to hold. */
  lemma {:induction false} FirstIsFound(d: seq<D.Slot>, files: Files, name: seq<byte>, i: nat)
    requires |name| == 11 && i <= |d| && EntriesOk(d, files)
    ensures var r := D.Search(d, name, false, i);
      && (r == |d| <==> Listing(d, files, name, i) == [])
      && (r < |d| ==> Plain(d[r]) && D.ClusterOf(d[r]) in files
                      && Listing(d, files, name, i)[0] == files[D.ClusterOf(d[r])])
    decreases |d| - i
  {
    hide D.ClusterOf, CString;
    if i < |d| && !D.Ends(d[i]) { FirstIsFound(d, files, name, i + 1); }
  }

  /** What the directory has under a name. */
  function Lookup(d: seq<D.Slot>, files: Files, name: seq<byte>): (r: Option<seq<byte>>)
    requires |name| == 11
  {
    match D.Find(d, name)
    case None => None
    case Some(e) => if e.cluster in files then Some(files[e.cluster]) else None
  }

  lemma LookupIsFirst(d: seq<D.Slot>, files: Files, name: seq<byte>)
    requires |name| == 11 && EntriesOk(d, files)
    ensures var c := Contents(d, files, name);
      && (D.Find(d, name).None? <==> c == [])
      && Lookup(d, files, name) == if c == [] then None else Some(c[0])
  {
    hide D.ClusterOf, D.SizeOf, D.Hits, EntriesOk;
    FirstIsFound(d, files, name, 0);
  }

  /** Names that agree up to a NUL are one name. */
  lemma {:induction false} SameContents(d: seq<D.Slot>, files: Files, name: seq<byte>, other: seq<byte>, i: nat)
    requires |name| == |other| == 11 && D.SameName(name, other) && i <= |d|
    ensures Listing(d, files, other, i) == Listing(d, files, name, i)
    decreases |d| - i
  {
    hide CString, D.ClusterOf;
    if i < |d| { SameContents(d, files, name, other, i + 1); }
  }

  /** ---- Creating ---- */

  function Inserted(c: seq<seq<byte>>, at: nat, x: seq<byte>): (r: seq<seq<byte>>)
  {
    if at <= |c| then c[..at] + [x] + c[at..] else c
  }

  /** How many slots from i to j answer to the name. */
  function Hits(d: seq<D.Slot>, name: seq<byte>, i: nat, j: nat): (n: nat)
    requires |name| == 11 && i <= j <= |d|
    decreases j - i
  {
    if i == j then 0 else (if D.Hits(d[i], name, false) then 1 else 0) + Hits(d, name, i + 1, j)
  }

  /** How many come before the slot a new entry takes. */
  function Ahead(d: seq<D.Slot>, name: seq<byte>): (n: nat)
    requires |name| == 11
  {
    Hits(d, name, 0, D.FirstVacant(d, 0))
  }

  lemma {:induction false} HitsAreBetween(d: seq<D.Slot>, files: Files, name: seq<byte>, i: nat, j: nat)
    requires |name| == 11 && i <= j <= |d| && EntriesOk(d, files)
    ensures |Between(d, files, name, i, j)| == Hits(d, name, i, j)
    decreases j - i
  {
    hide D.ClusterOf, D.Hits;
    if i < j {
      if D.Hits(d[i], name, false) { HitsPlain(d[i], name, false); }
      HitsAreBetween(d, files, name, i + 1, j);
    }
  }

  lemma AddedDir(d: seq<D.Slot>, files: Files, name: seq<byte>, attr: byte, n: nat)
    requires DirOk(d, files) && D.Storable(name, attr)
    requires n !in files && n < 0x1_0000_0000 && D.FirstVacant(d, 0) < |d|
    ensures DirOk(D.Add(d, name, attr, n), files[n := []])
  {
    D.AddKeepsEnd(d, name, attr, n);
    hide D.EndMarked, D.ClusterOf, D.NewSlot, D.FirstVacant;
    OneMoreEntry(d, files, D.FirstVacant(d, 0), D.NewSlot(name, attr, n), n);
  }

  lemma OneMoreEntry(d: seq<D.Slot>, files: Files, v: nat, slot: D.Slot, n: nat)
    requires EntriesOk(d, files) && n !in files && v < |d| && D.ClusterOf(slot) == n && !D.IsLabel(slot)
    ensures EntriesOk(d[v := slot], files[n := []])
  {
    hide D.ClusterOf, D.IsLabel, D.Vacant;
  }

  /** A slot whose file stays adds the same. */
  lemma PieceKept(s: D.Slot, files: Files, files': Files, name: seq<byte>)
    requires |name| == 11
    requires D.Hits(s, name, false) ==>
               && (D.ClusterOf(s) in files <==> D.ClusterOf(s) in files')
               && (D.ClusterOf(s) in files ==> files'[D.ClusterOf(s)] == files[D.ClusterOf(s)])
    ensures SamePiece(s, s, files, files', name)
  {
    hide D.Hits, D.ClusterOf;
  }

  lemma HitsPlain(s: D.Slot, name: seq<byte>, labels: bool)
    requires |name| == 11 && D.Hits(s, name, labels)
    ensures !D.Ends(s) && (labels ==> Plain(s) || Label(s)) && (!labels ==> Plain(s))
    ensures labels && Plain(s) ==> D.Hits(s, name, false)
  {
  }

  /** The lists before and after one slot changes. */
  lemma OneSlotChanged(d: seq<D.Slot>, d': seq<D.Slot>, files: Files, files': Files, name: seq<byte>, v: nat)
    returns (rest: seq<seq<byte>>)
    requires |name| == 11 && v < |d| == |d'| && D.EndMarked(d) && !D.Ends(d'[v])
    requires forall k :: 0 <= k < v ==> !D.Ends(d[k])
    requires forall k :: 0 <= k < |d| && k != v ==> SamePiece(d[k], d'[k], files, files', name)
    ensures Contents(d, files, name) ==
            Between(d, files, name, 0, v) + (if D.Ends(d[v]) then [] else Piece(d[v], files, name)) + rest
    ensures Contents(d', files', name) == Between(d, files, name, 0, v) + Piece(d'[v], files', name) + rest
  {
    hide Piece, Between, Listing;
    rest := Listing(d, files, name, v + 1);
    BetweenSame(d, d', files, files', name, 0, v);
    ListingSame(d, d', files, files', name, v + 1);
    Around(d, files, name, v);
    Around(d', files', name, v);
    if D.Ends(d[v]) { NothingAfter(d, files, name, v + 1); }
  }

  /** The list of the name gets one more, empty content, behind those of the slots before; every other list
      stays. */
  lemma AddedContents(d: seq<D.Slot>, files: Files, name: seq<byte>, attr: byte, n: nat, other: seq<byte>)
    requires DirOk(d, files) && D.Storable(name, attr) && |other| == 11
    requires n !in files && n < 0x1_0000_0000 && D.FirstVacant(d, 0) < |d|
    ensures var c := Contents(d, files, other);
      Contents(D.Add(d, name, attr, n), files[n := []], other) ==
      if D.SameName(name, other) then Inserted(c, Ahead(d, name), []) else c
  {
    assert |name| == 11;
    hide *;
    SameAhead(d, name, other);
    var v := D.FirstVacant(d, 0);
    var rest := AddedParts(d, files, name, attr, n, other);
    InsertedAt(Between(d, files, other, 0, v), rest, []);
    AheadIs(d, files, other);
  }

  lemma AheadIs(d: seq<D.Slot>, files: Files, name: seq<byte>)
    requires |name| == 11 && DirOk(d, files)
    ensures Ahead(d, name) == |Between(d, files, name, 0, D.FirstVacant(d, 0))|
  {
    hide Between, D.FirstVacant, Hits, EntriesOk, D.EndMarked;
    HitsAreBetween(d, files, name, 0, D.FirstVacant(d, 0));
  }

  lemma InsertedAt(a: seq<seq<byte>>, b: seq<seq<byte>>, x: seq<byte>)
    ensures Inserted(a + b, |a|, x) == a + [x] + b && a + [] + b == a + b
  {
    assert (a + b)[..|a|] == a && (a + b)[|a|..] == b;
  }

  lemma AddedParts(d: seq<D.Slot>, files: Files, name: seq<byte>, attr: byte, n: nat, other: seq<byte>)
    returns (rest: seq<seq<byte>>)
    requires DirOk(d, files) && D.Storable(name, attr) && |other| == 11
    requires n !in files && n < 0x1_0000_0000 && D.FirstVacant(d, 0) < |d|
    ensures var v := D.FirstVacant(d, 0);
      && Contents(d, files, other) == Between(d, files, other, 0, v) + rest
      && Contents(D.Add(d, name, attr, n), files[n := []], other) ==
         Between(d, files, other, 0, v) + (if D.SameName(name, other) then [[]] else []) + rest
  {
    assert |name| == 11;
    AddedSlot(d, name, attr, n);
    hide D.Hits, D.ClusterOf, D.NewSlot, D.IsLabel, D.SameName, EntriesOk, SamePiece, Piece, Between, Contents,
         D.EndMarked, D.Storable, D.Add, D.FirstVacant, D.Ends;
    var v, d', files' := D.FirstVacant(d, 0), D.Add(d, name, attr, n), files[n := []];
    NewPiece(d'[v], name, attr, n, files', other);
    NoPiece(d[v], files, other);
    AddedOthers(d, files, name, attr, n, other);
    rest := OneSlotChanged(d, d', files, files', other, v);
  }

  lemma AddedSlot(d: seq<D.Slot>, name: seq<byte>, attr: byte, n: nat)
    requires |name| == 11 && D.FirstVacant(d, 0) < |d|
    ensures var v, d' := D.FirstVacant(d, 0), D.Add(d, name, attr, n);
      && |d'| == |d| && d'[v] == D.NewSlot(name, attr, n) && D.Vacant(d[v]) && forall k :: 0 <= k < v ==> !D.Ends(d[k])
  {
    hide D.NewSlot;
  }

  lemma NoPiece(s: D.Slot, files: Files, name: seq<byte>)
    requires |name| == 11 && D.Vacant(s)
    ensures Piece(s, files, name) == []
  {
    D.VacantHitsNothing(s, name, false);
  }

  lemma AddedOthers(d: seq<D.Slot>, files: Files, name: seq<byte>, attr: byte, n: nat, other: seq<byte>)
    requires EntriesOk(d, files) && |name| == |other| == 11 && n !in files && D.FirstVacant(d, 0) < |d|
    ensures forall k :: 0 <= k < |d| && k != D.FirstVacant(d, 0) ==>
              SamePiece(d[k], D.Add(d, name, attr, n)[k], files, files[n := []], other)
  {
    hide D.Hits, D.ClusterOf, D.NewSlot, SamePiece, D.FirstVacant;
    forall k | 0 <= k < |d| && k != D.FirstVacant(d, 0)
      ensures SamePiece(d[k], D.Add(d, name, attr, n)[k], files, files[n := []], other)
    {
      if D.Hits(d[k], other, false) { HitsPlain(d[k], other, false); }
      PieceKept(d[k], files, files[n := []], other);
    }
  }

  lemma NewPiece(s: D.Slot, name: seq<byte>, attr: byte, n: nat, files: Files, other: seq<byte>)
    requires D.Storable(name, attr) && n < 0x1_0000_0000 && s == D.NewSlot(name, attr, n) && |other| == 11
    requires n in files && files[n] == []
    ensures !D.Ends(s) && Piece(s, files, other) == if D.SameName(name, other) then [[]] else []
  {
    D.StoredHits(s, name, attr);
    hide D.NewSlot, D.ClusterOf, CString;
  }

  lemma SameAhead(d: seq<D.Slot>, name: seq<byte>, other: seq<byte>)
    requires |name| == |other| == 11
    ensures D.SameName(name, other) ==> Ahead(d, name) == Ahead(d, other)
  {
    if D.SameName(name, other) { SameHits(d, name, other, 0, D.FirstVacant(d, 0)); }
  }

  lemma {:induction false} SameHits(d: seq<D.Slot>, name: seq<byte>, other: seq<byte>, i: nat, j: nat)
    requires |name| == |other| == 11 && D.SameName(name, other) && i <= j <= |d|
    ensures Hits(d, other, i, j) == Hits(d, name, i, j)
    decreases j - i
  {
    hide CString;
    if i < j { SameHits(d, name, other, i + 1, j); }
  }

  /** A name no slot answers to. */
  lemma {:induction false} NoHits(d: seq<D.Slot>, name: seq<byte>, i: nat, j: nat)
    requires |name| == 11 && i <= j <= |d| && forall k :: i <= k < j ==> !D.Hits(d[k], name, false)
    ensures Hits(d, name, i, j) == 0
    decreases j - i
  {
    hide D.Hits;
    if i < j { NoHits(d, name, i + 1, j); }
  }

  lemma NothingAfter(d: seq<D.Slot>, files: Files, name: seq<byte>, i: nat)
    requires |name| == 11 && 0 < i <= |d| && D.EndMarked(d) && D.Ends(d[i - 1])
    ensures Listing(d, files, name, i) == []
  {
    if i < |d| { assert D.Ends(d[i]); }
  }

  /** ---- Writing ---- */

  function Tail(c: seq<seq<byte>>): (r: seq<seq<byte>>) { if c == [] then [] else c[1..] }

  /** The list of the name gets another head; every other list stays. */
  lemma StoredContents(d: seq<D.Slot>, files: Files, name: seq<byte>, kept: seq<byte>, other: seq<byte>)
    requires DirOk(d, files) && |name| == |other| == 11 && D.Find(d, name).Some?
    ensures D.Find(d, name).value.cluster in files
    ensures var c := Contents(d, files, other);
      Contents(d, files[D.Find(d, name).value.cluster := kept], other) ==
      if D.SameName(name, other) then [kept] + Tail(c) else c
  {
    hide D.Hits, D.ClusterOf, D.SameName, EntriesOk, SamePiece, Piece, Between, Contents, D.EndMarked, D.Search, D.Find,
         Plain;
    var v := FoundSlot(d, files, name);
    StoredOthers(d, files, v, kept, other);
    StoredPiece(d[v], files, name, kept, other);
    if D.SameName(name, other) { FirstOfName(d, files, name, other, false); }
    var _ := OneSlotChanged(d, d, files, files[D.ClusterOf(d[v]) := kept], other, v);
  }

  /** The slot a name is found in. */
  lemma FoundSlot(d: seq<D.Slot>, files: Files, name: seq<byte>) returns (v: nat)
    requires EntriesOk(d, files) && |name| == 11 && D.Find(d, name).Some?
    ensures v == D.Search(d, name, false, 0) < |d| && D.Hits(d[v], name, false) && Plain(d[v]) && !D.Ends(d[v])
    ensures D.Find(d, name).value.cluster == D.ClusterOf(d[v]) && D.ClusterOf(d[v]) in files
    ensures forall k :: 0 <= k < v ==> !D.Ends(d[k])
  {
    hide D.ClusterOf, D.SizeOf;
    v := D.Search(d, name, false, 0);
  }

  lemma StoredPiece(s: D.Slot, files: Files, name: seq<byte>, kept: seq<byte>, other: seq<byte>)
    requires |name| == |other| == 11 && D.Hits(s, name, false) && D.ClusterOf(s) in files
    ensures D.SameName(name, other) ==>
              && Piece(s, files, other) == [files[D.ClusterOf(s)]]
              && Piece(s, files[D.ClusterOf(s) := kept], other) == [kept]
    ensures !D.SameName(name, other) ==>
              Piece(s, files, other) == Piece(s, files[D.ClusterOf(s) := kept], other) == []
  {
    hide CString, D.ClusterOf;
  }

  lemma StoredOthers(d: seq<D.Slot>, files: Files, v: nat, kept: seq<byte>, other: seq<byte>)
    requires EntriesOk(d, files) && |other| == 11 && v < |d| && Plain(d[v])
    ensures forall k :: 0 <= k < |d| && k != v ==>
              SamePiece(d[k], d[k], files, files[D.ClusterOf(d[v]) := kept], other)
  {
    hide D.Hits, D.ClusterOf, SamePiece, Plain;
    forall k | 0 <= k < |d| && k != v
      ensures SamePiece(d[k], d[k], files, files[D.ClusterOf(d[v]) := kept], other)
    {
      if D.Hits(d[k], other, false) { HitsPlain(d[k], other, false); }
      PieceKept(d[k], files, files[D.ClusterOf(d[v]) := kept], other);
    }
  }

  /** Nothing of the name comes before the slot a search ends at. */
  lemma FirstOfName(d: seq<D.Slot>, files: Files, name: seq<byte>, other: seq<byte>, labels: bool)
    requires |name| == |other| == 11 && D.SameName(name, other)
    ensures Between(d, files, other, 0, D.Search(d, name, labels, 0)) == [] || D.Search(d, name, labels, 0) == |d|
  {
    hide CString, D.ClusterOf;
    var v := D.Search(d, name, labels, 0);
    if v < |d| { BetweenNone(d, files, other, 0, v); }
  }

  /** ---- Deleting ---- */

  /** The files after the slot of a search was freed: one less, unless it was a label. */
  function FilesAfter(d: seq<D.Slot>, files: Files, name: seq<byte>): (files': Files)
    requires |name| == 11
  {
    var at := D.Search(d, name, true, 0);
    if at < |d| && Plain(d[at]) then files - {D.ClusterOf(d[at])} else files
  }

  lemma DroppedDir(d: seq<D.Slot>, files: Files, name: seq<byte>)
    requires DirOk(d, files) && |name| == 11 && D.Search(d, name, true, 0) < |d|
    ensures var at := D.Search(d, name, true, 0);
      && (Plain(d[at]) || Label(d[at])) && (Plain(d[at]) ==> D.ClusterOf(d[at]) in files)
      && (Label(d[at]) ==> D.ClusterOf(d[at]) < 2) && DirOk(D.Drop(d, name), FilesAfter(d, files, name))
  {
    hide D.ClusterOf, D.Hits;
    D.DropKeeps(d, name);
    hide D.EndMarked;
    var at := D.Search(d, name, true, 0);
    HitsPlain(d[at], name, true);
    assert D.Vacant(d[at][0 := D.DELETED]);
  }

  /** The list of the name loses its head, unless a volume label was taken for it; every other list stays. */
  lemma DroppedContents(d: seq<D.Slot>, files: Files, name: seq<byte>, other: seq<byte>)
    requires DirOk(d, files) && |name| == |other| == 11 && D.Search(d, name, true, 0) < |d|
    ensures var at, c := D.Search(d, name, true, 0), Contents(d, files, other);
      Contents(D.Drop(d, name), FilesAfter(d, files, name), other) ==
      if D.SameName(name, other) && Plain(d[at]) then Tail(c) else c
  {
    var at := D.Search(d, name, true, 0);
    var d', files' := D.Drop(d, name), FilesAfter(d, files, name);
    HitsPlain(d[at], name, true);
    DroppedOthers(d, files, name, other);
    DroppedPiece(d[at], files, name, other);
    D.DroppedSlot(d[at], other, false);
    NoPiece(d'[at], files', other);
    if D.SameName(name, other) { FirstOfName(d, files, name, other, true); }
    hide D.Hits, D.ClusterOf, D.SameName, EntriesOk, SamePiece, Piece, Between, Contents, D.EndMarked, FilesAfter,
         Plain, Label;
    var _ := OneSlotChanged(d, d', files, files', other, at);
  }

  lemma DroppedPiece(s: D.Slot, files: Files, name: seq<byte>, other: seq<byte>)
    requires |name| == |other| == 11 && D.Hits(s, name, true) && (Plain(s) ==> D.ClusterOf(s) in files)
    ensures Piece(s, files, other) == if D.SameName(name, other) && Plain(s) then [files[D.ClusterOf(s)]] else []
  {
    hide CString, D.ClusterOf;
  }

  lemma DroppedOthers(d: seq<D.Slot>, files: Files, name: seq<byte>, other: seq<byte>)
    requires EntriesOk(d, files) && |name| == |other| == 11 && D.Search(d, name, true, 0) < |d|
    ensures forall k :: 0 <= k < |d| && k != D.Search(d, name, true, 0) ==>
              SamePiece(d[k], D.Drop(d, name)[k], files, FilesAfter(d, files, name), other)
  {
    hide D.Hits, D.ClusterOf, SamePiece, D.Search, Plain;
    var at := D.Search(d, name, true, 0);
    forall k | 0 <= k < |d| && k != at
      ensures SamePiece(d[k], D.Drop(d, name)[k], files, FilesAfter(d, files, name), other)
    {
      if D.Hits(d[k], other, false) { HitsPlain(d[k], other, false); }
      PieceKept(d[k], files, FilesAfter(d, files, name), other);
    }
  }

  /** A name no slot answers to, labels included, holds nothing. */
  lemma UnknownName(d: seq<D.Slot>, files: Files, name: seq<byte>, other: seq<byte>)
    requires DirOk(d, files) && |name| == |other| == 11 && D.SameName(name, other)
    requires D.Search(d, name, true, 0) == |d|
    ensures Contents(d, files, other) == []
  {
    hide CString, D.ClusterOf, EntriesOk;
    D.SearchFails(d, name, true, 0);
    forall k | 0 <= k < |d| ensures !D.Hits(d[k], other, false) { assert !D.Hits(d[k], name, true); }
    NoneBehind(d, files, other, 0);
  }
}
