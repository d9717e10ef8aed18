/** The .spk package format: the layout the packer writes (mkspk.py) and the fields the installer reads
    (kernel/pkg/pkg_install.c, kernel/pkg/spk.h), and that one reads back what the other wrote. */
module Spk {
  import opened Bytes
  import opened Bits
  import Djb2

  const MAGIC: nat := 0x5350_4B21
  const VERSION: nat := 1
  const HEADER: nat := 392
  const RECORD: nat := 73
  const MAX_FILES: nat := 8
  const MAX_SIZE: nat := 65536
  const SPACE: nat := 0x1_0000_0000

  /** ---- What the packer writes ---- */

  datatype File = File(path: seq<byte>, content: seq<byte>)

  datatype Meta = Meta(name: seq<byte>, version: seq<byte>, author: seq<byte>, deps: seq<seq<byte>>)

  /** pack_str: at most size - 1 octets, zeros behind. */
  function PackStr(s: seq<byte>, size: nat): (r: seq<byte>)
    requires size > 0
    ensures |r| == size
  {
    if |s| < size then s + Zeros(size - |s|) else s[..size - 1] + [0]
  }

  function Payload(files: seq<File>): (p: seq<byte>)
  {
    if files == [] then [] else Payload(files[..|files| - 1]) + files[|files| - 1].content
  }

  /** Where the content of file i begins in the payload. */
  function Offset(files: seq<File>, i: nat): (n: nat)
    requires i <= |files|
  {
    |Payload(files[..i])|
  }

  function EndsWith(s: seq<byte>, t: seq<byte>): (b: bool)
  {
    |t| <= |s| && s[|s| - |t|..] == t
  }

  /** 1 unless the path ends in .txt, .cfg, .lst or .md. */
  function Executable(path: seq<byte>): (b: byte)
  {
    if EndsWith(path, [46, 116, 120, 116]) || EndsWith(path, [46, 99, 102, 103]) || EndsWith(path, [46, 108, 115, 116])
       || EndsWith(path, [46, 109, 100])
    then 0 else 1
  }

  function RecordBytes(f: File, offset: nat): (r: seq<byte>)
    ensures |r| == RECORD
  {
    PackStr(f.path, 64) + LeBytes(|f.content|, 4) + LeBytes(offset, 4) + [Executable(f.path)]
  }

  /** The records of the first i files. */
  function Records(files: seq<File>, i: nat): (r: seq<byte>)
    requires i <= |files|
    ensures |r| == RECORD * i
  {
    if i == 0 then [] else Records(files, i - 1) + RecordBytes(files[i - 1], Offset(files, i - 1))
  }

  /** The names of the first i dependencies, each in 32 octets, empty beyond the last. */
  function Deps(deps: seq<seq<byte>>, i: nat): (r: seq<byte>)
    ensures |r| == 32 * i
  {
    if i == 0 then [] else Deps(deps, i - 1) + PackStr(if i - 1 < |deps| then deps[i - 1] else [], 32)
  }

  /** The header up to the number of files. */
  function Front(m: Meta): (h: seq<byte>)
    ensures |h| == 348
  {
    LeBytes(MAGIC, 4) + LeBytes(VERSION, 4) + PackStr(m.name, 32) + PackStr(m.version, 16) + PackStr(m.author, 32)
    + LeBytes(|m.deps|, 4) + Deps(m.deps, 8)
  }

  /** The header of n files whose contents are payload. */
  function HeaderBytes(m: Meta, n: nat, payload: seq<byte>): (h: seq<byte>)
    ensures |h| == HEADER
  {
    Front(m) + LeBytes(n, 4) + LeBytes(|payload|, 4) + LeBytes(Djb2.Hash(payload), 4) + Zeros(32)
  }

  function Packed(m: Meta, files: seq<File>): (s: seq<byte>)
  {
    HeaderBytes(m, |files|, Payload(files)) + Records(files, |files|) + Payload(files)
  }

  /** ---- What the installer reads ---- */

  /** Memory from the buffer of the installer on, once around the 32-bit address space. The file read is
      its first octets. */
  type Image = m: seq<byte> | |m| == SPACE witness Zeros(SPACE)

  function U32At(s: seq<byte>, at: nat): (n: nat)
    requires at + 4 <= |s|
    ensures n < SPACE
  {
    LeBound(s[at..at + 4]);
    assert Pow256(4) == SPACE;
    Le(s[at..at + 4])
  }

  function NumFiles(mem: Image): (n: nat) { U32At(mem, 348) }

  function Total(mem: Image): (n: nat) { U32At(mem, 352) }

  /** The n octets at an address of the space. */
  function Region(mem: Image, at: nat, n: nat): (r: seq<byte>)
    requires at < SPACE && n < SPACE
    ensures |r| == n
  {
    if at + n <= SPACE then mem[at..at + n] else mem[at..] + mem[..at + n - SPACE]
  }

  function PayloadStart(mem: Image): (n: nat) { HEADER + RECORD * NumFiles(mem) }

  /** The checks on the header of a file of len octets; the sum of the sizes is taken in 32 bits. */
  predicate HeaderPasses(mem: Image, len: nat)
  {
    && HEADER <= len <= MAX_SIZE && U32At(mem, 0) == MAGIC && U32At(mem, 4) == VERSION
    && 1 <= NumFiles(mem) <= MAX_FILES && U32(PayloadStart(mem) + Total(mem)) <= len
  }

  /** Header, records and payload lie in the file. */
  predicate Framed(mem: Image, len: nat)
  {
    NumFiles(mem) <= MAX_FILES && PayloadStart(mem) + Total(mem) <= len
  }

  function PayloadOf(mem: Image): (p: seq<byte>)
    requires NumFiles(mem) <= MAX_FILES
    ensures |p| == Total(mem)
  {
    Region(mem, PayloadStart(mem), Total(mem))
  }

  /** Every check of the installer on the whole file. */
  predicate Acceptable(mem: Image, len: nat)
  {
    HeaderPasses(mem, len) && Djb2.Hash(PayloadOf(mem)) == U32At(mem, 356)
  }

  function RecordAt(mem: Image, i: nat): (r: seq<byte>)
    requires i < MAX_FILES
    ensures |r| == RECORD
  {
    mem[HEADER + RECORD * i..HEADER + RECORD * (i + 1)]
  }

  function PathAt(mem: Image, i: nat): (p: seq<byte>)
    requires i < MAX_FILES
  {
    CString(RecordAt(mem, i)[..64])
  }

  function SizeAt(mem: Image, i: nat): (n: nat)
    requires i < MAX_FILES
    ensures n < SPACE
  {
    U32At(RecordAt(mem, i), 64)
  }

  function OffsetAt(mem: Image, i: nat): (n: nat)
    requires i < MAX_FILES
    ensures n < SPACE
  {
    U32At(RecordAt(mem, i), 68)
  }

  /** The check on a record; the sum is taken in 32 bits. */
  predicate RecordPasses(mem: Image, i: nat)
    requires i < MAX_FILES
  {
    U32(OffsetAt(mem, i) + SizeAt(mem, i)) <= Total(mem)
  }

  /** The record points into the payload. */
  predicate Inside(mem: Image, i: nat)
    requires i < MAX_FILES
  {
    OffsetAt(mem, i) + SizeAt(mem, i) <= Total(mem)
  }

  /** What is written for a record: as many octets as it says, from its offset behind the records. */
  function ContentAt(mem: Image, i: nat): (c: seq<byte>)
    requires i < MAX_FILES && NumFiles(mem) <= MAX_FILES
  {
    Region(mem, U32(PayloadStart(mem) + OffsetAt(mem, i)), SizeAt(mem, i))
  }

  /** A header that passes describes a payload inside the file exactly when its sum does not wrap. */
  lemma FramedIff(mem: Image, len: nat)
    requires HeaderPasses(mem, len)
    ensures Framed(mem, len) <==> PayloadStart(mem) + Total(mem) < SPACE
  {
  }

  /** A record that passes lies inside the payload exactly when its sum does not wrap; what is written is
      that part of the payload then. */
  lemma InsideIff(mem: Image, len: nat, i: nat)
    requires i < MAX_FILES && RecordPasses(mem, i)
    ensures Inside(mem, i) <==> OffsetAt(mem, i) + SizeAt(mem, i) < SPACE
    ensures Inside(mem, i) && len <= MAX_SIZE && Framed(mem, len) ==>
              ContentAt(mem, i) == PayloadOf(mem)[OffsetAt(mem, i)..OffsetAt(mem, i) + SizeAt(mem, i)]
  {
    hide OffsetAt, SizeAt;
    var o, n := OffsetAt(mem, i), SizeAt(mem, i);
    if o + n >= SPACE {
      assert !Inside(mem, i) by { assert Total(mem) < SPACE; }
    } else {
      assert U32(o + n) == o + n;
    }
    if Inside(mem, i) && len <= MAX_SIZE && Framed(mem, len) {
      assert U32(PayloadStart(mem) + o) == PayloadStart(mem) + o;
      RegionOfRegion(mem, PayloadStart(mem), Total(mem), o, n);
    }
  }

  lemma SliceOfSlice(s: seq<byte>, at: nat, n: nat, o: nat, k: nat)
    requires at + n <= |s| && o + k <= n
    ensures s[at..at + n][o..o + k] == s[at + o..at + o + k]
  {
    var r, t := s[at..at + n], s[at + o..at + o + k];
    forall i | 0 <= i < k
      ensures r[o..o + k][i] == t[i]
    {
      assert r[o..o + k][i] == r[o + i];
    }
    assert r[o..o + k] == t;
  }

  lemma RegionOfRegion(mem: Image, at: nat, n: nat, o: nat, k: nat)
    requires at + n <= SPACE && at < SPACE && n < SPACE && o + k <= n
    ensures at + o < SPACE || k == 0
    ensures at + o < SPACE ==> Region(mem, at + o, k) == Region(mem, at, n)[o..o + k]
  {
    SliceOfSlice(mem, at, n, o, k);
  }

  /** ---- Reading back ---- */

  /** A field of a concatenation. */
  lemma FieldOf(a: seq<byte>, f: seq<byte>, b: seq<byte>)
    ensures (a + f + b)[|a|..|a| + |f|] == f
  {
  }

  lemma WordOf(a: seq<byte>, n: nat, b: seq<byte>)
    requires n < 0x1_0000_0000
    ensures U32At(a + LeBytes(n, 4) + b, |a|) == n
  {
    FieldOf(a, LeBytes(n, 4), b);
    LeOfLeBytes(n, 4);
    assert Pow256(4) == 0x1_0000_0000;
  }

  lemma {:induction false} RecordsAt(files: seq<File>, n: nat, i: nat)
    requires i < n <= |files|
    ensures Records(files, n)[RECORD * i..RECORD * (i + 1)] == RecordBytes(files[i], Offset(files, i))
    decreases n
  {
    hide RecordBytes, Offset;
    var r := Records(files, n - 1);
    if i < n - 1 {
      RecordsAt(files, n - 1, i);
      assert Records(files, n)[RECORD * i..RECORD * (i + 1)] == r[RECORD * i..RECORD * (i + 1)];
    }
  }

  /** The contents tile the payload, in order. */
  lemma {:induction false} PayloadTiles(files: seq<File>, i: nat)
    requires i < |files|
    ensures Offset(files, i + 1) == Offset(files, i) + |files[i].content| <= |Payload(files)|
    ensures Payload(files)[Offset(files, i)..Offset(files, i + 1)] == files[i].content
    ensures Offset(files, 0) == 0 && Offset(files, |files|) == |Payload(files)|
    decreases |files|
  {
    var n := |files|;
    var f := files[..n - 1];
    assert files[..n] == files && files[..0] == [];
    assert files[..i + 1][..i] == files[..i];
    if i < n - 1 {
      PayloadTiles(f, i);
      assert f[..i] == files[..i] && f[..i + 1] == files[..i + 1] && f[i] == files[i];
    }
  }

  /** Packages that can be installed: one to eight files with paths shorter than 64 octets and without
      NUL, and at most 64 KB in all. */
  predicate Packable(m: Meta, files: seq<File>)
  {
    && 1 <= |files| <= MAX_FILES && |m.deps| <= 8
    && (forall i :: 0 <= i < |files| ==> |files[i].path| < 64 && 0 !in files[i].path)
    && |Packed(m, files)| <= MAX_SIZE
  }

  /** A word at the end of what has been written so far, read from the whole. */
  lemma LastWord(s: seq<byte>, front: seq<byte>, n: nat)
    requires n < SPACE && front + LeBytes(n, 4) <= s
    ensures U32At(s, |front|) == n
  {
    hide LeBytes, U32At;
    var f := front + LeBytes(n, 4);
    FrontOf(s, f, |front|);
    assert f == front + LeBytes(n, 4) + [];
    WordOf(front, n, []);
  }

  /** The fields of a header. */
  lemma HeaderFields(m: Meta, n: nat, payload: seq<byte>, s: seq<byte>)
    requires n < SPACE && |payload| < SPACE && HeaderBytes(m, n, payload) <= s
    ensures U32At(s, 0) == MAGIC && U32At(s, 4) == VERSION
    ensures U32At(s, 348) == n && U32At(s, 352) == |payload| && U32At(s, 356) == Djb2.Hash(payload)
  {
    var h, a := Djb2.Hash(payload), Front(m);
    var b := a + LeBytes(n, 4);
    var c := b + LeBytes(|payload|, 4);
    assert HeaderBytes(m, n, payload) == c + LeBytes(h, 4) + Zeros(32);
    hide HeaderBytes, Front, LeBytes, U32At, Djb2.Hash;
    PrefixOf(c + LeBytes(h, 4), Zeros(32), s);
    LastWord(s, c, h);
    PrefixOf(c, LeBytes(h, 4), s);
    LastWord(s, b, |payload|);
    PrefixOf(b, LeBytes(|payload|, 4), s);
    LastWord(s, a, n);
    PrefixOf(a, LeBytes(n, 4), s);
    PackedFront(m);
    FrontOf(s, a, 0);
    FrontOf(s, a, 4);
  }

  lemma PrefixOf(a: seq<byte>, b: seq<byte>, s: seq<byte>)
    requires a + b <= s
    ensures a <= s
  {
    assert s[..|a|] == (a + b)[..|a|] == a;
  }

  /** A package in memory. */
  ghost predicate Holds(mem: Image, m: Meta, files: seq<File>)
  {
    Packable(m, files) && Packed(m, files) <= mem
  }

  lemma PackedSize(m: Meta, files: seq<File>)
    ensures |Packed(m, files)| == HEADER + RECORD * |files| + |Payload(files)|
  {
    hide HeaderBytes, Records, Payload;
  }

  lemma PackedFrame(mem: Image, m: Meta, files: seq<File>)
    requires Holds(mem, m, files)
    ensures var len := |Packed(m, files)|;
      && Framed(mem, len) && Acceptable(mem, len) && NumFiles(mem) == |files| && PayloadOf(mem) == Payload(files)
  {
    hide Records, Payload, U32At, Djb2.Hash, HeaderBytes, LeBytes, Le;
    var p, n := Payload(files), |files|;
    PackedSize(m, files);
    PackedParts(mem, m, files);
    HeaderFields(m, n, p, mem);
    hide Packed;
  }

  /** Header and payload in memory. */
  lemma PackedParts(mem: Image, m: Meta, files: seq<File>)
    requires Holds(mem, m, files)
    ensures var p, n := Payload(files), |files|;
      && HEADER + RECORD * n + |p| <= MAX_SIZE
      && HeaderBytes(m, n, p) <= mem && mem[HEADER + RECORD * n..HEADER + RECORD * n + |p|] == p
  {
    hide Records, Payload, HeaderBytes;
    var p, n := Payload(files), |files|;
    PackedSize(m, files);
    TailOf(mem, HeaderBytes(m, n, p) + Records(files, n), p);
    assert HeaderBytes(m, n, p) <= HeaderBytes(m, n, p) + Records(files, n) + p <= mem;
  }

  lemma TailOf(mem: seq<byte>, a: seq<byte>, p: seq<byte>)
    requires a + p <= mem
    ensures mem[|a|..|a| + |p|] == p
  {
    assert mem[..|a| + |p|] == a + p;
  }

  lemma FrontOf(s: seq<byte>, front: seq<byte>, at: nat)
    requires front <= s && at + 4 <= |front|
    ensures U32At(s, at) == U32At(front, at)
  {
    assert s[at..at + 4] == front[at..at + 4];
  }

  lemma PackedFront(m: Meta)
    ensures U32At(Front(m), 0) == MAGIC && U32At(Front(m), 4) == VERSION
  {
    hide LeBytes, Le, Deps;
    var rest := PackStr(m.name, 32) + PackStr(m.version, 16) + PackStr(m.author, 32) + LeBytes(|m.deps|, 4)
      + Deps(m.deps, 8);
    assert Front(m) == [] + LeBytes(MAGIC, 4) + (LeBytes(VERSION, 4) + rest);
    WordOf([], MAGIC, LeBytes(VERSION, 4) + rest);
    assert Front(m) == LeBytes(MAGIC, 4) + LeBytes(VERSION, 4) + rest;
    WordOf(LeBytes(MAGIC, 4), VERSION, rest);
  }

  /** The main result: what the packer writes passes every check of the installer, wherever it is read,
      and record i yields path i and exactly the content of file i. */
  lemma PackedInstalls(mem: Image, m: Meta, files: seq<File>, i: nat)
    requires Holds(mem, m, files) && i < |files|
    ensures Acceptable(mem, |Packed(m, files)|) && NumFiles(mem) == |files|
    ensures RecordPasses(mem, i) && PathAt(mem, i) == files[i].path && ContentAt(mem, i) == files[i].content
  {
    hide Records, Payload, HeaderBytes, Packed, PathAt, SizeAt, OffsetAt, PayloadOf, Acceptable, U32At;
    PackedFrame(mem, m, files);
    PackedRecord(mem, m, files, i);
    PayloadTiles(files, i);
    InsideIff(mem, |Packed(m, files)|, i);
  }

  lemma PackedRecord(mem: Image, m: Meta, files: seq<File>, i: nat)
    requires Holds(mem, m, files) && i < |files|
    ensures PathAt(mem, i) == files[i].path && SizeAt(mem, i) == |files[i].content|
            && OffsetAt(mem, i) == Offset(files, i)
  {
    hide Records, Payload, LeBytes, Le, HeaderBytes, U32At;
    var s, f, o := Packed(m, files), files[i], Offset(files, i);
    RecordsAt(files, |files|, i);
    PackedSize(m, files);
    var r := RecordBytes(f, o);
    assert mem[HEADER..HEADER + RECORD * |files|] == Records(files, |files|) by {
      TailOf(mem, HeaderBytes(m, |files|, Payload(files)), Records(files, |files|));
    }
    assert RecordAt(mem, i) == r by {
      assert mem[HEADER + RECORD * i..HEADER + RECORD * (i + 1)]
          == mem[HEADER..HEADER + RECORD * |files|][RECORD * i..RECORD * (i + 1)];
    }
    PayloadTiles(files, i);
    RecordFields(f, o);
  }

  lemma RecordFields(f: File, o: nat)
    requires |f.path| < 64 && 0 !in f.path && |f.content| < SPACE && o < SPACE
    ensures var r := RecordBytes(f, o);
      CString(r[..64]) == f.path && U32At(r, 64) == |f.content| && U32At(r, 68) == o
  {
    hide LeBytes, Le;
    var r, p, e := RecordBytes(f, o), PackStr(f.path, 64), [Executable(f.path)];
    assert r[..64] == p;
    CStringOfPadded(f.path, 64 - |f.path|);
    assert r == p + LeBytes(|f.content|, 4) + (LeBytes(o, 4) + e);
    WordOf(p, |f.content|, LeBytes(o, 4) + e);
    assert r == (p + LeBytes(|f.content|, 4)) + LeBytes(o, 4) + e;
    WordOf(p + LeBytes(|f.content|, 4), o, e);
  }

  /** ---- A record that passes and lies outside ---- */

  /** One file of one octet, at offset 2^32 - 1 of an empty payload. */
  function WrappingPackage(m: Meta, path: seq<byte>): (s: seq<byte>)
    ensures |s| == HEADER + RECORD
  {
    HeaderBytes(m, 1, []) + RecordBytes(File(path, [0]), SPACE - 1)
  }

  /** Every check passes, the record is not inside the payload, and what is written is the octet in front
      of the payload, the last one of the record. */
  lemma WrappingRecordPasses(mem: Image, m: Meta, path: seq<byte>)
    requires WrappingPackage(m, path) <= mem && |path| < 64 && 0 !in path
    ensures Acceptable(mem, HEADER + RECORD) && NumFiles(mem) == 1 && Total(mem) == 0
    ensures RecordPasses(mem, 0) && !Inside(mem, 0) && PathAt(mem, 0) == path && ContentAt(mem, 0) == [Executable(path)]
  {
    hide U32At, Djb2.Hash, HeaderBytes, LeBytes;
    var f := File(path, [0]);
    var h, r := HeaderBytes(m, 1, []), RecordBytes(f, SPACE - 1);
    HeaderFields(m, 1, [], mem);
    assert RecordAt(mem, 0) == r by { TailOf(mem, h, r); }
    RecordFields(f, SPACE - 1);
    assert mem[HEADER + RECORD - 1] == r[RECORD - 1] == Executable(path);
  }

  /** ---- Octet by octet ---- */

  lemma WordAt(s: seq<byte>, at: nat)
    requires at + 4 <= |s|
    ensures U32At(s, at) == WordIn(s, at)
  {
    LeIsWord(s, at);
  }

  /** A name in a field of size octets is read back cut to size - 1. */
  lemma PackedString(s: seq<byte>, size: nat)
    requires size > 0 && 0 !in s
    ensures CString(PackStr(s, size)) == if |s| < size then s else s[..size - 1]
  {
    if |s| < size {
      CStringOfPadded(s, size - |s|);
    } else {
      CStringOfPadded(s[..size - 1], 1);
      assert Zeros(1) == [0];
    }
  }

  lemma FieldIn(s: seq<byte>, a: seq<byte>, f: seq<byte>, b: seq<byte>)
    requires s == a + f + b
    ensures |a| + |f| <= |s| && s[|a|..|a| + |f|] == f
  {
    FieldOf(a, f, b);
  }

  /** Where the packer puts name, version and author. */
  lemma FrontFields(m: Meta)
    ensures var h := Front(m);
      h[8..40] == PackStr(m.name, 32) && h[40..56] == PackStr(m.version, 16) && h[56..88] == PackStr(m.author, 32)
      && h[88..92] == LeBytes(|m.deps|, 4) && h[92..348] == Deps(m.deps, 8)
  {
    hide LeBytes, PackStr, Deps;
    var h := Front(m);
    var a := LeBytes(MAGIC, 4) + LeBytes(VERSION, 4);
    var n, v, w, c, d := PackStr(m.name, 32), PackStr(m.version, 16), PackStr(m.author, 32), LeBytes(|m.deps|, 4),
      Deps(m.deps, 8);
    assert h == a + n + v + w + c + d;
    hide Front;
    FieldIn(h, a, n, v + w + c + d);
    FieldIn(h, a + n, v, w + c + d);
    FieldIn(h, a + n + v, w, c + d);
    FieldIn(h, a + n + v + w, c, d);
    FieldIn(h, a + n + v + w + c, d, []);
  }

  lemma {:induction false} DepsAt(deps: seq<seq<byte>>, n: nat, i: nat)
    requires i < n
    ensures Deps(deps, n)[32 * i..32 * i + 32] == PackStr(if i < |deps| then deps[i] else [], 32)
    decreases n
  {
    hide PackStr;
    if i < n - 1 {
      DepsAt(deps, n - 1, i);
      assert Deps(deps, n)[32 * i..32 * i + 32] == Deps(deps, n - 1)[32 * i..32 * i + 32];
    }
  }

  /** Names without NUL that keep their length in the header. */
  predicate Short(m: Meta)
  {
    && |m.name| < 32 && |m.version| < 16 && |m.author| < 32
    && 0 !in m.name && 0 !in m.version && 0 !in m.author
    && |m.deps| <= 8 && forall i :: 0 <= i < |m.deps| ==> |m.deps[i]| < 32 && 0 !in m.deps[i]
  }

  lemma FrontNames(m: Meta, h: seq<byte>)
    requires Short(m) && h == Front(m)
    ensures CString(h[8..40]) == m.name && CString(h[40..56]) == m.version && CString(h[56..88]) == m.author
    ensures WordIn(h, 88) == |m.deps|
  {
    hide PackStr, LeBytes, CString, Front, Deps, Le, WordIn;
    FrontFields(m);
    PackedString(m.name, 32);
    PackedString(m.version, 16);
    PackedString(m.author, 32);
    LeIsWord(h, 88);
    LeOfLeBytes(|m.deps|, 4);
    assert Pow256(4) == SPACE;
  }

  lemma FrontDep(m: Meta, h: seq<byte>, i: nat)
    requires Short(m) && h == Front(m) && i < |m.deps|
    ensures CString(h[92 + 32 * i..124 + 32 * i]) == m.deps[i]
  {
    hide PackStr, CString, Front, Deps;
    FrontFields(m);
    DepsAt(m.deps, 8, i);
    SliceOfSlice(h, 92, 256, 32 * i, 32);
    PackedString(m.deps[i], 32);
  }

  /** Name, version, author and dependencies are read back from where the header of the kernel has them. */
  lemma FrontReadsBack(m: Meta, h: seq<byte>)
    requires Short(m) && h == Front(m)
    ensures h[..8] == [0x21, 0x4B, 0x50, 0x53, 1, 0, 0, 0]
    ensures CString(h[8..40]) == m.name && CString(h[40..56]) == m.version && CString(h[56..88]) == m.author
    ensures WordIn(h, 88) == |m.deps|
    ensures forall i: nat :: i < |m.deps| ==> CString(h[92 + 32 * i..124 + 32 * i]) == m.deps[i]
  {
    FrontSignature(m);
    FrontNames(m, h);
    hide CString, Front, WordIn;
    forall i: nat | i < |m.deps| ensures CString(h[92 + 32 * i..124 + 32 * i]) == m.deps[i] {
      FrontDep(m, h, i);
    }
  }

  /** "!KPS" and the version. */
  lemma FrontSignature(m: Meta)
    ensures Front(m)[..8] == [0x21, 0x4B, 0x50, 0x53, 1, 0, 0, 0]
  {
    hide PackStr, Deps;
    Signature();
    hide LeBytes;
    assert Front(m)[..8] == LeBytes(MAGIC, 4) + LeBytes(VERSION, 4);
  }

  lemma Signature()
    ensures LeBytes(MAGIC, 4) == [0x21, 0x4B, 0x50, 0x53] && LeBytes(VERSION, 4) == [1, 0, 0, 0]
  {
    assert LeBytes(MAGIC, 4) == [0x21] + LeBytes(0x53504B, 3);
    assert LeBytes(0x53504B, 3) == [0x4B] + LeBytes(0x5350, 2);
    assert LeBytes(VERSION, 4) == [1] + LeBytes(0, 3);
    assert LeBytes(0, 3) == [0] + LeBytes(0, 2);
  }

  /** Which packages of len octets are installed: at most 64 KB, signed, with one to eight files, with a
      payload of the size and the checksum given. */
  lemma AcceptableIff(mem: Image, len: nat)
    ensures Acceptable(mem, len) <==>
      var n, total := WordIn(mem, 348), WordIn(mem, 352);
      && 392 <= len <= 65536 && mem[..8] == [0x21, 0x4B, 0x50, 0x53, 1, 0, 0, 0] && 1 <= n <= 8
      && (392 + 73 * n + total) % 0x1_0000_0000 <= len
      && Djb2.Hash(Region(mem, 392 + 73 * n, total)) == WordIn(mem, 356)
  {
    hide U32At, WordIn, Djb2.Hash, Region;
    WordAt(mem, 348);
    WordAt(mem, 352);
    WordAt(mem, 356);
    SignedIff(mem);
  }

  lemma SignedIff(mem: Image)
    ensures U32At(mem, 0) == MAGIC && U32At(mem, 4) == VERSION <==>
            mem[..8] == [0x21, 0x4B, 0x50, 0x53, 1, 0, 0, 0]
  {
    WordAt(mem, 0);
    WordAt(mem, 4);
    hide U32At;
    FourOctets(mem[0], mem[1], mem[2], mem[3]);
    assert WordIn(mem, 4) == 1 <==> mem[4] == 1 && mem[5] == mem[6] == mem[7] == 0;
    if mem[..8] == [0x21, 0x4B, 0x50, 0x53, 1, 0, 0, 0] {
      assert forall i :: 0 <= i < 8 ==> mem[i] == mem[..8][i];
    }
  }

  lemma FourOctets(a: byte, b: byte, c: byte, d: byte)
    ensures FromOctets(a, b, c, d) == 0x5350_4B21 <==> a == 0x21 && b == 0x4B && c == 0x50 && d == 0x53
  {
  }

  /** A package whose payload lies in the file is refused after any change of one octet of the payload. */
  lemma CorruptionIsRefused(mem: Image, len: nat, k: nat, b: byte)
    requires Acceptable(mem, len) && Framed(mem, len) && PayloadStart(mem) <= k < PayloadStart(mem) + Total(mem)
    requires mem[k] != b
    ensures !Acceptable(mem[k := b], len)
  {
    hide Djb2.Hash, Le;
    var start, total, mem': Image := PayloadStart(mem), Total(mem), mem[k := b];
    SameWord(mem, k, b, 348);
    SameWord(mem, k, b, 352);
    SameWord(mem, k, b, 356);
    hide U32At;
    assert PayloadOf(mem') == PayloadOf(mem)[k - start := b];
    Djb2.OneOctetShows(PayloadOf(mem), k - start, b);
  }

  lemma SameWord(mem: Image, k: nat, b: byte, at: nat)
    requires at + 4 <= k < SPACE
    ensures U32At(mem[k := b], at) == U32At(mem, at)
  {
    assert mem[k := b][at..at + 4] == mem[at..at + 4];
  }

  /** A path is marked executable unless it ends in .txt, .cfg, .lst or .md. */
  lemma ExecutableIff(stem: seq<byte>, ext: seq<byte>, path: seq<byte>)
    requires path == stem + [46] + ext && 46 !in ext
    ensures Executable(path) == 0
       <==> ext == [116, 120, 116] || ext == [99, 102, 103] || ext == [108, 115, 116] || ext == [109, 100]
    ensures Executable(path) <= 1
  {
    EndsIff(stem, ext, path, [116, 120, 116], [46, 116, 120, 116]);
    EndsIff(stem, ext, path, [99, 102, 103], [46, 99, 102, 103]);
    EndsIff(stem, ext, path, [108, 115, 116], [46, 108, 115, 116]);
    EndsIff(stem, ext, path, [109, 100], [46, 109, 100]);
    hide EndsWith;
  }

  lemma EndsIff(stem: seq<byte>, ext: seq<byte>, path: seq<byte>, t: seq<byte>, dotted: seq<byte>)
    requires path == stem + [46] + ext && 46 !in ext && 46 !in t && dotted == [46] + t
    ensures EndsWith(path, dotted) <==> ext == t
  {
    if EndsWith(path, dotted) {
      var front := path[..|path| - |dotted|];
      assert path == front + dotted == front + [46] + t;
      LastDot(path, stem, ext);
      LastDot(path, front, t);
      assert |stem| == |front|;
    }
    if ext == t {
      assert path == stem + dotted;
      TailIs(stem, dotted, path);
    }
  }

  lemma TailIs(a: seq<byte>, b: seq<byte>, s: seq<byte>)
    requires s == a + b
    ensures s[|s| - |b|..] == b
  {
  }

  /** Where the last dot of a path is. */
  lemma LastDot(path: seq<byte>, stem: seq<byte>, ext: seq<byte>)
    requires path == stem + [46] + ext && 46 !in ext
    ensures path[|stem|] == 46 && path[|stem| + 1..] == ext
    ensures forall k :: |stem| < k < |path| ==> path[k] != 46
  {
  }

  /** The octets of record i of a package: path, size, offset and the executable flag. */
  lemma RecordInOctets(mem: Image, m: Meta, files: seq<File>, i: nat)
    requires Holds(mem, m, files) && i < |files|
    ensures var o := 392 + 73 * i;
      && CString(mem[o..o + 64]) == files[i].path && WordIn(mem, o + 64) == |files[i].content|
      && WordIn(mem, o + 68) == Offset(files, i) && mem[o + 72] == Executable(files[i].path)
  {
    hide CString, Le, WordIn, Packed, Records, HeaderBytes, Executable, Payload;
    PackedRecord(mem, m, files, i);
    RecordRead(mem, i);
    RecordFlag(mem, m, files, i);
  }

  /** Record i by its octets. */
  lemma RecordRead(mem: Image, i: nat)
    requires i < MAX_FILES
    ensures var o := 392 + 73 * i;
      PathAt(mem, i) == CString(mem[o..o + 64]) && SizeAt(mem, i) == WordIn(mem, o + 64)
      && OffsetAt(mem, i) == WordIn(mem, o + 68)
  {
    hide CString, Le, U32At, WordIn;
    var o, r := 392 + 73 * i, RecordAt(mem, i);
    assert r[..64] == mem[o..o + 64];
    WordAt(r, 64);
    WordAt(r, 68);
    SameOctets(mem, o, r, 64);
    SameOctets(mem, o, r, 68);
  }

  lemma SameOctets(mem: seq<byte>, o: nat, r: seq<byte>, at: nat)
    requires o + |r| <= |mem| && r == mem[o..o + |r|] && at + 4 <= |r|
    ensures WordIn(r, at) == WordIn(mem, o + at)
  {
  }

  lemma RecordFlag(mem: Image, m: Meta, files: seq<File>, i: nat)
    requires Holds(mem, m, files) && i < |files|
    ensures mem[392 + 73 * i + 72] == Executable(files[i].path)
  {
    hide Records, Payload, LeBytes, Le, HeaderBytes, Executable, RecordBytes, Offset;
    PackedSize(m, files);
    RecordsAt(files, |files|, i);
    var rs := Records(files, |files|);
    assert mem[HEADER..HEADER + RECORD * |files|] == rs by {
      TailOf(mem, HeaderBytes(m, |files|, Payload(files)), rs);
    }
    hide Packed;
    FlagOctet(files[i], Offset(files, i));
    OctetOfPart(mem, HEADER, rs, RECORD * i, 72);
  }

  lemma FlagOctet(f: File, offset: nat)
    ensures RecordBytes(f, offset)[72] == Executable(f.path)
  {
    hide Executable;
  }

  lemma OctetOfPart(mem: seq<byte>, at: nat, part: seq<byte>, o: nat, k: nat)
    requires at + |part| <= |mem| && mem[at..at + |part|] == part && k < RECORD && o + RECORD <= |part|
    ensures mem[at + o + k] == part[o..o + RECORD][k]
  {
    assert mem[at + (o + k)] == mem[at..at + |part|][o + k];
  }

  /** A record passes exactly when its size and its offset, added in 32 bits, do not exceed the payload. */
  lemma RecordPassesIff(mem: Image, i: nat)
    requires i < 8
    ensures RecordPasses(mem, i) <==>
      var o := 392 + 73 * i; (WordIn(mem, o + 64) + WordIn(mem, o + 68)) % 0x1_0000_0000 <= WordIn(mem, 352)
  {
    hide U32At, WordIn, SizeAt, OffsetAt;
    RecordRead(mem, i);
    WordAt(mem, 352);
  }
}
