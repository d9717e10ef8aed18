/** 8.3 names of FAT32 directory entries (kernel/fs/fat32.c:115-157): building the readable name from an
    entry, and the eleven octets from a readable name. */
module FatNames {
  import opened Bytes

  const SPACE: byte := 0x20
  const DOT: byte := 0x2E

  /** k_toupper. */
  function Upper(b: byte): (r: byte) { if 97 <= b <= 122 then b - 32 else b }

  /** The first n octets of s in upper case, padded with spaces. */
  function Field(s: seq<byte>, n: nat): (r: seq<byte>)
  {
    seq(n, j requires 0 <= j => if j < |s| then Upper(s[j]) else SPACE)
  }

  function BaseLength(f: seq<byte>): (b: nat)
    ensures b <= |f| && b <= 8
  {
    if Until(f, DOT) < 8 then Until(f, DOT) else 8
  }

  function ExtStart(f: seq<byte>): (e: nat)
    ensures e <= |f|
  {
    var b := BaseLength(f);
    if b < |f| && f[b] == DOT then b + 1 else b
  }

  /** The eleven octets a file name is looked up by. */
  function Normal(f: seq<byte>): (r: seq<byte>)
    ensures |r| == 11
  {
    Field(f[..BaseLength(f)], 8) + Field(f[ExtStart(f)..], 3)
  }

  /** The readable name of an entry. */
  function Readable(raw: seq<byte>): (r: seq<byte>)
    requires |raw| == 11
    ensures |r| <= 12
  {
    var ext := raw[8..];
    raw[..Until(raw[..8], SPACE)] + if ext == [SPACE, SPACE, SPACE] then [] else [DOT] + ext[..Until(ext, SPACE)]
  }

  /** fat32_normalize: out receives eleven octets and a NUL. */
  method Normalize(filename: seq<byte>, out: array<byte>)
    requires 0 !in filename && out.Length >= 12
    modifies out
    ensures out[..11] == Normal(filename) && out[11] == 0
    ensures out[12..] == old(out[12..])
  {
    forall k | 0 <= k < 11 { out[k] := SPACE; }
    out[11] := 0;
    var i, j := 0, 0;
    while i < |filename| && filename[i] != DOT && j < 8
      invariant i == j <= 8 && i <= |filename|
      invariant forall k :: 0 <= k < i ==> filename[k] != DOT
      invariant forall k :: 0 <= k < 11 ==> out[k] == if k < j then Upper(filename[k]) else SPACE
      invariant out[11] == 0 && out[12..] == old(out[12..])
    {
      out[j] := Upper(filename[i]);
      i, j := i + 1, j + 1;
    }
    ghost var b := i;
    assert b == BaseLength(filename);
    if i < |filename| && filename[i] == DOT {
      i := i + 1;
    }
    assert i == ExtStart(filename);
    assert out[..8] == Field(filename[..b], 8);
    NormalizeExtension(filename, i, out);
    assert out[..11] == out[..8] + out[8..11];
  }

  /** The loop that stores the extension, the last three octets. */
  method NormalizeExtension(filename: seq<byte>, from: nat, out: array<byte>)
    requires from <= |filename| && out.Length >= 12 && forall k :: 8 <= k < 11 ==> out[k] == SPACE
    modifies out
    ensures out[..8] == old(out[..8]) && out[8..11] == Field(filename[from..], 3) && out[11..] == old(out[11..])
  {
    var i: nat, j := from, 8;
    while i < |filename| && j < 11
      invariant from <= i <= |filename| && 8 <= j <= 11 && i - from == j - 8
      invariant forall k :: 8 <= k < 11 ==> out[k] == if k < j then Upper(filename[from + k - 8]) else SPACE
      invariant out[..8] == old(out[..8]) && out[11..] == old(out[11..])
    {
      out[j] := Upper(filename[i]);
      i, j := i + 1, j + 1;
    }
  }

  /** Copies src up to its first space to out from at on. */
  method CopyUntilSpace(src: seq<byte>, out: array<byte>, at: nat) returns (j: nat)
    requires at + |src| <= out.Length
    modifies out
    ensures j == at + Until(src, SPACE)
    ensures out[..at] == old(out[..at]) && out[at..j] == src[..j - at]
  {
    var i := 0;
    j := at;
    while i < |src| && src[i] != SPACE
      invariant i <= |src| && j == at + i
      invariant forall k :: 0 <= k < i ==> src[k] != SPACE
      invariant out[..at] == old(out[..at]) && out[at..j] == src[..i]
    {
      out[j] := src[i];
      i, j := i + 1, j + 1;
    }
    UntilIs(src, SPACE, i);
  }

  /** The loop that looks for an extension. */
  method HasExtension(ext: seq<byte>) returns (has: bool)
    requires |ext| == 3
    ensures has == (ext != [SPACE, SPACE, SPACE])
  {
    has := false;
    var i := 0;
    while i < 3
      invariant 0 <= i <= 3 && !has
      invariant forall k :: 0 <= k < i ==> ext[k] == SPACE
    {
      if ext[i] != SPACE {
        has := true;
        break;
      }
      i := i + 1;
    }
  }

  /** reconstruct_name: out receives the readable name and a NUL. */
  method Reconstruct(raw: seq<byte>, out: array<byte>)
    requires |raw| == 11 && out.Length >= 13
    modifies out
    ensures var r := Readable(raw); out[..|r|] == r && out[|r|] == 0
  {
    hide Until, Readable;
    var j := CopyUntilSpace(raw[..8], out, 0);
    var ext := raw[8..];
    assert out[..j] == raw[..8][..j];
    var hasExt := HasExtension(ext);
    assert raw == raw[..8] + ext;
    ReadableShape(raw[..8], ext);
    if hasExt {
      j := AppendExtension(ext, out, j);
    }
    assert out[..j] == Readable(raw);
    Terminate(out, j);
  }

  /** The dot and the extension behind what out holds. */
  method AppendExtension(ext: seq<byte>, out: array<byte>, at: nat) returns (j: nat)
    requires at + 1 + |ext| <= out.Length
    modifies out
    ensures j == at + 1 + Until(ext, SPACE)
    ensures out[..j] == old(out[..at]) + [DOT] + ext[..Until(ext, SPACE)]
  {
    hide Until;
    out[at] := DOT;
    assert out[..at + 1] == old(out[..at]) + [DOT];
    j := CopyUntilSpace(ext, out, at + 1);
    assert out[..j] == out[..at + 1] + out[at + 1..j];
  }

  method Terminate(out: array<byte>, at: nat)
    requires at < out.Length
    modifies out
    ensures out[..at] == old(out[..at]) && out[at] == 0
  {
    out[at] := 0;
  }

  /** A field that reading and writing keep: octets other than the forbidden ones, then spaces. */
  predicate Padded(s: seq<byte>, forbidden: set<byte>)
  {
    var k := Until(s, SPACE);
    && (forall i :: k <= i < |s| ==> s[i] == SPACE)
    && forall i :: 0 <= i < k ==> s[i] != 0 && Upper(s[i]) == s[i] && s[i] !in forbidden
  }

  /** Normalising the readable name of an entry gives the entry's name back exactly when base and
      extension are upper-case, NUL-free and padded on the right, and the base holds no dot. */
  lemma NormalOfReadable(raw: seq<byte>)
    requires |raw| == 11
    ensures Normal(CString(Readable(raw))) == raw <==> Padded(raw[..8], {DOT}) && Padded(raw[8..], {})
  {
    var name, ext := raw[..8], raw[8..];
    var f := CString(Readable(raw));
    if Padded(name, {DOT}) && Padded(ext, {}) {
      KeptName(name, ext);
      assert name + ext == raw;
    }
    if Normal(f) == raw {
      assert Field(f[..BaseLength(f)], 8) == name by { assert Normal(f)[..8] == name; }
      assert Field(f[ExtStart(f)..], 3) == ext by { assert Normal(f)[8..] == ext; }
      assert name + ext == raw;
      LostBase(name, ext, f);
      LostExt(name, ext, f);
    }
  }

  lemma ReadableShape(name: seq<byte>, ext: seq<byte>)
    requires |name| == 8 && |ext| == 3
    ensures Readable(name + ext)
         == name[..Until(name, SPACE)] + if ext == [SPACE, SPACE, SPACE] then [] else [DOT] + ext[..Until(ext, SPACE)]
  {
    assert (name + ext)[..8] == name && (name + ext)[8..] == ext;
  }

  lemma KeptName(name: seq<byte>, ext: seq<byte>)
    requires |name| == 8 && |ext| == 3 && Padded(name, {DOT}) && Padded(ext, {})
    ensures Normal(CString(Readable(name + ext))) == name + ext
  {
    hide Readable, Field, Upper;
    var k, m := Until(name, SPACE), Until(ext, SPACE);
    ReadableShape(name, ext);
    var r := Readable(name + ext);
    BlankIff(ext);
    PaddedIsField(name, {DOT});
    PaddedIsField(ext, {});
    UntilIs(r, 0, |r|);
    UntilIs(r, DOT, k);
    assert CString(r) == r && BaseLength(r) == k;
    assert r[..k] == name[..k];
    assert r[ExtStart(r)..] == ext[..m];
  }

  lemma BlankIff(ext: seq<byte>)
    requires |ext| == 3 && Padded(ext, {})
    ensures ext == [SPACE, SPACE, SPACE] <==> Until(ext, SPACE) == 0
  {
  }

  /** A padded field is what its name is stored as. */
  lemma PaddedIsField(s: seq<byte>, forbidden: set<byte>)
    requires Padded(s, forbidden)
    ensures Field(s[..Until(s, SPACE)], |s|) == s
  {
  }

  /** The base that survives stops at its first space. */
  lemma LostBase(name: seq<byte>, ext: seq<byte>, f: seq<byte>)
    requires |name| == 8 && |ext| == 3 && f == CString(Readable(name + ext))
    requires Field(f[..BaseLength(f)], 8) == name
    ensures BaseLength(f) == Until(name, SPACE) && Padded(name, {DOT})
  {
    hide Readable;
    var k, b := Until(name, SPACE), BaseLength(f);
    ReadableShape(name, ext);
    var r := Readable(name + ext);
    assert |f| > k ==> f[k] == r[k] == DOT;
    forall j | 0 <= j < 8 ensures name[j] == if j < b then Upper(f[j]) else SPACE {
      assert name[j] == Field(f[..b], 8)[j];
    }
    forall j | 0 <= j < k ensures f[j] == name[j] && f[j] != DOT && f[j] != 0 {
      assert f[j] == r[j];
    }
  }

  lemma LostExt(name: seq<byte>, ext: seq<byte>, f: seq<byte>)
    requires |name| == 8 && |ext| == 3 && f == CString(Readable(name + ext))
    requires BaseLength(f) == Until(name, SPACE)
    requires Field(f[ExtStart(f)..], 3) == ext
    ensures Padded(ext, {})
  {
    hide Readable;
    var k, m, e := Until(name, SPACE), Until(ext, SPACE), ExtStart(f);
    ReadableShape(name, ext);
    var r := Readable(name + ext);
    assert |r| > k ==> r[k] == DOT;
    forall j | 0 <= j < 3 ensures ext[j] == if j < |f| - e then Upper(f[e + j]) else SPACE {
      assert ext[j] == Field(f[e..], 3)[j];
    }
    if |f| > k {
      assert f[k] == r[k] == DOT && e == k + 1;
      forall j | 0 <= j < |f| - e ensures f[e + j] == ext[j] && f[e + j] != 0 && j < m {
        assert r[e + j] == f[e + j];
      }
    } else {
      assert f == r[..|f|] && (ext != [SPACE, SPACE, SPACE] ==> |r| > k);
    }
  }

  /** ---- Names that are one ---- */

  /** The same octet, or one letter in both cases. */
  predicate AlikeOctet(a: byte, b: byte)
  {
    a == b || (97 <= a <= 122 && b == a - 32) || (97 <= b <= 122 && a == b - 32)
  }

  /** The same name, whatever the case of its letters. */
  predicate Alike(f: seq<byte>, g: seq<byte>)
  {
    |f| == |g| && forall i :: 0 <= i < |f| ==> AlikeOctet(f[i], g[i])
  }

  /** No lower-case letter is left. */
  lemma NormalIsUpper(f: seq<byte>, k: nat)
    requires k < 11
    ensures !(97 <= Normal(f)[k] <= 122)
  {
    var b := f[..BaseLength(f)];
    if k < 8 {
      assert Normal(f)[k] == Field(b, 8)[k];
    } else {
      assert Normal(f)[k] == Field(f[ExtStart(f)..], 3)[k - 8];
    }
  }

  /** "kernel.c" is looked up as "KERNEL  C  ". */
  lemma NormalOfKernel()
    ensures Normal([107, 101, 114, 110, 101, 108, 46, 99]) == [75, 69, 82, 78, 69, 76, 32, 32, 67, 32, 32]
  {
    var f: seq<byte> := [107, 101, 114, 110, 101, 108, 46, 99];
    UntilIs(f, DOT, 6);
    assert f[..6] == [107, 101, 114, 110, 101, 108] && f[7..] == [99];
    assert Field([107, 101, 114, 110, 101, 108], 8) == [75, 69, 82, 78, 69, 76, 32, 32];
    assert Field([99], 3) == [67, 32, 32];
  }

  /** At most eight octets, and behind a dot one to three; no spaces. */
  predicate IsShort(f: seq<byte>)
  {
    var b := Until(f, 46);
    b <= 8 && 32 !in f && (b < |f| ==> 1 <= |f| - b - 1 <= 3)
  }

  lemma UpperAlike(a: byte, b: byte)
    ensures Upper(a) == Upper(b) <==> AlikeOctet(a, b)
    ensures Upper(a) == 32 <==> a == 32
  {
  }

  /** Two short names are looked up by the same eleven octets exactly when they are one name, whatever the
      case of its letters. */
  lemma SameNormalIff(f: seq<byte>, g: seq<byte>)
    requires IsShort(f) && IsShort(g)
    ensures Normal(f) == Normal(g) <==> Alike(f, g)
  {
    hide Upper, AlikeOctet, Until;
    var b, c := Until(f, 46), Until(g, 46);
    ShortParts(f);
    ShortParts(g);
    if Normal(f) == Normal(g) {
      assert Field(f[..b], 8) == Normal(f)[..8] == Field(g[..c], 8);
      assert Field(f[ExtStart(f)..], 3) == Normal(f)[8..] == Field(g[ExtStart(g)..], 3);
      FieldsAlike(f[..b], g[..c], 8);
      FieldsAlike(f[ExtStart(f)..], g[ExtStart(g)..], 3);
      AlikeParts(f, g, b);
    }
    if Alike(f, g) {
      AlikeDots(f, g);
      AlikeFields(f[..b], g[..b], 8);
      AlikeFields(f[ExtStart(f)..], g[ExtStart(g)..], 3);
    }
  }

  lemma ShortParts(f: seq<byte>)
    requires IsShort(f)
    ensures var b := Until(f, 46);
      BaseLength(f) == b && ExtStart(f) == (if b < |f| then b + 1 else b) && |f| - ExtStart(f) <= 3
  {
  }

  lemma FieldsAlike(a: seq<byte>, b: seq<byte>, n: nat)
    requires Field(a, n) == Field(b, n) && |a| <= n && |b| <= n && 32 !in a && 32 !in b
    ensures Alike(a, b)
  {
    hide Upper, AlikeOctet;
    SameFieldLength(a, b, n);
    SameFieldLength(b, a, n);
    forall j | 0 <= j < |a| ensures AlikeOctet(a[j], b[j]) {
      assert Field(a, n)[j] == Field(b, n)[j];
      UpperAlike(a[j], b[j]);
    }
  }

  lemma SameFieldLength(a: seq<byte>, b: seq<byte>, n: nat)
    requires Field(a, n) == Field(b, n) && |a| <= n && |b| <= n && 32 !in b
    ensures |a| >= |b|
  {
    hide Upper;
    if |a| < |b| {
      assert Field(a, n)[|a|] == Field(b, n)[|a|];
      UpperAlike(b[|a|], 0);
    }
  }

  lemma AlikeFields(a: seq<byte>, b: seq<byte>, n: nat)
    requires Alike(a, b)
    ensures Field(a, n) == Field(b, n)
  {
    hide Upper, AlikeOctet;
    forall j | 0 <= j < |a| ensures Upper(a[j]) == Upper(b[j]) { UpperAlike(a[j], b[j]); }
  }

  lemma AlikeDots(f: seq<byte>, g: seq<byte>)
    requires Alike(f, g)
    ensures Until(f, 46) == Until(g, 46)
  {
    hide Until;
    UntilIs(g, 46, Until(f, 46));
  }

  lemma AlikeParts(f: seq<byte>, g: seq<byte>, b: nat)
    requires b == Until(f, 46) == Until(g, 46)
    requires var e := if b < |f| then b + 1 else b; var e' := if b < |g| then b + 1 else b;
      Alike(f[..b], g[..b]) && Alike(f[e..], g[e'..])
    requires (b < |f| ==> b + 1 < |f|) && (b < |g| ==> b + 1 < |g|)
    ensures Alike(f, g)
  {
    hide AlikeOctet;
    assert |f| == |g| && (b < |f| ==> f[b] == g[b] == 46);
    hide Until;
    forall i | 0 <= i < |f| ensures AlikeOctet(f[i], g[i]) {
      if i < b {
        assert f[..b][i] == f[i] && g[..b][i] == g[i];
      } else if i == b {
        AlikeSame(46);
      } else {
        assert f[b + 1..][i - b - 1] == f[i] && g[b + 1..][i - b - 1] == g[i];
      }
    }
  }

  lemma AlikeSame(a: byte)
    ensures AlikeOctet(a, a)
  {
  }
}
