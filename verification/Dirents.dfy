/** Directory blocks of SpaceFS: sixteen 32-octet entries, a 32-bit inode number (zero for a free
    slot) and a NUL-terminated name in 28 octets. */
module Dirents {
  import opened Bytes
  import opened Disk

  const PER_BLOCK: nat := 16
  const NAME_MAX: nat := 27

  type Name = s: seq<byte> | forall i :: 0 <= i < |s| ==> s[i] != 0

  datatype Dirent = Dirent(inode: nat, name: Name)

  /** What a 28-octet field keeps of a name. */
  function Kept(name: Name): (k: Name)
    ensures |k| <= NAME_MAX && (|name| <= NAME_MAX ==> k == name)
  {
    if |name| <= NAME_MAX then name else name[..NAME_MAX]
  }

  /** k_strncpy(dst, name, 27) followed by the terminator. */
  function NameField(name: Name): (s: seq<byte>)
    ensures |s| == 28
  {
    Kept(name) + Zeros(28 - |Kept(name)|)
  }

  function DirentAt(s: Sector, i: nat): (e: Dirent)
    requires i < PER_BLOCK
    ensures e.inode < 0x1_0000_0000
  {
    LeBound(s[32 * i..32 * i + 4]);
    assert Pow256(4) == 0x1_0000_0000;
    Dirent(Le(s[32 * i..32 * i + 4]), CString(s[32 * i + 4..32 * i + 32]))
  }

  function Put(s: Sector, i: nat, inode: nat, name: Name): (s': Sector)
    requires i < PER_BLOCK
  {
    s[..32 * i] + LeBytes(inode, 4) + NameField(name) + s[32 * i + 32..]
  }

  function Clear(s: Sector, i: nat): (s': Sector)
    requires i < PER_BLOCK
  {
    s[..32 * i] + LeBytes(0, 4) + s[32 * i + 4..]
  }

  lemma SmallWord(x: byte)
    ensures Le([x, 0, 0, 0]) == x
  {
    assert [x, 0, 0, 0][1..] == Zeros(3);
    LeZeros(3);
  }

  /** An entry that is written reads back, its name cut to 27 octets, and no other entry changes. */
  lemma PutThenRead(s: Sector, i: nat, inode: nat, name: Name, j: nat)
    requires i < PER_BLOCK && j < PER_BLOCK && inode < 0x1_0000_0000
    ensures j != i ==> DirentAt(Put(s, i, inode, name), j) == DirentAt(s, j)
    ensures j == i ==> DirentAt(Put(s, i, inode, name), j) == Dirent(inode, Kept(name))
  {
    hide Le, LeBytes, CString, NameField;
    var s' := Put(s, i, inode, name);
    if j == i {
      PlacedFields(s[..32 * i], LeBytes(inode, 4), NameField(name), s[32 * i + 32..]);
      FieldOfName(name);
      LeOfLeBytes(inode, 4);
      assert Pow256(4) == 0x1_0000_0000;
      CStringOfPadded(Kept(name), 28 - |Kept(name)|);
    } else {
      assert s'[32 * j..32 * j + 4] == s[32 * j..32 * j + 4];
      assert s'[32 * j + 4..32 * j + 32] == s[32 * j + 4..32 * j + 32];
    }
  }

  /** The octets an entry takes: number i begins at 32 i with its inode, least significant octet first; the name
      follows, of which 27 octets are kept, and NULs to the end. */
  lemma EntryOctets(s: Sector, i: nat, inode: nat, name: Name)
    requires i < 16 && inode < 0x1_0000_0000
    ensures var s' := Put(s, i, inode, name);
      && Le(s'[32 * i..32 * i + 4]) == inode
      && (forall k :: 0 <= k < 28 ==> s'[32 * i + 4 + k] == if k < |name| && k < 27 then name[k] else 0)
      && forall k :: 0 <= k < 512 && !(32 * i <= k < 32 * i + 32) ==> s'[k] == s[k]
  {
    hide Le, LeBytes;
    PlacedFields(s[..32 * i], LeBytes(inode, 4), NameField(name), s[32 * i + 32..]);
    LeOfLeBytes(inode, 4);
    assert Pow256(4) == 0x1_0000_0000;
    var s' := Put(s, i, inode, name);
    forall k | 0 <= k < 28 ensures s'[32 * i + 4 + k] == NameField(name)[k] {
    }
  }

  lemma PlacedFields(a: seq<byte>, b: seq<byte>, c: seq<byte>, d: seq<byte>)
    ensures var s := a + b + c + d;
      s[|a|..|a| + |b|] == b && s[|a| + |b|..|a| + |b| + |c|] == c
  {
  }

  lemma FieldOfName(name: Name)
    ensures NameField(name) == Kept(name) + Zeros(28 - |Kept(name)|)
  {
  }

  lemma ClearThenRead(s: Sector, i: nat, j: nat)
    requires i < PER_BLOCK && j < PER_BLOCK
    ensures j != i ==> DirentAt(Clear(s, i), j) == DirentAt(s, j)
    ensures j == i ==> DirentAt(Clear(s, i), j) == DirentAt(s, j).(inode := 0)
  {
    hide Le, LeBytes, CString;
    var s' := Clear(s, i);
    assert s'[32 * j + 4..32 * j + 32] == s[32 * j + 4..32 * j + 32];
    if j == i {
      assert s'[32 * i..32 * i + 4] == LeBytes(0, 4);
      LeOfLeBytes(0, 4);
    } else {
      assert s'[32 * j..32 * j + 4] == s[32 * j..32 * j + 4];
    }
  }

  lemma BlankBlock(j: nat)
    requires j < PER_BLOCK
    ensures DirentAt(Zeros(512), j) == Dirent(0, [])
  {
    var s: Sector := Zeros(512);
    assert s[32 * j..32 * j + 4] == Zeros(4);
    LeZeros(4);
    assert s[32 * j + 4..32 * j + 32] == [] + Zeros(28);
    CStringOfPadded([], 28);
  }
}
