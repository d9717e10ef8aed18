/** The djb2 checksum, as kernel/pkg/pkg_checksum.c, kernel/fs/journal.c and mkspk.py compute it. */
module Djb2 {
  import opened Bytes

  const WORD: nat := 0x1_0000_0000

  /** hash * 33 + octet over all octets, in 32 bits. */
  function Hash(s: seq<byte>): (h: nat)
    ensures h < WORD
  {
    if s == [] then 5381 else (33 * Hash(s[..|s| - 1]) + s[|s| - 1]) % WORD
  }

  /** The C loop: shift, add, add, each in a 32-bit word. */
  method Checksum(data: seq<byte>) returns (hash: nat)
    ensures hash == Hash(data)
  {
    hash := 5381;
    for i := 0 to |data|
      invariant hash == Hash(data[..i])
    {
      assert data[..i + 1][..i] == data[..i];
      var shifted := (hash * 32) % WORD;
      AddMod(hash * 32, hash, WORD);
      AddMod(hash * 33, data[i], WORD);
      hash := ((shifted + hash) % WORD + data[i]) % WORD;
    }
    assert data[..|data|] == data;
  }

  /** The Python loop: one mask at the end of each step. */
  method PackerChecksum(data: seq<byte>) returns (h: nat)
    ensures h == Hash(data)
  {
    h := 5381;
    for i := 0 to |data|
      invariant h == Hash(data[..i])
    {
      assert data[..i + 1][..i] == data[..i];
      h := (h * 32 + h + data[i]) % WORD;
    }
    assert data[..|data|] == data;
  }

  /** ---- What the checksum tells apart ---- */

  lemma Step(s: seq<byte>, b: byte, t: seq<byte>, h: nat)
    requires t == s + [b] && h == (33 * Hash(s) + b) % 0x1_0000_0000
    ensures Hash(t) == h
  {
    assert t[..|s|] == s;
  }

  lemma HashOfHello()
    ensures Hash([104, 101, 108, 108, 111]) == 261238937
  {
    assert Hash([]) == 5381;
    hide Hash;
    Step([], 104, [104], 177677);
    Step([104], 101, [104, 101], 5863442);
    Step([104, 101], 108, [104, 101, 108], 193493694);
    Step([104, 101, 108], 108, [104, 101, 108, 108], 2090324714);
    Step([104, 101, 108, 108], 111, [104, 101, 108, 108, 111], 261238937);
  }

  /** The checksums of nothing and of "hello world", past the first wrap-around. */
  lemma KnownHashes()
    ensures Hash([]) == 5381
    ensures Hash([104, 101, 108, 108, 111, 32, 119, 111, 114, 108, 100]) == 894552257
  {
    assert Hash([]) == 5381;
    hide Hash;
    HashOfHello();
    Step([104, 101, 108, 108, 111], 32, [104, 101, 108, 108, 111, 32], 30950361);
    Step([104, 101, 108, 108, 111, 32], 119, [104, 101, 108, 108, 111, 32, 119], 1021362032);
    Step([104, 101, 108, 108, 111, 32, 119], 111, [104, 101, 108, 108, 111, 32, 119, 111], 3640176095);
    Step([104, 101, 108, 108, 111, 32, 119, 111], 114, [104, 101, 108, 108, 111, 32, 119, 111, 114], 4161694257);
    Step([104, 101, 108, 108, 111, 32, 119, 111, 114],
      108, [104, 101, 108, 108, 111, 32, 119, 111, 114, 108], 4191924413);
    Step([104, 101, 108, 108, 111, 32, 119, 111, 114, 108],
      100, [104, 101, 108, 108, 111, 32, 119, 111, 114, 108, 100], 894552257);
  }

  /** 33 has an inverse modulo 2^32, so a step loses nothing of the hash it starts from. */
  lemma StepInjective(a: nat, b: nat, c: byte)
    requires a < 0x1_0000_0000 && b < 0x1_0000_0000
    requires (33 * a + c) % 0x1_0000_0000 == (33 * b + c) % 0x1_0000_0000
    ensures a == b
  {
    var k := (33 * a + c) / 0x1_0000_0000 - (33 * b + c) / 0x1_0000_0000;
    assert 33 * (a - b) == 0x1_0000_0000 * k;
    assert 1041204193 * 33 == 8 * 0x1_0000_0000 + 1;
    assert a - b == 0x1_0000_0000 * (1041204193 * k - 8 * (a - b));
  }

  /** The change of one octet, anywhere, always changes the checksum. */
  lemma {:induction false} OneOctetShows(s: seq<byte>, i: nat, b: byte)
    requires i < |s| && s[i] != b
    ensures Hash(s[i := b]) != Hash(s)
  {
    var n, t := |s| - 1, s[i := b];
    if i == n {
      assert t[..n] == s[..n];
    } else {
      assert t[..n] == s[..n][i := b];
      OneOctetShows(s[..n], i, b);
      if Hash(t) == Hash(s) { StepInjective(Hash(t[..n]), Hash(s[..n]), s[n]); }
    }
  }
}
