/** The write-ahead journal of SpaceFS (kernel/fs/journal.c) and the journalled sector write
    (kernel/fs/spacefs.c:31-36). Functions say which sectors each operation writes and in which
    order; the class performs those writes one by one, and JournalCrash proves what survives when
    the machine stops between (or inside) any two of them. */
module Journal {
  import opened Bytes
  import opened Disk
  import Djb2

  const META_SECTOR: nat := 35
  const DATA_START: nat := 36
  const MAX_ENTRIES: nat := 31
  const MAGIC: nat := 0x4A52_4E4C
  const WORD: nat := 0x1_0000_0000

  /** ---- On-disk records ---- */

  datatype Meta = Meta(magic: nat, head: nat, tail: nat, nextTxid: nat, pad: seq<byte>) {
    predicate Fits() { magic < WORD && head < WORD && tail < WORD && nextTxid < WORD && |pad| == 496 }
  }

  datatype Header = Header(txid: nat, block: nat, committed: nat, checksum: nat, pad: seq<byte>) {
    predicate Fits() { txid < WORD && block < WORD && committed < WORD && checksum < WORD && |pad| == 496 }
  }

  /** Both records are four 32-bit words and padding. */
  function Pack(a: nat, b: nat, c: nat, d: nat, pad: seq<byte>): (s: Sector)
    requires |pad| == 496
  {
    LeBytes(a, 4) + LeBytes(b, 4) + LeBytes(c, 4) + LeBytes(d, 4) + pad
  }

  function EncodeMeta(m: Meta): (s: Sector)
    requires m.Fits()
  {
    Pack(m.magic, m.head, m.tail, m.nextTxid, m.pad)
  }

  function DecodeMeta(s: Sector): (m: Meta)
    ensures m.Fits()
  {
    WordsFit(s);
    Meta(Le(s[..4]), Le(s[4..8]), Le(s[8..12]), Le(s[12..16]), s[16..])
  }

  function EncodeHeader(h: Header): (s: Sector)
    requires h.Fits()
  {
    Pack(h.txid, h.block, h.committed, h.checksum, h.pad)
  }

  function DecodeHeader(s: Sector): (h: Header)
    ensures h.Fits()
  {
    WordsFit(s);
    Header(Le(s[..4]), Le(s[4..8]), Le(s[8..12]), Le(s[12..16]), s[16..])
  }

  lemma WordsFit(s: Sector)
    ensures Le(s[..4]) < WORD && Le(s[4..8]) < WORD && Le(s[8..12]) < WORD && Le(s[12..16]) < WORD
  {
    assert Pow256(4) == WORD;
    LeBound(s[..4]);
    LeBound(s[4..8]);
    LeBound(s[8..12]);
    LeBound(s[12..16]);
  }

  lemma PackRoundTrip(a: nat, b: nat, c: nat, d: nat, pad: seq<byte>)
    requires a < WORD && b < WORD && c < WORD && d < WORD && |pad| == 496
    ensures var s := Pack(a, b, c, d, pad);
      Le(s[..4]) == a && Le(s[4..8]) == b && Le(s[8..12]) == c && Le(s[12..16]) == d && s[16..] == pad
  {
    hide Le, LeBytes;
    assert Pow256(4) == WORD;
    LeOfLeBytes(a, 4);
    LeOfLeBytes(b, 4);
    LeOfLeBytes(c, 4);
    LeOfLeBytes(d, 4);
    var s := Pack(a, b, c, d, pad);
    assert s[..4] == LeBytes(a, 4) && s[4..8] == LeBytes(b, 4) && s[8..12] == LeBytes(c, 4)
      && s[12..16] == LeBytes(d, 4);
  }

  lemma MetaRoundTrip(m: Meta)
    requires m.Fits()
    ensures DecodeMeta(EncodeMeta(m)) == m
  {
    PackRoundTrip(m.magic, m.head, m.tail, m.nextTxid, m.pad);
  }

  lemma HeaderRoundTrip(h: Header)
    requires h.Fits()
    ensures DecodeHeader(EncodeHeader(h)) == h
  {
    PackRoundTrip(h.txid, h.block, h.committed, h.checksum, h.pad);
  }

  /** ---- Which sectors an operation writes ---- */

  function EntrySector(idx: nat): (s: nat)
    ensures DATA_START <= s <= 96 && s % 2 == 0
    ensures idx < MAX_ENTRIES ==> s == DATA_START + 2 * idx
  {
    DATA_START + (idx % MAX_ENTRIES) * 2
  }

  function Next(idx: nat): (i: nat)
    ensures i < MAX_ENTRIES
  {
    (idx + 1) % MAX_ENTRIES
  }

  predicate HasJournal(d: seq<Sector>) { |d| >= 98 }

  function HeaderAt(d: seq<Sector>, idx: nat): (h: Header)
    requires HasJournal(d)
    ensures h.Fits()
  {
    DecodeHeader(d[EntrySector(idx)])
  }

  function NewHeader(m: Meta, block: nat, data: Sector): (h: Header)
    requires m.Fits() && block < WORD
    ensures h.Fits()
  {
    Header(m.nextTxid, block, 0, Djb2.Hash(data), Zeros(496))
  }

  /** The meta record once an entry has been appended. */
  function Appended(m: Meta): (m': Meta)
    requires m.Fits()
    ensures m'.Fits()
  {
    m.(tail := Next(m.tail), nextTxid := (m.nextTxid + 1) % WORD)
  }

  function BeginWrites(m: Meta, block: nat, data: Sector): (ws: seq<SectorWrite>)
    requires m.Fits() && block < WORD
    ensures |ws| == 3
  {
    [SectorWrite(EntrySector(m.tail), EncodeHeader(NewHeader(m, block, data))),
     SectorWrite(EntrySector(m.tail) + 1, data),
     SectorWrite(META_SECTOR, EncodeMeta(Appended(m)))]
  }

  /** The first uncommitted entry with this txid at index i or above, MAX_ENTRIES if none. */
  function FirstMatch(d: seq<Sector>, txid: nat, i: nat): (j: nat)
    requires HasJournal(d) && i <= MAX_ENTRIES
    ensures i <= j <= MAX_ENTRIES
    ensures j < MAX_ENTRIES ==> HeaderAt(d, j).txid == txid && HeaderAt(d, j).committed == 0
    ensures forall k :: i <= k < j ==> HeaderAt(d, k).txid != txid || HeaderAt(d, k).committed != 0
    decreases MAX_ENTRIES - i
  {
    if i == MAX_ENTRIES then i
    else
      var h := HeaderAt(d, i);
      if h.txid == txid && h.committed == 0 then i else FirstMatch(d, txid, i + 1)
  }

  function MarkWrites(d: seq<Sector>, txid: nat): (ws: seq<SectorWrite>)
    requires HasJournal(d)
    ensures |ws| <= 1
  {
    var j := FirstMatch(d, txid, 0);
    if j == MAX_ENTRIES then []
    else [SectorWrite(EntrySector(j), EncodeHeader(HeaderAt(d, j).(committed := 1)))]
  }

  /** Steps around the ring from head to tail. */
  function Distance(head: nat, tail: nat): (n: nat)
    requires head < MAX_ENTRIES && tail < MAX_ENTRIES
    ensures n == 0 <==> head == tail
    ensures n < MAX_ENTRIES
  {
    if head <= tail then tail - head else tail + MAX_ENTRIES - head
  }

  lemma Closer(head: nat, tail: nat)
    requires head < MAX_ENTRIES && tail < MAX_ENTRIES && head != tail
    ensures Distance(Next(head), tail) == Distance(head, tail) - 1
  {
  }

  /** The first index at or after head, and before tail, whose entry is not committed; else tail. */
  function Advance(d: seq<Sector>, head: nat, tail: nat): (h: nat)
    requires HasJournal(d) && head < MAX_ENTRIES && tail < MAX_ENTRIES
    ensures h < MAX_ENTRIES
    decreases Distance(head, tail)
  {
    if head == tail || HeaderAt(d, head).committed == 0 then head
    else
      Closer(head, tail);
      Advance(d, Next(head), tail)
  }

  lemma FirstMatchStep(d: seq<Sector>, txid: nat, i: nat)
    requires HasJournal(d) && i <= MAX_ENTRIES
    ensures i == MAX_ENTRIES ==> FirstMatch(d, txid, i) == i
    ensures i < MAX_ENTRIES ==>
              var h := HeaderAt(d, i);
              FirstMatch(d, txid, i) == if h.txid == txid && h.committed == 0 then i else FirstMatch(d, txid, i + 1)
  {
    hide HeaderAt;
  }

  lemma AdvanceStep(d: seq<Sector>, head: nat, tail: nat)
    requires HasJournal(d) && head < MAX_ENTRIES && tail < MAX_ENTRIES
    ensures Advance(d, head, tail) ==
            if head == tail || HeaderAt(d, head).committed == 0 then head else Advance(d, Next(head), tail)
  {
    hide HeaderAt;
  }

  predicate Ring(m: Meta) { m.Fits() && m.head < MAX_ENTRIES && m.tail < MAX_ENTRIES }

  /** The meta record after a commit, given the disk with the entry already marked. */
  function Committed(d: seq<Sector>, m: Meta): (m': Meta)
    requires HasJournal(d) && Ring(m)
    ensures Ring(m')
  {
    m.(head := Advance(d, m.head, m.tail))
  }

  function CommitWrites(d: seq<Sector>, m: Meta, txid: nat): (ws: seq<SectorWrite>)
    requires HasJournal(d) && Ring(m)
  {
    var mark := MarkWrites(d, txid);
    mark + [SectorWrite(META_SECTOR, EncodeMeta(Committed(Apply(d, mark), m)))]
  }

  /** Everything one journalled write puts on the disk, in order. */
  function WriteSectorWrites(d: seq<Sector>, m: Meta, sec: nat, buf: Sector): (ws: seq<SectorWrite>)
    requires HasJournal(d) && Ring(m) && sec < WORD
  {
    var first := BeginWrites(m, sec, buf) + [SectorWrite(sec, buf)];
    first + CommitWrites(Apply(d, first), Appended(m), m.nextTxid)
  }

  /** Recovery of one entry: an uncommitted one is copied to its home sector. */
  function ReplayOne(d: seq<Sector>, idx: nat): (ws: seq<SectorWrite>)
    requires HasJournal(d)
  {
    if HeaderAt(d, idx).committed != 0 then []
    else [SectorWrite(HeaderAt(d, idx).block, d[EntrySector(idx) + 1])]
  }

  /** The replays of recovery: every uncommitted entry from idx up to tail, in ring order. */
  function ReplayWrites(d: seq<Sector>, idx: nat, tail: nat): (ws: seq<SectorWrite>)
    requires HasJournal(d) && idx < MAX_ENTRIES && tail < MAX_ENTRIES
    decreases Distance(idx, tail)
  {
    if idx == tail then []
    else
      Closer(idx, tail);
      ReplayOne(d, idx) + ReplayWrites(Apply(d, ReplayOne(d, idx)), Next(idx), tail)
  }

  function Emptied(m: Meta): (m': Meta)
    requires Ring(m)
    ensures Ring(m')
  {
    m.(head := m.tail)
  }

  function RecoverWrites(d: seq<Sector>, m: Meta): (ws: seq<SectorWrite>)
    requires HasJournal(d) && Ring(m)
  {
    ReplayWrites(d, m.head, m.tail) + [SectorWrite(META_SECTOR, EncodeMeta(Emptied(m)))]
  }

  /** The place of the loop of recovery after k passes. */
  function PlaceAfter(head: nat, k: nat): (idx: nat)
  {
    if k == 0 then head else Next(PlaceAfter(head, k - 1))
  }

  lemma {:induction false} PlaceReaches(head: nat, k: nat, tail: nat) returns (n: nat)
    requires PlaceAfter(head, k) < MAX_ENTRIES && tail < MAX_ENTRIES
    ensures PlaceAfter(head, n) == tail
    decreases Distance(PlaceAfter(head, k), tail)
  {
    n := k;
    if PlaceAfter(head, k) != tail {
      Closer(PlaceAfter(head, k), tail);
      n := PlaceReaches(head, k + 1, tail);
    }
  }

  /** The loop of recovery ends exactly when there is nothing to replay or the tail is a place of the ring:
      init looks at neither. */
  lemma RecoveryEnds(head: nat, tail: nat)
    ensures (exists k: nat :: PlaceAfter(head, k) == tail) <==> head == tail || tail < MAX_ENTRIES
  {
    if head == tail {
      assert PlaceAfter(head, 0) == tail;
    } else if tail < MAX_ENTRIES {
      var n := PlaceReaches(head, 1, tail);
    }
  }

  /** ---- Octet by octet ---- */

  /** The four words of a record. */
  lemma RecordWords(s: Sector)
    ensures Le(s[..4]) == WordIn(s, 0) && Le(s[4..8]) == WordIn(s, 4)
    ensures Le(s[8..12]) == WordIn(s, 8) && Le(s[12..16]) == WordIn(s, 12)
  {
    hide Le;
    LeIsWord(s, 0);
    LeIsWord(s, 4);
    LeIsWord(s, 8);
    LeIsWord(s, 12);
  }

  /** Where the fields are, and that a meta record is recognised by "LNRJ". */
  lemma RecordsInOctets(s: Sector)
    ensures var m := DecodeMeta(s);
      && (m.magic == MAGIC <==> s[..4] == [0x4C, 0x4E, 0x52, 0x4A])
      && m.head == WordIn(s, 4) && m.tail == WordIn(s, 8) && m.nextTxid == WordIn(s, 12) && m.pad == s[16..]
    ensures var h := DecodeHeader(s);
      && h.txid == WordIn(s, 0) && h.block == WordIn(s, 4) && h.committed == WordIn(s, 8)
      && h.checksum == WordIn(s, 12) && h.pad == s[16..]
  {
    hide Le;
    RecordWords(s);
    FourOctets(s[0], s[1], s[2], s[3]);
  }

  lemma FourOctets(a: byte, b: byte, c: byte, d: byte)
    ensures FromOctets(a, b, c, d) == 0x4A52_4E4C <==> a == 0x4C && b == 0x4E && c == 0x52 && d == 0x4A
  {
  }

  /** The three writes that begin an entry: its header and its data in the two sectors of its place from
      sector 36 on, and the meta record in sector 35, which has room for 31 entries. */
  lemma BeginInOctets(m: Meta, block: nat, data: Sector)
    requires m.Fits() && m.tail < 31 && m.magic == MAGIC && block < 0x1_0000_0000
    ensures var ws := BeginWrites(m, block, data); var h, meta := ws[0].data, ws[2].data;
      && |ws| == 3 && ws[0].sec == 36 + 2 * m.tail && ws[1] == SectorWrite(37 + 2 * m.tail, data) && ws[2].sec == 35
      && WordIn(h, 0) == m.nextTxid && WordIn(h, 4) == block && WordIn(h, 8) == 0
      && WordIn(h, 12) == Djb2.Hash(data) && h[16..] == Zeros(496)
      && meta[..4] == [0x4C, 0x4E, 0x52, 0x4A] && WordIn(meta, 4) == m.head
      && WordIn(meta, 8) == (if m.tail == 30 then 0 else m.tail + 1)
      && WordIn(meta, 12) == (m.nextTxid + 1) % 0x1_0000_0000
  {
    hide EncodeMeta, EncodeHeader, DecodeMeta, DecodeHeader, WordIn, Djb2.Hash;
    var ws := BeginWrites(m, block, data);
    HeaderRoundTrip(NewHeader(m, block, data));
    RecordsInOctets(ws[0].data);
    MetaRoundTrip(Appended(m));
    RecordsInOctets(ws[2].data);
  }

  /** The mark of a commit changes one word of the header: it becomes 1. */
  lemma MarkInOctets(d: seq<Sector>, txid: nat, i: nat)
    requires HasJournal(d) && i < 31 && FirstMatch(d, txid, 0) == i
    ensures var ws, h := MarkWrites(d, txid), d[36 + 2 * i];
      && |ws| == 1 && ws[0].sec == 36 + 2 * i && WordIn(h, 0) == txid && WordIn(h, 8) == 0
      && ws[0].data == h[..8] + [1, 0, 0, 0] + h[12..]
  {
    hide Le, LeBytes, Pack, DecodeHeader, WordIn, FirstMatch;
    var h := d[36 + 2 * i];
    RecordsInOctets(h);
    Repacked(h);
  }

  lemma Repacked(s: Sector)
    ensures EncodeHeader(DecodeHeader(s).(committed := 1)) == s[..8] + [1, 0, 0, 0] + s[12..]
  {
    hide Le, LeBytes;
    LeBytesOfLe(s[..4]);
    LeBytesOfLe(s[4..8]);
    LeBytesOfLe(s[12..16]);
    assert LeBytes(1, 4) == [1, 0, 0, 0] by { OneInOctets(); }
    assert s == s[..8] + s[8..12] + s[12..];
  }

  lemma OneInOctets()
    ensures LeBytes(1, 4) == [1, 0, 0, 0]
  {
    assert LeBytes(1, 4) == [1] + LeBytes(0, 3);
    assert LeBytes(0, 3) == [0] + LeBytes(0, 2);
  }

  /** ---- The journal object ---- */

  class Log {
    var jmeta: Meta
    var ok: bool
    const drive: Drive

    /** The meta record is in memory. */
    ghost predicate Loaded()
      reads this, drive
    {
      HasJournal(drive.sectors) && jmeta.Fits()
    }

    /** The meta record, if there is one, describes a ring. */
    ghost predicate Valid()
      reads this, drive
    {
      Loaded() && (ok ==> Ring(jmeta))
    }

    constructor (drv: Drive)
      requires HasJournal(drv.sectors)
      ensures Valid() && drive == drv && !ok
    {
      drive := drv;
      ok := false;
      jmeta := Meta(0, 0, 0, 0, Zeros(496));
    }

    /** journal_init: an unrecognised meta sector is replaced by an empty one; a recognised one is taken
        as it is, whatever its head and tail. */
    method Init()
      requires Loaded()
      modifies this, drive
      ensures Loaded() && ok && (Valid() <==> Ring(jmeta))
      ensures var m := DecodeMeta(old(drive.sectors)[META_SECTOR]);
        if m.magic == MAGIC then
          jmeta == m && drive.sectors == old(drive.sectors) && drive.log == old(drive.log)
        else
          && jmeta == Meta(MAGIC, 0, 0, 0, Zeros(496))
          && drive.log == old(drive.log) + [SectorWrite(META_SECTOR, EncodeMeta(jmeta))]
          && drive.sectors == Apply1(old(drive.sectors), SectorWrite(META_SECTOR, EncodeMeta(jmeta)))
          && drive.sectors[META_SECTOR] == EncodeMeta(jmeta)
    {
      var read, s := drive.Read(META_SECTOR);
      jmeta := DecodeMeta(s);
      if jmeta.magic != MAGIC {
        jmeta := Meta(MAGIC, 0, 0, 0, Zeros(496));
        Flush();
      }
      ok := true;
    }

    /** j_flush_meta. */
    method Flush()
      requires Loaded()
      modifies drive
      ensures Loaded()
      ensures drive.sectors == Apply1(old(drive.sectors), SectorWrite(META_SECTOR, EncodeMeta(jmeta)))
      ensures drive.log == old(drive.log) + [SectorWrite(META_SECTOR, EncodeMeta(jmeta))]
      ensures drive.sectors[META_SECTOR] == EncodeMeta(jmeta)
    {
      var written := drive.Write(META_SECTOR, EncodeMeta(jmeta));
    }

    /** journal_begin. */
    method Begin(block: nat, data: Sector) returns (txid: nat)
      requires Loaded() && block < WORD
      modifies this, drive
      ensures Loaded() && ok == old(ok) && (old(Valid()) ==> Valid())
      ensures !ok ==>
                txid == 0 && jmeta == old(jmeta)
                && drive.sectors == old(drive.sectors) && drive.log == old(drive.log)
      ensures ok ==>
        && txid == old(jmeta.nextTxid) && jmeta == Appended(old(jmeta))
        && drive.log == old(drive.log) + BeginWrites(old(jmeta), block, data)
        && drive.sectors == Apply(old(drive.sectors), BeginWrites(old(jmeta), block, data))
    {
      hide Le, LeBytes, Pack, EncodeMeta, EncodeHeader, Apply, Apply1, Djb2.Hash;
      if !ok { return 0; }
      ghost var d, m := drive.sectors, jmeta;
      var sec := EntrySector(jmeta.tail);
      var sum := Djb2.Checksum(data);
      var hdr := Header(jmeta.nextTxid, block, 0, sum, Zeros(496));
      var written := drive.Write(sec, EncodeHeader(hdr));
      written := drive.Write(sec + 1, data);
      jmeta := jmeta.(tail := (jmeta.tail + 1) % MAX_ENTRIES, nextTxid := (jmeta.nextTxid + 1) % WORD);
      Flush();
      txid := hdr.txid;
      Apply3(d, BeginWrites(m, block, data));
    }

    /** The search of journal_commit's first loop. */
    method FindEntry(txid: nat) returns (i: nat)
      requires Valid() && ok
      ensures i == FirstMatch(drive.sectors, txid, 0)
    {
      hide FirstMatch, HeaderAt;
      i := 0;
      while i < MAX_ENTRIES
        invariant 0 <= i <= MAX_ENTRIES
        invariant FirstMatch(drive.sectors, txid, 0) == FirstMatch(drive.sectors, txid, i)
      {
        FirstMatchStep(drive.sectors, txid, i);
        var hdr := ReadHeader(i);
        if hdr.txid == txid && hdr.committed == 0 { return; }
        i := i + 1;
      }
      FirstMatchStep(drive.sectors, txid, i);
    }

    /** The header of an entry. */
    method ReadHeader(idx: nat) returns (hdr: Header)
      requires Loaded()
      ensures hdr == HeaderAt(drive.sectors, idx)
    {
      hide DecodeHeader;
      var read, s := drive.Read(EntrySector(idx));
      hdr := DecodeHeader(s);
    }

    /** The first loop of journal_commit: mark the entry with this txid and stop. */
    method Mark(txid: nat)
      requires Valid() && ok
      modifies drive
      ensures Valid()
      ensures drive.log == old(drive.log) + MarkWrites(old(drive.sectors), txid)
      ensures drive.sectors == Apply(old(drive.sectors), MarkWrites(old(drive.sectors), txid))
    {
      hide Le, Pack, FirstMatch;
      var i := FindEntry(txid);
      if i < MAX_ENTRIES {
        var read, s := drive.Read(EntrySector(i));
        var written := drive.Write(EntrySector(i), EncodeHeader(DecodeHeader(s).(committed := 1)));
      }
    }

    /** The second loop of journal_commit. */
    method AdvanceHead()
      requires Valid() && ok
      modifies this`jmeta
      ensures Valid()
      ensures jmeta == Committed(drive.sectors, old(jmeta))
    {
      hide HeaderAt, Advance, Distance;
      while jmeta.head != jmeta.tail
        invariant Ring(jmeta) && jmeta == old(jmeta).(head := jmeta.head)
        invariant Advance(drive.sectors, jmeta.head, jmeta.tail) == Advance(drive.sectors, old(jmeta.head), jmeta.tail)
        decreases Distance(jmeta.head, jmeta.tail)
      {
        AdvanceStep(drive.sectors, jmeta.head, jmeta.tail);
        var hdr := ReadHeader(jmeta.head);
        if hdr.committed == 0 { break; }
        Closer(jmeta.head, jmeta.tail);
        jmeta := jmeta.(head := (jmeta.head + 1) % MAX_ENTRIES);
      }
      AdvanceStep(drive.sectors, jmeta.head, jmeta.tail);
    }

    /** journal_commit: mark the entry, then advance head over committed entries. */
    method Commit(txid: nat)
      requires Valid()
      modifies this, drive
      ensures Valid() && ok == old(ok)
      ensures !ok ==> jmeta == old(jmeta) && drive.sectors == old(drive.sectors) && drive.log == old(drive.log)
      ensures ok ==>
        && jmeta == Committed(Apply(old(drive.sectors), MarkWrites(old(drive.sectors), txid)), old(jmeta))
        && drive.log == old(drive.log) + CommitWrites(old(drive.sectors), old(jmeta), txid)
        && drive.sectors == Apply(old(drive.sectors), CommitWrites(old(drive.sectors), old(jmeta), txid))
        && drive.sectors[META_SECTOR] == EncodeMeta(jmeta)
    {
      hide MarkWrites, Committed, EncodeMeta;
      if !ok { return; }
      ghost var d := drive.sectors;
      Mark(txid);
      AdvanceHead();
      Flush();
      ApplyConcat(d, MarkWrites(d, txid), [SectorWrite(META_SECTOR, EncodeMeta(jmeta))]);
    }

    /** One pass of the loop of journal_recover. */
    method ReplayEntry(idx: nat)
      requires Valid()
      modifies drive
      ensures HasJournal(drive.sectors)
      ensures drive.log == old(drive.log) + ReplayOne(old(drive.sectors), idx)
      ensures drive.sectors == Apply(old(drive.sectors), ReplayOne(old(drive.sectors), idx))
    {
      hide Le, LeBytes, Pack;
      var sec := EntrySector(idx);
      var read, s := drive.Read(sec);
      var hdr := DecodeHeader(s);
      if hdr.committed == 0 {
        var read1, data := drive.Read(sec + 1);
        var written := drive.Write(hdr.block, data);
      }
    }

    /** The loop of journal_recover. */
    method Replay()
      requires Valid() && ok
      modifies drive
      ensures Valid()
      ensures drive.log == old(drive.log) + ReplayWrites(old(drive.sectors), jmeta.head, jmeta.tail)
      ensures drive.sectors == Apply(old(drive.sectors), ReplayWrites(old(drive.sectors), jmeta.head, jmeta.tail))
    {
      hide ReplayOne;
      ghost var d := drive.sectors;
      ghost var done: seq<SectorWrite> := [];
      var idx := jmeta.head;
      while idx != jmeta.tail
        invariant 0 <= idx < MAX_ENTRIES && HasJournal(drive.sectors)
        invariant drive.sectors == Apply(d, done) && drive.log == old(drive.log) + done
        invariant ReplayWrites(d, jmeta.head, jmeta.tail) == done + ReplayWrites(drive.sectors, idx, jmeta.tail)
        decreases Distance(idx, jmeta.tail)
      {
        ghost var one := ReplayOne(drive.sectors, idx);
        ApplyConcat(d, done, one);
        Closer(idx, jmeta.tail);
        ConcatAssoc(old(drive.log), done, one);
        ConcatAssoc(done, one, ReplayWrites(Apply(drive.sectors, one), Next(idx), jmeta.tail));
        done := done + one;
        ReplayEntry(idx);
        idx := Next(idx);
      }
      assert done + [] == done;
    }

    /** journal_recover. */
    method Recover()
      requires Valid()
      modifies this, drive
      ensures Valid() && ok == old(ok)
      ensures !ok ==> jmeta == old(jmeta) && drive.sectors == old(drive.sectors) && drive.log == old(drive.log)
      ensures ok ==>
        && jmeta == Emptied(old(jmeta))
        && drive.log == old(drive.log) + RecoverWrites(old(drive.sectors), old(jmeta))
        && drive.sectors == Apply(old(drive.sectors), RecoverWrites(old(drive.sectors), old(jmeta)))
        && drive.sectors[META_SECTOR] == EncodeMeta(jmeta)
    {
      hide ReplayWrites, EncodeMeta;
      if !ok { return; }
      ghost var d, m := drive.sectors, jmeta;
      Replay();
      jmeta := jmeta.(head := jmeta.tail);
      Flush();
      ApplyConcat(d, ReplayWrites(d, m.head, m.tail), [SectorWrite(META_SECTOR, EncodeMeta(jmeta))]);
    }

    /** sfs_write_sec: begin, write home, commit. */
    method WriteSector(sec: nat, buf: Sector) returns (written: bool)
      requires Valid() && ok && sec < WORD
      modifies this, drive
      ensures Valid() && ok
      ensures written == (sec < |old(drive.sectors)|)
      ensures drive.log == old(drive.log) + WriteSectorWrites(old(drive.sectors), old(jmeta), sec, buf)
      ensures drive.sectors == Apply(old(drive.sectors), WriteSectorWrites(old(drive.sectors), old(jmeta), sec, buf))
      ensures drive.sectors[META_SECTOR] == EncodeMeta(jmeta)
    {
      hide Le, LeBytes, Pack, EncodeMeta, EncodeHeader, BeginWrites, CommitWrites, Committed, MarkWrites;
      ghost var d, m := drive.sectors, jmeta;
      var txid := Begin(sec, buf);
      written := drive.Write(sec, buf);
      ghost var first := BeginWrites(m, sec, buf) + [SectorWrite(sec, buf)];
      ApplyConcat(d, BeginWrites(m, sec, buf), [SectorWrite(sec, buf)]);
      ConcatAssoc(old(drive.log), BeginWrites(m, sec, buf), [SectorWrite(sec, buf)]);
      Commit(txid);
      ConcatAssoc(old(drive.log), first, CommitWrites(Apply(d, first), Appended(m), m.nextTxid));
      ApplyConcat(d, first, CommitWrites(Apply(d, first), Appended(m), m.nextTxid));
    }
  }

  lemma ConcatAssoc(a: seq<SectorWrite>, b: seq<SectorWrite>, c: seq<SectorWrite>)
    ensures (a + b) + c == a + (b + c)
  {
  }

  lemma Apply3(d: seq<Sector>, ws: seq<SectorWrite>)
    requires |ws| == 3
    ensures Apply(d, ws) == Apply1(Apply1(Apply1(d, ws[0]), ws[1]), ws[2])
  {
    var a, b := ws[1..], ws[2..];
    assert a[0] == ws[1] && a[1..] == b && b[0] == ws[2] && b[1..] == [];
    assert Apply(Apply1(Apply1(d, ws[0]), ws[1]), b) == Apply1(Apply1(Apply1(d, ws[0]), ws[1]), ws[2]);
  }
}
