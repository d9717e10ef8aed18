/** Crash safety of the journal: what the home sectors hold after any run of journalled writes,
    crashes inside a write, crashes inside a recovery, and recoveries. */
module JournalCrash {
  import opened Wrappers
  import opened Bytes
  import opened Disk
  import opened Journal

  /** Sectors outside the journal area: superblock, bitmaps, inodes and data. */
  predicate Home(sec: nat) { sec < META_SECTOR || sec >= 98 }

  /** A crash may tear the write in progress when it targets a home or an entry's data sector; the
      meta record and entry headers are taken to be written atomically. */
  predicate Tearable(sec: nat) { Home(sec) || (DATA_START <= sec < 98 && sec % 2 == 1) }

  /** The disk after k of the writes ws, the next one possibly torn. */
  function Crash(d: seq<Sector>, ws: seq<SectorWrite>, k: nat, torn: Option<Sector>): (c: seq<Sector>)
    requires k <= |ws|
    ensures |c| == |d|
  {
    var c := Apply(d, ws[..k]);
    if torn.Some? && k < |ws| && Tearable(ws[k].sec) then Apply1(c, SectorWrite(ws[k].sec, torn.value)) else c
  }

  function MetaOf(d: seq<Sector>): (m: Meta)
    requires HasJournal(d)
    ensures m.Fits()
  {
    DecodeMeta(d[META_SECTOR])
  }

  /** ---- Invariants. n counts the entries ever appended, so tail is n mod 31 and the next txid n mod 2^32. ---- */

  /** The txid in slot i once n entries have been appended: that of the last one put there. */
  function SlotTxid(i: nat, n: nat): (t: nat)
    requires i < MAX_ENTRIES
  {
    if n <= i then 0 else (i + MAX_ENTRIES * ((n - 1 - i) / MAX_ENTRIES)) % WORD
  }

  /** Every slot but the next one to be used carries its txid. */
  ghost predicate Slots(d: seq<Sector>, n: nat)
    requires HasJournal(d)
  {
    forall i: nat :: i < MAX_ENTRIES && i != n % MAX_ENTRIES ==> HeaderAt(d, i).txid == SlotTxid(i, n)
  }

  /** Every slot carries its txid, the one just appended included. */
  ghost predicate AllSlots(d: seq<Sector>, n: nat)
    requires HasJournal(d)
  {
    forall i: nat :: i < MAX_ENTRIES ==> HeaderAt(d, i).txid == SlotTxid(i, n)
  }

  predicate MetaIs(d: seq<Sector>, head: nat, n: nat)
    requires HasJournal(d)
  {
    var m := MetaOf(d);
    m.magic == MAGIC && m.head == head && m.tail == n % MAX_ENTRIES && m.nextTxid == n % WORD
  }

  predicate Homes(d: seq<Sector>, a: seq<Sector>)
  {
    |d| == |a| && forall s :: 0 <= s < |d| && Home(s) ==> d[s] == a[s]
  }

  /** Nothing in flight. */
  ghost predicate Quiet(d: seq<Sector>, a: seq<Sector>, n: nat)
  {
    HasJournal(d) && MetaIs(d, n % MAX_ENTRIES, n) && Slots(d, n) && Homes(d, a)
  }

  /** Entry n is on the disk and not committed; its home sector holds anything. a is the contents
      that recovery will produce. */
  ghost predicate Logged(d: seq<Sector>, a: seq<Sector>, n: nat)
  {
    && HasJournal(d) && MetaIs(d, n % MAX_ENTRIES, n + 1) && AllSlots(d, n + 1)
    && var h := HeaderAt(d, n % MAX_ENTRIES);
    && h.committed == 0 && Home(h.block) && h.block < |d| == |a|
    && d[EntrySector(n % MAX_ENTRIES) + 1] == a[h.block]
    && forall s :: 0 <= s < |d| && Home(s) && s != h.block ==> d[s] == a[s]
  }

  /** Entry n is marked committed and its home sector written, but head still points at it. */
  ghost predicate Marked(d: seq<Sector>, a: seq<Sector>, n: nat)
  {
    && HasJournal(d) && MetaIs(d, n % MAX_ENTRIES, n + 1) && AllSlots(d, n + 1)
    && HeaderAt(d, n % MAX_ENTRIES).committed != 0 && Homes(d, a)
  }

  /** ---- Slots and txids ---- */

  lemma SlotsStep(i: nat, n: nat)
    requires i < MAX_ENTRIES
    ensures i != n % MAX_ENTRIES ==> SlotTxid(i, n + 1) == SlotTxid(i, n)
    ensures i == n % MAX_ENTRIES ==> SlotTxid(i, n + 1) == n % WORD
  {
    if n >= i {
      var q, r := (n - i) / MAX_ENTRIES, (n - i) % MAX_ENTRIES;
      assert n - i == MAX_ENTRIES * q + r;
      if r == 0 {
        DivModUnique(n, MAX_ENTRIES, q, i);
      } else {
        DivModUnique(n - 1 - i, MAX_ENTRIES, q, r - 1);
        if i + r < MAX_ENTRIES {
          DivModUnique(n, MAX_ENTRIES, q, i + r);
        } else {
          DivModUnique(n, MAX_ENTRIES, q + 1, i + r - MAX_ENTRIES);
        }
      }
    }
  }

  /** No other slot carries the txid of the entry just appended, unless it lies after slot 0 on a
      journal whose first entry this is. */
  lemma OthersDiffer(i: nat, n: nat)
    requires i < MAX_ENTRIES && i < n
    requires i != n % MAX_ENTRIES
    ensures SlotTxid(i, n) != n % WORD
  {
    var k := i + MAX_ENTRIES * ((n - 1 - i) / MAX_ENTRIES);
    assert n - MAX_ENTRIES <= k < n;
    if k % WORD == n % WORD {
      var q := n / WORD - k / WORD;
      assert n - k == WORD * q;
      MultipleGrows(WORD, q);
    }
  }

  lemma NextSlot(n: nat)
    ensures (n + 1) % MAX_ENTRIES == Next(n % MAX_ENTRIES)
    ensures (n + 1) % MAX_ENTRIES != n % MAX_ENTRIES
    ensures (n + 1) % WORD == (n % WORD + 1) % WORD
  {
    AddMod(n, 1, MAX_ENTRIES);
    AddMod(n, 1, WORD);
  }

  /** ---- One sector write at a time ---- */

  /** Writing a header changes that slot's header and nothing else anyone reads. */
  lemma PutHeader(d: seq<Sector>, i: nat, h: Header)
    requires HasJournal(d) && i < MAX_ENTRIES && h.Fits()
    ensures var d' := Apply1(d, SectorWrite(EntrySector(i), EncodeHeader(h)));
      && HeaderAt(d', i) == h && MetaOf(d') == MetaOf(d)
      && (forall j: nat :: j < MAX_ENTRIES && j != i ==> HeaderAt(d', j) == HeaderAt(d, j))
      && (forall j: nat :: j < MAX_ENTRIES ==> d'[EntrySector(j) + 1] == d[EntrySector(j) + 1])
      && forall s :: 0 <= s < |d| && Home(s) ==> d'[s] == d[s]
  {
    hide EncodeHeader, DecodeHeader, DecodeMeta;
    HeaderRoundTrip(h);
  }

  lemma PutMeta(d: seq<Sector>, m: Meta)
    requires HasJournal(d) && m.Fits()
    ensures var d' := Apply1(d, SectorWrite(META_SECTOR, EncodeMeta(m)));
      && MetaOf(d') == m
      && (forall j: nat :: j < MAX_ENTRIES ==> HeaderAt(d', j) == HeaderAt(d, j))
      && (forall j: nat :: j < MAX_ENTRIES ==> d'[EntrySector(j) + 1] == d[EntrySector(j) + 1])
      && forall s :: 0 <= s < |d| && Home(s) ==> d'[s] == d[s]
  {
    hide EncodeMeta, DecodeHeader, DecodeMeta;
    MetaRoundTrip(m);
  }

  lemma PutOther(d: seq<Sector>, sec: nat, t: Sector)
    requires HasJournal(d) && Tearable(sec)
    ensures var d' := Apply1(d, SectorWrite(sec, t));
      && MetaOf(d') == MetaOf(d)
      && (forall j: nat :: j < MAX_ENTRIES ==> HeaderAt(d', j) == HeaderAt(d, j))
      && (forall j: nat :: j < MAX_ENTRIES && EntrySector(j) + 1 != sec ==>
        d'[EntrySector(j) + 1] == d[EntrySector(j) + 1])
      && forall s :: 0 <= s < |d| && s != sec ==> d'[s] == d[s]
  {
  }

  /** The header and data of a begin, before its meta flush, leave the journal quiet. */
  lemma StageHeader(d: seq<Sector>, a: seq<Sector>, n: nat, h: Header)
    requires Quiet(d, a, n) && h.Fits()
    ensures var d' := Apply1(d, SectorWrite(EntrySector(n % MAX_ENTRIES), EncodeHeader(h)));
      Quiet(d', a, n) && HeaderAt(d', n % MAX_ENTRIES) == h
  {
    hide EncodeHeader, HeaderAt, MetaOf;
    PutHeader(d, n % MAX_ENTRIES, h);
  }

  lemma StageData(d: seq<Sector>, a: seq<Sector>, n: nat, t: Sector)
    requires Quiet(d, a, n)
    ensures var d' := Apply1(d, SectorWrite(EntrySector(n % MAX_ENTRIES) + 1, t));
      && Quiet(d', a, n) && HeaderAt(d', n % MAX_ENTRIES) == HeaderAt(d, n % MAX_ENTRIES)
      && d'[EntrySector(n % MAX_ENTRIES) + 1] == t
  {
    hide HeaderAt, MetaOf;
    PutOther(d, EntrySector(n % MAX_ENTRIES) + 1, t);
  }

  /** The meta flush of begin is the point from which recovery yields the new contents. */
  lemma FlushBegin(d: seq<Sector>, a: seq<Sector>, n: nat)
    requires Quiet(d, a, n)
    requires var h := HeaderAt(d, n % MAX_ENTRIES);
      h.txid == n % WORD && h.committed == 0 && Home(h.block) && h.block < |d|
    ensures var h := HeaderAt(d, n % MAX_ENTRIES);
      Logged(Apply1(d, SectorWrite(META_SECTOR, EncodeMeta(Appended(MetaOf(d))))),
             a[h.block := d[EntrySector(n % MAX_ENTRIES) + 1]], n)
  {
    hide EncodeMeta, HeaderAt, MetaOf, SlotTxid;
    PutMeta(d, Appended(MetaOf(d)));
    NextSlot(n);
    var d' := Apply1(d, SectorWrite(META_SECTOR, EncodeMeta(Appended(MetaOf(d)))));
    forall i: nat | i < MAX_ENTRIES
      ensures HeaderAt(d', i).txid == SlotTxid(i, n + 1)
    {
      SlotsStep(i, n);
      assert HeaderAt(d', i) == HeaderAt(d, i);
    }
  }

  /** Whatever happens to the home sector in flight, recovery still has what it needs. */
  lemma WriteHome(d: seq<Sector>, a: seq<Sector>, n: nat, t: Sector)
    requires Logged(d, a, n)
    ensures var b := HeaderAt(d, n % MAX_ENTRIES).block;
      var d' := Apply1(d, SectorWrite(b, t));
      && Logged(d', a, n) && HeaderAt(d', n % MAX_ENTRIES) == HeaderAt(d, n % MAX_ENTRIES)
      && MetaOf(d') == MetaOf(d)
      && (t == a[b] ==> Homes(d', a))
  {
    hide HeaderAt, MetaOf, SlotTxid;
    PutOther(d, HeaderAt(d, n % MAX_ENTRIES).block, t);
  }

  lemma MarkEntry(d: seq<Sector>, a: seq<Sector>, n: nat)
    requires Logged(d, a, n) && Homes(d, a)
    ensures var h := HeaderAt(d, n % MAX_ENTRIES);
      var d' := Apply1(d, SectorWrite(EntrySector(n % MAX_ENTRIES), EncodeHeader(h.(committed := 1))));
      Marked(d', a, n) && MetaOf(d') == MetaOf(d)
  {
    hide EncodeHeader, HeaderAt, MetaOf, SlotTxid;
    PutHeader(d, n % MAX_ENTRIES, HeaderAt(d, n % MAX_ENTRIES).(committed := 1));
  }

  lemma FlushDone(d: seq<Sector>, a: seq<Sector>, n: nat, m: Meta)
    requires HasJournal(d) && Slots(d, n) && Homes(d, a) && MetaOf(d).magic == MAGIC
    requires m.Fits() && m.magic == MAGIC && m.head == m.tail == n % MAX_ENTRIES && m.nextTxid == n % WORD
    ensures Quiet(Apply1(d, SectorWrite(META_SECTOR, EncodeMeta(m))), a, n)
  {
    hide EncodeMeta, HeaderAt, MetaOf, SlotTxid;
    PutMeta(d, m);
  }

  /** ---- The six writes of one journalled sector write ---- */

  /** The commit finds exactly the entry just begun. */
  lemma CommitFindsEntry(d: seq<Sector>, a: seq<Sector>, n: nat)
    requires Logged(d, a, n)
    ensures FirstMatch(d, n % WORD, 0) == n % MAX_ENTRIES
  {
    hide HeaderAt, MetaOf, SlotTxid, FirstMatch;
    var j, at := FirstMatch(d, n % WORD, 0), n % MAX_ENTRIES;
    SlotsStep(at, n);
    assert HeaderAt(d, at).txid == n % WORD && HeaderAt(d, at).committed == 0;
    assert j <= at;
    if j < at {
      SlotsStep(j, n);
      OthersDiffer(j, n);
    }
  }

  /** The writes of one journalled sector write when the journal is quiet. */
  function SixWrites(m: Meta, n: nat, sec: nat, buf: Sector): (ws: seq<SectorWrite>)
    requires m.Fits() && sec < WORD
    ensures |ws| == 6
  {
    var h, m' := NewHeader(m, sec, buf), Appended(m);
    [SectorWrite(EntrySector(n % MAX_ENTRIES), EncodeHeader(h)),
     SectorWrite(EntrySector(n % MAX_ENTRIES) + 1, buf),
     SectorWrite(META_SECTOR, EncodeMeta(m')),
     SectorWrite(sec, buf),
     SectorWrite(EntrySector(n % MAX_ENTRIES), EncodeHeader(h.(committed := 1))),
     SectorWrite(META_SECTOR, EncodeMeta(m'.(head := m'.tail)))]
  }

  lemma ApplyPrefix(d: seq<Sector>, ws: seq<SectorWrite>, k: nat)
    requires k < |ws|
    ensures Apply(d, ws[..k + 1]) == Apply1(Apply(d, ws[..k]), ws[k])
  {
    assert ws[..k + 1] == ws[..k] + [ws[k]];
    ApplyConcat(d, ws[..k], [ws[k]]);
  }

  /** The state of the disk before each of the six writes and after the last. */
  lemma SixStates(d: seq<Sector>, a: seq<Sector>, n: nat, sec: nat, buf: Sector)
    requires Quiet(d, a, n) && Home(sec) && sec < |d| && sec < WORD
    ensures var ws := SixWrites(MetaOf(d), n, sec, buf);
      var a' := a[sec := buf];
      && (forall k :: 0 <= k < 3 ==> Quiet(Apply(d, ws[..k]), a, n))
      && (forall k :: 3 <= k < 5 ==>
        Logged(Apply(d, ws[..k]), a', n)
        && HeaderAt(Apply(d, ws[..k]), n % MAX_ENTRIES).block == sec)
      && Homes(Apply(d, ws[..4]), a')
      && MetaOf(Apply(d, ws[..4])) == Appended(MetaOf(d))
      && HeaderAt(Apply(d, ws[..4]), n % MAX_ENTRIES) == NewHeader(MetaOf(d), sec, buf)
      && Marked(Apply(d, ws[..5]), a', n)
      && Quiet(Apply(d, ws), a', n + 1)
  {
    hide Quiet, Logged, Marked, HeaderAt, MetaOf, Apply, Apply1, SixWrites, NewHeader, Appended, Homes;
    QuietMeta(d, a, n);
    var m := MetaOf(d);
    var ws := SixWrites(m, n, sec, buf);
    NewHeaderFields(m, sec, buf);
    SixLadder(d, a, n, sec, buf);
    Prefixes(d, ws);
    forall k | 0 <= k < 3
      ensures Quiet(Apply(d, ws[..k]), a, n)
    {
      assert k == 0 || k == 1 || k == 2;
    }
    forall k | 3 <= k < 5
      ensures Logged(Apply(d, ws[..k]), a[sec := buf], n) && HeaderAt(Apply(d, ws[..k]), n % MAX_ENTRIES).block == sec
    {
      assert k == 3 || k == 4;
    }
  }

  lemma Prefixes(d: seq<Sector>, ws: seq<SectorWrite>)
    requires |ws| == 6
    ensures Apply(d, ws[..0]) == d
    ensures Apply(d, ws[..1]) == Apply1(d, ws[0])
    ensures Apply(d, ws[..2]) == Apply1(Apply(d, ws[..1]), ws[1])
    ensures Apply(d, ws[..3]) == Apply1(Apply(d, ws[..2]), ws[2])
    ensures Apply(d, ws[..4]) == Apply1(Apply(d, ws[..3]), ws[3])
    ensures Apply(d, ws[..5]) == Apply1(Apply(d, ws[..4]), ws[4])
    ensures Apply(d, ws) == Apply1(Apply(d, ws[..5]), ws[5])
  {
    hide Apply, Apply1;
    assert ws[..0] == [] && ws[..6] == ws;
    ApplyNone(d);
    ApplyPrefix(d, ws, 0);
    ApplyPrefix(d, ws, 1);
    ApplyPrefix(d, ws, 2);
    ApplyPrefix(d, ws, 3);
    ApplyPrefix(d, ws, 4);
    ApplyPrefix(d, ws, 5);
  }

  lemma SixLadder(d: seq<Sector>, a: seq<Sector>, n: nat, sec: nat, buf: Sector)
    requires Quiet(d, a, n) && Home(sec) && sec < |d| && sec < WORD
    ensures |d| == |a|
    ensures var ws := SixWrites(MetaOf(d), n, sec, buf);
      var a', i := a[sec := buf], n % MAX_ENTRIES;
      var d1 := Apply1(d, ws[0]);
      var d2 := Apply1(d1, ws[1]);
      var d3 := Apply1(d2, ws[2]);
      var d4 := Apply1(d3, ws[3]);
      var d5 := Apply1(d4, ws[4]);
      var d6 := Apply1(d5, ws[5]);
      && Quiet(d1, a, n) && Quiet(d2, a, n)
      && Logged(d3, a', n) && HeaderAt(d3, i).block == sec
      && Logged(d4, a', n) && HeaderAt(d4, i) == NewHeader(MetaOf(d), sec, buf)
      && Homes(d4, a') && MetaOf(d4) == Appended(MetaOf(d))
      && Marked(d5, a', n)
      && Quiet(d6, a', n + 1)
  {
    hide Quiet, Logged, Marked, HeaderAt, MetaOf, EncodeHeader, EncodeMeta, Apply, NewHeader, Appended, Homes, Slots,
         AllSlots;
    QuietMeta(d, a, n);
    var m := MetaOf(d);
    var ws := SixWrites(m, n, sec, buf);
    var h := NewHeader(m, sec, buf);
    NewHeaderFields(m, sec, buf);
    var d1 := Apply1(d, ws[0]);
    StageHeader(d, a, n, h);
    var d2 := Apply1(d1, ws[1]);
    StageData(d1, a, n, buf);
    StagedMeta(d, n, h, buf);
    var d3 := Apply1(d2, ws[2]);
    FlushBegin(d2, a, n);
    FlushKeeps(d2, n, Appended(m));
    var d4 := Apply1(d3, ws[3]);
    WriteHome(d3, a[sec := buf], n, buf);
    var d5 := Apply1(d4, ws[4]);
    MarkEntry(d4, a[sec := buf], n);
    FinishWrite(d, d5, a, a[sec := buf], n);
  }

  lemma ApplyNone(d: seq<Sector>)
    ensures Apply(d, []) == d
  {
  }

  lemma QuietMeta(d: seq<Sector>, a: seq<Sector>, n: nat)
    requires Quiet(d, a, n)
    ensures HasJournal(d) && |d| == |a| && Ring(MetaOf(d))
    ensures MetaOf(d).nextTxid == n % WORD && MetaOf(d).head == MetaOf(d).tail == n % MAX_ENTRIES
            && MetaOf(d).magic == MAGIC
  {
  }

  lemma NewHeaderFields(m: Meta, sec: nat, buf: Sector)
    requires m.Fits() && sec < WORD
    ensures var h := NewHeader(m, sec, buf);
      h.Fits() && h.txid == m.nextTxid && h.committed == 0 && h.block == sec
  {
  }

  lemma StagedMeta(d: seq<Sector>, n: nat, h: Header, buf: Sector)
    requires HasJournal(d) && h.Fits()
    ensures var d1 := Apply1(d, SectorWrite(EntrySector(n % MAX_ENTRIES), EncodeHeader(h)));
      MetaOf(Apply1(d1, SectorWrite(EntrySector(n % MAX_ENTRIES) + 1, buf))) == MetaOf(d)
  {
  }

  lemma FlushKeeps(d: seq<Sector>, n: nat, m: Meta)
    requires HasJournal(d) && m.Fits()
    ensures var d' := Apply1(d, SectorWrite(META_SECTOR, EncodeMeta(m)));
      HeaderAt(d', n % MAX_ENTRIES) == HeaderAt(d, n % MAX_ENTRIES) && MetaOf(d') == m
  {
    PutMeta(d, m);
  }

  lemma FinishWrite(d: seq<Sector>, d5: seq<Sector>, a: seq<Sector>, a': seq<Sector>, n: nat)
    requires Quiet(d, a, n) && Marked(d5, a', n)
    ensures var m' := Appended(MetaOf(d));
      Quiet(Apply1(d5, SectorWrite(META_SECTOR, EncodeMeta(m'.(head := m'.tail)))), a', n + 1)
  {
    hide EncodeMeta, HeaderAt, MetaOf, SlotTxid;
    NextSlot(n);
    var m' := Appended(MetaOf(d));
    FlushDone(d5, a', n + 1, m'.(head := m'.tail));
  }

  /** The six writes are what the code performs, and only the fourth of them touches a home sector. */
  lemma WritesAreSix(d: seq<Sector>, a: seq<Sector>, n: nat, sec: nat, buf: Sector)
    requires Quiet(d, a, n) && Home(sec) && sec < |d| && sec < WORD
    ensures Ring(MetaOf(d))
    ensures WriteSectorWrites(d, MetaOf(d), sec, buf) == SixWrites(MetaOf(d), n, sec, buf)
    ensures var ws := SixWrites(MetaOf(d), n, sec, buf);
      ws[3] == SectorWrite(sec, buf) && forall i :: 0 <= i < 6 && i != 3 ==> !Home(ws[i].sec)
  {
    hide EncodeHeader, EncodeMeta, HeaderAt, MetaOf, Apply, Logged, Marked;
    var m := MetaOf(d);
    var ws := SixWrites(m, n, sec, buf);
    QuietMeta(d, a, n);
    SixStates(d, a, n, sec, buf);
    var first := BeginWrites(m, sec, buf) + [SectorWrite(sec, buf)];
    assert first == ws[..4];
    var d4 := Apply(d, first);
    CommitFindsEntry(d4, a[sec := buf], n);
    var mark := MarkWrites(d4, m.nextTxid);
    assert mark == [ws[4]];
    ApplyConcat(d, ws[..4], mark);
    assert ws[..4] + mark == ws[..5];
    CommitAdvances(Apply(d, ws[..5]), a[sec := buf], n);
    NextSlot(n);
  }

  lemma CommitAdvances(d: seq<Sector>, a: seq<Sector>, n: nat)
    requires Marked(d, a, n)
    ensures Advance(d, n % MAX_ENTRIES, (n + 1) % MAX_ENTRIES) == (n + 1) % MAX_ENTRIES
  {
    hide HeaderAt, MetaOf, SlotTxid;
    NextSlot(n);
    Closer(n % MAX_ENTRIES, (n + 1) % MAX_ENTRIES);
  }

  /** ---- Crashes and recovery ---- */

  /** What a stopped machine may leave behind: n entries appended, and a what recovery will produce. */
  ghost predicate Down(d: seq<Sector>, a: seq<Sector>, n: nat)
  {
    Quiet(d, a, n) || (n > 0 && (Logged(d, a, n - 1) || Marked(d, a, n - 1)))
  }

  /** A crash anywhere in a journalled write: the old contents up to the third sector write, the
      meta flush of begin; the new contents from there on. */
  lemma CrashInsideWrite(d: seq<Sector>, a: seq<Sector>, n: nat, sec: nat, buf: Sector, k: nat, torn: Option<Sector>)
    requires Quiet(d, a, n) && Home(sec) && sec < |d| && sec < WORD && k <= 6
    ensures Ring(MetaOf(d)) && |WriteSectorWrites(d, MetaOf(d), sec, buf)| == 6
    ensures var c := Crash(d, WriteSectorWrites(d, MetaOf(d), sec, buf), k, torn);
      if k < 3 then Quiet(c, a, n) else Down(c, a[sec := buf], n + 1)
    ensures Quiet(Apply(d, WriteSectorWrites(d, MetaOf(d), sec, buf)), a[sec := buf], n + 1)
  {
    hide Quiet, Logged, Marked, HeaderAt, MetaOf, Apply, Apply1, Homes, WriteSectorWrites, SixWrites, Ring, Tearable,
         EntrySector;
    QuietMeta(d, a, n);
    WritesAreSix(d, a, n, sec, buf);
    SixStates(d, a, n, sec, buf);
    var ws := SixWrites(MetaOf(d), n, sec, buf);
    assert ws[..6] == ws;
    SixTargets(MetaOf(d), n, sec, buf);
    if k < 3 {
      CrashBeforeFlush(d, a, n, ws, k, torn);
    } else {
      CrashAfterFlush(d, a[sec := buf], n, ws, k, torn);
    }
  }

  lemma CrashBeforeFlush(d: seq<Sector>, a: seq<Sector>, n: nat, ws: seq<SectorWrite>, k: nat, torn: Option<Sector>)
    requires k < 3 && |ws| == 6 && Quiet(Apply(d, ws[..k]), a, n)
    requires !Tearable(ws[0].sec) && ws[1].sec == EntrySector(n % MAX_ENTRIES) + 1 && !Tearable(ws[2].sec)
    ensures Quiet(Crash(d, ws, k, torn), a, n)
  {
    hide Quiet, Apply, Apply1, Tearable, EntrySector;
    if torn.Some? && k == 1 {
      StageData(Apply(d, ws[..k]), a, n, torn.value);
    }
  }

  lemma CrashAfterFlush(d: seq<Sector>, a: seq<Sector>, n: nat, ws: seq<SectorWrite>, k: nat, torn: Option<Sector>)
    requires 3 <= k <= 6 == |ws|
    requires k < 5 ==>
      Logged(Apply(d, ws[..k]), a, n) && HeaderAt(Apply(d, ws[..k]), n % MAX_ENTRIES).block == ws[3].sec
    requires k == 5 ==> Marked(Apply(d, ws[..k]), a, n)
    requires k == 6 ==> Quiet(Apply(d, ws[..k]), a, n + 1)
    requires !Tearable(ws[4].sec) && !Tearable(ws[5].sec)
    ensures Down(Crash(d, ws, k, torn), a, n + 1)
  {
    hide Quiet, Marked, HeaderAt, Apply, Apply1, Tearable, EntrySector;
    if torn.Some? && k == 3 {
      WriteHome(Apply(d, ws[..k]), a, n, torn.value);
    }
  }

  lemma SixTargets(m: Meta, n: nat, sec: nat, buf: Sector)
    requires m.Fits() && sec < WORD && Home(sec)
    ensures var ws := SixWrites(m, n, sec, buf);
      && ws[1].sec == EntrySector(n % MAX_ENTRIES) + 1 && ws[3].sec == sec
      && !Tearable(ws[0].sec) && !Tearable(ws[2].sec) && !Tearable(ws[4].sec) && !Tearable(ws[5].sec)
  {
  }

  lemma RecoverQuiet(d: seq<Sector>, a: seq<Sector>, n: nat)
    requires Quiet(d, a, n)
    ensures Ring(MetaOf(d)) && RecoverWrites(d, MetaOf(d)) == [SectorWrite(META_SECTOR, EncodeMeta(Emptied(MetaOf(d))))]
    ensures Quiet(Apply(d, RecoverWrites(d, MetaOf(d))), a, n)
  {
    hide EncodeMeta, HeaderAt, MetaOf, SlotTxid;
    FlushDone(d, a, n, Emptied(MetaOf(d)));
    ApplyOne(d, SectorWrite(META_SECTOR, EncodeMeta(Emptied(MetaOf(d)))));
  }

  lemma ApplyOne(d: seq<Sector>, w: SectorWrite)
    ensures Apply(d, [w]) == Apply1(d, w)
  {
    assert [w][1..] == [];
  }

  /** Recovery skips a committed entry. */
  lemma RecoverMarked(d: seq<Sector>, a: seq<Sector>, n: nat)
    requires Marked(d, a, n)
    ensures Ring(MetaOf(d)) && RecoverWrites(d, MetaOf(d)) == [SectorWrite(META_SECTOR, EncodeMeta(Emptied(MetaOf(d))))]
    ensures Quiet(Apply(d, RecoverWrites(d, MetaOf(d))), a, n + 1)
  {
    hide EncodeMeta, HeaderAt, MetaOf, SlotTxid;
    NextSlot(n);
    Closer(n % MAX_ENTRIES, (n + 1) % MAX_ENTRIES);
    assert ReplayOne(d, n % MAX_ENTRIES) == [];
    assert ReplayWrites(d, n % MAX_ENTRIES, (n + 1) % MAX_ENTRIES) == [];
    FlushDone(d, a, n + 1, Emptied(MetaOf(d)));
    ApplyOne(d, SectorWrite(META_SECTOR, EncodeMeta(Emptied(MetaOf(d)))));
  }

  /** Recovery copies an uncommitted entry home, whatever the home sector held. */
  lemma RecoverLogged(d: seq<Sector>, a: seq<Sector>, n: nat)
    requires Logged(d, a, n)
    ensures Ring(MetaOf(d))
    ensures var b := HeaderAt(d, n % MAX_ENTRIES).block;
      RecoverWrites(d, MetaOf(d)) == [SectorWrite(b, a[b]), SectorWrite(META_SECTOR, EncodeMeta(Emptied(MetaOf(d))))]
    ensures Quiet(Apply(d, RecoverWrites(d, MetaOf(d))), a, n + 1)
  {
    hide EncodeMeta, HeaderAt, MetaOf, SlotTxid;
    NextSlot(n);
    Closer(n % MAX_ENTRIES, (n + 1) % MAX_ENTRIES);
    var b := HeaderAt(d, n % MAX_ENTRIES).block;
    var w, flush := SectorWrite(b, a[b]), SectorWrite(META_SECTOR, EncodeMeta(Emptied(MetaOf(d))));
    assert ReplayOne(d, n % MAX_ENTRIES) == [w];
    assert ReplayWrites(d, n % MAX_ENTRIES, (n + 1) % MAX_ENTRIES) == [w] + [];
    assert [w] + [flush] == [w, flush];
    WriteHome(d, a, n, a[b]);
    var d1 := Apply1(d, w);
    FlushDone(d1, a, n + 1, Emptied(MetaOf(d)));
    ApplyConcat(d, [w], [flush]);
    ApplyOne(d, w);
    ApplyOne(d1, flush);
  }

  /** Recovery, complete or itself interrupted anywhere, keeps what it is recovering; complete, it
      leaves every home sector right. */
  lemma RecoveryIsIdempotent(d: seq<Sector>, a: seq<Sector>, n: nat, k: nat, torn: Option<Sector>)
    requires Down(d, a, n)
    ensures HasJournal(d) && Ring(MetaOf(d))
    ensures var ws := RecoverWrites(d, MetaOf(d));
      && Quiet(Apply(d, ws), a, n)
      && (k <= |ws| ==> Down(Crash(d, ws, k, torn), a, n))
  {
    hide Quiet, Logged, Marked, HeaderAt, MetaOf, Apply, RecoverWrites;
    if Quiet(d, a, n) {
      QuietMeta(d, a, n);
      RecoverQuiet(d, a, n);
      RecoveryPrefixes(d, RecoverWrites(d, MetaOf(d)));
    } else if Marked(d, a, n - 1) {
      MarkedMeta(d, a, n - 1);
      RecoverMarked(d, a, n - 1);
      RecoveryPrefixes(d, RecoverWrites(d, MetaOf(d)));
    } else {
      LoggedMeta(d, a, n - 1);
      RecoverLogged(d, a, n - 1);
      if k <= 2 {
        LoggedPrefixes(d, a, n - 1, RecoverWrites(d, MetaOf(d)), k, torn);
      }
    }
  }

  lemma MarkedMeta(d: seq<Sector>, a: seq<Sector>, n: nat)
    requires Marked(d, a, n)
    ensures HasJournal(d) && Ring(MetaOf(d))
  {
  }

  lemma LoggedMeta(d: seq<Sector>, a: seq<Sector>, n: nat)
    requires Logged(d, a, n)
    ensures HasJournal(d) && Ring(MetaOf(d)) && |d| == |a| && HeaderAt(d, n % MAX_ENTRIES).block < |a|
  {
  }

  lemma LoggedPrefixes(d: seq<Sector>, a: seq<Sector>, n: nat, ws: seq<SectorWrite>, k: nat, torn: Option<Sector>)
    requires Logged(d, a, n) && |ws| == 2 && k <= 2
    requires ws[0].sec == HeaderAt(d, n % MAX_ENTRIES).block && ws[1].sec == META_SECTOR
    requires Quiet(Apply(d, ws), a, n + 1)
    ensures Down(Crash(d, ws, k, torn), a, n + 1)
  {
    hide Quiet, Marked, HeaderAt, MetaOf, Apply;
    assert ws[..0] == [] && ws[..1] == [ws[0]] && ws[..2] == ws;
    ApplyNone(d);
    ApplyOne(d, ws[0]);
    WriteHome(d, a, n, ws[0].data);
    if torn.Some? && k == 0 {
      WriteHome(d, a, n, torn.value);
    }
  }

  lemma RecoveryPrefixes(d: seq<Sector>, ws: seq<SectorWrite>)
    requires |ws| == 1
    ensures ws[..0] == [] && ws[..1] == ws && Apply(d, []) == d
  {
  }

  /** ---- Whole runs ---- */

  datatype Event =
    | WriteSector(sec: nat, buf: Sector)
    | CrashInWrite(sec: nat, buf: Sector, k: nat, torn: Option<Sector>)
    | Recovery
    | CrashInRecovery(k: nat, torn: Option<Sector>)

  /** Writes happen on a running machine; a crash stops it and only a completed recovery restarts
      it. Mounting an intact disk runs recovery too. */
  predicate Legal(up: bool, evs: seq<Event>, size: nat)
    decreases |evs|
  {
    if evs == [] then true
    else
      && (match evs[0]
          case WriteSector(sec, buf) => up && Home(sec) && sec < size && sec < WORD
          case CrashInWrite(sec, buf, k, torn) => up && Home(sec) && sec < size && sec < WORD && k <= 6
          case _ => true)
      && Legal(UpAfter(up, evs[0]), evs[1..], size)
  }

  predicate UpAfter(up: bool, e: Event)
  {
    match e
    case WriteSector(_, _) => up
    case Recovery => true
    case _ => false
  }

  predicate UpAtEnd(up: bool, evs: seq<Event>)
    decreases |evs|
  {
    if evs == [] then up else UpAtEnd(UpAfter(up, evs[0]), evs[1..])
  }

  /** The disk after one event. The guards hold on every disk a run can reach, as EventKeeps shows;
      an interrupted recovery stops after at most all of its writes. */
  function Exec(d: seq<Sector>, e: Event): (d': seq<Sector>)
  {
    if !HasJournal(d) || !Ring(MetaOf(d)) then d
    else
      match e
      case WriteSector(sec, buf) => if sec < WORD then Apply(d, WriteSectorWrites(d, MetaOf(d), sec, buf)) else d
      case CrashInWrite(sec, buf, k, torn) =>
        if sec < WORD && k <= |WriteSectorWrites(d, MetaOf(d), sec, buf)| then
          Crash(d, WriteSectorWrites(d, MetaOf(d), sec, buf), k, torn)
        else d
      case Recovery => Apply(d, RecoverWrites(d, MetaOf(d)))
      case CrashInRecovery(k, torn) =>
        var ws := RecoverWrites(d, MetaOf(d));
        if k <= |ws| then Crash(d, ws, k, torn) else d
  }

  function ExecAll(d: seq<Sector>, evs: seq<Event>): (d': seq<Sector>)
    decreases |evs|
  {
    if evs == [] then d else ExecAll(Exec(d, evs[0]), evs[1..])
  }

  /** What a disk without a journal would hold if each write were atomic: a completed write takes
      effect, an interrupted one takes effect exactly when its first three sector writes were done. */
  function View(a: seq<Sector>, e: Event): (a': seq<Sector>)
    ensures |a'| == |a|
  {
    match e
    case WriteSector(sec, buf) => if sec < |a| then a[sec := buf] else a
    case CrashInWrite(sec, buf, k, torn) => if sec < |a| && k >= 3 then a[sec := buf] else a
    case _ => a
  }

  function ViewAll(a: seq<Sector>, evs: seq<Event>): (a': seq<Sector>)
    ensures |a'| == |a|
    decreases |evs|
  {
    if evs == [] then a else ViewAll(View(a, evs[0]), evs[1..])
  }

  function Appends(n: nat, e: Event): (n': nat)
  {
    match e
    case WriteSector(_, _) => n + 1
    case CrashInWrite(_, _, k, _) => if k >= 3 then n + 1 else n
    case _ => n
  }

  lemma EventKeeps(d: seq<Sector>, a: seq<Sector>, n: nat, up: bool, e: Event)
    requires Down(d, a, n) && (up ==> Quiet(d, a, n)) && Legal(up, [e], |a|)
    ensures Down(Exec(d, e), View(a, e), Appends(n, e))
    ensures UpAfter(up, e) ==> Quiet(Exec(d, e), View(a, e), Appends(n, e))
  {
    hide Quiet, Logged, Marked, MetaOf, Apply, RecoverWrites, WriteSectorWrites, Crash;
    match e
    case WriteSector(sec, buf) =>
      QuietMeta(d, a, n);
      CrashInsideWrite(d, a, n, sec, buf, 6, None);
    case CrashInWrite(sec, buf, k, torn) =>
      QuietMeta(d, a, n);
      CrashInsideWrite(d, a, n, sec, buf, k, torn);
    case Recovery =>
      RecoveryIsIdempotent(d, a, n, 0, None);
    case CrashInRecovery(k, torn) =>
      RecoveryIsIdempotent(d, a, n, k, torn);
  }

  /** Crash safety over every run: after any legal sequence of journalled writes, crashes and
      recoveries that ends with the machine running, every home sector holds exactly what the same
      writes would have left had each been atomic. */
  lemma {:induction false} RunIsCrashSafe(d: seq<Sector>, a: seq<Sector>, n: nat, up: bool, evs: seq<Event>)
        returns (n': nat)
    requires Down(d, a, n) && (up ==> Quiet(d, a, n)) && Legal(up, evs, |a|)
    ensures Down(ExecAll(d, evs), ViewAll(a, evs), n')
    ensures UpAtEnd(up, evs) ==> Quiet(ExecAll(d, evs), ViewAll(a, evs), n') && Homes(ExecAll(d, evs), ViewAll(a, evs))
    decreases |evs|
  {
    if evs == [] {
      n' := n;
    } else {
      hide Quiet, Logged, Marked, Down, Exec, View, Homes;
      var e := evs[0];
      assert [e][1..] == [];
      EventKeeps(d, a, n, up, e);
      n' := RunIsCrashSafe(Exec(d, e), View(a, e), Appends(n, e), UpAfter(up, e), evs[1..]);
    }
  }

  /** A disk never used for a journal: no magic, and entry headers with txid zero. */
  ghost predicate Unformatted(d: seq<Sector>)
  {
    HasJournal(d) && MetaOf(d).magic != MAGIC
    && forall i: nat :: i < MAX_ENTRIES ==> HeaderAt(d, i).txid == 0
  }

  /** journal_init turns it into an empty journal. */
  lemma InitIsQuiet(d: seq<Sector>)
    requires Unformatted(d)
    ensures Quiet(Apply1(d, SectorWrite(META_SECTOR, EncodeMeta(Meta(MAGIC, 0, 0, 0, Zeros(496))))), d, 0)
  {
    hide EncodeMeta, HeaderAt, MetaOf;
    PutMeta(d, Meta(MAGIC, 0, 0, 0, Zeros(496)));
  }

  function PlainWrites(writes: seq<(nat, Sector)>): (evs: seq<Event>)
    ensures |evs| == |writes|
  {
    seq(|writes|, i requires 0 <= i < |writes| => WriteSector(writes[i].0, writes[i].1))
  }

  lemma {:induction false} ViewAllAppend(a: seq<Sector>, evs: seq<Event>, e: Event)
    ensures ViewAll(a, evs + [e]) == View(ViewAll(a, evs), e)
    decreases |evs|
  {
    if evs == [] {
      assert evs + [e] == [e] && [e][1..] == [];
    } else {
      assert (evs + [e])[1..] == evs[1..] + [e];
      ViewAllAppend(View(a, evs[0]), evs[1..], e);
    }
  }

  lemma DownMeta(d: seq<Sector>, a: seq<Sector>, n: nat)
    requires Down(d, a, n)
    ensures HasJournal(d) && Ring(MetaOf(d)) && MetaOf(d).magic == MAGIC && |d| == |a|
  {
  }

  lemma QuietHomes(d: seq<Sector>, a: seq<Sector>, n: nat)
    requires Quiet(d, a, n)
    ensures Homes(d, a) && HasJournal(d) && Down(d, a, n)
  {
  }

  /** The running system: mount (journal_init, journal_recover) a disk that was never used or that
      some crash left behind, then any number of journalled writes. The home sectors come out as
      plain writes would leave them. */
  method Session(log: Log, writes: seq<(nat, Sector)>, ghost a: seq<Sector>, ghost n: nat)
    requires log.Loaded()
    requires Down(log.drive.sectors, a, n) || (Unformatted(log.drive.sectors) && a == log.drive.sectors && n == 0)
    requires forall i :: 0 <= i < |writes| ==> Home(writes[i].0) && writes[i].0 < |a| && writes[i].0 < WORD
    modifies log, log.drive
    ensures log.Valid() && Homes(log.drive.sectors, ViewAll(a, PlainWrites(writes)))
  {
    hide Quiet, Logged, Marked, HeaderAt, Apply, RecoverWrites, WriteSectorWrites, EncodeMeta, DecodeMeta, Homes;
    Mount(log, a, n);
    ghost var m := n;
    for i := 0 to |writes|
      invariant log.Valid() && log.ok
      invariant Quiet(log.drive.sectors, ViewAll(a, PlainWrites(writes[..i])), m)
      invariant log.jmeta == MetaOf(log.drive.sectors)
    {
      ghost var b := ViewAll(a, PlainWrites(writes[..i]));
      QuietHomes(log.drive.sectors, b, m);
      DownMeta(log.drive.sectors, b, m);
      CrashInsideWrite(log.drive.sectors, b, m, writes[i].0, writes[i].1, 6, None);
      assert PlainWrites(writes[..i + 1]) == PlainWrites(writes[..i]) + [Event.WriteSector(writes[i].0, writes[i].1)];
      ViewAllAppend(a, PlainWrites(writes[..i]), Event.WriteSector(writes[i].0, writes[i].1));
      var written := log.WriteSector(writes[i].0, writes[i].1);
      MetaRoundTrip(log.jmeta);
      m := m + 1;
    }
    assert writes[..|writes|] == writes;
    QuietHomes(log.drive.sectors, ViewAll(a, PlainWrites(writes)), m);
  }

  method Mount(log: Log, ghost a: seq<Sector>, ghost n: nat)
    requires log.Loaded()
    requires Down(log.drive.sectors, a, n) || (Unformatted(log.drive.sectors) && a == log.drive.sectors && n == 0)
    modifies log, log.drive
    ensures log.Valid() && log.ok
    ensures Quiet(log.drive.sectors, a, n) && log.jmeta == MetaOf(log.drive.sectors)
  {
    hide Quiet, Logged, Marked, HeaderAt, Apply, Apply1, RecoverWrites, EncodeMeta, DecodeMeta;
    ghost var d := log.drive.sectors;
    if Down(d, a, n) {
      DownMeta(d, a, n);
    } else {
      InitIsQuiet(d);
      QuietHomes(Apply1(d, SectorWrite(META_SECTOR, EncodeMeta(Meta(MAGIC, 0, 0, 0, Zeros(496))))), d, 0);
    }
    log.Init();
    DownMeta(log.drive.sectors, a, n);
    RecoveryIsIdempotent(log.drive.sectors, a, n, 0, None);
    MetaRoundTrip(log.jmeta);
    log.Recover();
    MetaRoundTrip(log.jmeta);
  }
}
