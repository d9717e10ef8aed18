/** The second ATA drive: numbered 512-octet sectors, and the trace of every sector written. */
module Disk {
  import opened Bytes

  type Sector = s: seq<byte> | |s| == 512 witness Zeros(512)

  /** One sector of buf, the rest zero. */
  function Chunk(buf: seq<byte>): (s: Sector)
  {
    if |buf| >= 512 then buf[..512] else buf + Zeros(512 - |buf|)
  }

  function After(buf: seq<byte>): (rest: seq<byte>)
    ensures buf != [] ==> |rest| < |buf|
    ensures |rest| == if |buf| >= 512 then |buf| - 512 else 0
  {
    if |buf| >= 512 then buf[512..] else []
  }

  datatype SectorWrite = SectorWrite(sec: nat, data: Sector)

  /** A sector write; beyond the end of the medium it has no effect. */
  function Apply1(d: seq<Sector>, w: SectorWrite): (d': seq<Sector>)
    ensures |d'| == |d|
    ensures forall s :: 0 <= s < |d| ==> d'[s] == if s == w.sec then w.data else d[s]
  {
    if w.sec < |d| then d[w.sec := w.data] else d
  }

  function Apply(d: seq<Sector>, ws: seq<SectorWrite>): (d': seq<Sector>)
    ensures |d'| == |d|
    decreases |ws|
  {
    if ws == [] then d else Apply(Apply1(d, ws[0]), ws[1..])
  }

  lemma {:induction false} ApplyConcat(d: seq<Sector>, a: seq<SectorWrite>, b: seq<SectorWrite>)
    ensures Apply(d, a + b) == Apply(Apply(d, a), b)
    decreases |a|
  {
    if a == [] {
      assert a + b == b;
    } else {
      assert (a + b)[1..] == a[1..] + b;
      ApplyConcat(Apply1(d, a[0]), a[1..], b);
    }
  }

  class Drive {
    var sectors: seq<Sector>
    ghost var log: seq<SectorWrite>

    constructor (image: seq<Sector>)
      ensures sectors == image && log == []
    {
      sectors, log := image, [];
    }

    /** ata_ler1 of one sector. */
    method Read(sec: nat) returns (ok: bool, data: Sector)
      ensures ok == (sec < |sectors|)
      ensures ok ==> data == sectors[sec]
    {
      ok := sec < |sectors|;
      data := if ok then sectors[sec] else Zeros(512);
    }

    /** ata_gravar1 of one sector. */
    method Write(sec: nat, data: Sector) returns (ok: bool)
      modifies this
      ensures ok == (sec < |old(sectors)|)
      ensures sectors == Apply1(old(sectors), SectorWrite(sec, data))
      ensures log == old(log) + [SectorWrite(sec, data)]
    {
      ok := sec < |sectors|;
      if ok {
        sectors := sectors[sec := data];
      }
      log := log + [SectorWrite(sec, data)];
    }
  }
}
