/** The credit scheduler on values (kernel/proc/sched.c, kernel/proc/processo.c): the queue of processes,
    one timer tick, and what holds over whole runs of ticks. */
module Sched {
  import opened Bits

  datatype Status = Running | Ready | Blocked | Dead

  /** The part of a process control block the scheduler reads and writes. */
  datatype Pcb = Pcb(status: Status, priority: nat, credits: nat, esp: nat)

  /** The queue, the index of the current process (the queue's length if there is none), its remaining
      credits, and the tick counter. */
  datatype Sys = Sys(procs: seq<Pcb>, cur: nat, left: nat, ticks: nat)

  /** MAX_PROCESSOS, the length of one scan. */
  const TRIES: nat := 16

  function Share(priority: nat): (c: nat)
  {
    if priority == 2 then 3 else if priority == 1 then 2 else 1
  }

  function Refill(p: Pcb): (p': Pcb)
  {
    if p.status == Ready || p.status == Running then p.(credits := Share(p.priority)) else p
  }

  /** recalcular_creditos. */
  function Refilled(procs: seq<Pcb>): (r: seq<Pcb>)
    ensures |r| == |procs|
  {
    seq(|procs|, i requires 0 <= i < |procs| => Refill(procs[i]))
  }

  predicate Eligible(p: Pcb) { p.status == Ready && p.credits > 0 }

  /** The scan behind the current process: at most tries candidates from c on, around the queue. */
  function Pick(procs: seq<Pcb>, cur: nat, c: nat, tries: nat): (r: nat)
    requires c < |procs|
    ensures r <= |procs|
    ensures r < |procs| ==> r != cur && Eligible(procs[r])
    decreases tries
  {
    if tries == 0 then |procs|
    else if c != cur && Eligible(procs[c]) then c
    else Pick(procs, cur, Behind(|procs|, c), tries - 1)
  }

  /** The scan from the head of the queue. */
  function FirstEligible(procs: seq<Pcb>, c: nat): (r: nat)
    requires c <= |procs|
    ensures c <= r <= |procs|
    ensures r < |procs| ==> Eligible(procs[r])
    ensures forall k :: c <= k < r ==> !Eligible(procs[k])
    decreases |procs| - c
  {
    if c == |procs| || Eligible(procs[c]) then c else FirstEligible(procs, c + 1)
  }

  function Behind(n: nat, c: nat): (r: nat)
    requires c < n
    ensures r < n
  {
    if c + 1 == n then 0 else c + 1
  }

  datatype Choice = Choice(procs: seq<Pcb>, next: nat)

  /** escolher_proximo: the next process of the queue that holds credits; failing that, new credits for
      all and the first ready process. */
  function Choose(procs: seq<Pcb>, cur: nat): (r: Choice)
    requires cur < |procs|
    ensures |r.procs| == |procs| && r.next <= |procs|
    ensures r.next < |procs| ==> Eligible(r.procs[r.next])
  {
    var c := Pick(procs, cur, Behind(|procs|, cur), TRIES);
    if c < |procs| then Choice(procs, c)
    else Choice(Refilled(procs), FirstEligible(Refilled(procs), 0))
  }

  datatype Ticked = Ticked(sys: Sys, esp: nat)

  predicate SysOk(s: Sys) { s.cur <= |s.procs| }

  /** The processor goes from the current process to the one at next, with all its credits. */
  function Hand(s: Sys, next: nat): (r: Sys)
    requires s.cur < |s.procs| && next < |s.procs|
    ensures |r.procs| == |s.procs| && SysOk(r)
  {
    var p := s.procs;
    var off := if p[s.cur].status == Running then p[s.cur := p[s.cur].(status := Ready)] else p;
    var on := off[next := off[next].(status := Running)];
    s.(procs := on, cur := next, left := p[next].credits)
  }

  function Save(procs: seq<Pcb>, cur: nat, esp: nat): (r: seq<Pcb>)
    requires cur < |procs|
    ensures |r| == |procs|
  {
    procs[cur := procs[cur].(esp := esp)]
  }

  /** sched_tick: the stack pointer of the process interrupted goes in, that of the process to run comes
      out. */
  function Tick(s: Sys, esp: nat): (r: Ticked)
    requires SysOk(s)
    ensures SysOk(r.sys) && |r.sys.procs| == |s.procs|
  {
    var s1 := s.(ticks := U32(s.ticks + 1));
    if s.cur == |s.procs| then Ticked(s1, esp)
    else
      var saved := Save(s.procs, s.cur, esp);
      var left := if s.left > 0 then s.left - 1 else 0;
      if left > 0 then Ticked(s1.(procs := saved, left := left), esp)
      else
        var ch := Choose(saved, s.cur);
        if ch.next == |saved| then Ticked(s1.(procs := ch.procs, left := left), esp)
        else
          Ticked(Hand(s1.(procs := ch.procs, left := left), ch.next), ch.procs[ch.next].esp)
  }

  /** sched_init. */
  function Init(s: Sys): (r: Sys)
    requires SysOk(s)
    ensures SysOk(r) && |r.procs| == |s.procs|
  {
    s.(procs := Refilled(s.procs), left := if s.cur < |s.procs| then Share(s.procs[s.cur].priority) else s.left)
  }

  /** ---- One process runs at a time ---- */

  /** Only the current process can be running. */
  predicate OneRuns(s: Sys)
  {
    SysOk(s) && forall i :: 0 <= i < |s.procs| && s.procs[i].status == Running ==> i == s.cur
  }

  lemma TickKeepsOne(s: Sys, esp: nat)
    requires OneRuns(s)
    ensures OneRuns(Tick(s, esp).sys)
    ensures forall i :: 0 <= i < |s.procs| && s.procs[i].status in {Blocked, Dead} ==>
        Tick(s, esp).sys.procs[i].status == s.procs[i].status && (Tick(s, esp).sys.cur == i ==> s.cur == i)
  {
    hide Pick, FirstEligible;
  }

  function Run(s: Sys, esps: seq<nat>): (r: Sys)
    requires SysOk(s)
    ensures SysOk(r) && |r.procs| == |s.procs|
    decreases |esps|
  {
    if esps == [] then s else Run(Tick(s, esps[0]).sys, esps[1..])
  }

  /** Over any run at most one process is running and it is the current one; a dead or blocked process
      stays so, and once it is not current it never is again. */
  lemma {:induction false} RunKeepsOne(s: Sys, esps: seq<nat>)
    requires OneRuns(s)
    ensures OneRuns(Run(s, esps))
    ensures forall i :: 0 <= i < |s.procs| && s.procs[i].status in {Blocked, Dead} ==>
        Run(s, esps).procs[i].status == s.procs[i].status && (Run(s, esps).cur == i ==> s.cur == i)
    decreases |esps|
  {
    hide Tick;
    if esps != [] {
      TickKeepsOne(s, esps[0]);
      RunKeepsOne(Tick(s, esps[0]).sys, esps[1..]);
    }
  }

  /** ---- Saved stack pointers ---- */

  /** A tick saves the interrupted process's stack pointer in its own block and touches no other. */
  lemma TickSaves(s: Sys, esp: nat)
    requires SysOk(s)
    ensures var r := Tick(s, esp);
      && (forall i :: 0 <= i < |s.procs| ==> r.sys.procs[i].esp == if i == s.cur then esp else s.procs[i].esp)
      && r.esp == if r.sys.cur == |s.procs| then esp else r.sys.procs[r.sys.cur].esp
  {
    hide Pick, FirstEligible;
  }

  /** Process i is current at no tick of the run. */
  ghost predicate Away(s: Sys, esps: seq<nat>, i: nat)
    requires SysOk(s)
    decreases |esps|
  {
    s.cur != i && (esps == [] || Away(Tick(s, esps[0]).sys, esps[1..], i))
  }

  lemma {:induction false} AwayKeepsEsp(s: Sys, esps: seq<nat>, i: nat)
    requires SysOk(s) && i < |s.procs| && Away(s, esps, i)
    ensures Run(s, esps).procs[i].esp == s.procs[i].esp && Run(s, esps).cur != i
    decreases |esps|
  {
    hide Tick;
    if esps != [] {
      TickSaves(s, esps[0]);
      AwayKeepsEsp(Tick(s, esps[0]).sys, esps[1..], i);
    }
  }

  /** A process preempted with stack pointer esp, however long it waits, is resumed with exactly esp. */
  lemma ResumedWithSavedEsp(s: Sys, esp: nat, esps: seq<nat>, last: nat)
    requires SysOk(s) && s.cur < |s.procs|
    requires Away(Tick(s, esp).sys, esps, s.cur)
    requires Tick(Run(Tick(s, esp).sys, esps), last).sys.cur == s.cur
    ensures Tick(Run(Tick(s, esp).sys, esps), last).esp == esp
  {
    hide Tick;
    TickSaves(s, esp);
    var s1 := Tick(s, esp).sys;
    AwayKeepsEsp(s1, esps, s.cur);
    TickSaves(Run(s1, esps), last);
  }
}
