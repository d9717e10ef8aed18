/** Exact proportional shares: with two or more processes holding credits, every turn of as many ticks as
    there are credits gives each process exactly its credits, from any phase, in queue order
    (kernel/proc/sched.c:31-90). */
module SchedShares {
  import opened Bits
  import opened Bytes
  import opened Sched

  /** What a process holds: its credits while it is ready or running. */
  function Holding(p: Pcb): (w: nat)
  {
    if p.status == Ready || p.status == Running then p.credits else 0
  }

  function Holdings(procs: seq<Pcb>): (w: seq<nat>)
    ensures |w| == |procs|
  {
    seq(|procs|, i requires 0 <= i < |procs| => Holding(procs[i]))
  }

  /** The credits held by the first k processes. */
  function Prefix(w: seq<nat>, k: nat): (n: nat)
    requires k <= |w|
  {
    if k == 0 then 0 else Prefix(w, k - 1) + w[k - 1]
  }

  /** Two processes or more hold credits, one of them runs with some of its credits left, and one scan
      reaches around the queue. */
  predicate Steady(s: Sys)
  {
    && OneRuns(s) && s.cur < |s.procs| <= TRIES + 1 && s.procs[s.cur].status == Running
    && 1 <= s.left <= s.procs[s.cur].credits
    && exists j :: 0 <= j < |s.procs| && j != s.cur && Eligible(s.procs[j])
  }

  lemma SteadyRuns(s: Sys)
    requires Steady(s)
    ensures s.cur < |s.procs|
  {
  }

  /** ---- Cyclic order ---- */

  /** j lies on the way from a, included, around n places to b, not included. */
  predicate OnTheWay(n: nat, a: nat, b: nat, j: nat)
  {
    if a <= b then a <= j < b else a <= j < n || j < b
  }

  /** The scan stops at the next holder of credits: those it passes hold none. */
  lemma {:induction false} PickIsNextHolder(procs: seq<Pcb>, cur: nat, c: nat, tries: nat)
    requires cur < |procs| && c < |procs| && c != cur
    requires forall i :: 0 <= i < |procs| && procs[i].status == Running ==> i == cur
    requires tries >= if c <= cur then cur - c else |procs| - c + cur
    requires exists j :: 0 <= j < |procs| && OnTheWay(|procs|, c, cur, j) && Eligible(procs[j])
    ensures var r := Pick(procs, cur, c, tries);
      && r < |procs| && OnTheWay(|procs|, c, cur, r)
      && forall j :: 0 <= j < |procs| && OnTheWay(|procs|, c, r, j) ==> Holding(procs[j]) == 0
    decreases tries
  {
    if !Eligible(procs[c]) {
      var j :| 0 <= j < |procs| && OnTheWay(|procs|, c, cur, j) && Eligible(procs[j]);
      assert j != c;
      var c' := Behind(|procs|, c);
      assert OnTheWay(|procs|, c', cur, j);
      PickIsNextHolder(procs, cur, c', tries - 1);
    }
  }

  lemma {:induction false} PrefixFlat(w: seq<nat>, a: nat, b: nat)
    requires a <= b <= |w| && forall j :: a <= j < b ==> w[j] == 0
    ensures Prefix(w, a) == Prefix(w, b)
    decreases b
  {
    if a < b { PrefixFlat(w, a, b - 1); }
  }

  lemma {:induction false} PrefixGrows(w: seq<nat>, a: nat, b: nat)
    requires a <= b <= |w|
    ensures Prefix(w, a) <= Prefix(w, b)
    decreases b
  {
    if a < b { PrefixGrows(w, a, b - 1); }
  }

  /** ---- Positions on the wheel of credits ---- */

  function Total(s: Sys): (n: nat) { Prefix(Holdings(s.procs), |s.procs|) }

  /** How many credits of the turn are spent. */
  function Position(s: Sys): (p: int)
    requires s.cur < |s.procs|
  {
    Prefix(Holdings(s.procs), s.cur) + s.procs[s.cur].credits - s.left
  }

  /** The position p of the wheel belongs to process i. */
  predicate InSlot(w: seq<nat>, i: nat, p: int)
    requires i < |w|
  {
    Prefix(w, i) <= p < Prefix(w, i) + w[i]
  }

  lemma SlotUnique(w: seq<nat>, i: nat, j: nat, p: int)
    requires i < |w| && j < |w| && InSlot(w, i, p) && InSlot(w, j, p)
    ensures i == j
  {
    if i < j { PrefixGrows(w, i + 1, j); }
    if j < i { PrefixGrows(w, j + 1, i); }
  }

  lemma SlotInTurn(w: seq<nat>, i: nat)
    requires i < |w|
    ensures Prefix(w, i) + w[i] <= Prefix(w, |w|)
  {
    PrefixGrows(w, i + 1, |w|);
  }

  /** Every tick moves the wheel on by one credit and leaves what each process holds. */
  lemma SteadyTick(s: Sys, esp: nat)
    requires Steady(s)
    ensures var s' := Tick(s, esp).sys;
      && Steady(s') && Holdings(s'.procs) == Holdings(s.procs)
      && Position(s') == (if Position(s) + 1 == Total(s) then 0 else Position(s) + 1)
    ensures InSlot(Holdings(s.procs), s.cur, Position(s)) && Position(s) < Total(s)
  {
    SlotInTurn(Holdings(s.procs), s.cur);
    if s.left == 1 {
      SteadySwitch(s, esp);
    } else {
      SteadyStay(s, esp);
    }
  }

  lemma SteadyStay(s: Sys, esp: nat)
    requires Steady(s) && s.left > 1
    ensures var s' := Tick(s, esp).sys;
      && Steady(s') && Holdings(s'.procs) == Holdings(s.procs) && s'.cur == s.cur && s'.left == s.left - 1
  {
    var s' := Tick(s, esp).sys;
    var j :| 0 <= j < |s.procs| && j != s.cur && Eligible(s.procs[j]);
    assert Eligible(s'.procs[j]);
  }

  /** The last credit of the current process: the next holder in queue order gets all of its own. */
  lemma SteadySwitch(s: Sys, esp: nat)
    requires Steady(s) && s.left == 1
    ensures var s' := Tick(s, esp).sys; var n := |s.procs|; var w := Holdings(s.procs);
      && Steady(s') && Holdings(s'.procs) == w
      && s'.cur != s.cur && s'.left == s'.procs[s'.cur].credits
      && (forall j :: 0 <= j < n && OnTheWay(n, Behind(n, s.cur), s'.cur, j) ==> w[j] == 0)
      && Prefix(w, s'.cur) == (if Prefix(w, s.cur) + w[s.cur] == Total(s) then 0 else Prefix(w, s.cur) + w[s.cur])
  {
    hide Prefix;
    var s', n, w := Tick(s, esp).sys, |s.procs|, Holdings(s.procs);
    var saved := Save(s.procs, s.cur, esp);
    var j :| 0 <= j < n && j != s.cur && Eligible(s.procs[j]);
    var c := Behind(n, s.cur);
    assert Eligible(saved[j]) && OnTheWay(n, c, s.cur, j);
    PickIsNextHolder(saved, s.cur, c, TRIES);
    var r := Pick(saved, s.cur, c, TRIES);
    SwitchTo(s, esp, r);
    assert forall k :: 0 <= k < n ==> Holding(saved[k]) == w[k];
    SwitchedPrefix(w, s.cur, r);
  }

  lemma SwitchTo(s: Sys, esp: nat, r: nat)
    requires Steady(s) && s.left == 1
    requires r == Pick(Save(s.procs, s.cur, esp), s.cur, Behind(|s.procs|, s.cur), TRIES)
    requires r < |s.procs|
    ensures var s' := Tick(s, esp).sys;
      && Steady(s') && Holdings(s'.procs) == Holdings(s.procs) && s'.cur == r && s'.left == s'.procs[r].credits
  {
    hide Pick;
    var s' := Tick(s, esp).sys;
    assert Eligible(s'.procs[s.cur]);
    TickKeepsOne(s, esp);
  }

  lemma SwitchedPrefix(w: seq<nat>, cur: nat, r: nat)
    requires cur < |w| && r < |w| && w[r] > 0 && r != cur
    requires OnTheWay(|w|, Behind(|w|, cur), cur, r)
    requires forall j :: 0 <= j < |w| && OnTheWay(|w|, Behind(|w|, cur), r, j) ==> w[j] == 0
    ensures var p := Prefix(w, cur) + w[cur]; Prefix(w, r) == if p == Prefix(w, |w|) then 0 else p
  {
    var n := |w|;
    assert Prefix(w, cur + 1) == Prefix(w, cur) + w[cur];
    if cur < r {
      PrefixFlat(w, cur + 1, r);
      SlotInTurn(w, r);
    } else {
      PrefixFlat(w, cur + 1, n);
      PrefixFlat(w, 0, r);
    }
  }

  /** ---- Counting ---- */

  /** At how many ticks of the run process i was the one running. */
  function TicksOf(s: Sys, esps: seq<nat>, i: nat): (n: nat)
    requires SysOk(s)
    decreases |esps|
  {
    if esps == [] then 0 else (if s.cur == i then 1 else 0) + TicksOf(Tick(s, esps[0]).sys, esps[1..], i)
  }

  function Clip(x: int, lo: int, hi: int): (r: int) { if x < lo then lo else if x > hi then hi else x }

  /** As far as the turn goes, process i gets the part of its slot that is passed. */
  lemma {:induction false} WithinTurn(s: Sys, esps: seq<nat>, i: nat)
    requires Steady(s) && i < |s.procs| && Position(s) + |esps| <= Total(s)
    ensures var w := Holdings(s.procs); var lo, hi := Prefix(w, i), Prefix(w, i) + w[i];
      TicksOf(s, esps, i) == Clip(Position(s) + |esps|, lo, hi) - Clip(Position(s), lo, hi)
    ensures var s' := Run(s, esps);
      && Steady(s') && Holdings(s'.procs) == Holdings(s.procs)
      && Position(s') == (if Position(s) + |esps| == Total(s) && esps != [] then 0 else Position(s) + |esps|)
    decreases |esps|
  {
    hide Tick, Holdings, Prefix, Steady, Position;
    if esps != [] {
      SteadyRuns(s);
      var w, p := Holdings(s.procs), Position(s);
      SteadyTick(s, esps[0]);
      if InSlot(w, i, p) { SlotUnique(w, i, s.cur, p); }
      var s1 := Tick(s, esps[0]).sys;
      if |esps| > 1 {
        WithinTurn(s1, esps[1..], i);
      } else {
        assert esps[1..] == [];
      }
    }
  }

  lemma {:induction false} TicksConcat(s: Sys, a: seq<nat>, b: seq<nat>, i: nat)
    requires SysOk(s)
    ensures Run(s, a + b) == Run(Run(s, a), b)
    ensures TicksOf(s, a + b, i) == TicksOf(s, a, i) + TicksOf(Run(s, a), b, i)
    decreases |a|
  {
    hide Tick;
    if a == [] {
      assert a + b == b;
    } else {
      assert (a + b)[1..] == a[1..] + b;
      TicksConcat(Tick(s, a[0]).sys, a[1..], b, i);
    }
  }

  /** The main result: in every turn, whatever the phase it starts in, each process runs for exactly the
      credits it holds, a process without credits not at all, and the system is back where it was. */
  lemma ExactShares(s: Sys, esps: seq<nat>, i: nat)
    requires Steady(s) && i < |s.procs| && |esps| == Total(s)
    ensures TicksOf(s, esps, i) == Holding(s.procs[i])
    ensures var s' := Run(s, esps);
      Steady(s') && Holdings(s'.procs) == Holdings(s.procs) && s'.cur == s.cur && s'.left == s.left
  {
    hide Tick, Prefix;
    var p: nat := SpentBelowTotal(s);
    var a, b := esps[..|esps| - p], esps[|esps| - p..];
    assert esps == a + b;
    TicksConcat(s, a, b, i);
    WithinTurn(s, a, i);
    var s1 := Run(s, a);
    assert |a| > 0 && Position(s1) == 0;
    assert Total(s1) == Total(s) && |b| == p;
    assert Holdings(s.procs)[i] == Holding(s.procs[i]);
    SlotInTurn(Holdings(s.procs), i);
    WithinTurn(s1, b, i);
    SamePlace(s, Run(s1, b));
  }

  lemma SpentBelowTotal(s: Sys) returns (p: nat)
    requires Steady(s)
    ensures p == Position(s) && p < Total(s)
  {
    p := Position(s);
    SlotInTurn(Holdings(s.procs), s.cur);
  }

  lemma SamePlace(s: Sys, s': Sys)
    requires Steady(s) && Steady(s') && Holdings(s.procs) == Holdings(s'.procs) && Position(s) == Position(s')
    ensures s'.cur == s.cur && s'.left == s.left
  {
    var w := Holdings(s.procs);
    assert w[s.cur] == s.procs[s.cur].credits && w[s'.cur] == s'.procs[s'.cur].credits;
    SlotUnique(w, s.cur, s'.cur, Position(s));
  }

  /** After sched_init with a running process and another one ready, each runnable process holds 3, 2 or 1
      credits by its priority, so a turn gives it exactly that many ticks. */
  lemma InitIsSteady(s: Sys)
    requires OneRuns(s) && s.cur < |s.procs| <= 17 && s.procs[s.cur].status == Running
    requires exists j :: 0 <= j < |s.procs| && s.procs[j].status == Ready
    ensures Steady(Init(s))
    ensures forall i :: 0 <= i < |s.procs| ==>
        Holding(Init(s).procs[i]) ==
        if s.procs[i].status !in {Ready, Running} then 0
        else if s.procs[i].priority == 2 then 3 else if s.procs[i].priority == 1 then 2 else 1
  {
    var j :| 0 <= j < |s.procs| && s.procs[j].status == Ready;
    assert j != s.cur && Eligible(Init(s).procs[j]);
  }

  /** ---- Renewal ---- */

  /** The process d places behind the current one, around the queue, is the current one itself or not ready with
      credits. */
  predicate PassedOver(s: Sys, d: nat)
    requires s.cur < |s.procs|
  {
    PassedAt(s.procs, s.cur, Place(|s.procs|, s.cur, d))
  }

  predicate PassedAt(procs: seq<Pcb>, cur: nat, j: nat)
    requires j < |procs|
  {
    j == cur || !Eligible(procs[j])
  }

  /** d places on around a queue of n. */
  function Place(n: nat, c: nat, d: nat): (j: nat)
    requires c < n
    ensures j < n
    decreases d
  {
    if d == 0 then c else Place(n, Behind(n, c), d - 1)
  }

  lemma {:induction false} PlaceIs(n: nat, c: nat, d: nat)
    requires c < n
    ensures Place(n, c, d) == (c + d) % n
    decreases d
  {
    if d == 0 {
      DivModUnique(c, n, 0, c);
    } else {
      PlaceIs(n, Behind(n, c), d - 1);
      if c + 1 == n { ModOfShift(c + d, d - 1, 1, n); }
    }
  }

  /** None of the sixteen behind the current process is. */
  predicate NoHolder(s: Sys)
    requires s.cur < |s.procs|
  {
    forall d: nat :: 1 <= d <= 16 ==> PassedOver(s, d)
  }

  /** r is the first ready process in queue order, the queue's length if there is none. */
  predicate FirstReady(s: Sys, r: nat)
  {
    && r <= |s.procs| && (r < |s.procs| ==> s.procs[r].status == Ready)
    && forall k :: 0 <= k < r ==> s.procs[k].status != Ready
  }

  /** The scan takes the process at the first place it does not pass over, if that comes within its tries. */
  lemma {:induction false} PickStops(procs: seq<Pcb>, cur: nat, c: nat, tries: nat, d: nat)
    requires c < |procs| && d <= tries
    requires forall e: nat :: e < d ==> PassedAt(procs, cur, Place(|procs|, c, e))
    requires d < tries ==> !PassedAt(procs, cur, Place(|procs|, c, d))
    ensures Pick(procs, cur, c, tries) == if d == tries then |procs| else Place(|procs|, c, d)
    decreases tries
  {
    hide Eligible, Behind;
    assert Place(|procs|, c, 0) == c;
    if d > 0 {
      var c' := Behind(|procs|, c);
      forall e: nat | e < d - 1 ensures PassedAt(procs, cur, Place(|procs|, c', e)) {
        assert Place(|procs|, c, e + 1) == Place(|procs|, c', e);
      }
      PickStops(procs, cur, c', tries - 1, d - 1);
    }
  }

  /** The scan of a tick, which saves a stack pointer first. */
  lemma ScanStops(s: Sys, esp: nat, d: nat)
    requires s.cur < |s.procs| && 1 <= d <= 17
    requires forall e: nat :: 1 <= e < d ==> PassedOver(s, e)
    requires d <= 16 ==> !PassedOver(s, d)
    ensures Pick(Save(s.procs, s.cur, esp), s.cur, Behind(|s.procs|, s.cur), TRIES)
         == if d == 17 then |s.procs| else Place(|s.procs|, s.cur, d)
  {
    var n, saved, c := |s.procs|, Save(s.procs, s.cur, esp), Behind(|s.procs|, s.cur);
    SavePasses(s.procs, s.cur, esp);
    hide Save, Pick, PassedAt, Behind;
    forall e: nat ensures Place(n, c, e) == Place(n, s.cur, e + 1) { }
    forall e: nat | e < d - 1 ensures PassedAt(saved, s.cur, Place(n, c, e)) {
      assert PassedOver(s, e + 1);
    }
    PickStops(saved, s.cur, c, TRIES, d - 1);
  }

  lemma SavePasses(procs: seq<Pcb>, cur: nat, esp: nat)
    requires cur < |procs|
    ensures forall j: nat :: j < |procs| ==> PassedAt(Save(procs, cur, esp), cur, j) == PassedAt(procs, cur, j)
  {
  }

  lemma ReadyIsEligible(procs: seq<Pcb>, r: nat)
    requires r <= |procs| && (r < |procs| ==> procs[r].status == Ready)
    requires forall k :: 0 <= k < r ==> procs[k].status != Ready
    ensures FirstEligible(Refilled(procs), 0) == r
  {
    var e := FirstEligible(Refilled(procs), 0);
    assert e < |procs| ==> procs[e].status == Ready;
    assert r < |procs| ==> Eligible(Refilled(procs)[r]);
  }

  lemma ReadySaved(procs: seq<Pcb>, cur: nat, esp: nat, r: nat)
    requires cur < |procs| && r <= |procs| && (r < |procs| ==> procs[r].status == Ready)
    requires forall k :: 0 <= k < r ==> procs[k].status != Ready
    ensures FirstEligible(Refilled(Save(procs, cur, esp)), 0) == r
  {
    ReadyIsEligible(Save(procs, cur, esp), r);
  }

  lemma ChooseRenews(procs: seq<Pcb>, cur: nat, r: nat)
    requires cur < |procs| && Pick(procs, cur, Behind(|procs|, cur), TRIES) == |procs|
    requires FirstEligible(Refilled(procs), 0) == r
    ensures Choose(procs, cur) == Choice(Refilled(procs), r)
  {
    hide Pick, FirstEligible, Refilled;
  }

  lemma RefilledEsp(procs: seq<Pcb>, r: nat)
    ensures r < |procs| ==> Refilled(procs)[r].esp == procs[r].esp
  {
  }

  /** A tick without credits left does what was chosen. */
  lemma TickChooses(s: Sys, esp: nat, procs: seq<Pcb>, r: nat)
    requires s.cur < |s.procs| == |procs| && s.left <= 1 && r <= |procs|
    requires Choose(Save(s.procs, s.cur, esp), s.cur) == Choice(procs, r)
    ensures var s1 := Sys(procs, s.cur, 0, U32(s.ticks + 1));
      Tick(s, esp) == if r == |procs| then Ticked(s1, esp) else Ticked(Hand(s1, r), procs[r].esp)
  {
    hide Choose, Hand, Save, U32;
  }

  lemma Renewing(s: Sys, esp: nat, r: nat)
    requires s.cur < |s.procs| && s.left <= 1 && NoHolder(s) && FirstReady(s, r)
    ensures var saved := Save(s.procs, s.cur, esp); var s1 := Sys(Refilled(saved), s.cur, 0, U32(s.ticks + 1));
      Tick(s, esp) == if r == |s.procs| then Ticked(s1, esp) else Ticked(Hand(s1, r), saved[r].esp)
  {
    ScanStops(s, esp, 17);
    ReadySaved(s.procs, s.cur, esp, r);
    RefilledEsp(Save(s.procs, s.cur, esp), r);
    hide *;
    ChooseRenews(Save(s.procs, s.cur, esp), s.cur, r);
    TickChooses(s, esp, Refilled(Save(s.procs, s.cur, esp)), r);
  }

  /** All ready and running processes have got new credits. */
  predicate RenewedCredits(procs: seq<Pcb>, procs': seq<Pcb>)
  {
    |procs'| == |procs| && forall i :: 0 <= i < |procs| ==> (procs'[i].credits ==
      if procs[i].status !in {Ready, Running} then procs[i].credits
      else if procs[i].priority == 2 then 3 else if procs[i].priority == 1 then 2 else 1)
  }

  lemma RefilledSaved(procs: seq<Pcb>, cur: nat, esp: nat)
    requires cur < |procs|
    ensures var t := Refilled(Save(procs, cur, esp));
      RenewedCredits(procs, t) && forall i :: 0 <= i < |procs| ==> t[i].status == procs[i].status
  {
  }

  lemma RenewedIs(s: Sys, esp: nat, r: nat)
    requires s.cur < |s.procs| && FirstReady(s, r) && r < |s.procs|
    ensures var saved := Save(s.procs, s.cur, esp);
      var t := Hand(Sys(Refilled(saved), s.cur, 0, U32(s.ticks + 1)), r);
      && t.cur == r && saved[r].esp == (if r == s.cur then esp else s.procs[r].esp)
      && t.left == (if s.procs[r].priority == 2 then 3 else if s.procs[r].priority == 1 then 2 else 1)
      && RenewedCredits(s.procs, t.procs)
      && forall i :: 0 <= i < |s.procs| ==> (t.procs[i].status ==
              if i == r then Running
              else if i == s.cur && s.procs[i].status == Running then Ready else s.procs[i].status)
  {
    hide U32;
  }

  /** When the last credit is spent and the scan finds nobody with any, all ready and running processes get 3, 2 or 1 by
      their priority, and the first ready one in the queue runs with all it got; without a ready one the current
      process goes on. Nothing else changes. */
  lemma LastCreditRenews(s: Sys, esp: nat, r: nat)
    requires s.cur < |s.procs| && s.left <= 1 && NoHolder(s) && FirstReady(s, r)
    ensures |Tick(s, esp).sys.procs| == |s.procs|
    ensures forall i :: 0 <= i < |s.procs| ==> (Tick(s, esp).sys.procs[i].credits ==
              if s.procs[i].status !in {Ready, Running} then s.procs[i].credits
              else if s.procs[i].priority == 2 then 3 else if s.procs[i].priority == 1 then 2 else 1)
    ensures forall i :: 0 <= i < |s.procs| ==> (Tick(s, esp).sys.procs[i].status ==
              if i == r then Running
              else if r < |s.procs| && i == s.cur && s.procs[i].status == Running then Ready else s.procs[i].status)
    ensures r == |s.procs| ==> Tick(s, esp).sys.cur == s.cur && Tick(s, esp).sys.left == 0 && Tick(s, esp).esp == esp
    ensures r < |s.procs| ==> (
              && Tick(s, esp).sys.cur == r && Tick(s, esp).esp == (if r == s.cur then esp else s.procs[r].esp)
              && Tick(s, esp).sys.left ==
                 (if s.procs[r].priority == 2 then 3 else if s.procs[r].priority == 1 then 2 else 1))
  {
    Renewing(s, esp, r);
    hide Tick, NoHolder, PassedOver, U32;
    RefilledSaved(s.procs, s.cur, esp);
    if r < |s.procs| {
      RenewedIs(s, esp, r);
    }
    hide Refilled, Save, Hand;
  }

  /** When the last credit is spent and the scan finds somebody, nobody gets new credits: the first one found, in
      queue order from behind the current process, runs with all it holds, whatever the current process has become. */
  lemma LastCreditHands(s: Sys, esp: nat, d: nat)
    requires s.cur < |s.procs| && s.left <= 1 && 1 <= d <= 16
    requires !PassedOver(s, d) && forall e: nat :: 1 <= e < d ==> PassedOver(s, e)
    ensures var t, n := Tick(s, esp).sys, |s.procs|;
      && |t.procs| == n && t.cur == (s.cur + d) % n
      && t.left == s.procs[t.cur].credits && Tick(s, esp).esp == s.procs[t.cur].esp
      && (forall i :: 0 <= i < n ==> t.procs[i].credits == s.procs[i].credits)
      && forall i :: 0 <= i < n ==> (t.procs[i].status ==
           if i == t.cur then Running else if i == s.cur && s.procs[i].status == Running then Ready
           else s.procs[i].status)
  {
    ScanStops(s, esp, d);
    PlaceIs(|s.procs|, s.cur, d);
    hide Pick, FirstEligible, Refilled, Place;
  }

  /** The counter counts ticks modulo 2^32, and without a current process nothing else happens. */
  lemma {:induction false} RunCounts(s: Sys, esps: seq<nat>)
    requires SysOk(s) && s.ticks < 0x1_0000_0000
    ensures Run(s, esps).ticks == (s.ticks + |esps|) % 0x1_0000_0000
    ensures s.cur == |s.procs| ==> Run(s, esps) == s.(ticks := Run(s, esps).ticks)
    decreases |esps|
  {
    if esps != [] {
      OneCount(s, esps[0]);
      hide Tick;
      RunCounts(Tick(s, esps[0]).sys, esps[1..]);
      AddMod(s.ticks + 1, |esps| - 1, 0x1_0000_0000);
    }
  }

  lemma OneCount(s: Sys, esp: nat)
    requires SysOk(s)
    ensures Tick(s, esp).sys.ticks == (s.ticks + 1) % 0x1_0000_0000
    ensures s.cur == |s.procs| ==> Tick(s, esp) == Ticked(s.(ticks := (s.ticks + 1) % 0x1_0000_0000), esp)
  {
    hide Pick, FirstEligible;
  }

  /** With a running process and a ready one, at most 17 in all, that is the beginning of exact shares: whoever
      was ready or running gets its 3, 2 or 1 ticks in every turn from then on. */
  lemma RenewedIsSteady(s: Sys, esp: nat, r: nat, esps: seq<nat>, i: nat)
    requires OneRuns(s) && s.cur < |s.procs| <= 17 && s.procs[s.cur].status == Running
    requires s.left <= 1 && NoHolder(s) && FirstReady(s, r) && r < |s.procs| && i < |s.procs|
    ensures Steady(Tick(s, esp).sys)
    ensures |esps| == Total(Tick(s, esp).sys) ==> (TicksOf(Tick(s, esp).sys, esps, i) ==
              if s.procs[i].status !in {Ready, Running} then 0
              else if s.procs[i].priority == 2 then 3 else if s.procs[i].priority == 1 then 2 else 1)
  {
    LastCreditRenews(s, esp, r);
    TickKeepsOne(s, esp);
    assert r != s.cur;
    hide Tick, NoHolder, FirstReady;
    var t := Tick(s, esp).sys;
    assert Eligible(t.procs[s.cur]);
    if |esps| == Total(t) { ExactShares(t, esps, i); }
  }
}
