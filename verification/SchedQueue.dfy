/** The process queue and the scheduler as the kernel keeps them (kernel/proc/processo.c:8-33, 56-107,
    kernel/proc/sched.c): linked control blocks updated in place, refining the system of Sched. */
module SchedQueue {
  import opened Bits
  import opened Sched

  class Process {
    const pid: nat
    var status: Status
    var priority: nat
    var credits: nat
    var esp: nat
    var next: Process?

    constructor (pid: nat, status: Status, priority: nat, credits: nat, esp: nat)
      ensures this.pid == pid && View() == Pcb(status, priority, credits, esp) && next == null
    {
      this.pid, this.status, this.priority, this.credits, this.esp, next := pid, status, priority, credits, esp, null;
    }

    function View(): (p: Pcb)
      reads this
    {
      Pcb(status, priority, credits, esp)
    }
  }

  class Scheduler {
    var head: Process?
    var current: Process?
    var left: nat
    var ticks: nat
    var nextPid: nat
    /** The processes in queue order, what their blocks hold, and the index of the current one. */
    ghost var queue: seq<Process>
    ghost var procs: seq<Pcb>
    ghost var cur: nat

    ghost predicate Linked()
      reads this`queue, this`head, queue`next
    {
      && (forall i, j :: 0 <= i < j < |queue| ==> queue[i] != queue[j])
      && head == At(0)
      && forall i {:trigger queue[i].next} :: 0 <= i < |queue| ==> queue[i].next == At(i + 1)
    }

    ghost predicate Valid()
      reads this, queue
    {
      Linked() && cur <= |queue| && current == At(cur) && |procs| == |queue| && Mirrored()
    }

    /** procs is what the blocks hold. */
    ghost predicate Mirrored()
      requires |procs| == |queue|
      reads this`queue, this`procs, queue
    {
      forall i :: 0 <= i < |queue| ==> queue[i].View() == procs[i]
    }

    ghost function At(i: nat): (p: Process?)
      reads this`queue
    {
      if i < |queue| then queue[i] else null
    }

    ghost function View(): (s: Sys)
      reads this
    {
      Sys(procs, cur, left, ticks)
    }

    constructor ()
      ensures Valid() && queue == [] && View() == Sys([], 0, 0, 0) && nextPid == 1
    {
      head, current, left, ticks, nextPid, queue, procs, cur := null, null, 0, 0, 1, [], [], 0;
    }

    /** fila_adicionar: the process goes to the end of the queue, or becomes its head when it was empty. The
        current process, or that there is none, stays. */
    method Append(p: Process)
      requires Valid() && p !in queue
      modifies this`queue, this`procs, this`head, this`cur, p`next, queue`next
      ensures Valid() && queue == old(queue) + [p] && procs == old(procs) + [p.View()]
      ensures cur == if old(cur) < |old(queue)| then old(cur) else |queue|
    {
      p.next := null;
      if head == null {
        StartQueue(p);
      } else {
        LinkLast(p);
      }
    }

    method StartQueue(p: Process)
      requires Valid() && p.next == null && head == null
      modifies this`queue, this`procs, this`head, this`cur
      ensures Valid() && queue == [p] && procs == [p.View()] && cur == 1
    {
      head := p;
      queue, procs := [p], [p.View()];
      cur := 1;
    }

    /** The walk to the end of the queue. */
    method LinkLast(p: Process)
      requires Valid() && p !in queue && p.next == null && queue != []
      modifies this`queue, this`procs, this`cur, queue`next
      ensures Valid() && queue == old(queue) + [p] && procs == old(procs) + [p.View()]
      ensures cur == if old(cur) < |old(queue)| then old(cur) else |queue|
    {
      var last := head;
      ghost var i := 0;
      while last.next != null
        invariant 0 <= i < |queue| && last == queue[i] && p.next == null && Linked()
        decreases |queue| - i
      {
        last := last.next;
        i := i + 1;
      }
      last.next := p;
      cur := if cur < |queue| then cur else |queue| + 1;
      queue, procs := queue + [p], procs + [p.View()];
    }

    /** proc_init: the kernel is process 0, running, in an empty queue. Its credits and stack pointer are
        whatever the memory held. */
    method ProcInit(credits: nat, esp: nat)
      requires Valid() && queue == []
      modifies this
      ensures Valid() && |queue| == 1 && fresh(queue[0]) && queue[0].pid == 0
      ensures View() == Sys([Pcb(Running, 1, credits, esp)], 0, old(left), old(ticks)) && nextPid == old(nextPid)
    {
      var p := new Process(0, Running, 1, credits, esp);
      head, current := p, p;
      queue, procs, cur := [p], [p.View()], 0;
    }

    /** The queue and state part of proc_criar; stack is the prepared stack pointer, and the credits are
        whatever the memory held. */
    method ProcCreate(priority: nat, credits: nat, stack: nat) returns (p: Process)
      requires Valid()
      modifies this`queue, this`procs, this`head, this`cur, this`nextPid, queue`next
      ensures Valid() && fresh(p) && queue == old(queue) + [p] && p.pid == old(nextPid)
      ensures nextPid == U32(old(nextPid) + 1) && cur == if old(cur) < |old(queue)| then old(cur) else |queue|
      ensures procs == old(procs) + [Pcb(Ready, priority, credits, stack)]
    {
      p := new Process(nextPid, Ready, priority, credits, stack);
      nextPid := U32(nextPid + 1);
      Append(p);
    }

    method SetStatus(p: Process, ghost at: nat, status: Status)
      requires Valid() && at < |queue| && p == queue[at]
      modifies this`procs, queue`status
      ensures Valid() && procs == old(procs)[at := old(procs)[at].(status := status)]
    {
      p.status := status;
      procs := procs[at := procs[at].(status := status)];
    }

    /** proc_encerrar up to its endless loop: the current process is dead. */
    method ProcExit()
      requires Valid()
      modifies this`procs, queue`status
      ensures Valid()
      ensures procs == if cur == |procs| then old(procs) else old(procs)[cur := old(procs)[cur].(status := Dead)]
    {
      if current != null {
        SetStatus(current, cur, Dead);
      }
    }

    /** recalcular_creditos. */
    method Refill()
      requires Valid()
      modifies this`procs, queue`credits
      ensures Valid() && procs == Refilled(old(procs))
    {
      var p := head;
      ghost var i := 0;
      while p != null
        invariant 0 <= i <= |queue| && p == At(i) && Valid()
        invariant forall k :: 0 <= k < |procs| ==> procs[k] == if k < i then Sched.Refill(old(procs)[k])
                  else old(procs)[k]
        decreases |queue| - i
      {
        RefillOne(p, i);
        p := p.next;
        i := i + 1;
      }
    }

    method RefillOne(p: Process, ghost at: nat)
      requires Valid() && at < |queue| && p == queue[at]
      modifies this`procs, queue`credits
      ensures Valid() && procs == old(procs)[at := Sched.Refill(old(procs)[at])]
    {
      if p.status == Ready || p.status == Running {
        p.credits := if p.priority == 2 then 3 else if p.priority == 1 then 2 else 1;
      }
      procs := procs[at := Sched.Refill(procs[at])];
    }

    /** escolher_proximo. */
    method ChooseNext() returns (p: Process?, ghost at: nat)
      requires Valid() && cur < |queue|
      modifies this`procs, queue`credits
      ensures Valid()
      ensures var ch := Choose(old(procs), cur); procs == ch.procs && at == ch.next && p == At(at)
    {
      hide Mirrored, Linked, Pick, Refilled, FirstEligible;
      p, at := ScanBehind();
      if p != null { return; }
      Refill();
      p, at := ScanReady();
    }

    /** The second loop of escolher_proximo: from the head of the queue. */
    method ScanReady() returns (p: Process?, ghost at: nat)
      requires Valid()
      ensures at == FirstEligible(procs, 0) && p == At(at)
    {
      p, at := head, 0;
      while p != null
        invariant 0 <= at <= |queue| && p == At(at)
        invariant FirstEligible(procs, 0) == FirstEligible(procs, at)
        decreases |queue| - at
      {
        if p.status == Ready && p.credits > 0 {
          return;
        }
        p := p.next;
        at := at + 1;
      }
    }

    /** The first loop of escolher_proximo: from the process behind the current one around the queue. */
    method ScanBehind() returns (p: Process?, ghost at: nat)
      requires Valid() && cur < |queue|
      ensures at == Pick(procs, cur, Behind(|procs|, cur), TRIES) && p == At(at)
    {
      p := current.next;
      if p == null { p := head; }
      var tries: nat := 0;
      at := Behind(|queue|, cur);
      while tries < TRIES
        invariant 0 <= tries <= TRIES && at < |queue| && p == queue[at]
        invariant Pick(procs, cur, Behind(|queue|, cur), TRIES) == Pick(procs, cur, at, TRIES - tries)
        decreases TRIES - tries
      {
        if p != null && p != current && p.status == Ready && p.credits > 0 {
          return;
        }
        if p != null { p := p.next; }
        if p == null { p := head; }
        at := Behind(|queue|, at);
        tries := tries + 1;
      }
      p, at := null, |queue|;
    }

    /** ctx.esp of the current process. */
    method SaveEsp(esp: nat)
      requires Valid() && cur < |queue|
      modifies this`procs, queue`esp
      ensures Valid() && procs == Save(old(procs), cur, esp)
    {
      current.esp := esp;
      procs := procs[cur := procs[cur].(esp := esp)];
    }

    /** A block holds what its place in procs says. */
    lemma StatusMirrored(at: nat)
      requires Valid() && at < |queue|
      ensures queue[at].View() == procs[at]
    {
    }

    /** The end of sched_tick: the switch to p. */
    method HandTo(p: Process, ghost at: nat) returns (ret: nat)
      requires Valid() && cur < |queue| && at < |queue| && p == queue[at]
      modifies this`left, this`current, this`cur, this`procs, queue`status
      ensures Valid() && View() == Hand(old(View()), at) && ret == old(procs)[at].esp
    {
      hide Linked, Mirrored;
      StatusMirrored(cur);
      if current.status == Running {
        SetStatus(current, cur, Ready);
      }
      SetStatus(p, at, Running);
      StatusMirrored(at);
      left := p.credits;
      current := p;
      cur := at;
      ret := p.esp;
    }

    /** sched_tick. */
    method SchedTick(esp: nat) returns (ret: nat)
      requires Valid()
      modifies this`left, this`current, this`cur, this`ticks, this`procs, queue`status, queue`credits, queue`esp
      ensures Valid()
      ensures var r := Tick(old(View()), esp); View() == r.sys && ret == r.esp
    {
      hide Hand, Save, Choose, Mirrored, Linked;
      ticks := U32(ticks + 1);
      if current == null { return esp; }
      SaveEsp(esp);
      if left > 0 { left := left - 1; }
      if left > 0 { return esp; }
      var p, at := ChooseNext();
      if p == null { return esp; }
      ret := HandTo(p, at);
    }

    /** sched_init. */
    method SchedInit()
      requires Valid()
      modifies this`left, this`procs, queue`credits
      ensures Valid() && View() == Init(old(View()))
    {
      Refill();
      if current != null {
        left := if current.priority == 2 then 3 else if current.priority == 1 then 2 else 1;
      }
    }
  }
}
