/**
 The process list and the scheduler as the source has them (hal.x86/multitasking.c): a
 linked list of processes, newest first. Each method is proved to compute the function of
 module Scheduling on the value of the list.
 */
module Processes {
  import opened Machine
  import opened Scheduling

  class Process {
    const pid: nat
    const context: nat
    var state: nat
    var status: Status
    var sleepTimer: nat
    var uid: nat
    var next: Process?

    constructor (pid: nat, state: nat, status: Status, context: nat, uid: nat, next: Process?)
      ensures this.pid == pid && this.state == state && this.status == status && sleepTimer == 0
      ensures this.context == context && this.uid == uid && this.next == next
    {
      this.pid, this.state, this.status, sleepTimer := pid, state, status, 0;
      this.context, this.uid, this.next := context, uid, next;
    }

    ghost function Value(): Proc
      reads this
    {
      Proc(pid, state, status, sleepTimer, context)
    }
  }

  class Multitasking {
    var firstProcess: Process?
    var currentProcess: Process?
    var idleProcess: Process?
    var numProc: nat
    var tickCount: u32
    var activeContext: nat
    ghost var procs: seq<Process>  // the list
    ghost var sched: Sched         // the value it stands for

    ghost predicate Linked()
      reads this`firstProcess, this`procs, procs
    {
      && (forall i, j :: 0 <= i < j < |procs| ==> procs[i] != procs[j])
      && firstProcess == (if procs == [] then null else procs[0])
      && (forall i {:trigger procs[i].next} :: 0 <= i < |procs| ==> procs[i].next == if i + 1 < |procs| then procs[i + 1] else null)
    }

    // The processes of the list have these values.
    ghost predicate Holds(values: seq<Proc>)
      reads this`procs, procs
    {
      |values| == |procs| && forall i {:trigger procs[i].Value()} {:trigger values[i]} :: 0 <= i < |procs| ==> values[i] == procs[i].Value()
    }

    ghost predicate Valid()
      reads this, procs
    {
      && Linked() && sched.Valid() && Holds(sched.procs)
      && currentProcess == (if sched.current.Some? then procs[sched.current.value] else null)
      && idleProcess == procs[sched.idle]
      && numProc == sched.numProc && tickCount == sched.ticks
    }

    // InitMultitasking: the kernel process, the idle process, the RAM-disk process. Their
    // register states and contexts are parameters.
    constructor (kernel: nat, idle: nat, ramdisk: nat, contexts: (nat, nat, nat), ticks: u32)
      ensures Valid() && sched == Boot(kernel, idle, ramdisk, contexts, ticks) && fresh(procs)
    {
      var p0 := new Process(0, kernel, Runnable, contexts.0, 0, null);
      var p1 := new Process(1, idle, Runnable, contexts.1, 0, p0);
      var p2 := new Process(2, ramdisk, Runnable, contexts.2, 0, p1);
      p1.status := Paused;
      firstProcess, currentProcess, idleProcess := p2, null, p1;
      numProc, tickCount, activeContext := 3, ticks, 0;
      procs, sched := [p2, p1, p0], Boot(kernel, idle, ramdisk, contexts, ticks);
    }

    // CreateKernelProcess and CreateUserProcess after their allocations. A kernel process
    // belongs to root, a user process inherits the uid of the current one. Once the pid
    // counter wraps around nothing is promised.
    method Create(state: nat, context: nat, kernel: bool) returns (process: Process)
      requires Valid()
      modifies this
      ensures fresh(process) && process.context == context && process.pid == old(numProc)
      ensures process.uid == if kernel || old(currentProcess) == null then 0 else old(currentProcess.uid)
      ensures match Created(old(sched), state, context)
              case None => true
              case Some(s) => Valid() && sched == s && procs == [process] + old(procs)
    {
      var uid := if kernel || currentProcess == null then 0 else currentProcess.uid;
      process := new Process(numProc, state, Runnable, context, uid, firstProcess);
      firstProcess := process;
      numProc := Wrap(numProc + 1);
      procs := [process] + procs;
      if old(numProc) + 1 < WORD { sched := Created(sched, state, context).value; }
    }

    // The loop of Schedule, from list entry `start` on.
    method Search(ghost values: seq<Proc>, ghost start: nat, ghost idle: nat)
      requires Linked() && Holds(values) && start < |procs| && idle < |procs|
      requires currentProcess == procs[start] && idleProcess == procs[idle]
      modifies this`currentProcess, procs
      ensures Linked()
      ensures var next := Scan(Readies(values, tickCount), start, idle);
              next < |procs| && currentProcess == procs[next]
              && Holds(if next < start then values else values[next := Woken(values[next], tickCount)])
    {
      hide Scan, Readies, Linked;
      LinkedFacts();
      ghost var i, ready := start, Readies(values, tickCount);
      ReadyAt(values, tickCount);
      while currentProcess.status != Runnable
        invariant start <= i < |procs| && currentProcess == procs[i] && Linked() && Holds(values)
        invariant Scan(ready, start, idle) == Scan(ready, i, idle)
        invariant forall j :: start <= j < i ==> !ready[j]
        decreases |procs| - i
      {
        LinkedFacts();
        ScanStep(ready, i, idle);
        assert values[i] == procs[i].Value();
        if currentProcess.sleepTimer > 0 && currentProcess.sleepTimer <= tickCount {
          Wake(values, i);
          return;
        }
        currentProcess := currentProcess.next;
        i := i + 1;
        if currentProcess == null {
          currentProcess := idleProcess;
          ScanStep(ready, i, idle);
          UnreadyStays(values, tickCount, start, idle);
          return;
        }
      }
      ScanStep(ready, i, idle);
      assert values[i] == procs[i].Value();
    }

    lemma LinkedFacts()
      requires Linked()
      ensures forall i {:trigger procs[i].next} :: 0 <= i < |procs| ==> procs[i].next == if i + 1 < |procs| then procs[i + 1] else null
      ensures forall i, j :: 0 <= i < j < |procs| ==> procs[i] != procs[j]
      ensures firstProcess == (if procs == [] then null else procs[0])
    {
    }

    // A sleeper is due.
    method Wake(ghost values: seq<Proc>, ghost i: nat)
      requires Linked() && Holds(values) && i < |procs| && currentProcess == procs[i]
      requires values[i].status != Runnable && Expired(values[i], tickCount)
      modifies procs
      ensures Linked() && Holds(values[i := Woken(values[i], tickCount)])
    {
      currentProcess.status := Runnable;
      currentProcess.sleepTimer := 0;
    }

    // Schedule, for an interrupt (cpu is where the registers of the current process are) or
    // after a kill.
    method Schedule(cpu: nat) returns (state: nat)
      requires Valid()
      modifies this`currentProcess, this`activeContext, this`sched, procs
      ensures Valid() && sched == Scheduling.Schedule(old(sched), cpu)
      ensures sched.current.Some? && state == Resumed(sched) && activeContext == sched.procs[sched.current.value].context
    {
      hide NextIndex, Scan, Woken, Readies, Linked, Holds, Saved, Scheduling.Schedule, Sched.Valid;
      ghost var s := sched;
      ScheduleIs(s, cpu);
      HeadIs(s.procs);
      if currentProcess == null {
        currentProcess := firstProcess;
      } else {
        Suspend(cpu);
        Search(Saved(s, cpu), Start(s), s.idle);
      }
      sched := Scheduling.Schedule(s, cpu);
      HoldsAt(sched.procs, sched.current.value);
      activeContext := currentProcess.context;
      state := currentProcess.state;
    }

    lemma HeadIs(values: seq<Proc>)
      requires Linked() && Holds(values) && values != []
      ensures |procs| == |values| && firstProcess == procs[0]
    {
    }

    lemma HoldsAt(values: seq<Proc>, i: nat)
      requires Holds(values) && i < |values|
      ensures |values| == |procs| && values[i].state == procs[i].state && values[i].context == procs[i].context
    {
      assert values[i] == procs[i].Value();
    }

    lemma PidsHold()
      requires Valid()
      ensures |sched.procs| == |procs| && forall i :: 0 <= i < |procs| ==> sched.procs[i].pid == procs[i].pid
    {
      forall i | 0 <= i < |procs| ensures sched.procs[i].pid == procs[i].pid {
        assert sched.procs[i] == procs[i].Value();
      }
    }

    lemma NumProcIs()
      requires Valid()
      ensures sched.numProc == numProc && sched.Valid()
    {
    }

    lemma CurrentHolds()
      requires Valid() && currentProcess != null
      ensures sched.current.Some?
      ensures var p := sched.procs[sched.current.value];
              p.pid == currentProcess.pid && p.context == currentProcess.context && p.state == currentProcess.state
    {
      assert sched.procs[sched.current.value] == procs[sched.current.value].Value();
    }

    // Saving the state of the current process and moving on to the next in the list.
    method Suspend(cpu: nat)
      requires Valid() && currentProcess != null
      modifies this`currentProcess, procs
      ensures Linked() && Holds(Saved(sched, cpu)) && currentProcess == procs[Start(sched)]
    {
      ghost var i := sched.current.value;
      currentProcess.state := cpu;
      currentProcess := currentProcess.next;
      if currentProcess == null { currentProcess := firstProcess; }
    }

    // The timer branch of the interrupt handler (idt.c:243-247).
    method TimerInterrupt(cpu: nat) returns (state: nat)
      requires Valid()
      modifies this`tickCount, this`currentProcess, this`activeContext, this`sched, procs
      ensures Valid() && Some(sched) == Step(old(sched), Tick(cpu)) && sched.current.Some? && state == Resumed(sched)
      ensures activeContext == sched.procs[sched.current.value].context
    {
      hide Linked, Holds, Scheduling.Schedule;
      tickCount := Wrap(tickCount + 1);
      sched := sched.(ticks := tickCount);
      state := Schedule(cpu);
    }

    // System call 8, set_timer.
    method SetTimer(cpu: nat, ms: u32) returns (state: nat)
      requires Valid() && currentProcess != null
      modifies this`currentProcess, this`activeContext, this`sched, procs
      ensures Valid() && Some(sched) == Step(old(sched), Event.SetTimer(cpu, ms)) && sched.current.Some? && state == Resumed(sched)
      ensures activeContext == sched.procs[sched.current.value].context
    {
      hide Linked, Holds, Scheduling.Schedule, Asleep;
      FallAsleep(ms);
      state := Schedule(cpu);
    }

    method FallAsleep(ms: u32)
      requires Valid() && currentProcess != null
      modifies this`sched, procs
      ensures Valid() && sched == Asleep(old(sched), Deadline(old(sched).ticks, ms)) && currentProcess == old(currentProcess)
    {
      currentProcess.sleepTimer := Wrap(tickCount + ms);
      currentProcess.status := Sleeping;
      sched := Asleep(sched, Deadline(sched.ticks, ms));
    }

    method GetProcessByPid(pid: nat) returns (process: Process?)
      requires Valid()
      ensures process == null <==> forall p <- procs :: p.pid != pid
      ensures process != null ==> process in procs && process.pid == pid && forall p <- procs :: p.pid == pid ==> p == process
    {
      UniquePids();
      hide Valid;
      process := firstProcess;
      ghost var i := 0;
      while process != null
        invariant 0 <= i <= |procs| && process == if i < |procs| then procs[i] else null
        invariant forall j :: 0 <= j < i ==> procs[j].pid != pid
        decreases |procs| - i
      {
        if process.pid == pid { return; }
        process, i := process.next, i + 1;
      }
    }

    lemma UniquePids()
      requires Valid()
      ensures Linked() && procs != [] && forall i, j :: 0 <= i < j < |procs| ==> procs[i].pid != procs[j].pid
    {
      forall i, j | 0 <= i < j < |procs| ensures procs[i].pid != procs[j].pid {
        assert sched.procs[i] == procs[i].Value() && sched.procs[j] == procs[j].Value();
      }
    }

    // KillProcess of a listed process: it leaves the list, the rest keeps its order and its
    // values. (For a process that is not listed the source follows NULL.)
    method KillProcess(process: Process, ghost k: nat, ghost values: seq<Proc>)
      requires Linked() && k < |procs| && procs[k] == process && Holds(values)
      requires forall i, j :: 0 <= i < j < |procs| ==> procs[i].pid != procs[j].pid
      modifies this`firstProcess, this`procs, procs
      ensures Linked() && procs == old(procs)[..k] + old(procs)[k + 1..]
      ensures Holds(values[..k] + values[k + 1..])
    {
      forall i | 0 <= i < |procs| ensures values[i] == procs[i].Value() {}
      var proc := firstProcess;
      if proc.pid == process.pid {
        firstProcess := process.next;
        procs := procs[..k] + procs[k + 1..];
        return;
      }
      ghost var i := 0;
      while proc != null
        invariant 0 <= i < k && proc == procs[i]
        decreases |procs| - i
      {
        if proc.next.pid == process.pid {
          proc.next := process.next;
          procs := procs[..k] + procs[k + 1..];
          return;
        }
        proc, i := proc.next, i + 1;
      }
    }

    // KillCurrentProcess (system call 2): kill, then Schedule with no current process.
    // Killing the last process makes Schedule follow NULL, and killing the idle process
    // leaves a dangling fallback; then nothing is promised.
    method KillCurrentProcess() returns (state: nat)
      requires Valid() && currentProcess != null && Step(sched, Exit).Some?
      modifies this`firstProcess, this`currentProcess, this`activeContext, this`procs, this`sched, procs
      ensures Valid() && Some(sched) == Step(old(sched), Exit) && sched.current.Some? && state == Resumed(sched)
      ensures activeContext == sched.procs[sched.current.value].context
      ensures var k := old(sched).current.value; procs == old(procs)[..k] + old(procs)[k + 1..]
    {
      hide Linked, Holds, Scheduling.Schedule;
      UniquePids();
      ghost var s, k := sched, sched.current.value;
      HoldsAt(s.procs, k);
      KillProcess(currentProcess, k, s.procs);
      currentProcess := null;
      sched := Killed(s);
      HoldsAt(sched.procs, 0);
      state := Schedule(0);
    }
  }

  // Where the search starts.
  function Start(s: Sched): nat
    requires s.Valid() && s.current.Some?
  {
    if s.current.value + 1 < |s.procs| then s.current.value + 1 else 0
  }

  lemma ScheduleIs(s: Sched, cpu: nat)
    requires s.Valid()
    ensures s.idle < |s.procs| && |Saved(s, cpu)| == |s.procs| && (s.current.Some? ==> s.current.value < |s.procs| && Start(s) < |s.procs|)
    ensures var r := Scheduling.Schedule(s, cpu); r.Valid() && r.current.Some? && r.current.value < |r.procs| == |s.procs|
    ensures s.current == None ==> Scheduling.Schedule(s, cpu) == s.(current := Some(0))
    ensures s.current.Some? ==>
              var values := Saved(s, cpu); var next := Scan(Readies(values, s.ticks), Start(s), s.idle);
              && next < |values|
              && Scheduling.Schedule(s, cpu) ==
                 s.(procs := if next < Start(s) then values else values[next := Woken(values[next], s.ticks)], current := Some(next))
  {
  }

  lemma ReadyAt(values: seq<Proc>, ticks: nat)
    ensures |Readies(values, ticks)| == |values|
    ensures forall i :: 0 <= i < |values| ==> Readies(values, ticks)[i] == Ready(values[i], ticks)
  {
  }

  lemma ScanStep(ready: seq<bool>, i: nat, idle: nat)
    requires i <= |ready|
    ensures Scan(ready, i, idle) == if i == |ready| then idle else if ready[i] then i else Scan(ready, i + 1, idle)
  {
  }

  lemma UnreadyStays(values: seq<Proc>, ticks: nat, start: nat, idle: nat)
    requires start <= |values| && idle < |values| && Scan(Readies(values, ticks), start, idle) == idle
    requires forall i :: start <= i < |values| ==> !Readies(values, ticks)[i]
    ensures start <= idle ==> Woken(values[idle], ticks) == values[idle]
  {
  }
}
