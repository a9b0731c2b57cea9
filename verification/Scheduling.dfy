/**
 The scheduler as functions on values (hal.x86/multitasking.c:129-171): the search for the
 next process, its fairness, sleeping and waking, and what is resumed.
 */
module Scheduling {
  import opened Machine

  datatype Status = Runnable | Running | Sleeping | Paused

  // A process: its pid, the saved register state, its status and its wake-up tick.
  datatype Proc = Proc(pid: nat, state: nat, status: Status, timer: nat, context: nat)

  // The deadline has been reached; a timer of 0 is no deadline.
  predicate Expired(p: Proc, ticks: nat) {
    0 < p.timer <= ticks
  }

  predicate Ready(p: Proc, ticks: nat) {
    p.status == Runnable || Expired(p, ticks)
  }

  // ----- the search

  // The first ready entry from i on, or the idle entry: the search does not wrap around.
  function Scan(ready: seq<bool>, i: nat, idle: nat): (r: nat)
    requires i <= |ready|
    ensures r == idle || (i <= r < |ready| && ready[r])
    ensures forall k :: i <= k < |ready| && ready[k] ==> i <= r <= k
    decreases |ready| - i
  {
    if i == |ready| then idle else if ready[i] then i else Scan(ready, i + 1, idle)
  }

  function NextIndex(ready: seq<bool>, current: nat, idle: nat): nat
    requires current < |ready|
  {
    Scan(ready, if current + 1 < |ready| then current + 1 else 0, idle)
  }

  // The selected entries over a run of Schedule calls. readies[m] says who is ready at call m.
  function Trace(readies: seq<seq<bool>>, n: nat, current: nat, idle: nat): (r: nat)
    requires current < n && idle < n && forall ready <- readies :: |ready| == n
    ensures r < n
  {
    if readies == [] then current
    else NextIndex(readies[|readies| - 1], Trace(readies[..|readies| - 1], n, current, idle), idle)
  }

  // How many calls entry k may still have to wait when `current` was selected last.
  function Wait(n: nat, current: nat, k: nat): nat
    requires current < n
  {
    if current < k then k - current else n - current + k
  }

  // Who is never starved as long as it is ready itself, given who else is: anybody while the
  // tail of the list is ready or is the idle process, and whoever is behind the idle process.
  predicate Reached(ready: seq<bool>, idle: nat, k: nat) {
    ready != [] && (ready[|ready| - 1] || idle == |ready| - 1 || k > idle)
  }

  lemma OneCallCloser(ready: seq<bool>, current: nat, idle: nat, k: nat)
    requires current < |ready| && idle < |ready| && k < |ready| && ready[k] && Reached(ready, idle, k)
    ensures var next := NextIndex(ready, current, idle);
            next < |ready| && (next == k || Wait(|ready|, next, k) < Wait(|ready|, current, k))
  {
  }

  lemma {:induction false} WaitRunsDown(readies: seq<seq<bool>>, n: nat, current: nat, idle: nat, k: nat)
    requires current < n && idle < n && k < n
    requires forall ready <- readies :: |ready| == n && ready[k] && Reached(ready, idle, k)
    requires forall m :: 0 < m <= |readies| ==> Trace(readies[..m], n, current, idle) != k
    ensures Wait(n, Trace(readies, n, current, idle), k) + |readies| <= Wait(n, current, k)
  {
    hide NextIndex, Reached, Wait;
    if readies != [] {
      var init := readies[..|readies| - 1];
      forall m | 0 < m <= |init| ensures Trace(init[..m], n, current, idle) != k {
        assert init[..m] == readies[..m];
      }
      WaitRunsDown(init, n, current, idle, k);
      assert readies[|readies| - 1] in readies;
      OneCallCloser(readies[|readies| - 1], Trace(init, n, current, idle), idle, k);
      assert readies[..|readies|] == readies;
    }
  }

  // Fairness: a process that stays ready is selected within n calls, wherever the search
  // starts and whatever the others do, while it is in reach.
  lemma FairWhileReached(readies: seq<seq<bool>>, n: nat, current: nat, idle: nat, k: nat)
    requires current < n && idle < n && k < n && |readies| == n
    requires forall ready <- readies :: |ready| == n && ready[k] && Reached(ready, idle, k)
    ensures exists m :: 0 < m <= n && Trace(readies[..m], n, current, idle) == k
  {
    if forall m :: 0 < m <= n ==> Trace(readies[..m], n, current, idle) != k {
      WaitRunsDown(readies, n, current, idle, k);
    }
  }

  // The search does not wrap around: from idle on, and as long as the tail is not ready,
  // nobody in front of idle is selected, whoever is ready there and whoever is behind it.
  lemma {:induction false} StuckBehindIdle(readies: seq<seq<bool>>, n: nat, current: nat, idle: nat)
    requires idle <= current < n - 1
    requires forall ready <- readies :: |ready| == n && !ready[n - 1]
    ensures idle <= Trace(readies, n, current, idle) < n - 1
  {
    if readies != [] {
      StuckBehindIdle(readies[..|readies| - 1], n, current, idle);
      assert readies[|readies| - 1] in readies;
    }
  }

  function Constantly(ready: seq<bool>, n: nat): (r: seq<seq<bool>>)
    ensures |r| == n && forall m :: 0 <= m < n ==> r[m] == ready
  {
    seq(n, _ => ready)
  }

  // While nobody's readiness changes and idle is not ready itself, a ready process is selected
  // within n calls from every start exactly if it is in reach; else there is a start from which
  // it is never selected.
  lemma FairExactly(ready: seq<bool>, idle: nat, k: nat)
    requires idle < |ready| && k < |ready| && ready[k] && !ready[idle]
    ensures (forall current: nat :: current < |ready| ==> Selects(ready, current, idle, k)) <==> Reached(ready, idle, k)
    ensures !Reached(ready, idle, k) ==> forall m: nat :: Trace(Constantly(ready, m), |ready|, idle, idle) != k
  {
    var n := |ready|;
    if Reached(ready, idle, k) {
      forall current: nat | current < n ensures Selects(ready, current, idle, k) {
        FairWhileReached(Constantly(ready, n), n, current, idle, k);
        var m :| 0 < m <= n && Trace(Constantly(ready, n)[..m], n, current, idle) == k;
        assert Constantly(ready, n)[..m] == Constantly(ready, m);
      }
    } else {
      forall m: nat ensures Trace(Constantly(ready, m), n, idle, idle) != k {
        StuckBehindIdle(Constantly(ready, m), n, idle, idle);
      }
      assert !Selects(ready, idle, idle, k);
    }
  }

  // Entry k is selected within as many calls as the list is long.
  ghost predicate Selects(ready: seq<bool>, current: nat, idle: nat, k: nat)
    requires current < |ready| && idle < |ready|
  {
    exists m :: 0 < m <= |ready| && Trace(Constantly(ready, m), |ready|, current, idle) == k
  }

  // The idle process is selected and left again exactly when somebody behind it is ready, or
  // it is itself the tail and somebody is.
  lemma LeavesIdleExactly(ready: seq<bool>, idle: nat)
    requires idle < |ready| && !ready[idle]
    ensures NextIndex(ready, idle, idle) != idle <==>
              exists i :: 0 <= i < |ready| && ready[i] && (idle < i || idle == |ready| - 1)
  {
  }

  // ----- sleeping

  // set_timer at tick t0 for ms ticks; the deadline is a 32-bit sum.
  function Deadline(t0: nat, ms: nat): nat {
    Wrap(t0 + ms)
  }

  // A sleeper wakes exactly at its deadline if the sum does not wrap. If it wraps past 0 the
  // sleeper wakes at once, and a sum of exactly 0 is no deadline: it never wakes.
  lemma WakesExactly(p: Proc, t0: u32, ms: u32, t: u32)
    requires p.timer == Deadline(t0, ms) && t0 <= t
    ensures 0 < t0 + ms < WORD ==> (Expired(p, t) <==> t0 + ms <= t)
    ensures t0 + ms > WORD ==> Expired(p, t)
    ensures t0 + ms == WORD || t0 + ms == 0 ==> !Expired(p, t)
  {
  }

  // ----- the state machine

  // The list of processes, newest first; the entries of the current and the idle process;
  // the next pid; the tick counter. `current` is None after a kill, until Schedule.
  datatype Sched = Sched(procs: seq<Proc>, current: Option<nat>, idle: nat, numProc: nat, ticks: nat) {
    predicate Valid() {
      && idle < |procs| && (current.Some? ==> current.value < |procs|)
      && (forall i :: 0 <= i < |procs| ==> procs[i].pid < numProc)
      && (forall i, j :: 0 <= i < j < |procs| ==> procs[j].pid < procs[i].pid)
    }
  }

  function Readies(procs: seq<Proc>, ticks: nat): (r: seq<bool>)
    ensures |r| == |procs| && forall i :: 0 <= i < |r| ==> r[i] == Ready(procs[i], ticks)
  {
    seq(|procs|, i requires 0 <= i < |procs| => Ready(procs[i], ticks))
  }

  function Saved(s: Sched, cpu: nat): seq<Proc>
    requires s.Valid()
  {
    if s.current.Some? then s.procs[s.current.value := s.procs[s.current.value].(state := cpu)] else s.procs
  }

  // A sleeper that the search stops at is woken.
  function Woken(p: Proc, ticks: nat): Proc {
    if p.status != Runnable && Expired(p, ticks) then p.(status := Runnable, timer := 0) else p
  }

  // Schedule: save the state of the current process, search, wake and select. After a kill
  // the head of the list is taken as it is. The idle fallback wakes nobody.
  function Schedule(s: Sched, cpu: nat): (r: Sched)
    requires s.Valid()
    ensures r.Valid() && r.current.Some? && |r.procs| == |s.procs|
  {
    var procs := Saved(s, cpu);
    if s.current == None then s.(current := Some(0))
    else
      var start := if s.current.value + 1 < |procs| then s.current.value + 1 else 0;
      var next := NextIndex(Readies(procs, s.ticks), s.current.value, s.idle);
      s.(procs := if next < start then procs else procs[next := Woken(procs[next], s.ticks)], current := Some(next))
  }

  // What Schedule hands to the interrupt return path.
  function Resumed(s: Sched): nat
    requires s.Valid() && s.current.Some?
  {
    s.procs[s.current.value].state
  }

  datatype Event =
    | Create(state: nat, context: nat)  // a new process, with its initial register state
    | Tick(cpu: nat)                    // timer interrupt: the counter, then Schedule
    | SetTimer(cpu: nat, ms: u32)       // system call 8
    | Exit                              // system call 2: KillCurrentProcess

  // The state in which an event calls Schedule. None: the last process is gone and the
  // kernel follows NULL, the idle process itself exits and the fallback dangles, or there is
  // no current process to make the call.
  function Prepared(s: Sched, e: Event): (r: Option<Sched>)
    requires s.Valid() && !e.Create?
    ensures r.Some? ==> r.value.Valid()
  {
    match e
    case Tick(_) => Some(s.(ticks := Wrap(s.ticks + 1)))
    case SetTimer(_, ms) => if s.current == None then None else Some(Asleep(s, Deadline(s.ticks, ms)))
    case Exit => if s.current == None || s.current.value == s.idle || |s.procs| == 1 then None else Some(Killed(s))
  }

  function Cpu(e: Event): nat {
    match e
    case Tick(cpu) => cpu
    case SetTimer(cpu, _) => cpu
    case _ => 0
  }

  function Asleep(s: Sched, deadline: nat): (r: Sched)
    requires s.Valid() && s.current.Some?
    ensures r.Valid()
  {
    var i := s.current.value;
    s.(procs := s.procs[i := s.procs[i].(timer := deadline, status := Sleeping)])
  }

  // A new process goes to the head of the list. None: the pid counter is used up.
  function Created(s: Sched, state: nat, context: nat): (r: Option<Sched>)
    requires s.Valid()
    ensures r.Some? ==> r.value.Valid()
  {
    if s.numProc + 1 >= WORD then None
    else Some(s.(procs := [Proc(s.numProc, state, Runnable, 0, context)] + s.procs, numProc := s.numProc + 1,
                 idle := s.idle + 1, current := if s.current.Some? then Some(s.current.value + 1) else None))
  }

  function Step(s: Sched, e: Event): (r: Option<Sched>)
    requires s.Valid()
    ensures r.Some? ==> r.value.Valid()
  {
    if e.Create? then Created(s, e.state, e.context)
    else
      match Prepared(s, e)
      case None => None
      case Some(s1) => Some(Schedule(s1, Cpu(e)))
  }

  // The current process leaves the list; the order of the rest stays.
  function Killed(s: Sched): (r: Sched)
    requires s.Valid() && s.current.Some? && s.current.value != s.idle
    ensures r.Valid()
  {
    var i := s.current.value;
    s.(procs := s.procs[..i] + s.procs[i + 1..], current := None, idle := if s.idle > i then s.idle - 1 else s.idle)
  }

  function Run(s: Sched, events: seq<Event>): (r: Option<Sched>)
    requires s.Valid()
    ensures r.Some? ==> r.value.Valid()
  {
    if events == [] then Some(s)
    else
      match Run(s, events[..|events| - 1])
      case None => None
      case Some(s1) => Step(s1, events[|events| - 1])
  }

  // InitMultitasking: the kernel, idle and RAM-disk processes, newest first.
  function Boot(kernel: nat, idle: nat, ramdisk: nat, contexts: (nat, nat, nat), ticks: nat): (s: Sched)
    ensures s.Valid() && s.numProc == 3
  {
    Sched([Proc(2, ramdisk, Runnable, 0, contexts.2), Proc(1, idle, Paused, 0, contexts.1), Proc(0, kernel, Runnable, 0, contexts.0)],
          None, 1, 3, ticks)
  }

  // Pids are unique and never used again: one that was given out and is gone stays gone.
  lemma {:induction false} PidsAreNeverReused(s: Sched, events: seq<Event>, pid: nat)
    requires s.Valid() && Run(s, events).Some? && pid < s.numProc && forall p <- s.procs :: p.pid != pid
    ensures var s' := Run(s, events).value; s.numProc <= s'.numProc && forall p <- s'.procs :: p.pid != pid
  {
    if events != [] {
      var init := events[..|events| - 1];
      PidsAreNeverReused(s, init, pid);
      StepKeepsPidAway(Run(s, init).value, events[|events| - 1], pid);
    }
  }

  lemma StepKeepsPidAway(s: Sched, e: Event, pid: nat)
    requires s.Valid() && Step(s, e).Some? && pid < s.numProc && forall p <- s.procs :: p.pid != pid
    ensures var s' := Step(s, e).value; s.numProc <= s'.numProc && forall p <- s'.procs :: p.pid != pid
  {
    var s' := Step(s, e).value;
    forall i | 0 <= i < |s'.procs| ensures s'.procs[i].pid != pid {
      StepStates(s, e, i);
      hide Step;
      if !(e.Create? && i == 0) { assert s.procs[Origin(s, e, i)] in s.procs; }
    }
    if !e.Create? { ScheduleKeepsProcs(Prepared(s, e).value, Cpu(e)); }
  }

  // Schedule changes no pid, no context and no list position; of the saved states it writes
  // only the current process's.
  lemma ScheduleKeepsProcs(s: Sched, cpu: nat)
    requires s.Valid()
    ensures var s' := Schedule(s, cpu);
            |s'.procs| == |s.procs| && s'.numProc == s.numProc
            && forall i :: 0 <= i < |s.procs| ==>
                 && s'.procs[i].pid == s.procs[i].pid && s'.procs[i].context == s.procs[i].context
                 && s'.procs[i].state == if s.current == Some(i) then cpu else s.procs[i].state
  {
  }

  // With a current process, Schedule returns a runnable process or the idle process.
  lemma SelectedMayRun(s: Sched, cpu: nat)
    requires s.Valid() && s.current.Some?
    ensures var s' := Schedule(s, cpu);
            s'.procs[s'.current.value].status == Runnable || s'.current.value == s.idle
  {
  }

  // A process becomes runnable in Schedule only when its deadline has been reached.
  lemma WokenOnlyWhenDue(s: Sched, cpu: nat, i: nat)
    requires s.Valid() && i < |s.procs|
    ensures var s' := Schedule(s, cpu);
            s.procs[i].status != Runnable && s'.procs[i].status == Runnable ==>
              Expired(s.procs[i], s.ticks) && s'.current == Some(i) && s'.procs[i].timer == 0
    ensures var s' := Schedule(s, cpu);
            !(s.procs[i].status != Runnable && s'.procs[i].status == Runnable) ==>
              s'.procs[i].status == s.procs[i].status && s'.procs[i].timer == s.procs[i].timer
  {
  }

  // The selected process may neither run nor is it idle, exactly after a kill (or at the very
  // first call) when the head of the list is such a process: it is taken whatever its status,
  // so that a sleeper there is resumed before its deadline (multitasking.c:136).
  lemma SelectedAmissExactly(s: Sched, e: Event)
    requires s.Valid() && !e.Create? && Step(s, e).Some?
    ensures var s' := Step(s, e).value;
            s'.procs[s'.current.value].status != Runnable && s'.current.value != s'.idle
            <==> (e.Exit? || s.current == None) && s.procs[Heir(s, e)].status != Runnable && Heir(s, e) != s.idle
  {
    hide Schedule;
    var s1 := Prepared(s, e).value;
    if s1.current.Some? {
      SelectedMayRun(s1, Cpu(e));
      SameIdle(s1, Cpu(e));
    } else {
      HeadSelected(s1, Cpu(e));
      assert s1.procs[0] == s.procs[Heir(s, e)] && (s1.idle == 0 <==> Heir(s, e) == s.idle);
    }
  }

  // Which entry is at the head of the list when Schedule has no current process.
  function Heir(s: Sched, e: Event): (i: nat)
    requires s.Valid()
    ensures i < |s.procs|
  {
    if e.Exit? && s.current == Some(0) && |s.procs| > 1 then 1 else 0
  }

  lemma HeadSelected(s: Sched, cpu: nat)
    requires s.Valid() && s.current == None
    ensures Schedule(s, cpu) == s.(current := Some(0))
  {
  }

  lemma SameIdle(s: Sched, cpu: nat)
    requires s.Valid()
    ensures Schedule(s, cpu).idle == s.idle
  {
  }

  // ----- fairness on runs of the scheduler

  // Events that call Schedule with an unchanged list.
  predicate KeepsList(e: Event) {
    e.Tick? || e.SetTimer?
  }

  // Who is ready when event e comes to search the list.
  function ReadyWhen(s: Sched, e: Event): (r: seq<bool>)
    requires s.Valid() && KeepsList(e) && s.current.Some?
    ensures |r| == |s.procs|
  {
    var s1 := Prepared(s, e).value;
    Readies(Saved(s1, Cpu(e)), s1.ticks)
  }

  // Entry k is ready at every call of the run.
  ghost predicate StaysReady(s: Sched, events: seq<Event>, k: nat)
    requires s.Valid()
  {
    forall m :: 0 <= m < |events| ==>
      var r := Run(s, events[..m]);
      r.Some? && r.value.current.Some? && k < |r.value.procs| && KeepsList(events[m]) && ReadyWhen(r.value, events[m])[k]
  }

  // Who was ready at each call of the run.
  function Readings(s: Sched, events: seq<Event>): (r: seq<seq<bool>>)
    requires s.Valid() && s.current.Some? && forall e <- events :: KeepsList(e)
    ensures |r| == |events| && Run(s, events).Some? && Run(s, events).value.current.Some?
    ensures Run(s, events).value.idle == s.idle && |Run(s, events).value.procs| == |s.procs|
    ensures forall ready <- r :: |ready| == |s.procs|
  {
    if events == [] then []
    else
      var init, e := events[..|events| - 1], events[|events| - 1];
      var before := Readings(s, init);
      StepIsNext(Run(s, init).value, e);
      before + [ReadyWhen(Run(s, init).value, e)]
  }

  lemma {:induction false} ReadingsAt(s: Sched, events: seq<Event>, m: nat)
    requires s.Valid() && s.current.Some? && m <= |events| && forall e <- events :: KeepsList(e)
    ensures Readings(s, events)[..m] == Readings(s, events[..m])
    ensures m < |events| ==> Readings(s, events)[m] == ReadyWhen(Run(s, events[..m]).value, events[m])
    decreases |events|
  {
    hide ReadyWhen, Step;
    assert events[..|events|] == events;
    if m < |events| {
      var init := events[..|events| - 1];
      ReadingsAt(s, init, m);
      assert init[..m] == events[..m];
    }
  }

  // On such runs the search goes through the list as Trace does.
  lemma {:induction false} RunIsTrace(s: Sched, events: seq<Event>)
    requires s.Valid() && s.current.Some? && forall e <- events :: KeepsList(e)
    ensures Run(s, events).Some? && Run(s, events).value.current == Some(Trace(Readings(s, events), |s.procs|, s.current.value, s.idle))
  {
    hide ReadyWhen, NextIndex, Step;
    if events != [] {
      var init, e := events[..|events| - 1], events[|events| - 1];
      RunIsTrace(s, init);
      StepIsNext(Run(s, init).value, e);
      assert Readings(s, events)[..|init|] == Readings(s, init);
    }
  }

  lemma StepIsNext(s: Sched, e: Event)
    requires s.Valid() && s.current.Some? && KeepsList(e)
    ensures var s' := Step(s, e);
            s'.Some? && s'.value.current == Some(NextIndex(ReadyWhen(s, e), s.current.value, s.idle))
            && |s'.value.procs| == |s.procs| && s'.value.idle == s.idle
  {
  }

  // The bound for the real state machine: over |list| timer interrupts and set_timer calls a
  // process that stays ready is selected, if the tail stays ready, or the idle process is the
  // tail, or the process is behind it.
  lemma FairOnRuns(s: Sched, events: seq<Event>, k: nat)
    requires s.Valid() && s.current.Some? && k < |s.procs| == |events| && forall e <- events :: KeepsList(e)
    requires StaysReady(s, events, k) && (StaysReady(s, events, |s.procs| - 1) || s.idle == |s.procs| - 1 || k > s.idle)
    ensures exists m :: 0 < m <= |events| && Run(s, events[..m]).Some? && Run(s, events[..m]).value.current == Some(k)
  {
    hide ReadyWhen, Run, Readings, Trace;
    var readies := Readings(s, events);
    forall ready <- readies ensures |ready| == |s.procs| && ready[k] && Reached(ready, s.idle, k) {
      var m :| 0 <= m < |readies| && readies[m] == ready;
      ReadingsAt(s, events, m);
    }
    FairWhileReached(readies, |s.procs|, s.current.value, s.idle, k);
    var m :| 0 < m <= |events| && Trace(readies[..m], |s.procs|, s.current.value, s.idle) == k;
    ReadingsAt(s, events, m);
    RunIsTrace(s, events[..m]);
  }

  ghost predicate AsleepUntil(s: Sched, pid: nat, deadline: nat) {
    forall i :: 0 <= i < |s.procs| && s.procs[i].pid == pid ==> s.procs[i].status == Sleeping && s.procs[i].timer == deadline
  }

  // The sleeper itself sets a new timer.
  predicate Resets(s: Sched, e: Event, pid: nat)
    requires s.Valid()
  {
    e.SetTimer? && s.current.Some? && s.procs[s.current.value].pid == pid
  }

  lemma StepKeepsAsleep(s: Sched, e: Event, pid: nat, deadline: nat)
    requires s.Valid() && AsleepUntil(s, pid, deadline) && pid < s.numProc && !Resets(s, e, pid) && Step(s, e).Some?
    requires Step(s, e).value.ticks < deadline
    ensures AsleepUntil(Step(s, e).value, pid, deadline) && pid < Step(s, e).value.numProc
  {
    var s' := Step(s, e).value;
    forall i | 0 <= i < |s'.procs| && s'.procs[i].pid == pid ensures s'.procs[i].status == Sleeping && s'.procs[i].timer == deadline {
      StepStates(s, e, i);
      if !e.Create? {
        PreparedStates(s, e, i);
        WokenOnlyWhenDue(Prepared(s, e).value, Cpu(e), i);
      }
    }
    if !e.Create? { ScheduleKeepsProcs(Prepared(s, e).value, Cpu(e)); }
  }

  // Sleep safety over whole runs: as long as the tick counter is below its deadline a
  // sleeper sleeps on.
  lemma {:induction false} SleepsUntilDue(s: Sched, events: seq<Event>, pid: nat, deadline: nat)
    requires s.Valid() && AsleepUntil(s, pid, deadline) && pid < s.numProc && Run(s, events).Some?
    requires forall n :: 0 <= n <= |events| ==> Run(s, events[..n]).Some? && Run(s, events[..n]).value.ticks < deadline
    requires forall n :: 0 <= n < |events| ==> !Resets(Run(s, events[..n]).value, events[n], pid)
    ensures AsleepUntil(Run(s, events).value, pid, deadline) && pid < Run(s, events).value.numProc
  {
    if events != [] {
      var init := events[..|events| - 1];
      assert forall n :: 0 <= n <= |init| ==> init[..n] == events[..n];
      assert events[..|events|] == events;
      SleepsUntilDue(s, init, pid, deadline);
      StepKeepsAsleep(Run(s, init).value, events[|events| - 1], pid, deadline);
    }
  }

  // ----- faithful resume

  // Who was given which state pointer by an event: the current process when it is suspended,
  // a new process when it is created.
  function Saves(s: Sched, e: Event): seq<(nat, nat)>
    requires s.Valid()
  {
    match e
    case Create(state, _) => [(s.numProc, state)]
    case Tick(cpu) => if s.current.Some? then [(s.procs[s.current.value].pid, cpu)] else []
    case SetTimer(cpu, _) => if s.current.Some? then [(s.procs[s.current.value].pid, cpu)] else []
    case Exit => []
  }

  function Log(s: Sched, events: seq<Event>): seq<(nat, nat)>
    requires s.Valid()
  {
    if events == [] then []
    else
      match Run(s, events[..|events| - 1])
      case None => []
      case Some(s1) => Log(s, events[..|events| - 1]) + Saves(s1, events[|events| - 1])
  }

  // The last pointer that a pid was given, or the one it started with.
  function LastSaved(log: seq<(nat, nat)>, pid: nat, first: Option<nat>): Option<nat> {
    if log == [] then first
    else if log[|log| - 1].0 == pid then Some(log[|log| - 1].1)
    else LastSaved(log[..|log| - 1], pid, first)
  }

  function StateOf(procs: seq<Proc>, pid: nat): Option<nat> {
    if procs == [] then None else if procs[0].pid == pid then Some(procs[0].state) else StateOf(procs[1..], pid)
  }

  lemma {:induction false} StateOfEntry(procs: seq<Proc>, i: nat)
    requires i < |procs| && forall a, b :: 0 <= a < b < |procs| ==> procs[b].pid < procs[a].pid
    ensures StateOf(procs, procs[i].pid) == Some(procs[i].state)
  {
    if i > 0 { StateOfEntry(procs[1..], i - 1); }
  }

  lemma LastSavedAppend(log: seq<(nat, nat)>, entry: (nat, nat), pid: nat, first: Option<nat>)
    ensures LastSaved(log + [entry], pid, first) == if entry.0 == pid then Some(entry.1) else LastSaved(log, pid, first)
  {
    assert (log + [entry])[..|log|] == log;
  }

  // The pointer each process will be resumed with, relative to a starting state.
  ghost predicate Faithful(start: Sched, s: Sched, log: seq<(nat, nat)>) {
    forall i :: 0 <= i < |s.procs| ==> LastSaved(log, s.procs[i].pid, StateOf(start.procs, s.procs[i].pid)) == Some(s.procs[i].state)
  }

  // Where the entries of the list come from, and which states they hold.
  function Origin(s: Sched, e: Event, i: nat): nat {
    if e.Exit? && s.current.Some? && i >= s.current.value then i + 1
    else if e.Create? && i > 0 then i - 1
    else i
  }

  lemma PreparedStates(s: Sched, e: Event, i: nat)
    requires s.Valid() && !e.Create? && Prepared(s, e).Some? && i < |Prepared(s, e).value.procs|
    ensures var s1, j := Prepared(s, e).value, Origin(s, e, i);
            && j < |s.procs| && s1.procs[i].pid == s.procs[j].pid && s1.procs[i].state == s.procs[j].state
            && s1.procs[i].context == s.procs[j].context
            && s1.current == (if e.Exit? then None else s.current) && s1.numProc == s.numProc
  {
  }

  lemma StepStates(s: Sched, e: Event, i: nat)
    requires s.Valid() && Step(s, e).Some? && i < |Step(s, e).value.procs|
    ensures var p, log := Step(s, e).value.procs[i], Saves(s, e);
            && (e.Create? && i == 0 ==> p.pid == s.numProc)
            && (!(e.Create? && i == 0) ==> Origin(s, e, i) < |s.procs| && s.procs[Origin(s, e, i)].pid == p.pid)
            && if log != [] && log[0].0 == p.pid then p.state == log[0].1
               else Origin(s, e, i) < |s.procs| && s.procs[Origin(s, e, i)].state == p.state && s.procs[Origin(s, e, i)].pid == p.pid
  {
    hide Schedule, Prepared;
    if !e.Create? {
      ScheduleKeepsProcs(Prepared(s, e).value, Cpu(e));
      PreparedStates(s, e, i);
    }
  }

  lemma StepIsFaithful(start: Sched, s: Sched, e: Event, log: seq<(nat, nat)>)
    requires start.Valid() && s.Valid() && Faithful(start, s, log) && Step(s, e).Some?
    ensures Faithful(start, Step(s, e).value, log + Saves(s, e))
  {
    hide Step;
    var s' := Step(s, e).value;
    assert log + [] == log;
    forall i | 0 <= i < |s'.procs|
      ensures LastSaved(log + Saves(s, e), s'.procs[i].pid, StateOf(start.procs, s'.procs[i].pid)) == Some(s'.procs[i].state)
    {
      StepStates(s, e, i);
      var pid := s'.procs[i].pid;
      if Saves(s, e) != [] { LastSavedAppend(log, Saves(s, e)[0], pid, StateOf(start.procs, pid)); }
    }
  }

  // On every run each process is resumed with exactly the pointer it was last given.
  lemma {:induction false} RunIsFaithful(start: Sched, events: seq<Event>)
    requires start.Valid() && Run(start, events).Some?
    ensures Faithful(start, Run(start, events).value, Log(start, events))
  {
    if events == [] {
      forall i | 0 <= i < |start.procs| { StateOfEntry(start.procs, i); }
    } else {
      var init := events[..|events| - 1];
      RunIsFaithful(start, init);
      StepIsFaithful(start, Run(start, init).value, events[|events| - 1], Log(start, init));
    }
  }

  lemma ResumedFaithfully(start: Sched, events: seq<Event>)
    requires start.Valid() && Run(start, events).Some? && Run(start, events).value.current.Some?
    ensures var s := Run(start, events).value; var pid := s.procs[s.current.value].pid;
            LastSaved(Log(start, events), pid, StateOf(start.procs, pid)) == Some(Resumed(s))
  {
    RunIsFaithful(start, events);
  }

  // ----- what each event does

  // One tick for each timer interrupt, modulo 2^32, and for nothing else.
  function TicksIn(events: seq<Event>): nat {
    if events == [] then 0 else TicksIn(events[..|events| - 1]) + if events[|events| - 1].Tick? then 1 else 0
  }

  lemma {:induction false} TicksAreCounted(s: Sched, events: seq<Event>)
    requires s.Valid() && s.ticks < 0x1_0000_0000 && Run(s, events).Some?
    ensures Run(s, events).value.ticks == (s.ticks + TicksIn(events)) % 0x1_0000_0000
  {
    if events != [] {
      TicksAreCounted(s, events[..|events| - 1]);
      OneTick(Run(s, events[..|events| - 1]).value, events[|events| - 1]);
    }
  }

  lemma OneTick(s: Sched, e: Event)
    requires s.Valid() && Step(s, e).Some?
    ensures Step(s, e).value.ticks == if e.Tick? then (s.ticks + 1) % 0x1_0000_0000 else s.ticks
  {
  }

  // A runnable process, or one whose timer runs and is over.
  predicate MayBeSelected(p: Proc, ticks: nat) {
    p.status == Runnable || (p.timer != 0 && p.timer <= ticks)
  }

  // Schedule with a current process: the first entry behind it, or from the head if it is the
  // last, that may be selected, else idle. Only the state pointer of the old process, and the
  // status and timer of a sleeper that the search selects, change.
  lemma ScheduleExactly(s: Sched, cpu: nat)
    requires s.Valid() && s.current.Some?
    ensures var n, c, r := |s.procs|, s.current.value, Schedule(s, cpu);
            var from, j := if c == n - 1 then 0 else c + 1, r.current.value;
            var found := exists i :: from <= i < n && MayBeSelected(s.procs[i], s.ticks);
            && |r.procs| == n && r.idle == s.idle && r.numProc == s.numProc && r.ticks == s.ticks
            && (if found then from <= j < n && MayBeSelected(s.procs[j], s.ticks) && forall i :: from <= i < j ==> !MayBeSelected(s.procs[i], s.ticks)
                else j == s.idle)
            && forall i :: 0 <= i < n ==>
                 && r.procs[i].pid == s.procs[i].pid && r.procs[i].context == s.procs[i].context
                 && r.procs[i].state == (if i == c then cpu else s.procs[i].state)
                 && r.procs[i].status == (if found && i == j then Runnable else s.procs[i].status)
                 && r.procs[i].timer == (if found && i == j && s.procs[i].status != Runnable then 0 else s.procs[i].timer)
  {
    hide Scan, Schedule, Readies;
    var n, c := |s.procs|, s.current.value;
    var from: nat, ready := if c == n - 1 then 0 else c + 1, Readies(Saved(s, cpu), s.ticks);
    forall i | 0 <= i < n ensures ready[i] == MayBeSelected(s.procs[i], s.ticks) {}
    ScanSearches(ready, from, s.idle);
    ScheduleSets(s, cpu, from, Scan(ready, from, s.idle));
  }

  lemma {:induction false} ScanSearches(ready: seq<bool>, i: nat, idle: nat)
    requires i <= |ready|
    ensures var r := Scan(ready, i, idle);
            if exists k :: i <= k < |ready| && ready[k] then i <= r < |ready| && ready[r] && forall k :: i <= k < r ==> !ready[k]
            else r == idle
    decreases |ready| - i
  {
    if i < |ready| && !ready[i] { ScanSearches(ready, i + 1, idle); }
  }

  lemma ScheduleSets(s: Sched, cpu: nat, from: nat, next: nat)
    requires s.Valid() && s.current.Some? && from == (if s.current.value + 1 < |s.procs| then s.current.value + 1 else 0)
    requires next == Scan(Readies(Saved(s, cpu), s.ticks), from, s.idle) && next < |s.procs|
    ensures var saved, r := Saved(s, cpu), Schedule(s, cpu);
            |saved| == |s.procs| && r == s.(procs := if next < from then saved else saved[next := Woken(saved[next], s.ticks)], current := Some(next))
  {
    hide Scan, Woken, Readies;
  }

  // ----- set_timer

  // The caller sleeps from now on, with the deadline t0 + ms modulo 2^32, unless that is over
  // already and it is the one selected, from the tail of the list; all other entries are as
  // they were, but for a sleeper that is selected.
  lemma SetTimerExactly(s: Sched, cpu: nat, ms: u32)
    requires s.Valid() && s.current.Some? && s.ticks < 0x1_0000_0000
    ensures var r, c, t := Step(s, SetTimer(cpu, ms)), s.current.value, (s.ticks + ms) % 0x1_0000_0000;
            && r.Some? && var s' := r.value;
            && s'.ticks == s.ticks && s'.numProc == s.numProc && |s'.procs| == |s.procs| && s'.current.Some?
            && (if s'.current == Some(c) && c == |s.procs| - 1 && 0 < t <= s.ticks then s'.procs[c].status == Runnable && s'.procs[c].timer == 0
                else s'.procs[c].status == Sleeping && s'.procs[c].timer == t)
            && s'.procs[c].pid == s.procs[c].pid
            && forall i :: 0 <= i < |s.procs| && i != c && s'.current != Some(i) ==> s'.procs[i] == s.procs[i]
  {
    hide Schedule;
    ScheduleExactly(Prepared(s, SetTimer(cpu, ms)).value, cpu);
  }

  // A deadline that does not wrap around: the caller is asleep until then.
  lemma SetTimerSleeps(s: Sched, cpu: nat, ms: u32)
    requires s.Valid() && s.current.Some? && ms > 0 && s.ticks + ms < 0x1_0000_0000
    ensures var r, c := Step(s, SetTimer(cpu, ms)), s.current.value;
            && r.Some? && r.value.procs[c].pid == s.procs[c].pid && r.value.procs[c].status == Sleeping && r.value.procs[c].timer == s.ticks + ms
            && AsleepUntil(r.value, s.procs[c].pid, s.ticks + ms)
            && r.value.ticks == s.ticks && r.value.numProc == s.numProc
  {
    hide Step;
    SetTimerExactly(s, cpu, ms);
  }

  // And it sleeps on, from the call, over every run on which the counter stays below t0 + ms:
  // whatever happens, unless it sets another timer itself, having been resumed by a kill.
  lemma SleepsFromTheCall(s: Sched, cpu: nat, ms: u32, events: seq<Event>)
    requires s.Valid() && s.current.Some? && ms > 0 && s.ticks + ms < 0x1_0000_0000
    requires var s1, pid := Step(s, SetTimer(cpu, ms)), s.procs[s.current.value].pid;
             && s1.Some? && Run(s1.value, events).Some?
             && (forall n :: 0 <= n <= |events| ==> Run(s1.value, events[..n]).Some? && Run(s1.value, events[..n]).value.ticks < s.ticks + ms)
             && (forall n :: 0 <= n < |events| ==> !Resets(Run(s1.value, events[..n]).value, events[n], pid))
    ensures var s', pid := Run(Step(s, SetTimer(cpu, ms)).value, events).value, s.procs[s.current.value].pid;
            forall p <- s'.procs :: p.pid == pid ==> p.status == Sleeping && p.timer == s.ticks + ms
  {
    hide Step, Run;
    SetTimerSleeps(s, cpu, ms);
    var s1, pid := Step(s, SetTimer(cpu, ms)).value, s.procs[s.current.value].pid;
    SleepsUntilDue(s1, events, pid, s.ticks + ms);
  }

  // ----- a new process

  // It is at the head of the list and may run at once; all others are as they were, one entry
  // further on.
  lemma CreateExactly(s: Sched, state: nat, context: nat)
    requires s.Valid()
    ensures Step(s, Create(state, context)).Some? <==> s.numProc < 0xFFFF_FFFF
    ensures Step(s, Create(state, context)).Some? ==>
              var s' := Step(s, Create(state, context)).value; var p := s'.procs[0];
              && p.pid == s.numProc && p.state == state && p.context == context && p.status == Runnable && p.timer == 0
              && |s'.procs| == |s.procs| + 1 && (forall i :: 0 <= i < |s.procs| ==> s'.procs[i + 1] == s.procs[i])
              && s'.numProc == s.numProc + 1 && s'.ticks == s.ticks && s'.idle == s.idle + 1
              && (s.current == None ==> s'.current == None) && (s.current.Some? ==> s'.current == Some(s.current.value + 1))
  {
  }

  // Whoever is runnable, or due, stays so until it is selected.
  lemma ReadyStays(s: Sched, e: Event, k: nat)
    requires s.Valid() && s.current.Some? && KeepsList(e) && k < |s.procs| && s.current != Some(k) && MayBeSelected(s.procs[k], s.ticks)
    requires s.procs[k].status == Runnable || s.ticks + 1 < WORD
    ensures Step(s, e).Some? && Step(s, e).value.current.Some? && |Step(s, e).value.procs| == |s.procs|
    ensures ReadyWhen(s, e)[k]
    ensures MayBeSelected(Step(s, e).value.procs[k], Step(s, e).value.ticks)
    ensures Step(s, e).value.procs[k].status == Runnable || Step(s, e).value.procs[k].status == s.procs[k].status
    ensures Step(s, e).value.ticks <= s.ticks + 1
  {
    hide Schedule;
    ScheduleExactly(Prepared(s, e).value, Cpu(e));
  }

  // So it is selected within as many calls as the list is long, if it is in reach: a process
  // just launched, or a sleeper from its deadline on.
  lemma ReadyIsSelected(s: Sched, events: seq<Event>, k: nat)
    requires s.Valid() && s.current.Some? && s.current != Some(k) && k < |s.procs| == |events| && forall e <- events :: KeepsList(e)
    requires MayBeSelected(s.procs[k], s.ticks) && (s.procs[k].status == Runnable || s.ticks + |events| < WORD)
    requires StaysReady(s, events, |s.procs| - 1) || s.idle == |s.procs| - 1 || k > s.idle
    ensures exists m :: 0 < m <= |events| && Run(s, events[..m]).Some? && Run(s, events[..m]).value.current == Some(k)
  {
    hide ReadyWhen, Run, MayBeSelected;
    if forall m :: 0 < m <= |events| && Run(s, events[..m]).Some? ==> Run(s, events[..m]).value.current != Some(k) {
      forall m | 0 <= m < |events| ensures var r := Run(s, events[..m]);
        r.Some? && r.value.current.Some? && k < |r.value.procs| && KeepsList(events[m]) && ReadyWhen(r.value, events[m])[k]
      {
        WaitsReady(s, events, k, m);
        assert events[m] in events;
        ReadyStays(Run(s, events[..m]).value, events[m], k);
      }
      FairOnRuns(s, events, k);
    }
  }

  lemma {:induction false} WaitsReady(s: Sched, events: seq<Event>, k: nat, m: nat)
    requires s.Valid() && s.current.Some? && s.current != Some(k) && k < |s.procs| && m <= |events| && forall e <- events :: KeepsList(e)
    requires MayBeSelected(s.procs[k], s.ticks) && (s.procs[k].status == Runnable || s.ticks + |events| < WORD)
    requires forall n :: 0 < n <= |events| && Run(s, events[..n]).Some? ==> Run(s, events[..n]).value.current != Some(k)
    ensures var r := Run(s, events[..m]);
            && r.Some? && r.value.current.Some? && r.value.current != Some(k) && |r.value.procs| == |s.procs|
            && MayBeSelected(r.value.procs[k], r.value.ticks) && (r.value.procs[k].status == Runnable || r.value.ticks <= s.ticks + m)
            && (r.value.procs[k].status == Runnable || s.procs[k].status != Runnable)
  {
    hide Step, MayBeSelected;
    if m > 0 {
      WaitsReady(s, events, k, m - 1);
      assert events[..m][..m - 1] == events[..m - 1] && events[m - 1] in events;
      ReadyStays(Run(s, events[..m - 1]).value, events[m - 1], k);
    }
  }

  // ----- boot

  // The three processes by pid: the kernel's, idle and the RAM disk's. All but idle may run.
  lemma BootExactly(kernel: nat, idle: nat, ramdisk: nat, contexts: (nat, nat, nat), ticks: nat)
    ensures var s := Boot(kernel, idle, ramdisk, contexts, ticks); var procs := s.procs;
            && |procs| == 3 && s.current == None && s.ticks == ticks && procs[s.idle].pid == 1
            && (forall i :: 0 <= i < 3 ==> (MayBeSelected(procs[i], ticks) <==> i != s.idle))
            && (forall i :: 0 <= i < 3 ==>
                  && procs[i].pid < 3
                  && (procs[i].pid == 0 ==> procs[i].state == kernel && procs[i].context == contexts.0)
                  && (procs[i].pid == 1 ==> procs[i].state == idle && procs[i].context == contexts.1)
                  && (procs[i].pid == 2 ==> procs[i].state == ramdisk && procs[i].context == contexts.2))
  {
  }
}
