/** What a process gets from its calls, over whole runs: how long it sleeps, what it reads, what it starts, how it ends. */
module Calls {
  import opened Base
  import opened Scheduler
  import opened Transitions
  import opened Fairness

  // ---------------------------------------------------------------- the clock

  /** Timer interrupts of the first processor among the first `n` steps. */
  function Clock(steps: seq<Step>, bsp: nat, n: nat): nat
    requires n <= |steps|
  {
    if n == 0 then 0 else Clock(steps, bsp, n - 1) + One(Counts(steps[n - 1], bsp))
  }

  lemma {:induction false} ClockGrows(steps: seq<Step>, bsp: nat, m: nat, n: nat)
    requires m <= n <= |steps|
    ensures Clock(steps, bsp, m) <= Clock(steps, bsp, n)
  {
    if m < n { ClockGrows(steps, bsp, m, n - 1); }
  }

  lemma ClockStep(s: State, step: Step, steps: seq<Step>, start: nat, from: nat, to: nat)
    requires from < to <= |steps| && step == steps[to - 1] && Clock(steps, s.bsp, from) <= Clock(steps, s.bsp, to - 1)
    requires s.ticks == (start + Clock(steps, s.bsp, to - 1) - Clock(steps, s.bsp, from)) % TWO_64
    ensures Next(s, step).state.ticks == (start + Clock(steps, s.bsp, to) - Clock(steps, s.bsp, from)) % TWO_64
  {
    TimeKept(s, step);
    var n := start + Clock(steps, s.bsp, to - 1) - Clock(steps, s.bsp, from);
    assert (n % TWO_64 + 1) % TWO_64 == (n + 1) % TWO_64;
  }

  /** The tick count is the number of timer interrupts of the first processor, modulo 2^64. */
  lemma {:induction false} ClockRuns(ss: seq<State>, steps: seq<Step>, from: nat, to: nat)
    requires Fairness.Run(ss, steps) && from <= to <= |steps| && ss[from].ticks < TWO_64
    ensures ss[to].bsp == ss[from].bsp
    ensures var bsp := ss[from].bsp;
      ss[to].ticks == (ss[from].ticks + Clock(steps, bsp, to) - Clock(steps, bsp, from)) % TWO_64
  {
    if from < to {
      ClockRuns(ss, steps, from, to - 1);
      assert Stepped(ss, steps, to - 1);
      ClockGrows(steps, ss[from].bsp, from, to - 1);
      TimeKept(ss[to - 1], steps[to - 1]);
      ClockStep(ss[to - 1], steps[to - 1], steps, ss[from].ticks, from, to);
    }
  }

  // ------------------------------------------------------------------ waiting

  /** The step is a sleep, a read or another call of the process. */
  predicate Calling(s: State, step: Step, pid: nat) {
    && step.Interrupt? && step.event.SystemCall? && pid != 0
    && FindCpu(s.cpus, step.apic) < |s.cpus| && s.cpus[FindCpu(s.cpus, step.apic)].currentPid == pid
  }

  /** After a sleep or a read the process is parked. */
  lemma CallParks(ss: seq<State>, steps: seq<Step>, i: nat, pid: nat)
    requires Fairness.Run(ss, steps) && i < |steps| && Calling(ss[i], steps[i], pid) && (steps[i].event.call.Sleep? || steps[i].event.call.Read?)
    ensures Lookup(ss[i].procs, pid).Some? && !Picks(ss, steps, i, pid)
    ensures var q := Parked(ss[i], steps[i], pid);
      q.pid == pid && Waits(ss[i + 1].procs, q)
  {
    RunKeepsInv(ss, steps, i);
    assert Stepped(ss, steps, i) && GivesUp(ss[i], steps[i], pid);
    CallSaves(ss[i], steps[i], pid);
    StepParks(ss[i], steps[i], pid);
    assert RunsOn(ss[i].cpus, pid) && ProcessOk(ss[i].cpus, ss[i].cycle, Lookup(ss[i].procs, pid).value);
  }

  /** The ticks that a sleep asks for, in the source's 64-bit arithmetic. */
  function Asked(step: Step): nat
    requires step.Interrupt? && step.event.SystemCall? && step.event.call.Sleep?
  {
    step.event.call.units * 10000 % TWO_64
  }

  predicate Sleeps(s: State, step: Step, pid: nat) {
    Calling(s, step, pid) && step.event.call.Sleep? && s.ticks < TWO_64
  }

  predicate Reads(s: State, step: Step, pid: nat) {
    Calling(s, step, pid) && step.event.call.Read?
  }

  /**
   A sleep lasts. From the call to the next dispatch of its process, whatever
   the processors do in between, the clock reaches the tick of the call plus
   10000 for each unit, so that at least so many timer interrupts of the first
   processor arrive; there is no such dispatch when that tick is out of range.
   */
  lemma SleepLasts(ss: seq<State>, steps: seq<Step>, i: nat, j: nat, pid: nat)
    requires Fairness.Run(ss, steps) && i < j < |steps| && Sleeps(ss[i], steps[i], pid)
    requires NeverPicks(ss, steps, i + 1, j, pid) && Picks(ss, steps, j, pid)
    ensures var wait, bsp := Asked(steps[i]), ss[i].bsp;
      && ss[i].ticks + wait < TWO_64 && TimeCame(ss, i, j + 1, ss[i].ticks + wait)
      && Clock(steps, bsp, i) + wait <= Clock(steps, bsp, j + 1)
  {
    CallParks(ss, steps, i, pid);
    var q, wait, bsp := Parked(ss[i], steps[i], pid), Asked(steps[i]), ss[i].bsp;
    SleepsLongEnough(ss, steps, q, i + 1, j);
    assert q.suspend.tick == ss[i].ticks + wait;
    var k :| i + 1 < k <= j + 1 && ss[k].ticks >= ss[i].ticks + wait;
    ClockGrows(steps, bsp, i, k);
    ClockRuns(ss, steps, i, k);
    ClockGrows(steps, bsp, k, j + 1);
  }

  /** What is left of a run. */
  lemma RunAfter(ss: seq<State>, steps: seq<Step>, k: nat)
    requires Fairness.Run(ss, steps) && k <= |steps|
    ensures Fairness.Run(ss[k..], steps[k..])
  {
    RunKeepsInv(ss, steps, k);
    forall i | 0 <= i < |steps| - k ensures Stepped(ss[k..], steps[k..], i) {
      assert Stepped(ss, steps, k + i);
    }
  }

  /** The bounds of BoundedWaiting for the run from state `k` on. */
  predicate Prompt(ss: seq<State>, steps: seq<Step>, k: nat)
    requires k <= |steps| < |ss|
  {
    var n, left, launches := |ss[k].procs|, |steps| - k, LaunchCount(steps[k..], |steps| - k);
    Dispatches(ss[k..], steps[k..], left) <= 2 * (n - 1) + 2 * launches && Timers(steps[k..], left) <= 3 * (n - 1) + 3 * launches
  }

  lemma WaitEnds(ss: seq<State>, steps: seq<Step>, q: Process, k: nat)
    requires Fairness.Run(ss, steps) && k <= |steps| && Waits(ss[k].procs, q) && Comes(ss[k..], steps[k..], q)
    requires NeverPicks(ss, steps, k, |steps|, q.pid)
    ensures Prompt(ss, steps, k)
  {
    RunAfter(ss, steps, k);
    forall i | 0 <= i < |steps| - k ensures !Picks(ss[k..], steps[k..], i, q.pid) {
      assert !Picks(ss, steps, k + i, q.pid);
    }
    BoundedWaiting(ss[k..], steps[k..], q);
  }

  /**
   A sleep ends. Once as many timer interrupts of the first processor arrived as
   the sleep asked for ticks, and as long as the clock does not wrap, the process
   is dispatched within the bounds for a process that is ready.
   */
  lemma SleepEnds(ss: seq<State>, steps: seq<Step>, i: nat, k: nat, pid: nat)
    requires Fairness.Run(ss, steps) && i < k <= |steps| && Sleeps(ss[i], steps[i], pid) && NeverPicks(ss, steps, i, |steps|, pid)
    requires var bsp := ss[i].bsp;
      && Clock(steps, bsp, i) + Asked(steps[i]) <= Clock(steps, bsp, k)
      && ss[i].ticks + Clock(steps, bsp, |steps|) - Clock(steps, bsp, i) < TWO_64
    ensures Prompt(ss, steps, k)
  {
    CallParks(ss, steps, i, pid);
    var q, bsp := Parked(ss[i], steps[i], pid), ss[i].bsp;
    ContextKept(ss, steps, q, i + 1, k);
    ClockGrows(steps, bsp, k, |steps|);
    assert q.suspend == Sleeping(ss[i].ticks + Asked(steps[i]), false);
    var q' := Lookup(ss[k].procs, pid).value;
    forall m | k <= m <= |steps| ensures ss[m].ticks >= ss[i].ticks + Asked(steps[i]) {
      ClockRuns(ss, steps, i, m);
      ClockGrows(steps, bsp, k, m);
      ClockGrows(steps, bsp, m, |steps|);
    }
    WaitEnds(ss, steps, q', k);
  }

  /** A step between `from` and `to` at which the keyboard has this value for the process. */
  ghost predicate Offered(steps: seq<Step>, from: nat, to: nat, pid: nat, value: nat)
    requires to < |steps|
  {
    exists k :: from <= k <= to && value in Offers(steps[k], pid)
  }

  lemma {:induction false} StillReading(ss: seq<State>, steps: seq<Step>, q: Process, from: nat, to: nat)
    requires Fairness.Run(ss, steps) && from <= to < |steps| && NeverPicks(ss, steps, from, to, q.pid)
    requires Waits(ss[from].procs, q) && q.suspend.Reading?
    ensures Lookup(ss[to].procs, q.pid).Some?
    ensures var q' := Lookup(ss[to].procs, q.pid).value;
      q' == q || (q' == Woken(q, q'.save.rax) && q.suspend.fd == STDIN && Offered(steps, from, to, q.pid, q'.save.rax))
  {
    if from < to {
      StillReading(ss, steps, q, from, to - 1);
      RunKeepsInv(ss, steps, to - 1);
      assert Stepped(ss, steps, to - 1) && !Picks(ss, steps, to - 1, q.pid);
      StepUndisturbed(ss[to - 1], steps[to - 1], Lookup(ss[to - 1].procs, q.pid).value);
      assert Undisturbed(Lookup(ss[to - 1].procs, q.pid).value, steps[to - 1], ss[to]);
    }
  }

  /** A read returns, from the keyboard alone, and with a value that the keyboard had for it after the call. */
  lemma ReadReturns(ss: seq<State>, steps: seq<Step>, i: nat, j: nat, pid: nat)
    requires Fairness.Run(ss, steps) && i < j < |steps| && Reads(ss[i], steps[i], pid)
    requires NeverPicks(ss, steps, i + 1, j, pid) && Picks(ss, steps, j, pid)
    ensures steps[i].event.call.fd == STDIN
    ensures Offered(steps, i + 1, j, pid, Next(ss[j], steps[j]).outcome.loaded.rax)
  {
    CallParks(ss, steps, i, pid);
    var q := Parked(ss[i], steps[i], pid);
    StillReading(ss, steps, q, i + 1, j);
    RunKeepsInv(ss, steps, j);
    StepUndisturbed(ss[j], steps[j], Lookup(ss[j].procs, pid).value);
  }

  /** A read ends: while the keyboard has a value for it, its process is dispatched within the bounds for one that is ready. */
  lemma ReadEnds(ss: seq<State>, steps: seq<Step>, i: nat, k: nat, pid: nat)
    requires Fairness.Run(ss, steps) && i < k <= |steps| && Reads(ss[i], steps[i], pid) && NeverPicks(ss, steps, i, |steps|, pid)
    requires steps[i].event.call.fd == STDIN
    requires forall m :: k <= m < |steps| && IsTimer(steps[m]) ==> pid in steps[m].event.keys
    ensures Prompt(ss, steps, k)
  {
    CallParks(ss, steps, i, pid);
    var q := Parked(ss[i], steps[i], pid);
    ContextKept(ss, steps, q, i + 1, k);
    WaitEnds(ss, steps, Lookup(ss[k].procs, pid).value, k);
  }

  // ----------------------------------------------------------- the processors

  lemma PickNextCpus(s: State, c: nat, frame: Registers, keys: map<nat, nat>, keysAgain: map<nat, nat>)
    requires Inv(s) && c < |s.cpus| && s.cpus[c].currentPid == 0
    ensures var r := PickNext(s, c, frame, keys, keysAgain);
      && (r.outcome.Dispatched? || r.outcome.Idle? || r.outcome.Halted?)
      && r.state.cpus == if r.outcome.Dispatched? then SetCurrent(s.cpus, c, r.outcome.pid) else s.cpus
  {
    assert s.cpus[c := s.cpus[c].(currentPid := 0)] == s.cpus;
  }

  /**
   The outcome tells what becomes of the processor that was interrupted, and a
   step touches no other: dispatched, it runs that process; resumed, the one it
   ran before; idle, none.
   */
  lemma OutcomeTells(s: State, step: Step)
    requires Inv(s) && Goes(Next(s, step).outcome)
    ensures var r := Next(s, step);
      if step.Boot? then r.outcome.Idle? && r.state.cpus == s.cpus
      else
        var c := FindCpu(s.cpus, step.apic);
        && c < |s.cpus|
        && (r.outcome.Dispatched? ==> r.outcome.pid != 0 && r.state.cpus == SetCurrent(s.cpus, c, r.outcome.pid))
        && (r.outcome.Resumed? ==> s.cpus[c].currentPid != 0 && r.state.cpus == s.cpus)
        && (r.outcome.Idle? ==> r.state.cpus == SetCurrent(s.cpus, c, 0))
  {
    if step.Interrupt? {
      var c := FindCpu(s.cpus, step.apic);
      assert s.cpus[c].currentPid == 0 ==> SetCurrent(s.cpus, c, 0) == s.cpus;
      match step.event
      case Timer(keys, keysAgain) => TimerTells(Ticked(s, step.apic), c, step.frame, keys, keysAgain);
      case SystemCall(call) => CallTells(s, c, step.frame, call);
      case _ =>
    }
  }

  lemma TimerTells(s: State, c: nat, frame: Registers, keys: map<nat, nat>, keysAgain: map<nat, nat>)
    requires Inv(s) && c < |s.cpus|
    ensures var r := SetUpNext(s, c, frame, keys, keysAgain);
      && (r.outcome.Dispatched? || r.outcome.Idle? || r.outcome.Halted?)
      && (r.outcome.Dispatched? ==> r.outcome.pid != 0 && r.state.cpus == SetCurrent(s.cpus, c, r.outcome.pid))
      && (r.outcome.Idle? ==> r.state.cpus == SetCurrent(s.cpus, c, 0))
  {
    SavedKeepsInv(s, c, frame);
    SavedIsIdle(s, c, frame);
    var saved := Saved(s, c, frame).value;
    assert saved.cpus == SetCurrent(s.cpus, c, 0);
    PickNextCpus(saved, c, frame, keys, keysAgain);
    SetUpNextKeepsInv(s, c, frame, keys, keysAgain);
    var r := SetUpNext(s, c, frame, keys, keysAgain);
    if r.outcome.Dispatched? {
      PickNextPicks(saved, c, frame, keys, keysAgain, r.outcome.pid);
      assert ProcessOk(r.state.cpus, r.state.cycle, Lookup(r.state.procs, r.outcome.pid).value);
    }
  }

  lemma CallTells(s: State, c: nat, frame: Registers, call: Call)
    requires Inv(s) && c < |s.cpus| && FindPid(s.procs, s.cpus[c].currentPid) < |s.procs|
    ensures var r := KernelCall(s, c, FindPid(s.procs, s.cpus[c].currentPid), frame, call);
      && !r.outcome.Dispatched?
      && (r.outcome.Resumed? ==> s.cpus[c].currentPid != 0 && r.state.cpus == s.cpus)
      && (r.outcome.Idle? ==> r.state.cpus == SetCurrent(s.cpus, c, 0))
  {
    var pid := s.cpus[c].currentPid;
    CallKeepsInv(s, c, frame, call);
    assert ProcessOk(s.cpus, s.cycle, Lookup(s.procs, pid).value);
  }

  // ----------------------------------------------------------------- going on

  /**
   A call that does not suspend goes on with its process on the same processor:
   a result goes to rax and no other register changes; a launch gives the pid of
   the process started, and 0 when it starts none.
   */
  lemma CallGoesOn(s: State, step: Step, pid: nat)
    requires Inv(s) && Calling(s, step, pid) && (step.event.call.Return? || step.event.call.Run?) && Goes(Next(s, step).outcome)
    ensures var r, call := Next(s, step), step.event.call;
      && r.outcome.Resumed? && r.outcome.loaded == step.frame.(rax := r.outcome.loaded.rax)
      && r.state.cpus == s.cpus && Lookup(r.state.procs, pid) == Lookup(s.procs, pid)
      && (call.Return? ==> r.outcome.loaded.rax == call.value && r.state == s)
      && (call.Run? ==> r.outcome.loaded.rax == if call.launch.Started? then r.state.lastPid else 0)
  {
    assert Lookup(s.procs, pid).Some?;
    if step.event.call.Run? { LaunchedOthers(s, step.event.call.launch, pid); }
  }

  /** Other device interrupts change nothing. */
  lemma IrqGoesOn(s: State, step: Step)
    requires step.Interrupt? && step.event.Irq? && FindCpu(s.cpus, step.apic) < |s.cpus|
    ensures var r := Next(s, step);
      r.state == s && (r.outcome.Resumed? <==> s.cpus[FindCpu(s.cpus, step.apic)].currentPid != 0) && (r.outcome.Resumed? ==> r.outcome.loaded == step.frame)
  {
  }

  // ----------------------------------------------------------------- starting

  /** What a step launches, if anything. */
  function LaunchOf(step: Step): Option<Launch> {
    match step
    case Boot(launch) => Some(launch)
    case Interrupt(_, _, event) => if event.SystemCall? && event.call.Run? then Some(event.call.launch) else None
  }

  /**
   A launch adds one process, with a pid that no process had, and changes no
   other; it can run at once exactly if it was started, with the address space
   and the registers it was launched with. An abandoned launch uses up a pid.
   */
  lemma LaunchAdds(s: State, step: Step, pid: nat)
    requires Inv(s) && LaunchOf(step).Some? && Goes(Next(s, step).outcome)
    requires step.Interrupt? ==> FindCpu(s.cpus, step.apic) < |s.cpus|
    ensures var s', launch := Next(s, step).state, LaunchOf(step).value;
      && s'.cpus == s.cpus && s'.cycle == s.cycle && Lookup(s.procs, s'.lastPid).None? && 0 < s'.lastPid <= MAX_PID
      && if pid != s'.lastPid || launch.Abandoned? then Lookup(s'.procs, pid) == Lookup(s.procs, pid)
         else
           && Lookup(s'.procs, pid).Some?
           && var p := Lookup(s'.procs, pid).value;
              && p.cr3 == launch.cr3 && p.save == launch.save && p.suspend.Awake? && !p.lock && !p.pendingExit && p.lastCycle == 0
              && (p.run <==> launch.Started?)
  {
    var launch := LaunchOf(step).value;
    FreePidIsFree(s.procs, s.lastPid, |s.procs| + 1);
    if !launch.Abandoned? {
      var p := NewProcess(Launched(s, launch).value.lastPid, launch);
      LookupAppended(s.procs, p, pid);
    }
  }

  /** Step `i` starts the process. */
  ghost predicate Starts(ss: seq<State>, steps: seq<Step>, i: nat, pid: nat)
    requires i < |steps| < |ss|
  {
    LaunchOf(steps[i]).Some? && LaunchOf(steps[i]).value.Started? && pid == ss[i + 1].lastPid
  }

  lemma StartedWaits(ss: seq<State>, steps: seq<Step>, i: nat, pid: nat) returns (q: Process)
    requires Fairness.Run(ss, steps) && i < |steps| && Starts(ss, steps, i, pid)
    ensures q.pid == pid && Waits(ss[i + 1].procs, q) && q.suspend.Awake?
    ensures q.cr3 == LaunchOf(steps[i]).value.cr3 && q.save == LaunchOf(steps[i]).value.save
  {
    RunKeepsInv(ss, steps, i);
    assert Stepped(ss, steps, i);
    LaunchAdds(ss[i], steps[i], pid);
    q := Lookup(ss[i + 1].procs, pid).value;
  }

  /** A process that was started enters its program: its first dispatch loads the address space and the registers of its launch. */
  lemma StartedEnters(ss: seq<State>, steps: seq<Step>, i: nat, j: nat, pid: nat)
    requires Fairness.Run(ss, steps) && i < j < |steps| && Starts(ss, steps, i, pid)
    requires NeverPicks(ss, steps, i + 1, j, pid) && Picks(ss, steps, j, pid)
    ensures var launch, outcome := LaunchOf(steps[i]).value, Next(ss[j], steps[j]).outcome;
      outcome.cr3 == launch.cr3 && steps[j].Interrupt? && outcome.loaded == launch.save.(rflags := steps[j].frame.rflags)
  {
    var q := StartedWaits(ss, steps, i, pid);
    ContextKept(ss, steps, q, i + 1, j);
    RunKeepsInv(ss, steps, j);
    DispatchRestores(ss[j], steps[j], q);
  }

  /** It is dispatched within the bounds for a process that is ready. */
  lemma StartedRuns(ss: seq<State>, steps: seq<Step>, i: nat, pid: nat)
    requires Fairness.Run(ss, steps) && i < |steps| && Starts(ss, steps, i, pid) && NeverPicks(ss, steps, i + 1, |steps|, pid)
    ensures Prompt(ss, steps, i + 1)
  {
    var q := StartedWaits(ss, steps, i, pid);
    WaitEnds(ss, steps, q, i + 1);
  }

  lemma NotPickedThen(ss: seq<State>, steps: seq<Step>, from: nat, to: nat, pid: nat)
    requires from < to <= |steps| < |ss| && NeverPicks(ss, steps, from, to - 1, pid) && !Picks(ss, steps, to - 1, pid)
    ensures NeverPicks(ss, steps, from, to, pid)
  {
  }

  lemma UnstartedStep(s: State, step: Step, q: Process)
    requires Inv(s) && Inv(Next(s, step).state) && Lookup(s.procs, q.pid) == Some(q) && !q.run && q.suspend.Awake? && !q.pendingExit
    ensures Lookup(Next(s, step).state.procs, q.pid) == Some(q) && !DispatchedTo(Next(s, step).outcome, q.pid)
  {
    var s' := Next(s, step).state;
    assert ProcessOk(s.cpus, s.cycle, Lookup(s.procs, q.pid).value);
    StepUndisturbed(s, step, q);
    assert ProcessOk(s'.cpus, s'.cycle, Lookup(s'.procs, q.pid).value);
  }

  /** A process that was launched but not started is never dispatched: it stays as it is. */
  lemma {:induction false} UnstartedStays(ss: seq<State>, steps: seq<Step>, q: Process, from: nat, to: nat)
    requires Fairness.Run(ss, steps) && from <= to <= |steps| && Lookup(ss[from].procs, q.pid) == Some(q) && !q.run && q.suspend.Awake? && !q.pendingExit
    ensures Lookup(ss[to].procs, q.pid) == Some(q) && NeverPicks(ss, steps, from, to, q.pid)
  {
    if from < to {
      UnstartedStays(ss, steps, q, from, to - 1);
      RunKeepsInv(ss, steps, to - 1);
      RunKeepsInv(ss, steps, to);
      assert Stepped(ss, steps, to - 1);
      UnstartedStep(ss[to - 1], steps[to - 1], q);
      NotPickedThen(ss, steps, from, to, q.pid);
    }
  }

  // ------------------------------------------------------------------- ending

  /** The process on the processor is removed by a user exception, which idles it and changes no other process. */
  lemma KillRemoves(s: State, step: Step, pid: nat, other: nat)
    requires Inv(s) && step.Interrupt? && step.event.Exception? && step.event.user && pid != 0
    requires FindCpu(s.cpus, step.apic) < |s.cpus| && s.cpus[FindCpu(s.cpus, step.apic)].currentPid == pid
    ensures var r, c := Next(s, step), FindCpu(s.cpus, step.apic);
      && r.outcome.Idle? && r.state.cpus == SetCurrent(s.cpus, c, 0)
      && Lookup(r.state.procs, other) == if other == pid then None else Lookup(s.procs, other)
  {
    assert Lookup(s.procs, pid).Some?;
    LookupRemoved(s.procs, FindPid(s.procs, pid), other);
  }

  /** A process that has called exit is never dispatched while it is in the table. */
  lemma ExitEnds(ss: seq<State>, steps: seq<Step>, i: nat, n: nat, pid: nat)
    requires Fairness.Run(ss, steps) && i < n <= |steps| && Calling(ss[i], steps[i], pid) && steps[i].event.call.Exit?
    requires LiveDuring(ss, i, n, pid)
    ensures NeverPicks(ss, steps, i, n, pid)
  {
    RunKeepsInv(ss, steps, i);
    assert Stepped(ss, steps, i) && ss[i] == ss[i] && ss[i + 1] == ss[i + 1];
    ExitMarks(ss[i], steps[i], pid);
    ExitedStays(ss, steps, Lookup(ss[i + 1].procs, pid).value, i + 1, n);
  }

  lemma ExitMarks(s: State, step: Step, pid: nat)
    requires Inv(s) && Calling(s, step, pid) && step.event.call.Exit?
    ensures var r := Next(s, step);
      r.outcome.Idle? && Lookup(r.state.procs, pid).Some? && Lookup(r.state.procs, pid).value.pendingExit
  {
    var c, k := FindCpu(s.cpus, step.apic), FindPid(s.procs, pid);
    assert Lookup(s.procs, pid).Some?;
    SuspendedKeepsInv(s, c, k, step.frame, Exiting);
    var p := s.procs[k].(suspend := Exiting, pendingExit := true);
    LookupUpdated(s.procs, k, p, pid);
    LookupUpdated(s.procs[k := p], k, p.(save := step.frame, lock := false), pid);
  }

  lemma {:induction false} ExitedStays(ss: seq<State>, steps: seq<Step>, q: Process, from: nat, to: nat)
    requires Fairness.Run(ss, steps) && from <= to <= |steps| && LiveDuring(ss, from, to, q.pid)
    requires Lookup(ss[from].procs, q.pid) == Some(q) && q.pendingExit
    ensures Lookup(ss[to].procs, q.pid) == Some(q) && NeverPicks(ss, steps, from, to, q.pid)
  {
    if from < to {
      ExitedStays(ss, steps, q, from, to - 1);
      RunKeepsInv(ss, steps, to - 1);
      assert Stepped(ss, steps, to - 1) && ss[to] == ss[to];
      ExitingStays(ss[to - 1], steps[to - 1], q);
      NotPickedThen(ss, steps, from, to, q.pid);
    }
  }

  /** A timer interrupt after which the processor idles has removed every exiting process and tested every other. */
  lemma IdleRemovesExited(s: State, step: Step, pid: nat)
    requires Inv(s) && IsTimer(step) && Next(s, step).outcome.Idle? && Lookup(Next(s, step).state.procs, pid).Some?
    ensures !Lookup(Next(s, step).state.procs, pid).value.pendingExit
  {
    var t, c := Ticked(s, step.apic), FindCpu(s.cpus, step.apic);
    SavedKeepsInv(t, c, step.frame);
    var saved := Saved(t, c, step.frame).value;
    var first := FirstScan(saved, step.event.keys);
    PickNextPicks(saved, c, step.frame, step.event.keys, step.event.keysAgain, pid);
    ScanTests(saved.procs, 0, saved.cycle, saved.ticks, step.event.keys, false, pid);
    if first.verdict.EndOfList? && first.ran {
      FirstScanKeepsInv(saved, step.event.keys, saved.cycle + 1);
      ScanSettles(first.procs, 0, saved.cycle + 1, saved.ticks, step.event.keysAgain, false, pid);
    }
  }
}
