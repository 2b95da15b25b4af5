/** What whole runs of the scheduler keep: contexts, order of service, and who may wait how long. */
module Fairness {
  import opened Base
  import opened Scheduler
  import opened Transitions

  // ------------------------------------------------------------- one dispatch

  /** What PickNext does to one process: it is dispatched, or only scanned over. */
  ghost predicate PickedOrSettled(s: State, r: Reply, pid: nat, frame: Registers, answers: set<nat>) {
    var o, o' := Lookup(s.procs, pid), Lookup(r.state.procs, pid);
    if r.outcome.Dispatched? && r.outcome.pid == pid then
      && o.Some? && o'.Some? && !o.value.lock && !o.value.pendingExit
      && Resumes(o.value, o'.value.(lock := false, lastCycle := o.value.lastCycle), s.ticks, answers)
      && o'.value.lock && o'.value.suspend.Awake? && o.value.lastCycle < o'.value.lastCycle == r.state.cycle
      && r.outcome.cr3 == o.value.cr3 && r.outcome.loaded == o'.value.save.(rflags := frame.rflags)
    else Settled(o, o', s.ticks, answers)
  }

  lemma SettlePicks(s: State, c: nat, frame: Registers, keys: map<nat, nat>, pid: nat)
    requires Inv(s) && c < |s.cpus|
    ensures PickedOrSettled(s, Settle(s, c, frame, FirstScan(s, keys)), pid, frame, Answers(keys, pid))
    ensures Settle(s, c, frame, FirstScan(s, keys)).state.cycle == s.cycle
  {
    var scan := FirstScan(s, keys);
    ScanSettles(s.procs, 0, s.cycle, s.ticks, keys, false, pid);
    ScanDecides(s.procs, 0, s.cycle, s.ticks, keys, false);
    if scan.verdict.Chosen? {
      var p := scan.procs[scan.at];
      LookupAt(scan.procs, scan.at);
      LookupUpdated(scan.procs, scan.at, p.(lastCycle := s.cycle, lock := true), pid);
      if pid == p.pid {
        var o := Lookup(s.procs, pid).value;
        assert ProcessOk(s.cpus, s.cycle, o);
        assert o.lastCycle == p.lastCycle && p.(lastCycle := s.cycle, lock := true).(lock := false, lastCycle := o.lastCycle) == p;
      }
    }
  }

  /** A process scanned over twice, or scanned over and then dispatched. */
  lemma PickedAfterScan(s: State, s': State, r: Reply, pid: nat, frame: Registers, answers: set<nat>, again: set<nat>)
    requires Settled(Lookup(s.procs, pid), Lookup(s'.procs, pid), s.ticks, answers) && s'.ticks == s.ticks
    requires Lookup(s.procs, pid).Some? ==> ProcessOk(s.cpus, s.cycle, Lookup(s.procs, pid).value)
    requires PickedOrSettled(s', r, pid, frame, again)
    ensures PickedOrSettled(s, r, pid, frame, answers + again)
  {
    assert forall x :: x in again ==> x in answers + again;
    assert forall x :: x in answers ==> x in answers + again;
  }

  lemma PickNextPicks(s: State, c: nat, frame: Registers, keys: map<nat, nat>, keysAgain: map<nat, nat>, pid: nat)
    requires Inv(s) && c < |s.cpus|
    ensures PickedOrSettled(s, PickNext(s, c, frame, keys, keysAgain), pid, frame, Answers(keys, pid) + Answers(keysAgain, pid))
  {
    var first := FirstScan(s, keys);
    if first.verdict.EndOfList? && first.ran {
      var s' := s.(procs := first.procs, cycle := s.cycle + 1);
      FirstScanKeepsInv(s, keys, s.cycle + 1);
      ScanSettles(s.procs, 0, s.cycle, s.ticks, keys, false, pid);
      SettlePicks(s', c, frame, keysAgain, pid);
      PickedAfterScan(s, s', PickNext(s, c, frame, keys, keysAgain), pid, frame, Answers(keys, pid), Answers(keysAgain, pid));
    } else {
      SettlePicks(s, c, frame, keys, pid);
      assert forall x :: x in Answers(keys, pid) ==> x in Answers(keys, pid) + Answers(keysAgain, pid);
    }
  }

  predicate DispatchedTo(outcome: Outcome, pid: nat) {
    outcome.Dispatched? && outcome.pid == pid
  }

  /** What the keyboard has for a read of the process at this step. */
  function Offers(step: Step, pid: nat): set<nat> {
    if IsTimer(step) then Answers(step.event.keys, pid) + Answers(step.event.keysAgain, pid) else {}
  }

  /** The process is dispatched: it runs on from its saved context, in a cycle it had not run in. */
  ghost predicate Granted(q: Process, step: Step, r: Reply) {
    && step.Interrupt? && r.outcome.Dispatched? && r.outcome.cr3 == q.cr3
    && Lookup(r.state.procs, q.pid).Some?
    && var q' := Lookup(r.state.procs, q.pid).value;
    && Resumes(q, q'.(lock := false, lastCycle := q.lastCycle), r.state.ticks, Offers(step, q.pid))
    && q'.lock && q'.suspend.Awake? && q.lastCycle < q'.lastCycle == r.state.cycle
    && r.outcome.loaded == q'.save.(rflags := step.frame.rflags)
  }

  /** The process stays as it was, or only its suspension ended. */
  ghost predicate Undisturbed(q: Process, step: Step, s: State) {
    Lookup(s.procs, q.pid).Some? && Resumes(q, Lookup(s.procs, q.pid).value, s.ticks, Offers(step, q.pid))
  }

  lemma SavedOthers(s: State, c: nat, frame: Registers, pid: nat)
    requires Inv(s) && c < |s.cpus| && pid != s.cpus[c].currentPid
    ensures Saved(s, c, frame).Some? && Lookup(Saved(s, c, frame).value.procs, pid) == Lookup(s.procs, pid)
  {
    var cur := s.cpus[c].currentPid;
    if cur != 0 {
      assert Lookup(s.procs, cur).Some?;
      var k := FindPid(s.procs, cur);
      LookupUpdated(s.procs, k, s.procs[k].(save := frame, lock := false), pid);
    }
  }

  lemma SuspendedOthers(s: State, c: nat, k: nat, frame: Registers, suspend: Suspension, pid: nat)
    requires Inv(s) && c < |s.cpus| && k < |s.procs| && s.cpus[c].currentPid == s.procs[k].pid != pid
    ensures Lookup(Suspended(s, c, k, frame, suspend).state.procs, pid) == Lookup(s.procs, pid)
  {
    var p := s.procs[k].(suspend := suspend, pendingExit := s.procs[k].pendingExit || suspend.Exiting?);
    var procs1 := s.procs[k := p];
    LookupUpdated(s.procs, k, p, pid);
    LookupAt(procs1, k);
    LookupUpdated(procs1, k, p.(save := frame, lock := false), pid);
  }

  lemma LaunchedOthers(s: State, launch: Launch, pid: nat)
    requires Inv(s) && Launched(s, launch).Some? && Lookup(s.procs, pid).Some?
    ensures Lookup(Launched(s, launch).value.procs, pid) == Lookup(s.procs, pid)
  {
    FreePidIsFree(s.procs, s.lastPid, |s.procs| + 1);
    if !launch.Abandoned? {
      LookupAppended(s.procs, NewProcess(Launched(s, launch).value.lastPid, launch), pid);
    }
  }

  lemma TimerUndisturbed(s: State, c: nat, step: Step, q: Process)
    requires Inv(s) && c < |s.cpus| && Lookup(s.procs, q.pid) == Some(q) && !q.lock && !q.pendingExit
    requires step.Interrupt? && step.event.Timer?
    ensures var r := SetUpNext(s, c, step.frame, step.event.keys, step.event.keysAgain);
      if DispatchedTo(r.outcome, q.pid) then Granted(q, step, r) else Undisturbed(q, step, r.state)
  {
    assert ProcessOk(s.cpus, s.cycle, Lookup(s.procs, q.pid).value);
    SavedOthers(s, c, step.frame, q.pid);
    SavedKeepsInv(s, c, step.frame);
    PickNextPicks(Saved(s, c, step.frame).value, c, step.frame, step.event.keys, step.event.keysAgain, q.pid);
  }

  lemma CallUndisturbed(s: State, c: nat, frame: Registers, call: Call, q: Process)
    requires Inv(s) && c < |s.cpus| && Lookup(s.procs, q.pid) == Some(q) && !q.lock && FindPid(s.procs, s.cpus[c].currentPid) < |s.procs|
    ensures Lookup(KernelCall(s, c, FindPid(s.procs, s.cpus[c].currentPid), frame, call).state.procs, q.pid) == Some(q)
  {
    assert ProcessOk(s.cpus, s.cycle, Lookup(s.procs, q.pid).value);
    var k := FindPid(s.procs, s.cpus[c].currentPid);
    assert s.cpus[c].currentPid != q.pid;
    match call
    case Return(_) =>
    case Sleep(units) => SuspendedOthers(s, c, k, frame, SleepUntil(s.ticks, units), q.pid);
    case Read(fd) => SuspendedOthers(s, c, k, frame, Reading(fd), q.pid);
    case Exit => SuspendedOthers(s, c, k, frame, Exiting, q.pid);
    case Run(launch) => if Launched(s, launch).Some? { LaunchedOthers(s, launch, q.pid); }
  }

  /** No step of any processor touches a process that waits, except to end its suspension or to dispatch it. */
  lemma StepUndisturbed(s: State, step: Step, q: Process)
    requires Inv(s) && Lookup(s.procs, q.pid) == Some(q) && !q.lock && !q.pendingExit
    ensures var r := Next(s, step);
      if DispatchedTo(r.outcome, q.pid) then Granted(q, step, r) else Undisturbed(q, step, r.state)
  {
    assert ProcessOk(s.cpus, s.cycle, Lookup(s.procs, q.pid).value);
    match step
    case Boot(launch) => if Launched(s, launch).Some? { LaunchedOthers(s, launch, q.pid); }
    case Interrupt(apic, frame, event) =>
      var c := FindCpu(s.cpus, apic);
      if c < |s.cpus| {
        assert s.cpus[c].currentPid != q.pid;
        match event
        case Timer(_, _) => TimerUndisturbed(Ticked(s, apic), c, step, q);
        case SystemCall(call) => if FindPid(s.procs, s.cpus[c].currentPid) < |s.procs| { CallUndisturbed(s, c, frame, call, q); }
        case Exception(_) =>
          var k := FindPid(s.procs, s.cpus[c].currentPid);
          if k < |s.procs| { LookupRemoved(s.procs, k, q.pid); }
        case Irq =>
        case Spurious =>
      }
  }

  /** A process that has called exit never runs again: it stays as it is until it is removed. */
  lemma ExitingStays(s: State, step: Step, q: Process)
    requires Inv(s) && Lookup(s.procs, q.pid) == Some(q) && q.pendingExit
    ensures var r := Next(s, step);
      && !DispatchedTo(r.outcome, q.pid)
      && (Lookup(r.state.procs, q.pid).None? || Lookup(r.state.procs, q.pid) == Some(q))
  {
    assert ProcessOk(s.cpus, s.cycle, Lookup(s.procs, q.pid).value);
    match step
    case Boot(launch) => if Launched(s, launch).Some? { LaunchedOthers(s, launch, q.pid); }
    case Interrupt(apic, frame, event) =>
      var c := FindCpu(s.cpus, apic);
      if c < |s.cpus| {
        match event
        case Timer(_, _) => ExitingTimer(Ticked(s, apic), c, step, q);
        case SystemCall(call) => if FindPid(s.procs, s.cpus[c].currentPid) < |s.procs| { ExitingCall(s, c, frame, call, q); }
        case Exception(_) =>
          var k := FindPid(s.procs, s.cpus[c].currentPid);
          if k < |s.procs| { LookupRemoved(s.procs, k, q.pid); }
        case Irq =>
        case Spurious =>
      }
  }

  lemma ExitingTimer(s: State, c: nat, step: Step, q: Process)
    requires Inv(s) && c < |s.cpus| && Lookup(s.procs, q.pid) == Some(q) && q.pendingExit && IsTimer(step)
    ensures var r := SetUpNext(s, c, step.frame, step.event.keys, step.event.keysAgain);
      && !DispatchedTo(r.outcome, q.pid)
      && (Lookup(r.state.procs, q.pid).None? || Lookup(r.state.procs, q.pid) == Some(q))
  {
    assert ProcessOk(s.cpus, s.cycle, Lookup(s.procs, q.pid).value);
    SavedOthers(s, c, step.frame, q.pid);
    SavedKeepsInv(s, c, step.frame);
    PickNextPicks(Saved(s, c, step.frame).value, c, step.frame, step.event.keys, step.event.keysAgain, q.pid);
  }

  lemma ExitingCall(s: State, c: nat, frame: Registers, call: Call, q: Process)
    requires Inv(s) && c < |s.cpus| && Lookup(s.procs, q.pid) == Some(q) && !q.lock && FindPid(s.procs, s.cpus[c].currentPid) < |s.procs|
    ensures var r := KernelCall(s, c, FindPid(s.procs, s.cpus[c].currentPid), frame, call);
      Lookup(r.state.procs, q.pid) == Some(q) && !r.outcome.Dispatched?
  {
    CallUndisturbed(s, c, frame, call, q);
    CallAges(s, c, frame, call, q.pid);
  }

  // ---------------------------------------------------------- who goes before

  predicate Overtakes(p: Process, pid: nat, cycle: nat) {
    p.pid != pid && p.lastCycle < cycle
  }

  /** How many other processes have yet to run in the cycle. */
  function Behind(procs: seq<Process>, pid: nat, cycle: nat): nat {
    if procs == [] then 0 else (if Overtakes(procs[0], pid, cycle) then 1 else 0) + Behind(procs[1..], pid, cycle)
  }

  lemma {:induction false} BehindConcat(a: seq<Process>, b: seq<Process>, pid: nat, cycle: nat)
    ensures Behind(a + b, pid, cycle) == Behind(a, pid, cycle) + Behind(b, pid, cycle)
  {
    if a == [] {
      assert a + b == b;
    } else {
      assert (a + b)[1..] == a[1..] + b;
      BehindConcat(a[1..], b, pid, cycle);
    }
  }

  function One(b: bool): nat { if b then 1 else 0 }

  lemma BehindAt(procs: seq<Process>, k: nat, pid: nat, cycle: nat)
    requires k < |procs|
    ensures Behind(procs, pid, cycle) == Behind(Removed(procs, k), pid, cycle) + One(Overtakes(procs[k], pid, cycle))
  {
    assert procs == procs[..k] + procs[k..] && procs[k..][1..] == procs[k + 1..];
    BehindConcat(procs[..k], procs[k..], pid, cycle);
    BehindConcat(procs[..k], procs[k + 1..], pid, cycle);
  }

  lemma BehindUpdated(procs: seq<Process>, k: nat, p: Process, pid: nat, cycle: nat)
    requires k < |procs|
    ensures Behind(procs[k := p], pid, cycle) + One(Overtakes(procs[k], pid, cycle)) == Behind(procs, pid, cycle) + One(Overtakes(p, pid, cycle))
  {
    BehindAt(procs, k, pid, cycle);
    BehindAt(procs[k := p], k, pid, cycle);
    assert Removed(procs[k := p], k) == Removed(procs, k);
  }

  lemma {:induction false} BehindBound(procs: seq<Process>, pid: nat, cycle: nat)
    ensures Behind(procs, pid, cycle) <= |procs|
    ensures Lookup(procs, pid).Some? ==> Behind(procs, pid, cycle) < |procs|
  {
    if procs != [] { BehindBound(procs[1..], pid, cycle); }
  }

  lemma {:induction false} ScanBehind(procs: seq<Process>, k: nat, cycle: nat, ticks: nat, keys: map<nat, nat>, ran: bool, pid: nat)
    requires k <= |procs|
    ensures var r := ScanFrom(procs, k, cycle, ticks, keys, ran);
      Behind(r.procs, pid, cycle) <= Behind(procs, pid, cycle) && |r.procs| <= |procs|
    decreases |procs| - k
  {
    if k < |procs| {
      var p := Tested(procs[k], ticks, keys);
      if procs[k].pendingExit {
        var j := FindPid(procs, procs[k].pid);
        BehindAt(procs, j, pid, cycle);
        ScanBehind(Removed(procs, j), k, cycle, ticks, keys, false, pid);
      } else if !Breaks(procs[k]) {
        BehindUpdated(procs, k, p, pid, cycle);
        if !(Eligible(p) && p.lastCycle != cycle) {
          ScanBehind(procs[k := p], k + 1, cycle, ticks, keys, ran || p.lastCycle == cycle, pid);
        }
      }
    }
  }

  /** The process could run now. */
  predicate Ready(procs: seq<Process>, q: Process) {
    Lookup(procs, q.pid) == Some(q) && Eligible(q) && !q.pendingExit
  }

  /** At most this many dispatches of others can come before the next dispatch of `q`. */
  function Ahead(s: State, q: Process): int {
    Behind(s.procs, q.pid, s.cycle) + if q.lastCycle == s.cycle then |s.procs| - 1 else 0
  }

  lemma AheadBound(s: State, q: Process)
    requires Lookup(s.procs, q.pid).Some?
    ensures 0 <= Ahead(s, q) <= 2 * (|s.procs| - 1)
  {
    BehindBound(s.procs, q.pid, s.cycle);
  }

  /** What the process waits for, if anything, is there at this time and with these keys. */
  predicate Wakes(q: Process, ticks: nat, keys: map<nat, nat>) {
    match q.suspend
    case Awake => true
    case Sleeping(tick, overflow) => !overflow && ticks >= tick
    case Reading(fd) => fd == STDIN && q.pid in keys
    case Exiting => false
  }

  /** The process is of the table, runs on no processor, and may run but for its suspension. */
  predicate Waits(procs: seq<Process>, q: Process) {
    Lookup(procs, q.pid) == Some(q) && q.run && !q.lock && !q.pendingExit
  }

  /** The same process, as it was or with its suspension ended. */
  predicate SameOrWoken(q: Process, q': Process) {
    q' == q || q' == Woken(q, q'.save.rax)
  }

  /** A scan that passes over a process that may run, or does once tested, found that it ran in this cycle. */
  lemma PassedReady(s: State, keys: map<nat, nat>, q: Process) returns (q': Process)
    requires Inv(s) && Waits(s.procs, q) && Wakes(q, s.ticks, keys) && FirstScan(s, keys).verdict.EndOfList?
    ensures SameOrWoken(q, q')
    ensures var scan := FirstScan(s, keys);
      && Ready(scan.procs, q') && q.lastCycle == s.cycle && |scan.procs| <= |s.procs|
      && (!scan.ran ==> |scan.procs| < |s.procs|)
  {
    var scan := FirstScan(s, keys);
    ScanTests(s.procs, 0, s.cycle, s.ticks, keys, false, q.pid);
    ScanDecides(s.procs, 0, s.cycle, s.ticks, keys, false);
    ScanRan(s.procs, 0, s.cycle, s.ticks, keys, false);
    q' := Tested(q, s.ticks, keys);
    assert Lookup(scan.procs, q.pid) == Some(q');
    var k := FindPid(s.procs, q.pid);
    assert NoExits(s.procs, 0) ==> RunnerLast(s.procs, k, s.cycle);
  }

  /** One scan, when the process `q` is not chosen. */
  lemma SettleAhead(s: State, c: nat, frame: Registers, keys: map<nat, nat>, q: Process)
    requires Inv(s) && c < |s.cpus| && Waits(s.procs, q)
    requires var r := Settle(s, c, frame, FirstScan(s, keys)); !r.outcome.Halted? && !DispatchedTo(r.outcome, q.pid)
    ensures var r := Settle(s, c, frame, FirstScan(s, keys));
      && |r.state.procs| <= |s.procs|
      && Ahead(r.state, q) + One(r.outcome.Dispatched?) <= Ahead(s, q)
  {
    var scan := FirstScan(s, keys);
    ScanBehind(s.procs, 0, s.cycle, s.ticks, keys, false, q.pid);
    ScanDecides(s.procs, 0, s.cycle, s.ticks, keys, false);
    if scan.verdict.Chosen? {
      var p := scan.procs[scan.at];
      ScanSettles(s.procs, 0, s.cycle, s.ticks, keys, false, p.pid);
      LookupAt(scan.procs, scan.at);
      assert ProcessOk(s.cpus, s.cycle, Lookup(s.procs, p.pid).value);
      BehindUpdated(scan.procs, scan.at, p.(lastCycle := s.cycle, lock := true), q.pid, s.cycle);
    }
  }

  lemma PickNextAhead(s: State, c: nat, frame: Registers, keys: map<nat, nat>, keysAgain: map<nat, nat>, q: Process)
    requires Inv(s) && c < |s.cpus| && Waits(s.procs, q) && Wakes(q, s.ticks, keys)
    requires var r := PickNext(s, c, frame, keys, keysAgain); !r.outcome.Halted? && !DispatchedTo(r.outcome, q.pid)
    ensures var r := PickNext(s, c, frame, keys, keysAgain);
      && |r.state.procs| + One(!r.outcome.Dispatched?) <= |s.procs|
      && Ahead(r.state, q) + One(r.outcome.Dispatched?) <= Ahead(s, q)
  {
    var first := FirstScan(s, keys);
    var q' := q;
    if first.verdict.EndOfList? { q' := PassedReady(s, keys, q); }
    if first.verdict.EndOfList? && first.ran {
      var s' := s.(procs := first.procs, cycle := s.cycle + 1);
      FirstScanKeepsInv(s, keys, s.cycle + 1);
      BehindBound(first.procs, q.pid, s'.cycle);
      SettleAhead(s', c, frame, keysAgain, q');
      if FirstScan(s', keysAgain).verdict.EndOfList? { var _ := PassedReady(s', keysAgain, q'); }
    } else {
      SettleAhead(s, c, frame, keys, q);
    }
  }

  predicate Launches(step: Step) {
    match step
    case Boot(launch) => !launch.Abandoned?
    case Interrupt(_, _, event) => event.SystemCall? && event.call.Run? && !event.call.launch.Abandoned?
  }

  predicate IsTimer(step: Step) { step.Interrupt? && step.event.Timer? }

  /** The timer of the first processor. */
  predicate Counts(step: Step, bsp: nat) { IsTimer(step) && step.apic == bsp }

  predicate Goes(outcome: Outcome) { !outcome.Halted? && !outcome.Hung? }

  lemma SavedAhead(s: State, c: nat, frame: Registers, q: Process)
    requires Inv(s) && c < |s.cpus|
    ensures Saved(s, c, frame).Some?
    ensures var s' := Saved(s, c, frame).value; Ahead(s', q) == Ahead(s, q) && |s'.procs| == |s.procs|
  {
    SavedKeepsInv(s, c, frame);
    var k := FindPid(s.procs, s.cpus[c].currentPid);
    if k < |s.procs| && s.cpus[c].currentPid != 0 { BehindUpdated(s.procs, k, s.procs[k].(save := frame, lock := false), q.pid, s.cycle); }
  }

  lemma SuspendedAhead(s: State, c: nat, k: nat, frame: Registers, suspend: Suspension, q: Process)
    requires Inv(s) && c < |s.cpus| && k < |s.procs| && s.cpus[c].currentPid == s.procs[k].pid && !suspend.Awake?
    ensures var s' := Suspended(s, c, k, frame, suspend).state; Ahead(s', q) == Ahead(s, q) && |s'.procs| == |s.procs|
  {
    SuspendedKeepsInv(s, c, k, frame, suspend);
    var p := s.procs[k].(suspend := suspend, pendingExit := s.procs[k].pendingExit || suspend.Exiting?);
    var procs1 := s.procs[k := p];
    var j := FindPid(procs1, p.pid);
    BehindUpdated(s.procs, k, p, q.pid, s.cycle);
    if j < |procs1| { BehindUpdated(procs1, j, procs1[j].(save := frame, lock := false), q.pid, s.cycle); }
  }

  lemma LaunchedAhead(s: State, launch: Launch, q: Process)
    requires Launched(s, launch).Some?
    ensures var s', n := Launched(s, launch).value, One(!launch.Abandoned?);
      Ahead(s', q) <= Ahead(s, q) + 2 * n && |s'.procs| == |s.procs| + n
  {
    if !launch.Abandoned? {
      var p := NewProcess(Launched(s, launch).value.lastPid, launch);
      BehindConcat(s.procs, [p], q.pid, s.cycle);
    }
  }

  lemma CallAhead(s: State, c: nat, frame: Registers, call: Call, q: Process)
    requires Inv(s) && c < |s.cpus| && FindPid(s.procs, s.cpus[c].currentPid) < |s.procs|
    ensures var r, n := KernelCall(s, c, FindPid(s.procs, s.cpus[c].currentPid), frame, call), One(call.Run? && !call.launch.Abandoned?);
      Ahead(r.state, q) <= Ahead(s, q) + 2 * n && |r.state.procs| <= |s.procs| + n && !r.outcome.Dispatched?
  {
    var k := FindPid(s.procs, s.cpus[c].currentPid);
    CallKeepsInv(s, c, frame, call);
    match call
    case Return(_) =>
    case Sleep(units) => SuspendedAhead(s, c, k, frame, SleepUntil(s.ticks, units), q); SuspendedKeepsInv(s, c, k, frame, SleepUntil(s.ticks, units));
    case Read(fd) => SuspendedAhead(s, c, k, frame, Reading(fd), q); SuspendedKeepsInv(s, c, k, frame, Reading(fd));
    case Exit => SuspendedAhead(s, c, k, frame, Exiting, q); SuspendedKeepsInv(s, c, k, frame, Exiting);
    case Run(launch) => if Launched(s, launch).Some? { LaunchedAhead(s, launch, q); }
  }

  /** The first processor's timer moves the clock, and nothing else does. */
  lemma TimeKept(s: State, step: Step)
    ensures Next(s, step).state.ticks == if Counts(step, s.bsp) then (s.ticks + 1) % TWO_64 else s.ticks
    ensures Next(s, step).state.bsp == s.bsp
  {
  }

  lemma TimerAhead(s: State, step: Step, q: Process)
    requires Inv(s) && Waits(s.procs, q) && IsTimer(step) && Wakes(q, Ticked(s, step.apic).ticks, step.event.keys) && Goes(Next(s, step).outcome) && !DispatchedTo(Next(s, step).outcome, q.pid)
    ensures var r := Next(s, step);
      && |r.state.procs| + One(!r.outcome.Dispatched?) <= |s.procs|
      && Ahead(r.state, q) + One(r.outcome.Dispatched?) <= Ahead(s, q)
  {
    var t, c := Ticked(s, step.apic), FindCpu(s.cpus, step.apic);
    assert ProcessOk(s.cpus, s.cycle, Lookup(s.procs, q.pid).value);
    assert Ahead(t, q) == Ahead(s, q);
    SavedAhead(t, c, step.frame, q);
    SavedOthers(t, c, step.frame, q.pid);
    SavedKeepsInv(t, c, step.frame);
    PickNextAhead(Saved(t, c, step.frame).value, c, step.frame, step.event.keys, step.event.keysAgain, q);
  }

  /**
   No step lets more processes go before one that can be chosen, except the
   launch of a new process; a dispatch uses one up.
   */
  lemma StepAhead(s: State, step: Step, q: Process)
    requires Inv(s) && Waits(s.procs, q) && Goes(Next(s, step).outcome) && !DispatchedTo(Next(s, step).outcome, q.pid)
    requires IsTimer(step) ==> Wakes(q, Next(s, step).state.ticks, step.event.keys)
    ensures Lookup(Next(s, step).state.procs, q.pid).Some? && SameOrWoken(q, Lookup(Next(s, step).state.procs, q.pid).value)
    ensures var r, n := Next(s, step), One(Launches(step));
      && (r.outcome.Dispatched? ==> IsTimer(step))
      && Ahead(r.state, q) + One(r.outcome.Dispatched?) <= Ahead(s, q) + 2 * n
      && |r.state.procs| + One(IsTimer(step) && !r.outcome.Dispatched?) <= |s.procs| + n
  {
    StepUndisturbed(s, step, q);
    match step
    case Boot(launch) => LaunchedAhead(s, launch, q);
    case Interrupt(apic, frame, event) =>
      var c := FindCpu(s.cpus, apic);
      match event
      case Timer(keys, keysAgain) =>
        TimeKept(s, step);
        TimerAhead(s, step, q);
      case SystemCall(call) => CallAhead(s, c, frame, call, q);
      case Exception(_) => BehindAt(s.procs, FindPid(s.procs, s.cpus[c].currentPid), q.pid, s.cycle);
      case Irq =>
      case Spurious =>
  }

  // -------------------------------------------------------------------- runs

  ghost predicate Stepped(ss: seq<State>, steps: seq<Step>, i: nat)
    requires i < |steps| < |ss|
  {
    Next(ss[i], steps[i]).state == ss[i + 1] && Goes(Next(ss[i], steps[i]).outcome)
  }

  /** A run of the machine from a state that meets the invariant. */
  ghost predicate Run(ss: seq<State>, steps: seq<Step>) {
    |ss| == |steps| + 1 && Inv(ss[0]) && forall i :: 0 <= i < |steps| ==> Stepped(ss, steps, i)
  }

  lemma SteppedKeepsInv(ss: seq<State>, steps: seq<Step>, i: nat)
    requires i < |steps| < |ss| && Stepped(ss, steps, i) && Inv(ss[i])
    ensures Inv(ss[i + 1])
  {
    NextKeepsInv(ss[i], steps[i]);
  }

  /** The invariant holds throughout a run. */
  lemma {:induction false} RunKeepsInv(ss: seq<State>, steps: seq<Step>, i: nat)
    requires Run(ss, steps) && i < |ss|
    ensures Inv(ss[i])
  {
    if i > 0 {
      RunKeepsInv(ss, steps, i - 1);
      SteppedKeepsInv(ss, steps, i - 1);
    }
  }

  /** Step `i` of the run dispatches the process. */
  predicate Picks(ss: seq<State>, steps: seq<Step>, i: nat, pid: nat)
    requires i < |steps| < |ss|
  {
    DispatchedTo(Next(ss[i], steps[i]).outcome, pid)
  }

  ghost predicate NeverPicks(ss: seq<State>, steps: seq<Step>, from: nat, to: nat, pid: nat)
    requires to <= |steps| < |ss|
  {
    forall i :: from <= i < to ==> !Picks(ss, steps, i, pid)
  }

  /** Dispatches among the first `n` steps of a run. */
  function Dispatches(ss: seq<State>, steps: seq<Step>, n: nat): nat
    requires n <= |steps| < |ss|
  {
    if n == 0 then 0 else Dispatches(ss, steps, n - 1) + One(Next(ss[n - 1], steps[n - 1]).outcome.Dispatched?)
  }

  /** Timer interrupts, on any processor, among the first `n` steps. */
  function Timers(steps: seq<Step>, n: nat): nat
    requires n <= |steps|
  {
    if n == 0 then 0 else Timers(steps, n - 1) + One(IsTimer(steps[n - 1]))
  }

  function LaunchCount(steps: seq<Step>, n: nat): nat
    requires n <= |steps|
  {
    if n == 0 then 0 else LaunchCount(steps, n - 1) + One(Launches(steps[n - 1]))
  }

  /** What the process waits for, if anything, is there throughout the run. */
  ghost predicate Comes(ss: seq<State>, steps: seq<Step>, q: Process) {
    match q.suspend
    case Awake => true
    case Sleeping(tick, overflow) => !overflow && forall i :: 0 <= i < |ss| ==> ss[i].ticks >= tick
    case Reading(fd) => fd == STDIN && forall i :: 0 <= i < |steps| && IsTimer(steps[i]) ==> q.pid in steps[i].event.keys
    case Exiting => false
  }

  /** The process still waits, and can be chosen or is woken by the next scan that gets to it. */
  ghost predicate StillDue(ss: seq<State>, steps: seq<Step>, q: Process, n: nat)
    requires n < |ss|
  {
    var o := Lookup(ss[n].procs, q.pid);
    o.Some? && SameOrWoken(q, o.value) && Waits(ss[n].procs, o.value) && Comes(ss, steps, o.value)
  }

  lemma {:induction false} WaitingRun(ss: seq<State>, steps: seq<Step>, q: Process, n: nat)
    requires Run(ss, steps) && Waits(ss[0].procs, q) && Comes(ss, steps, q) && n <= |steps| && NeverPicks(ss, steps, 0, n, q.pid)
    ensures StillDue(ss, steps, q, n)
    ensures Ahead(ss[n], q) + Dispatches(ss, steps, n) <= Ahead(ss[0], q) + 2 * LaunchCount(steps, n)
    ensures |ss[n].procs| + Timers(steps, n) - Dispatches(ss, steps, n) <= |ss[0].procs| + LaunchCount(steps, n)
  {
    if n > 0 {
      WaitingRun(ss, steps, q, n - 1);
      RunKeepsInv(ss, steps, n - 1);
      assert Stepped(ss, steps, n - 1) && !Picks(ss, steps, n - 1, q.pid);
      StepAhead(ss[n - 1], steps[n - 1], Lookup(ss[n - 1].procs, q.pid).value);
    }
  }

  /**
   Bounded waiting, for any number of processors. A process may run, or sleeps
   and its tick has come, or reads and the keyboard has a value for it. Until it
   is dispatched it stays so. Before that, others are dispatched at most 2(n - 1)
   times, and at most 3(n - 1) timer interrupts arrive, where n processes exist;
   each launch adds at most 2 and 3. While no process leaves the table every
   timer interrupt dispatches a process.
   */
  lemma BoundedWaiting(ss: seq<State>, steps: seq<Step>, q: Process)
    requires Run(ss, steps) && Waits(ss[0].procs, q) && Comes(ss, steps, q) && NeverPicks(ss, steps, 0, |steps|, q.pid)
    ensures StillDue(ss, steps, q, |steps|)
    ensures var n, launches, end := |ss[0].procs|, LaunchCount(steps, |steps|), ss[|steps|].procs;
      && Dispatches(ss, steps, |steps|) <= 2 * (n - 1) + 2 * launches
      && Timers(steps, |steps|) <= 3 * (n - 1) + 3 * launches
      && (|end| == n + launches ==> Timers(steps, |steps|) <= Dispatches(ss, steps, |steps|))
  {
    WaitingRun(ss, steps, q, |steps|);
    AheadBound(ss[0], q);
    AheadBound(ss[|steps|], q);
  }

  // ---------------------------------------------------------------- contexts

  /** The process waits as before, or its suspension ended with a result in rax; a sleep returns 0. */
  predicate Later(q: Process, q': Process) {
    q' == q ||
    ((q.suspend.Sleeping? || q.suspend.Reading?) && q' == Woken(q, q'.save.rax) && (q.suspend.Sleeping? ==> q'.save.rax == 0))
  }

  ghost predicate WaitsAt(s: State, q: Process) {
    Lookup(s.procs, q.pid).Some? && Later(q, Lookup(s.procs, q.pid).value)
  }

  lemma {:induction false} ContextKept(ss: seq<State>, steps: seq<Step>, q: Process, from: nat, to: nat)
    requires Run(ss, steps) && from <= to <= |steps| && NeverPicks(ss, steps, from, to, q.pid)
    requires Lookup(ss[from].procs, q.pid) == Some(q) && !q.lock && !q.pendingExit
    ensures WaitsAt(ss[to], q)
  {
    if from < to {
      ContextKept(ss, steps, q, from, to - 1);
      RunKeepsInv(ss, steps, to - 1);
      assert Stepped(ss, steps, to - 1) && !Picks(ss, steps, to - 1, q.pid);
      WaitsOn(ss[to - 1], steps[to - 1], q);
    }
  }

  lemma WaitsOn(s: State, step: Step, q: Process)
    requires Inv(s) && WaitsAt(s, q) && !q.lock && !q.pendingExit && !DispatchedTo(Next(s, step).outcome, q.pid)
    ensures WaitsAt(Next(s, step).state, q)
  {
    var q1 := Lookup(s.procs, q.pid).value;
    StepUndisturbed(s, step, q1);
  }

  /** The process was waiting as `q`, and is loaded with the registers saved then, but for rflags and the result of a suspension. */
  predicate Restores(q: Process, outcome: Outcome, frame: Registers) {
    && outcome.Dispatched? && outcome.cr3 == q.cr3
    && outcome.loaded == q.save.(rflags := frame.rflags, rax := outcome.loaded.rax)
    && (q.suspend.Awake? ==> outcome.loaded.rax == q.save.rax)
    && (q.suspend.Sleeping? ==> outcome.loaded.rax == 0)
  }

  lemma DispatchRestores(s: State, step: Step, q: Process)
    requires Inv(s) && WaitsAt(s, q) && !q.lock && !q.pendingExit && DispatchedTo(Next(s, step).outcome, q.pid)
    ensures step.Interrupt? && Restores(q, Next(s, step).outcome, step.frame)
  {
    StepUndisturbed(s, step, Lookup(s.procs, q.pid).value);
  }

  /** The step takes the processor from its process, whose frame is saved: by a timer interrupt, a sleep or a read. */
  predicate GivesUp(s: State, step: Step, pid: nat) {
    && step.Interrupt? && pid != 0
    && FindCpu(s.cpus, step.apic) < |s.cpus| && s.cpus[FindCpu(s.cpus, step.apic)].currentPid == pid
    && (step.event.Timer? || (step.event.SystemCall? && (step.event.call.Sleep? || step.event.call.Read?)))
  }

  /** What the process waits for after it gave up the processor. */
  function WaitsFor(s: State, event: Event): Suspension {
    if event.SystemCall? && event.call.Sleep? then SleepUntil(s.ticks, event.call.units)
    else if event.SystemCall? && event.call.Read? then Reading(event.call.fd)
    else Awake
  }

  lemma CallSaves(s: State, step: Step, pid: nat)
    requires Inv(s) && GivesUp(s, step, pid) && step.event.SystemCall?
    ensures Lookup(s.procs, pid).Some?
    ensures var q := Lookup(s.procs, pid).value.(save := step.frame, lock := false, suspend := WaitsFor(s, step.event));
      Next(s, step).outcome.Idle? && Lookup(Next(s, step).state.procs, pid) == Some(q) && !q.pendingExit
  {
    var c := FindCpu(s.cpus, step.apic);
    var k := FindPid(s.procs, pid);
    assert Lookup(s.procs, pid).Some? && RunsOn(s.cpus, pid);
    assert ProcessOk(s.cpus, s.cycle, s.procs[k]);
    var suspend := WaitsFor(s, step.event);
    var p := s.procs[k].(suspend := suspend);
    assert Next(s, step) == Suspended(s, c, k, step.frame, suspend);
    SuspendedKeepsInv(s, c, k, step.frame, suspend);
    LookupUpdated(s.procs, k, p, pid);
    LookupAt(s.procs[k := p], k);
    LookupUpdated(s.procs[k := p], k, p.(save := step.frame, lock := false), pid);
  }

  lemma TimerSaves(s: State, step: Step, pid: nat)
    requires Inv(s) && GivesUp(s, step, pid) && step.event.Timer?
    ensures Lookup(s.procs, pid).Some?
    ensures var q, r := Lookup(s.procs, pid).value.(save := step.frame, lock := false), Next(s, step);
      && !q.pendingExit && q.suspend.Awake?
      && if DispatchedTo(r.outcome, pid) then Restores(q, r.outcome, step.frame) else Lookup(r.state.procs, pid) == Some(q)
  {
    var t, c := Ticked(s, step.apic), FindCpu(s.cpus, step.apic);
    var k := FindPid(s.procs, pid);
    assert Lookup(s.procs, pid).Some? && RunsOn(s.cpus, pid);
    assert ProcessOk(s.cpus, s.cycle, s.procs[k]);
    SavedKeepsInv(t, c, step.frame);
    LookupUpdated(s.procs, k, s.procs[k].(save := step.frame, lock := false), pid);
    PickNextPicks(Saved(t, c, step.frame).value, c, step.frame, step.event.keys, step.event.keysAgain, pid);
  }

  /** The process as it is left behind by the step that takes its processor. */
  function Parked(s: State, step: Step, pid: nat): Process
    requires step.Interrupt? && Lookup(s.procs, pid).Some?
  {
    Lookup(s.procs, pid).value.(save := step.frame, lock := false, suspend := WaitsFor(s, step.event))
  }

  lemma StepParks(s: State, step: Step, pid: nat)
    requires Inv(s) && GivesUp(s, step, pid)
    ensures Lookup(s.procs, pid).Some?
    ensures var q, r := Parked(s, step, pid), Next(s, step);
      && q.pid == pid && !q.lock && !q.pendingExit
      && if DispatchedTo(r.outcome, pid) then Restores(q, r.outcome, step.frame) else Lookup(r.state.procs, pid) == Some(q)
  {
    if step.event.Timer? { TimerSaves(s, step, pid); } else { CallSaves(s, step, pid); }
    assert Lookup(s.procs, pid).value.suspend.Awake? by {
      assert RunsOn(s.cpus, pid) && ProcessOk(s.cpus, s.cycle, Lookup(s.procs, pid).value);
    }
  }

  /**
   Registers survive waiting. From the step that takes the processor from a
   process to its next dispatch, on any processor and whatever the others do in
   between, its registers are the interrupted ones: all but rflags, and but rax
   after a suspension, which is 0 after a sleep.
   */
  lemma ContextPreserved(ss: seq<State>, steps: seq<Step>, i: nat, j: nat, pid: nat)
    requires Run(ss, steps) && i <= j < |steps| && GivesUp(ss[i], steps[i], pid)
    requires NeverPicks(ss, steps, i, j, pid) && Picks(ss, steps, j, pid)
    ensures steps[j].Interrupt? && Lookup(ss[i].procs, pid).Some?
    ensures Restores(Parked(ss[i], steps[i], pid), Next(ss[j], steps[j]).outcome, steps[j].frame)
  {
    RunKeepsInv(ss, steps, i);
    StepParks(ss[i], steps[i], pid);
    if i < j { ParkedUntil(ss, steps, i, j, pid); }
  }

  lemma ParkedUntil(ss: seq<State>, steps: seq<Step>, i: nat, j: nat, pid: nat)
    requires Run(ss, steps) && i < j < |steps| && GivesUp(ss[i], steps[i], pid) && Lookup(ss[i].procs, pid).Some?
    requires NeverPicks(ss, steps, i, j, pid) && Picks(ss, steps, j, pid)
    ensures steps[j].Interrupt? && Restores(Parked(ss[i], steps[i], pid), Next(ss[j], steps[j]).outcome, steps[j].frame)
  {
    var q := Parked(ss[i], steps[i], pid);
    RunKeepsInv(ss, steps, i);
    RunKeepsInv(ss, steps, j);
    StepParks(ss[i], steps[i], pid);
    assert Stepped(ss, steps, i) && !Picks(ss, steps, i, pid);
    ContextKept(ss, steps, q, i + 1, j);
    DispatchRestores(ss[j], steps[j], q);
  }

  /** The clock reached the tick after some step of the run. */
  ghost predicate TimeCame(ss: seq<State>, from: nat, to: nat, tick: nat)
    requires to < |ss|
  {
    exists k :: from < k <= to && ss[k].ticks >= tick
  }

  lemma {:induction false} StillAsleep(ss: seq<State>, steps: seq<Step>, q: Process, from: nat, to: nat)
    requires Run(ss, steps) && from <= to <= |steps| && NeverPicks(ss, steps, from, to, q.pid)
    requires Lookup(ss[from].procs, q.pid) == Some(q) && !q.lock && !q.pendingExit && q.suspend.Sleeping?
    ensures Lookup(ss[to].procs, q.pid) == Some(q) || (!q.suspend.overflow && TimeCame(ss, from, to, q.suspend.tick))
  {
    if from < to {
      StillAsleep(ss, steps, q, from, to - 1);
      if Lookup(ss[to - 1].procs, q.pid) == Some(q) {
        RunKeepsInv(ss, steps, to - 1);
        assert Stepped(ss, steps, to - 1) && !Picks(ss, steps, to - 1, q.pid);
        StepUndisturbed(ss[to - 1], steps[to - 1], q);
        assert Undisturbed(q, steps[to - 1], ss[to]);
      }
    }
  }

  /** A sleeping process is dispatched again only after its tick has come, and never if its deadline overflowed. */
  lemma SleepsLongEnough(ss: seq<State>, steps: seq<Step>, q: Process, from: nat, j: nat)
    requires Run(ss, steps) && from <= j < |steps| && NeverPicks(ss, steps, from, j, q.pid) && Picks(ss, steps, j, q.pid)
    requires Lookup(ss[from].procs, q.pid) == Some(q) && !q.lock && !q.pendingExit && q.suspend.Sleeping?
    ensures !q.suspend.overflow && TimeCame(ss, from, j + 1, q.suspend.tick)
  {
    StillAsleep(ss, steps, q, from, j);
    if Lookup(ss[j].procs, q.pid) == Some(q) {
      RunKeepsInv(ss, steps, j);
      assert Stepped(ss, steps, j);
      StepUndisturbed(ss[j], steps[j], q);
      assert ss[j + 1].ticks >= q.suspend.tick;
    }
  }

  // ------------------------------------------------------------------ cycles

  lemma StepAges(s: State, step: Step, pid: nat)
    requires Inv(s) && Lookup(s.procs, pid).Some? && Lookup(Next(s, step).state.procs, pid).Some?
    ensures var q, q', r := Lookup(s.procs, pid).value, Lookup(Next(s, step).state.procs, pid).value, Next(s, step);
      && q.lastCycle <= q'.lastCycle
      && (DispatchedTo(r.outcome, pid) ==> q.lastCycle < q'.lastCycle == r.state.cycle)
  {
    if IsTimer(step) {
      TimerAges(s, step, pid);
    } else {
      OtherAges(s, step, pid);
    }
  }

  lemma TimerAges(s: State, step: Step, pid: nat)
    requires Inv(s) && Lookup(s.procs, pid).Some? && Lookup(Next(s, step).state.procs, pid).Some? && IsTimer(step)
    ensures var q, q', r := Lookup(s.procs, pid).value, Lookup(Next(s, step).state.procs, pid).value, Next(s, step);
      && q.lastCycle <= q'.lastCycle
      && (DispatchedTo(r.outcome, pid) ==> q.lastCycle < q'.lastCycle == r.state.cycle)
  {
    var t, c := Ticked(s, step.apic), FindCpu(s.cpus, step.apic);
    if c < |s.cpus| {
      SavedAges(t, c, step.frame, pid);
      PickNextPicks(Saved(t, c, step.frame).value, c, step.frame, step.event.keys, step.event.keysAgain, pid);
    }
  }

  lemma SavedAges(s: State, c: nat, frame: Registers, pid: nat)
    requires Inv(s) && c < |s.cpus| && Lookup(s.procs, pid).Some?
    ensures Saved(s, c, frame).Some? && Inv(Saved(s, c, frame).value)
    ensures Lookup(Saved(s, c, frame).value.procs, pid).Some?
    ensures Lookup(Saved(s, c, frame).value.procs, pid).value.lastCycle == Lookup(s.procs, pid).value.lastCycle
  {
    SavedKeepsInv(s, c, frame);
    var k := FindPid(s.procs, s.cpus[c].currentPid);
    if k < |s.procs| { LookupUpdated(s.procs, k, s.procs[k].(save := frame, lock := false), pid); }
  }

  /** Nothing but a timer interrupt touches the cycle a process last ran in. */
  lemma OtherAges(s: State, step: Step, pid: nat)
    requires Inv(s) && Lookup(s.procs, pid).Some? && !IsTimer(step)
    ensures var r := Next(s, step);
      && !r.outcome.Dispatched?
      && (Lookup(r.state.procs, pid).Some? ==> Lookup(r.state.procs, pid).value.lastCycle == Lookup(s.procs, pid).value.lastCycle)
  {
    match step
    case Boot(launch) => if Launched(s, launch).Some? { LaunchedOthers(s, launch, pid); }
    case Interrupt(apic, frame, event) =>
      var c := FindCpu(s.cpus, apic);
      if c < |s.cpus| && FindPid(s.procs, s.cpus[c].currentPid) < |s.procs| {
        var k := FindPid(s.procs, s.cpus[c].currentPid);
        match event
        case SystemCall(call) => CallAges(s, c, frame, call, pid);
        case Exception(_) => LookupRemoved(s.procs, k, pid);
        case _ =>
      }
  }

  lemma CallAges(s: State, c: nat, frame: Registers, call: Call, pid: nat)
    requires Inv(s) && c < |s.cpus| && FindPid(s.procs, s.cpus[c].currentPid) < |s.procs| && Lookup(s.procs, pid).Some?
    ensures var r := KernelCall(s, c, FindPid(s.procs, s.cpus[c].currentPid), frame, call);
      && !r.outcome.Dispatched?
      && Lookup(r.state.procs, pid).Some? && Lookup(r.state.procs, pid).value.lastCycle == Lookup(s.procs, pid).value.lastCycle
  {
    var k := FindPid(s.procs, s.cpus[c].currentPid);
    match call
    case Return(_) =>
    case Sleep(units) => SuspendedAges(s, c, k, frame, SleepUntil(s.ticks, units), pid);
    case Read(fd) => SuspendedAges(s, c, k, frame, Reading(fd), pid);
    case Exit => SuspendedAges(s, c, k, frame, Exiting, pid);
    case Run(launch) => if Launched(s, launch).Some? { LaunchedOthers(s, launch, pid); }
  }

  lemma SuspendedAges(s: State, c: nat, k: nat, frame: Registers, suspend: Suspension, pid: nat)
    requires Inv(s) && c < |s.cpus| && k < |s.procs| && s.cpus[c].currentPid == s.procs[k].pid && Lookup(s.procs, pid).Some?
    ensures var r := Suspended(s, c, k, frame, suspend);
      && !r.outcome.Dispatched?
      && Lookup(r.state.procs, pid).Some? && Lookup(r.state.procs, pid).value.lastCycle == Lookup(s.procs, pid).value.lastCycle
  {
    var p := s.procs[k].(suspend := suspend, pendingExit := s.procs[k].pendingExit || suspend.Exiting?);
    var procs1, p' := s.procs[k := p], p.(save := frame, lock := false);
    LookupUpdated(s.procs, k, p, pid);
    LookupAt(procs1, k);
    LookupAt(s.procs, k);
    assert ProcessOk(s.cpus, s.cycle, Lookup(s.procs, p.pid).value);
    assert Suspended(s, c, k, frame, suspend).state.procs == procs1[k := p'];
    LookupUpdated(procs1, k, p', pid);
  }

  ghost predicate LiveDuring(ss: seq<State>, from: nat, to: nat, pid: nat)
    requires to < |ss|
  {
    forall k {:trigger ss[k]} :: from <= k <= to ==> Lookup(ss[k].procs, pid).Some?
  }

  lemma {:induction false} AgesDuring(ss: seq<State>, steps: seq<Step>, i: nat, j: nat, pid: nat)
    requires Run(ss, steps) && i <= j <= |steps| && LiveDuring(ss, i, j, pid)
    ensures Lookup(ss[i].procs, pid).value.lastCycle <= Lookup(ss[j].procs, pid).value.lastCycle
  {
    if i < j {
      AgesDuring(ss, steps, i, j - 1, pid);
      AgesOnce(ss, steps, j - 1, pid);
    }
  }

  lemma AgesOnce(ss: seq<State>, steps: seq<Step>, i: nat, pid: nat)
    requires Run(ss, steps) && i < |steps| && Lookup(ss[i].procs, pid).Some? && Lookup(ss[i + 1].procs, pid).Some?
    ensures var q, q' := Lookup(ss[i].procs, pid).value, Lookup(ss[i + 1].procs, pid).value;
      && q.lastCycle <= q'.lastCycle
      && (Picks(ss, steps, i, pid) ==> q.lastCycle < q'.lastCycle == ss[i + 1].cycle)
  {
    RunKeepsInv(ss, steps, i);
    assert Stepped(ss, steps, i);
    StepAges(ss[i], steps[i], pid);
  }

  /** A process that lives on between two of its dispatches runs in a later cycle: never twice in one. */
  lemma OncePerCycle(ss: seq<State>, steps: seq<Step>, i: nat, j: nat, pid: nat)
    requires Run(ss, steps) && i < j < |steps| && LiveDuring(ss, i, j + 1, pid)
    requires Picks(ss, steps, i, pid) && Picks(ss, steps, j, pid)
    ensures ss[i + 1].cycle < ss[j + 1].cycle
  {
    assert ss[i] == ss[i] && ss[j] == ss[j] && ss[j + 1] == ss[j + 1] && ss[i + 1] == ss[i + 1];
    AgesOnce(ss, steps, i, pid);
    AgesDuring(ss, steps, i + 1, j, pid);
    AgesOnce(ss, steps, j, pid);
  }
}
