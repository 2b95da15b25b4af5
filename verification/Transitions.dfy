/** Every interrupt handler as one step of the whole machine, and what every run keeps. */
module Transitions {
  import opened Base
  import opened Scheduler

  /** How far the launch of a new process gets. */
  datatype Launch = Abandoned | Unstarted(cr3: nat, save: Registers) | Started(cr3: nat, save: Registers)

  /** The kernel functions, by what they do to the process that calls them. */
  datatype Call = Return(value: nat) | Sleep(units: nat) | Read(fd: nat) | Exit | Run(launch: Launch)

  datatype Event = Timer(keys: map<nat, nat>, keysAgain: map<nat, nat>) | SystemCall(call: Call) | Exception(user: bool) | Irq | Spurious

  datatype Step = Boot(launch: Launch) | Interrupt(apic: nat, frame: Registers, event: Event)

  /** How a handler ends. Hung: the search for a free pid does not end. */
  datatype Outcome = Dispatched(pid: nat, cr3: nat, loaded: Registers) | Resumed(loaded: Registers) | Idle | Halted | Hung

  datatype Reply = Reply(state: State, outcome: Outcome)

  // ------------------------------------------------------------------- steps

  function NextPid(last: nat): nat {
    if last == MAX_PID then 1 else last + 1
  }

  /** The pid search, over at most `tries` pids; one more than there are processes is enough. */
  function FreePid(procs: seq<Process>, last: nat, tries: nat): Option<nat>
    decreases tries
  {
    if tries == 0 then None
    else if Lookup(procs, NextPid(last)).None? then Some(NextPid(last))
    else FreePid(procs, NextPid(last), tries - 1)
  }

  function NewProcess(pid: nat, launch: Launch): Process
    requires !launch.Abandoned?
  {
    Process(pid, launch.Started?, 0, false, Awake, false, launch.cr3, launch.save)
  }

  /** DispatcherProcessNew; None when the pid search does not end. */
  function Launched(s: State, launch: Launch): Option<State> {
    var pid := FreePid(s.procs, s.lastPid, |s.procs| + 1);
    if pid.None? then None
    else Some(s.(lastPid := pid.value, procs := if launch.Abandoned? then s.procs else s.procs + [NewProcess(pid.value, launch)]))
  }

  /** DispatcherSave; None when the current process is unknown and the kernel halts. */
  function Saved(s: State, c: nat, frame: Registers): Option<State>
    requires c < |s.cpus|
  {
    var pid := s.cpus[c].currentPid;
    var k := FindPid(s.procs, pid);
    if pid == 0 then Some(s)
    else if k == |s.procs| then None
    else Some(s.(procs := s.procs[k := s.procs[k].(save := frame, lock := false)], cpus := s.cpus[c := s.cpus[c].(currentPid := 0)]))
  }

  function Dispatch(s: State, c: nat, k: nat, frame: Registers): Reply
    requires c < |s.cpus| && k < |s.procs|
  {
    var p := s.procs[k];
    Reply(s.(procs := s.procs[k := p.(lastCycle := s.cycle, lock := true)], cpus := s.cpus[c := s.cpus[c].(currentPid := p.pid)]),
          Dispatched(p.pid, p.cr3, p.save.(rflags := frame.rflags)))
  }

  /** The end of DispatcherSetUpNext after one scan; `again` when the cycle is advanced and the scan repeated. */
  function Settle(s: State, c: nat, frame: Registers, scan: Scan): (reply: Reply)
    requires c < |s.cpus| && (scan.verdict.Chosen? ==> scan.at < |scan.procs|)
  {
    var s' := s.(procs := scan.procs);
    match scan.verdict
    case Chosen => Dispatch(s', c, scan.at, frame)
    case Broken => Reply(s', Halted)
    case EndOfList => Reply(s'.(cpus := s.cpus[c := s.cpus[c].(currentPid := 0)]), Idle)
  }

  lemma {:induction false} ChosenInRange(procs: seq<Process>, k: nat, cycle: nat, ticks: nat, keys: map<nat, nat>, ran: bool)
    requires k <= |procs|
    ensures var r := ScanFrom(procs, k, cycle, ticks, keys, ran); r.verdict.Chosen? ==> r.at < |r.procs|
    decreases |procs| - k
  {
    if k < |procs| {
      var p := Tested(procs[k], ticks, keys);
      if procs[k].pendingExit {
        ChosenInRange(Removed(procs, FindPid(procs, procs[k].pid)), k, cycle, ticks, keys, false);
      } else if !Breaks(procs[k]) && !(Eligible(p) && p.lastCycle != cycle) {
        ChosenInRange(procs[k := p], k + 1, cycle, ticks, keys, ran || p.lastCycle == cycle);
      }
    }
  }

  function FirstScan(s: State, keys: map<nat, nat>): (r: Scan)
    ensures r.verdict.Chosen? ==> r.at < |r.procs|
  {
    ChosenInRange(s.procs, 0, s.cycle, s.ticks, keys, false);
    ScanFrom(s.procs, 0, s.cycle, s.ticks, keys, false)
  }

  /** DispatcherSetUpNext, after the interrupted process was saved. */
  function PickNext(s: State, c: nat, frame: Registers, keys: map<nat, nat>, keysAgain: map<nat, nat>): Reply
    requires c < |s.cpus|
  {
    var first := FirstScan(s, keys);
    if first.verdict.EndOfList? && first.ran then
      var s' := s.(procs := first.procs, cycle := s.cycle + 1);
      Settle(s', c, frame, FirstScan(s', keysAgain))
    else Settle(s, c, frame, first)
  }

  function SetUpNext(s: State, c: nat, frame: Registers, keys: map<nat, nat>, keysAgain: map<nat, nat>): Reply
    requires c < |s.cpus|
  {
    var saved := Saved(s, c, frame);
    if saved.None? then Reply(s, Halted) else PickNext(saved.value, c, frame, keys, keysAgain)
  }

  /** KernelFunctionSuspend: the process at entry `k` is suspended and its registers are saved. */
  function Suspended(s: State, c: nat, k: nat, frame: Registers, suspend: Suspension): Reply
    requires c < |s.cpus| && k < |s.procs|
  {
    var p := s.procs[k].(suspend := suspend, pendingExit := s.procs[k].pendingExit || suspend.Exiting?);
    var saved := Saved(s.(procs := s.procs[k := p]), c, frame);
    if saved.None? then Reply(s, Halted) else Reply(saved.value, Idle)
  }

  /** The end of IdtCall: back to the process, or wait when there is none. */
  function Leave(s: State, c: nat, frame: Registers): Reply
    requires c < |s.cpus|
  {
    Reply(s, if s.cpus[c].currentPid == 0 then Idle else Resumed(frame))
  }

  function SleepUntil(ticks: nat, units: nat): Suspension {
    var tick := (ticks + units * 10000 % TWO_64) % TWO_64;
    Sleeping(tick, tick < ticks)
  }

  /** KernelFunction, for the process at entry `k`. */
  function KernelCall(s: State, c: nat, k: nat, frame: Registers, call: Call): Reply
    requires c < |s.cpus| && k < |s.procs|
  {
    match call
    case Return(value) => Leave(s, c, frame.(rax := value))
    case Sleep(units) => if s.procs[k].suspend.Awake? then Suspended(s, c, k, frame, SleepUntil(s.ticks, units)) else Reply(s, Halted)
    case Read(fd) => Suspended(s, c, k, frame, Reading(fd))
    case Exit => Suspended(s, c, k, frame, Exiting)
    case Run(launch) =>
      var s' := Launched(s, launch);
      if s'.None? then Reply(s, Hung)
      else Leave(s'.value, c, frame.(rax := if launch.Started? then s'.value.lastPid else 0))
  }

  /** The process that a processor runs is killed. */
  function Killed(s: State, c: nat): Reply
    requires c < |s.cpus|
  {
    var pid := s.cpus[c].currentPid;
    var k := FindPid(s.procs, pid);
    if pid == 0 || k == |s.procs| then Reply(s, Halted)
    else Reply(s.(procs := Removed(s.procs, k), cpus := s.cpus[c := s.cpus[c].(currentPid := 0)]), Idle)
  }

  function Ticked(s: State, apic: nat): State {
    if apic == s.bsp then s.(ticks := (s.ticks + 1) % TWO_64) else s
  }

  /** IdtCall, and the launch of the first process at boot. */
  function Next(s: State, step: Step): Reply {
    match step
    case Boot(launch) =>
      var s' := Launched(s, launch);
      if s'.None? then Reply(s, Hung) else Reply(s'.value, Idle)
    case Interrupt(apic, frame, event) =>
      var c := FindCpu(s.cpus, apic);
      match event
      case Timer(keys, keysAgain) =>
        if c == |s.cpus| then Reply(Ticked(s, apic), Halted) else SetUpNext(Ticked(s, apic), c, frame, keys, keysAgain)
      case SystemCall(call) =>
        if c == |s.cpus| then Reply(s, Halted) else
        var k := FindPid(s.procs, s.cpus[c].currentPid);
        if k == |s.procs| then Reply(s, Halted) else KernelCall(s, c, k, frame, call)
      case Exception(user) =>
        if !user || c == |s.cpus| then Reply(s, Halted) else Killed(s, c)
      case Irq =>
        if c == |s.cpus| then Reply(s, Halted) else Leave(s, c, frame)
      case Spurious => Reply(s, Halted)
  }

  // --------------------------------------------------------------- invariant

  /** Some processor runs this process. */
  predicate RunsOn(cpus: seq<Cpu>, pid: nat) {
    exists c :: 0 <= c < |cpus| && cpus[c].currentPid == pid
  }

  predicate ProcessOk(cpus: seq<Cpu>, cycle: nat, p: Process) {
    && 0 < p.pid <= MAX_PID && p.lastCycle <= cycle
    && (p.pendingExit <==> p.suspend.Exiting?)
    && (p.lock <==> RunsOn(cpus, p.pid))
    && (p.lock ==> p.run && p.suspend.Awake?)
  }

  /** Processors are distinct, and none runs the process of another. */
  ghost predicate CpusApart(cpus: seq<Cpu>) {
    forall c, d :: 0 <= c < d < |cpus| ==> cpus[c].apicId != cpus[d].apicId && (cpus[c].currentPid == 0 || cpus[c].currentPid != cpus[d].currentPid)
  }

  ghost predicate AllOk(procs: seq<Process>, cpus: seq<Cpu>, cycle: nat) {
    forall pid {:trigger Lookup(procs, pid)} :: Lookup(procs, pid).Some? ==> ProcessOk(cpus, cycle, Lookup(procs, pid).value)
  }

  /** Every processor that runs something runs a process of the table. */
  ghost predicate CurrentLive(procs: seq<Process>, cpus: seq<Cpu>) {
    forall c :: 0 <= c < |cpus| && cpus[c].currentPid != 0 ==> Lookup(procs, cpus[c].currentPid).Some?
  }

  ghost predicate Inv(s: State) {
    Distinct(s.procs) && CpusApart(s.cpus) && AllOk(s.procs, s.cpus, s.cycle) && CurrentLive(s.procs, s.cpus) && s.lastPid <= MAX_PID
  }

  function SetCurrent(cpus: seq<Cpu>, c: nat, pid: nat): seq<Cpu>
    requires c < |cpus|
  {
    cpus[c := cpus[c].(currentPid := pid)]
  }

  lemma FindCpuAfter(cpus: seq<Cpu>, c: nat, pid: nat, apic: nat)
    requires c < |cpus|
    ensures FindCpu(SetCurrent(cpus, c, pid), apic) == FindCpu(cpus, apic)
  {
    var after, i, j := SetCurrent(cpus, c, pid), FindCpu(cpus, apic), FindCpu(SetCurrent(cpus, c, pid), apic);
    assert i < |cpus| ==> after[i].apicId == apic;
    assert j < |cpus| ==> cpus[j].apicId == apic;
  }

  lemma RunsOnAfter(cpus: seq<Cpu>, c: nat, pid: nat, q: nat)
    requires c < |cpus| && CpusApart(cpus) && q != 0 && (pid == 0 || cpus[c].currentPid == 0)
    ensures RunsOn(SetCurrent(cpus, c, pid), q) <==> q == pid || (RunsOn(cpus, q) && q != cpus[c].currentPid)
  {
    var after := SetCurrent(cpus, c, pid);
    if RunsOn(cpus, q) && q != cpus[c].currentPid {
      var d :| 0 <= d < |cpus| && cpus[d].currentPid == q;
      assert after[d].currentPid == q;
    }
    assert after[c].currentPid == pid;
  }

  lemma SavedKeepsInv(s: State, c: nat, frame: Registers)
    requires Inv(s) && c < |s.cpus|
    ensures Saved(s, c, frame).Some? && Inv(Saved(s, c, frame).value)
  {
    var pid := s.cpus[c].currentPid;
    if pid != 0 {
      assert Lookup(s.procs, pid).Some?;
      var k := FindPid(s.procs, pid);
      var s' := Saved(s, c, frame).value;
      forall q
        ensures Lookup(s.procs, q).Some? <==> Lookup(s'.procs, q).Some?
        ensures Lookup(s'.procs, q).Some? ==> ProcessOk(s'.cpus, s'.cycle, Lookup(s'.procs, q).value)
      {
        LookupUpdated(s.procs, k, s'.procs[k], q);
        if q != 0 { RunsOnAfter(s.cpus, c, 0, q); }
      }
    }
  }

  /** Scanning keeps the invariant: no process on a processor is removed or changed. */
  lemma SettledKeepsInv(s: State, procs: seq<Process>, keys: map<nat, nat>, cycle: nat)
    requires Inv(s) && Distinct(procs) && cycle >= s.cycle
    requires forall q {:trigger Lookup(procs, q)} :: Settled(Lookup(s.procs, q), Lookup(procs, q), s.ticks, Answers(keys, q))
    ensures Inv(s.(procs := procs, cycle := cycle))
  {
    forall c | 0 <= c < |s.cpus| && s.cpus[c].currentPid != 0 ensures Lookup(procs, s.cpus[c].currentPid).Some? {
      var q := s.cpus[c].currentPid;
      assert Lookup(s.procs, q).Some? && RunsOn(s.cpus, q);
      assert Settled(Lookup(s.procs, q), Lookup(procs, q), s.ticks, Answers(keys, q));
    }
    forall q | Lookup(procs, q).Some? ensures ProcessOk(s.cpus, cycle, Lookup(procs, q).value) {
      assert Settled(Lookup(s.procs, q), Lookup(procs, q), s.ticks, Answers(keys, q));
    }
  }

  lemma FirstScanKeepsInv(s: State, keys: map<nat, nat>, cycle: nat)
    requires Inv(s) && cycle >= s.cycle
    ensures Inv(s.(procs := FirstScan(s, keys).procs, cycle := cycle))
  {
    ScanSettles(s.procs, 0, s.cycle, s.ticks, keys, false, 0);
    forall q ensures Settled(Lookup(s.procs, q), Lookup(FirstScan(s, keys).procs, q), s.ticks, Answers(keys, q)) {
      ScanSettles(s.procs, 0, s.cycle, s.ticks, keys, false, q);
    }
    SettledKeepsInv(s, FirstScan(s, keys).procs, keys, cycle);
  }

  lemma DispatchKeepsInv(s: State, c: nat, k: nat, frame: Registers)
    requires Inv(s) && c < |s.cpus| && k < |s.procs| && s.cpus[c].currentPid == 0 && Eligible(s.procs[k])
    ensures Inv(Dispatch(s, c, k, frame).state)
  {
    var s', p := Dispatch(s, c, k, frame).state, s.procs[k];
    LookupAt(s.procs, k);
    assert ProcessOk(s.cpus, s.cycle, Lookup(s.procs, p.pid).value);
    forall q
      ensures Lookup(s.procs, q).Some? <==> Lookup(s'.procs, q).Some?
      ensures Lookup(s'.procs, q).Some? ==> ProcessOk(s'.cpus, s'.cycle, Lookup(s'.procs, q).value)
    {
      LookupUpdated(s.procs, k, s'.procs[k], q);
      if q != 0 { RunsOnAfter(s.cpus, c, p.pid, q); }
    }
  }

  lemma SettleKeepsInv(s: State, c: nat, frame: Registers, keys: map<nat, nat>)
    requires Inv(s) && c < |s.cpus| && s.cpus[c].currentPid == 0
    ensures Inv(Settle(s, c, frame, FirstScan(s, keys)).state)
  {
    var scan := FirstScan(s, keys);
    FirstScanKeepsInv(s, keys, s.cycle);
    ScanDecides(s.procs, 0, s.cycle, s.ticks, keys, false);
    if scan.verdict.Chosen? {
      DispatchKeepsInv(s.(procs := scan.procs), c, scan.at, frame);
    } else {
      assert s.cpus[c := s.cpus[c].(currentPid := 0)] == s.cpus;
    }
  }

  lemma PickNextKeepsInv(s: State, c: nat, frame: Registers, keys: map<nat, nat>, keysAgain: map<nat, nat>)
    requires Inv(s) && c < |s.cpus| && s.cpus[c].currentPid == 0
    ensures Inv(PickNext(s, c, frame, keys, keysAgain).state)
  {
    var first := FirstScan(s, keys);
    FirstScanKeepsInv(s, keys, s.cycle + 1);
    if first.verdict.EndOfList? && first.ran {
      SettleKeepsInv(s.(procs := first.procs, cycle := s.cycle + 1), c, frame, keysAgain);
    } else {
      SettleKeepsInv(s, c, frame, keys);
    }
  }

  lemma SavedIsIdle(s: State, c: nat, frame: Registers)
    requires Inv(s) && c < |s.cpus|
    ensures Saved(s, c, frame).Some? ==> |Saved(s, c, frame).value.cpus| == |s.cpus| && Saved(s, c, frame).value.cpus[c].currentPid == 0
  {
  }

  /** A process running on a processor is suspended and saved. */
  lemma SuspendedKeepsInv(s: State, c: nat, k: nat, frame: Registers, suspend: Suspension)
    requires Inv(s) && c < |s.cpus| && k < |s.procs| && s.cpus[c].currentPid == s.procs[k].pid && !suspend.Awake?
    ensures Inv(Suspended(s, c, k, frame, suspend).state) && Suspended(s, c, k, frame, suspend).outcome.Idle?
  {
    var pid := s.procs[k].pid;
    LookupAt(s.procs, k);
    assert ProcessOk(s.cpus, s.cycle, Lookup(s.procs, pid).value);
    assert RunsOn(s.cpus, pid);
    var p := s.procs[k].(suspend := suspend, pendingExit := s.procs[k].pendingExit || suspend.Exiting?);
    var procs1 := s.procs[k := p];
    LookupUpdated(s.procs, k, p, pid);
    LookupAt(procs1, k);
    var s' := Suspended(s, c, k, frame, suspend).state;
    var p' := p.(save := frame, lock := false);
    assert s'.procs == s.procs[k := p'];
    forall q
      ensures Lookup(s.procs, q).Some? <==> Lookup(s'.procs, q).Some?
      ensures Lookup(s'.procs, q).Some? ==> ProcessOk(s'.cpus, s'.cycle, Lookup(s'.procs, q).value)
    {
      LookupUpdated(s.procs, k, p', q);
      if q != 0 { RunsOnAfter(s.cpus, c, 0, q); }
    }
  }

  lemma KilledKeepsInv(s: State, c: nat)
    requires Inv(s) && c < |s.cpus|
    ensures Inv(Killed(s, c).state) && (Killed(s, c).outcome.Halted? <==> s.cpus[c].currentPid == 0)
  {
    var pid := s.cpus[c].currentPid;
    if pid != 0 {
      var k, s' := FindPid(s.procs, pid), Killed(s, c).state;
      assert Lookup(s.procs, pid).Some?;
      forall q
        ensures Lookup(s'.procs, q).Some? <==> Lookup(s.procs, q).Some? && q != pid
        ensures Lookup(s'.procs, q).Some? ==> ProcessOk(s'.cpus, s'.cycle, Lookup(s'.procs, q).value)
      {
        LookupRemoved(s.procs, k, q);
        if q != 0 { RunsOnAfter(s.cpus, c, 0, q); }
      }
      LookupRemoved(s.procs, k, 0);
    }
  }

  lemma {:induction false} FreePidIsFree(procs: seq<Process>, last: nat, tries: nat)
    requires last <= MAX_PID
    ensures var pid := FreePid(procs, last, tries); pid.Some? ==> 0 < pid.value <= MAX_PID && Lookup(procs, pid.value).None?
    decreases tries
  {
    if tries > 0 { FreePidIsFree(procs, NextPid(last), tries - 1); }
  }

  lemma LaunchedKeepsInv(s: State, launch: Launch)
    requires Inv(s) && Launched(s, launch).Some?
    ensures Inv(Launched(s, launch).value)
  {
    var s' := Launched(s, launch).value;
    FreePidIsFree(s.procs, s.lastPid, |s.procs| + 1);
    if !launch.Abandoned? {
      var p := NewProcess(s'.lastPid, launch);
      forall q
        ensures Lookup(s.procs, q).Some? ==> Lookup(s'.procs, q).Some?
        ensures Lookup(s'.procs, q).Some? ==> ProcessOk(s'.cpus, s'.cycle, Lookup(s'.procs, q).value)
      {
        LookupAppended(s.procs, p, q);
      }
      LookupAppended(s.procs, p, 0);
    }
  }

  lemma CallKeepsInv(s: State, c: nat, frame: Registers, call: Call)
    requires Inv(s) && c < |s.cpus| && FindPid(s.procs, s.cpus[c].currentPid) < |s.procs|
    ensures Inv(KernelCall(s, c, FindPid(s.procs, s.cpus[c].currentPid), frame, call).state)
    ensures !KernelCall(s, c, FindPid(s.procs, s.cpus[c].currentPid), frame, call).outcome.Halted?
  {
    var k := FindPid(s.procs, s.cpus[c].currentPid);
    LookupAt(s.procs, k);
    assert ProcessOk(s.cpus, s.cycle, Lookup(s.procs, s.procs[k].pid).value);
    assert RunsOn(s.cpus, s.procs[k].pid);
    match call
    case Return(value) =>
    case Sleep(units) => SuspendedKeepsInv(s, c, k, frame, SleepUntil(s.ticks, units));
    case Read(fd) => SuspendedKeepsInv(s, c, k, frame, Reading(fd));
    case Exit => SuspendedKeepsInv(s, c, k, frame, Exiting);
    case Run(launch) => if Launched(s, launch).Some? { LaunchedKeepsInv(s, launch); }
  }

  lemma SetUpNextKeepsInv(s: State, c: nat, frame: Registers, keys: map<nat, nat>, keysAgain: map<nat, nat>)
    requires Inv(s) && c < |s.cpus|
    ensures Inv(SetUpNext(s, c, frame, keys, keysAgain).state)
  {
    SavedKeepsInv(s, c, frame);
    SavedIsIdle(s, c, frame);
    PickNextKeepsInv(Saved(s, c, frame).value, c, frame, keys, keysAgain);
  }

  /** Every step keeps the invariant. */
  lemma NextKeepsInv(s: State, step: Step)
    requires Inv(s)
    ensures Inv(Next(s, step).state)
  {
    match step
    case Boot(launch) => if Launched(s, launch).Some? { LaunchedKeepsInv(s, launch); }
    case Interrupt(apic, frame, event) =>
      var c := FindCpu(s.cpus, apic);
      if c < |s.cpus| {
        match event
        case Timer(keys, keysAgain) => SetUpNextKeepsInv(Ticked(s, apic), c, frame, keys, keysAgain);
        case SystemCall(call) => if FindPid(s.procs, s.cpus[c].currentPid) < |s.procs| { CallKeepsInv(s, c, frame, call); }
        case Exception(user) => KilledKeepsInv(s, c);
        case Irq =>
        case Spurious =>
      }
  }
}
