/** The dispatcher as it runs: a process table edited in place, driven by interrupts. */
module Dispatching {
  import opened Base
  import opened Scheduler
  import opened Transitions
  import opened Outcomes

  class Dispatcher {
    var procs: seq<Process>
    var cpus: seq<Cpu>
    var cycle: nat
    var lastPid: nat
    var ticks: nat
    const bsp: nat
    /** The registers that the interrupt saved, and that its return loads. */
    var frame: Registers
    var cr3: nat

    function View(): State
      reads this
    {
      State(procs, cpus, cycle, lastPid, ticks, bsp)
    }

    constructor (apics: seq<nat>, bsp: nat, frame: Registers)
      requires forall c, d :: 0 <= c < d < |apics| ==> apics[c] != apics[d]
      ensures Inv(View())
      ensures View() == State([], seq(|apics|, c requires 0 <= c < |apics| => Cpu(apics[c], 0)), 0, 0, 0, bsp)
    {
      procs := [];
      cpus := seq(|apics|, c requires 0 <= c < |apics| => Cpu(apics[c], 0));
      cycle, lastPid, ticks := 0, 0, 0;
      this.bsp := bsp;
      this.frame := frame;
      cr3 := 0;
    }

    /** DispatcherFind. */
    method Find(pid: nat) returns (k: nat)
      ensures k == FindPid(procs, pid)
    {
      k := 0;
      while k < |procs| && procs[k].pid != pid
        invariant 0 <= k <= |procs|
        invariant forall j :: 0 <= j < k ==> procs[j].pid != pid
      {
        k := k + 1;
      }
    }

    /** DispatcherGetCpu; the length of the list where the source halts. */
    method GetCpu(apic: nat) returns (c: nat)
      ensures c == FindCpu(cpus, apic)
    {
      c := 0;
      while c < |cpus| && cpus[c].apicId != apic
        invariant 0 <= c <= |cpus|
        invariant forall d :: 0 <= d < c ==> cpus[d].apicId != apic
      {
        c := c + 1;
      }
    }

    /** DispatcherProcessDone: later entries move down by one. */
    method ProcessDone(pid: nat)
      modifies this`procs
      ensures procs == if FindPid(old(procs), pid) < |old(procs)| then Removed(old(procs), FindPid(old(procs), pid)) else old(procs)
    {
      var found := false;
      var i := 0;
      ghost var k := FindPid(procs, pid);
      while i < |procs|
        invariant 0 <= i <= |procs| == |old(procs)|
        invariant found <==> k < i
        invariant !found ==> procs == old(procs)
        invariant found ==> procs == Removed(old(procs), k)[..i - 1] + old(procs)[i - 1..]
      {
        if found {
          procs := procs[i - 1 := procs[i]];
        } else if procs[i].pid == pid {
          found := true;
        }
        i := i + 1;
      }
      if found {
        procs := procs[..i - 1];
      }
    }

    /** KernelFunctionSuspendTest, for a process that waits for a time or for the keyboard. */
    method SuspendTest(k: nat, keys: map<nat, nat>)
      requires k < |procs| && !Breaks(procs[k])
      modifies this`procs
      ensures procs == old(procs)[k := Tested(old(procs)[k], ticks, keys)]
    {
      match procs[k].suspend {
        case Sleeping(tick, overflow) =>
          if !overflow && ticks >= tick { Done(k, 0); }
        case Reading(_) =>
          if procs[k].pid in keys { Done(k, keys[procs[k].pid]); }
        case _ =>
      }
    }

    /** KernelFunctionDone. */
    method Done(k: nat, rax: nat)
      requires k < |procs|
      modifies this`procs
      ensures procs == old(procs)[k := Woken(old(procs)[k], rax)]
    {
      procs := procs[k := procs[k].(suspend := Awake)];
      procs := procs[k := procs[k].(save := procs[k].save.(rax := rax))];
    }

    /** DispatcherSave. */
    method Save(apic: nat) returns (halted: bool)
      modifies this`procs, this`cpus
      ensures var c := FindCpu(old(cpus), apic);
        halted <==> c == |old(cpus)| || Saved(old(View()), c, frame).None?
      ensures halted ==> View() == old(View())
      ensures !halted ==> View() == Saved(old(View()), FindCpu(old(cpus), apic), frame).value
      ensures FindCpu(cpus, apic) == FindCpu(old(cpus), apic)
    {
      var c := GetCpu(apic);
      if c == |cpus| {
        return true;
      }
      if cpus[c].currentPid != 0 {
        var k := Find(cpus[c].currentPid);
        if k == |procs| {
          return true;
        }
        procs := procs[k := procs[k].(save := frame)];
        procs := procs[k := procs[k].(lock := false)];
        FindCpuAfter(cpus, c, 0, apic);
        cpus := cpus[c := cpus[c].(currentPid := 0)];
      }
      return false;
    }

    /**
     The scan of DispatcherSetUpNext, which starts over where it is after an
     exiting process was removed.
     */
    method ScanList(keys: map<nat, nat>) returns (at: nat, verdict: Verdict, none: bool)
      modifies this`procs
      ensures Scan(procs, at, verdict, !none) == ScanFrom(old(procs), 0, cycle, ticks, keys, false)
    {
      at, none := 0, true;
      while at < |procs|
        invariant 0 <= at <= |procs|
        invariant ScanFrom(procs, at, cycle, ticks, keys, !none) == ScanFrom(old(procs), 0, cycle, ticks, keys, false)
        decreases |procs| - at
      {
        ghost var before := procs;
        if procs[at].pendingExit {
          ProcessDone(procs[at].pid);
          none := true;
          continue;
        }
        if !procs[at].suspend.Awake? {
          if Breaks(procs[at]) {
            return at, Broken, none;
          }
          SuspendTest(at, keys);
        }
        assert procs == before[at := Tested(before[at], ticks, keys)];
        var p := procs[at];
        if !p.run || p.lock || p.lastCycle == cycle || !p.suspend.Awake? {
          if p.lastCycle == cycle {
            none := false;
          }
          at := at + 1;
        } else {
          return at, Chosen, none;
        }
      }
      return at, EndOfList, none;
    }

    /** DispatcherSetUpNext: it always ends, after advancing the cycle at most once. */
    method SetUpNext(apic: nat, keys: map<nat, nat>, keysAgain: map<nat, nat>) returns (outcome: Outcome)
      requires Inv(View())
      modifies this
      ensures var c := FindCpu(old(cpus), apic);
        Reply(View(), outcome) == if c == |old(cpus)| then Reply(old(View()), Halted) else Transitions.SetUpNext(old(View()), c, old(frame), keys, keysAgain)
      ensures outcome.Dispatched? ==> frame == outcome.loaded && cr3 == outcome.cr3
      ensures !outcome.Dispatched? ==> !outcome.Resumed? && frame == old(frame) && cr3 == old(cr3)
    {
      var halted := Save(apic);
      if halted {
        return Halted;
      }
      var c := GetCpu(apic);
      SavedKeepsInv(old(View()), c, frame);
      SavedIsIdle(old(View()), c, frame);
      outcome := PickNext(c, keys, keysAgain);
    }

    /** DispatcherSetUpNext, once the interrupted process was saved. */
    method PickNext(c: nat, keys: map<nat, nat>, keysAgain: map<nat, nat>) returns (outcome: Outcome)
      requires Inv(View()) && c < |cpus|
      modifies this
      ensures Reply(View(), outcome) == Transitions.PickNext(old(View()), c, old(frame), keys, keysAgain)
      ensures outcome.Dispatched? ==> frame == outcome.loaded && cr3 == outcome.cr3
      ensures !outcome.Dispatched? ==> !outcome.Resumed? && frame == old(frame) && cr3 == old(cr3)
    {
      ghost var s, first := View(), FirstScan(View(), keys);
      var again := false;
      var at, verdict, none := ScanList(keys);
      if verdict.EndOfList? { AdvancesOnce(s, keys, keysAgain); }
      while verdict.EndOfList? && !none
        invariant frame == old(frame) && cr3 == old(cr3)
        invariant View() == s.(procs := procs, cycle := if again then s.cycle + 1 else s.cycle)
        invariant !again ==> Scan(procs, at, verdict, !none) == first
        invariant again ==> first.verdict.EndOfList? && first.ran && !(verdict.EndOfList? && !none)
        invariant again ==> Scan(procs, at, verdict, !none) == FirstScan(s.(procs := first.procs, cycle := s.cycle + 1), keysAgain)
        decreases !again
      {
        cycle := cycle + 1;
        again := true;
        at, verdict, none := ScanList(keysAgain);
      }
      match verdict {
        case Broken => return Halted;
        case EndOfList =>
          cpus := cpus[c := cpus[c].(currentPid := 0)];
          return Idle;
        case Chosen =>
          outcome := Load(c, at);
      }
    }

    /** The end of DispatcherSetUpNext: the chosen process is locked and its registers loaded. */
    method Load(c: nat, k: nat) returns (outcome: Outcome)
      requires c < |cpus| && k < |procs|
      modifies this
      ensures Reply(View(), outcome) == Dispatch(old(View()), c, k, old(frame))
      ensures outcome.Dispatched? && frame == outcome.loaded && cr3 == outcome.cr3
    {
      procs := procs[k := procs[k].(lastCycle := cycle)];
      procs := procs[k := procs[k].(lock := true)];
      cpus := cpus[c := cpus[c].(currentPid := procs[k].pid)];
      cr3 := procs[k].cr3;
      frame := procs[k].save.(rflags := frame.rflags);
      outcome := Dispatched(procs[k].pid, cr3, frame);
    }

    /** The pid search of DispatcherProcessNew. */
    method NewPid() returns (pid: nat)
      requires Inv(View()) && |procs| < MAX_PID
      modifies this`lastPid
      ensures FreePid(procs, old(lastPid), |procs| + 1) == Some(pid) && lastPid == pid
    {
      HungExactly(View(), Abandoned);
      ghost var left: nat := |procs| + 1;
      while true
        invariant FreePid(procs, lastPid, left) == FreePid(procs, old(lastPid), |procs| + 1)
        invariant FreePid(procs, lastPid, left).Some?
        decreases left
      {
        if lastPid == 0xFFFF {
          lastPid := 1;
        } else {
          lastPid := lastPid + 1;
        }
        var k := Find(lastPid);
        if k == |procs| {
          return lastPid;
        }
        left := left - 1;
      }
    }

    /** DispatcherProcessNew, as far as the process table goes. */
    method ProcessNew(launch: Launch)
      requires Inv(View()) && |procs| < MAX_PID
      modifies this`procs, this`lastPid
      ensures Launched(old(View()), launch) == Some(View()) && Inv(View())
    {
      LaunchKept(launch);
      var pid := NewPid();
      if !launch.Abandoned? {
        procs := procs + [Process(pid, false, 0, false, Awake, false, launch.cr3, launch.save)];
        if launch.Started? {
          procs := procs[|procs| - 1 := procs[|procs| - 1].(run := true)];
        }
        assert procs == old(procs) + [NewProcess(pid, launch)];
      }
    }

    lemma LaunchKept(launch: Launch)
      requires Inv(View()) && |procs| < MAX_PID
      ensures Launched(View(), launch).Some? && Inv(Launched(View(), launch).value)
    {
      HungExactly(View(), launch);
      LaunchedKeepsInv(View(), launch);
    }

    /** KernelFunctionSuspend. */
    method Suspend(apic: nat, k: nat, suspend: Suspension) returns (outcome: Outcome)
      requires k < |procs| && FindCpu(cpus, apic) < |cpus| && (suspend.Exiting? ==> procs[k].pendingExit)
      requires Suspended(View(), FindCpu(cpus, apic), k, frame, suspend).outcome.Idle?
      modifies this`procs, this`cpus
      ensures Reply(View(), outcome) == Suspended(old(View()), FindCpu(old(cpus), apic), k, frame, suspend)
    {
      procs := procs[k := procs[k].(suspend := suspend)];
      var halted := Save(apic);
      return if halted then Halted else Idle;
    }

    /** KernelFunctionExit. */
    method ExitProcess(apic: nat, k: nat) returns (outcome: Outcome)
      requires k < |procs| && FindCpu(cpus, apic) < |cpus|
      requires Suspended(View(), FindCpu(cpus, apic), k, frame, Exiting).outcome.Idle?
      modifies this`procs, this`cpus
      ensures Reply(View(), outcome) == Suspended(old(View()), FindCpu(old(cpus), apic), k, frame, Exiting)
    {
      procs := procs[k := procs[k].(pendingExit := true)];
      assert procs[k := procs[k].(suspend := Exiting)] == old(procs)[k := old(procs)[k].(suspend := Exiting, pendingExit := true)];
      outcome := Suspend(apic, k, Exiting);
    }

    /** The end of IdtCall. */
    method Return(apic: nat) returns (outcome: Outcome)
      requires FindCpu(cpus, apic) < |cpus|
      ensures Reply(View(), outcome) == Leave(View(), FindCpu(cpus, apic), frame)
    {
      var c := GetCpu(apic);
      return if cpus[c].currentPid == 0 then Idle else Resumed(frame);
    }

    /** KernelFunction, for the process at entry `k`, which the processor runs. */
    method KernelFunction(apic: nat, k: nat, call: Call) returns (outcome: Outcome)
      requires Inv(View()) && FindCpu(cpus, apic) < |cpus| && k == FindPid(procs, cpus[FindCpu(cpus, apic)].currentPid) < |procs|
      requires call.Run? ==> |procs| < MAX_PID
      modifies this
      ensures Reply(View(), outcome) == KernelCall(old(View()), FindCpu(old(cpus), apic), k, old(frame), call)
      ensures frame == if outcome.Resumed? then outcome.loaded else old(frame)
    {
      ghost var c := FindCpu(cpus, apic);
      CallKeepsInv(View(), c, frame, call);
      match call {
        case Return(value) => outcome := ReturnValue(apic, value);
        case Sleep(units) =>
          if !procs[k].suspend.Awake? {
            return Halted;
          }
          SuspendedKeepsInv(View(), c, k, frame, SleepUntil(ticks, units));
          var tick := (ticks + units * 10000 % TWO_64) % TWO_64;
          outcome := Suspend(apic, k, Sleeping(tick, tick < ticks));
        case Read(fd) =>
          SuspendedKeepsInv(View(), c, k, frame, Reading(fd));
          outcome := Suspend(apic, k, Reading(fd));
        case Exit =>
          SuspendedKeepsInv(View(), c, k, frame, Exiting);
          outcome := ExitProcess(apic, k);
        case Run(launch) =>
          ProcessNew(launch);
          outcome := ReturnValue(apic, if launch.Started? then lastPid else 0);
      }
    }

    /** The result of a kernel function goes to rax of its caller. */
    method ReturnValue(apic: nat, value: nat) returns (outcome: Outcome)
      requires FindCpu(cpus, apic) < |cpus|
      modifies this`frame
      ensures Reply(View(), outcome) == Leave(old(View()), FindCpu(cpus, apic), old(frame).(rax := value))
      ensures outcome.Resumed? ==> frame == outcome.loaded
      ensures !outcome.Resumed? ==> frame == old(frame)
    {
      var c := GetCpu(apic);
      if cpus[c].currentPid == 0 {
        return Idle;
      }
      frame := frame.(rax := value);
      return Resumed(frame);
    }

    /** The part of IdtCall for exceptions: the process that the processor runs is removed. */
    method Kill(apic: nat) returns (outcome: Outcome)
      requires FindCpu(cpus, apic) < |cpus|
      modifies this`procs, this`cpus
      ensures Reply(View(), outcome) == Killed(old(View()), FindCpu(old(cpus), apic))
    {
      var c := GetCpu(apic);
      var k := Find(cpus[c].currentPid);
      if cpus[c].currentPid == 0 || k == |procs| {
        return Halted;
      }
      ProcessDone(procs[k].pid);
      cpus := cpus[c := cpus[c].(currentPid := 0)];
      return Idle;
    }

    /** The part of IdtCall for the timer: the first processor counts the ticks. */
    method TimerTick(apic: nat, keys: map<nat, nat>, keysAgain: map<nat, nat>) returns (outcome: Outcome)
      requires Inv(View())
      modifies this
      ensures Reply(View(), outcome) == Next(old(View()), Interrupt(apic, old(frame), Timer(keys, keysAgain)))
      ensures outcome.Dispatched? ==> frame == outcome.loaded && cr3 == outcome.cr3
      ensures !outcome.Resumed?
    {
      CountTick(apic);
      outcome := SetUpNext(apic, keys, keysAgain);
    }

    method CountTick(apic: nat)
      requires Inv(View())
      modifies this`ticks
      ensures View() == Ticked(old(View()), apic) && Inv(View())
    {
      if apic == bsp {
        ticks := (ticks + 1) % TWO_64;
      }
    }

    /** The part of IdtCall for kernel functions. */
    method CallKernel(apic: nat, call: Call) returns (outcome: Outcome)
      requires Inv(View()) && (call.Run? ==> |procs| < MAX_PID)
      modifies this
      ensures Reply(View(), outcome) == Next(old(View()), Interrupt(apic, old(frame), SystemCall(call)))
      ensures outcome.Resumed? ==> frame == outcome.loaded
      ensures !outcome.Dispatched?
    {
      var c := GetCpu(apic);
      if c == |cpus| {
        return Halted;
      }
      var k := Find(cpus[c].currentPid);
      if k == |procs| {
        return Halted;
      }
      outcome := KernelFunction(apic, k, call);
    }

    /** IdtCall: one step of the machine. */
    method IdtCall(apic: nat, event: Event) returns (outcome: Outcome)
      requires Inv(View())
      requires event.SystemCall? && event.call.Run? ==> |procs| < MAX_PID
      modifies this
      ensures Reply(View(), outcome) == Next(old(View()), Interrupt(apic, old(frame), event)) && Inv(View())
      ensures outcome.Dispatched? || outcome.Resumed? ==> frame == outcome.loaded
      ensures outcome.Dispatched? ==> cr3 == outcome.cr3
    {
      NextKeepsInv(View(), Interrupt(apic, frame, event));
      match event {
        case Timer(keys, keysAgain) => outcome := TimerTick(apic, keys, keysAgain);
        case SystemCall(call) => outcome := CallKernel(apic, call);
        case Exception(user) =>
          var c := GetCpu(apic);
          if !user || c == |cpus| {
            return Halted;
          }
          outcome := Kill(apic);
        case Irq =>
          var c := GetCpu(apic);
          if c == |cpus| {
            return Halted;
          }
          outcome := Return(apic);
        case Spurious =>
          outcome := Halted;
      }
    }
  }
}
