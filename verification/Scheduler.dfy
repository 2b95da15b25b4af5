/**
 The process table and the scheduler, as a transition system. Every interrupt
 handler runs under one lock, so each handler is one step.
 */
module Scheduler {
  import opened Base

  datatype Registers = Registers(rsp: nat, rbp: nat, rip: nat, rflags: nat, rax: nat, rbx: nat, rcx: nat, rdx: nat, rsi: nat, rdi: nat,
                                 r8: nat, r9: nat, r10: nat, r11: nat, r12: nat, r13: nat, r14: nat, r15: nat)

  datatype Suspension = Awake | Sleeping(tick: nat, overflow: bool) | Reading(fd: nat) | Exiting

  datatype Process = Process(pid: nat, run: bool, lastCycle: nat, lock: bool, suspend: Suspension, pendingExit: bool,
                             cr3: nat, save: Registers)

  datatype Cpu = Cpu(apicId: nat, currentPid: nat)

  datatype State = State(procs: seq<Process>, cpus: seq<Cpu>, cycle: nat, lastPid: nat, ticks: nat, bsp: nat)

  const MAX_PID: nat := 0xFFFF
  const TWO_64: nat := 0x1_0000_0000_0000_0000
  const STDIN: nat := 0

  // ------------------------------------------------------------- process table

  /** Index of the first process with a pid, or the length of the table. */
  function FindPid(procs: seq<Process>, pid: nat): (k: nat)
    ensures k <= |procs|
    ensures forall j :: 0 <= j < k ==> procs[j].pid != pid
    ensures k < |procs| ==> procs[k].pid == pid
  {
    if procs == [] || procs[0].pid == pid then 0 else 1 + FindPid(procs[1..], pid)
  }

  function Lookup(procs: seq<Process>, pid: nat): Option<Process> {
    if FindPid(procs, pid) < |procs| then Some(procs[FindPid(procs, pid)]) else None
  }

  function FindCpu(cpus: seq<Cpu>, apic: nat): (c: nat)
    ensures c <= |cpus|
    ensures forall d :: 0 <= d < c ==> cpus[d].apicId != apic
    ensures c < |cpus| ==> cpus[c].apicId == apic
  {
    if cpus == [] || cpus[0].apicId == apic then 0 else 1 + FindCpu(cpus[1..], apic)
  }

  ghost predicate Distinct(procs: seq<Process>) {
    forall i, j :: 0 <= i < j < |procs| ==> procs[i].pid != procs[j].pid
  }

  /** The table without entry `k`. */
  function Removed(procs: seq<Process>, k: nat): seq<Process>
    requires k < |procs|
  {
    procs[..k] + procs[k + 1..]
  }

  lemma LookupAt(procs: seq<Process>, k: nat)
    requires Distinct(procs) && k < |procs|
    ensures FindPid(procs, procs[k].pid) == k
  {
  }

  lemma LookupUpdated(procs: seq<Process>, k: nat, p: Process, pid: nat)
    requires Distinct(procs) && k < |procs| && p.pid == procs[k].pid
    ensures Distinct(procs[k := p])
    ensures Lookup(procs[k := p], pid) == if pid == p.pid then Some(p) else Lookup(procs, pid)
  {
    var i, j := FindPid(procs, pid), FindPid(procs[k := p], pid);
    assert i < |procs| ==> procs[k := p][i].pid == pid;
    if j < |procs| {
      LookupAt(procs, j);
    }
  }

  lemma LookupRemoved(procs: seq<Process>, k: nat, pid: nat)
    requires Distinct(procs) && k < |procs|
    ensures Distinct(Removed(procs, k))
    ensures Lookup(Removed(procs, k), pid) == if pid == procs[k].pid then None else Lookup(procs, pid)
  {
    var after := Removed(procs, k);
    var i, j := FindPid(procs, pid), FindPid(after, pid);
    if j < |after| {
      LookupAt(procs, if j < k then j else j + 1);
    }
    assert i < |procs| && i != k ==> after[if i < k then i else i - 1] == procs[i];
  }

  lemma LookupAppended(procs: seq<Process>, p: Process, pid: nat)
    requires Distinct(procs) && Lookup(procs, p.pid).None?
    ensures Distinct(procs + [p])
    ensures Lookup(procs + [p], pid) == if pid == p.pid then Some(p) else Lookup(procs, pid)
  {
    var after := procs + [p];
    var i, j := FindPid(procs, pid), FindPid(after, pid);
    if i < |procs| {
      assert after[i] == procs[i];
    }
    if j < |procs| {
      LookupAt(procs, j);
    } else if pid == p.pid {
      assert after[|procs|] == p;
    }
  }

  // ---------------------------------------------------------------- the scan

  /** KernelFunctionDone: the suspension ends and its result is stored. */
  function Woken(p: Process, rax: nat): Process {
    p.(suspend := Awake, save := p.save.(rax := rax))
  }

  /** KernelFunctionSuspendTest. `keys` gives the result of each read that the keyboard completes now. */
  function Tested(p: Process, ticks: nat, keys: map<nat, nat>): Process {
    match p.suspend
    case Sleeping(tick, overflow) => if !overflow && ticks >= tick then Woken(p, 0) else p
    case Reading(_) => if p.pid in keys then Woken(p, keys[p.pid]) else p
    case _ => p
  }

  /** A read from anything but the keyboard stops the kernel when it is tested. */
  predicate Breaks(p: Process) {
    p.suspend.Reading? && p.suspend.fd != STDIN
  }

  predicate Eligible(p: Process) {
    p.run && !p.lock && p.suspend.Awake?
  }

  datatype Verdict = Chosen | EndOfList | Broken

  /** The table after a scan, where it stopped and why, and whether the flag that some process ran in this cycle is set. */
  datatype Scan = Scan(procs: seq<Process>, at: nat, verdict: Verdict, ran: bool)

  /** The scan of DispatcherSetUpNext from entry `k`; each exiting process is removed and clears the flag. */
  function ScanFrom(procs: seq<Process>, k: nat, cycle: nat, ticks: nat, keys: map<nat, nat>, ran: bool): Scan
    requires k <= |procs|
    decreases |procs| - k
  {
    if k == |procs| then Scan(procs, k, EndOfList, ran)
    else if procs[k].pendingExit then ScanFrom(Removed(procs, FindPid(procs, procs[k].pid)), k, cycle, ticks, keys, false)
    else if Breaks(procs[k]) then Scan(procs, k, Broken, ran)
    else
      var p := Tested(procs[k], ticks, keys);
      if Eligible(p) && p.lastCycle != cycle then Scan(procs[k := p], k, Chosen, ran)
      else ScanFrom(procs[k := p], k + 1, cycle, ticks, keys, ran || p.lastCycle == cycle)
  }

  /** The values that the keyboard has for a read of the process. */
  function Answers(keys: map<nat, nat>, pid: nat): set<nat> {
    if pid in keys then {keys[pid]} else {}
  }

  /** The suspension ended, as it may at this time and with these answers. */
  predicate Resumes(p: Process, p': Process, ticks: nat, answers: set<nat>) {
    p' == p ||
    (p' == Woken(p, p'.save.rax) &&
     match p.suspend
     case Sleeping(tick, overflow) => !overflow && ticks >= tick && p'.save.rax == 0
     case Reading(fd) => fd == STDIN && p'.save.rax in answers
     case _ => false)
  }

  /** What scanning may do to a process: nothing, end its suspension, or remove it if it is exiting. */
  predicate Settled(o: Option<Process>, o': Option<Process>, ticks: nat, answers: set<nat>) {
    match o
    case None => o'.None?
    case Some(p) => if o'.None? then p.pendingExit else Resumes(p, o'.value, ticks, answers)
  }

  lemma {:induction false} ScanSettles(procs: seq<Process>, k: nat, cycle: nat, ticks: nat, keys: map<nat, nat>, ran: bool, pid: nat)
    requires Distinct(procs) && k <= |procs|
    ensures var r := ScanFrom(procs, k, cycle, ticks, keys, ran);
      Distinct(r.procs) && Settled(Lookup(procs, pid), Lookup(r.procs, pid), ticks, Answers(keys, pid))
    decreases |procs| - k
  {
    if k < |procs| {
      LookupAt(procs, k);
      if procs[k].pendingExit {
        LookupRemoved(procs, k, pid);
        ScanSettles(Removed(procs, k), k, cycle, ticks, keys, false, pid);
      } else if !Breaks(procs[k]) {
        var p := Tested(procs[k], ticks, keys);
        LookupUpdated(procs, k, p, pid);
        if !(Eligible(p) && p.lastCycle != cycle) {
          ScanSettles(procs[k := p], k + 1, cycle, ticks, keys, ran || p.lastCycle == cycle, pid);
        }
      }
    }
  }

  /** One turn of the scan. */
  lemma ScanStep(procs: seq<Process>, k: nat, cycle: nat, ticks: nat, keys: map<nat, nat>, ran: bool)
    requires Distinct(procs) && k < |procs|
    ensures var r, p := ScanFrom(procs, k, cycle, ticks, keys, ran), Tested(procs[k], ticks, keys);
      r == if procs[k].pendingExit then ScanFrom(Removed(procs, k), k, cycle, ticks, keys, false)
        else if Breaks(procs[k]) then Scan(procs, k, Broken, ran)
        else if Eligible(p) && p.lastCycle != cycle then Scan(procs[k := p], k, Chosen, ran)
        else ScanFrom(procs[k := p], k + 1, cycle, ticks, keys, ran || p.lastCycle == cycle)
  {
    LookupAt(procs, k);
  }

  /** What is left of one process when the scan reached the end from entry `k`. */
  function Scanned(procs: seq<Process>, k: nat, ticks: nat, keys: map<nat, nat>, pid: nat): Option<Process>
    requires Lookup(procs, pid).Some?
  {
    var p := Lookup(procs, pid).value;
    if FindPid(procs, pid) < k then Some(p) else if p.pendingExit then None else Some(Tested(p, ticks, keys))
  }

  lemma ScannedRemoved(procs: seq<Process>, k: nat, ticks: nat, keys: map<nat, nat>, pid: nat)
    requires Distinct(procs) && k < |procs| && Lookup(procs, pid).Some? && procs[k].pid != pid
    ensures Distinct(Removed(procs, k)) && Lookup(Removed(procs, k), pid).Some?
    ensures Scanned(Removed(procs, k), k, ticks, keys, pid) == Scanned(procs, k, ticks, keys, pid)
  {
    var i := FindPid(procs, pid);
    LookupRemoved(procs, k, pid);
    LookupAt(Removed(procs, k), if i < k then i else i - 1);
  }

  lemma ScannedTested(procs: seq<Process>, k: nat, ticks: nat, keys: map<nat, nat>, pid: nat)
    requires Distinct(procs) && k < |procs| && Lookup(procs, pid).Some? && !procs[k].pendingExit
    ensures var after := procs[k := Tested(procs[k], ticks, keys)];
      Distinct(after) && Lookup(after, pid).Some? && Scanned(after, k + 1, ticks, keys, pid) == Scanned(procs, k, ticks, keys, pid)
  {
    var p := Tested(procs[k], ticks, keys);
    LookupUpdated(procs, k, p, pid);
    LookupAt(procs[k := p], FindPid(procs, pid));
  }

  /** A scan that reaches the end has tested every process from entry `k` on and removed those that were exiting. */
  lemma {:induction false} ScanTests(procs: seq<Process>, k: nat, cycle: nat, ticks: nat, keys: map<nat, nat>, ran: bool, pid: nat)
    requires Distinct(procs) && k <= |procs| && Lookup(procs, pid).Some?
    ensures var r := ScanFrom(procs, k, cycle, ticks, keys, ran);
      r.verdict.EndOfList? ==> Lookup(r.procs, pid) == Scanned(procs, k, ticks, keys, pid)
    decreases |procs| - k
  {
    if k < |procs| {
      ScanStep(procs, k, cycle, ticks, keys, ran);
      var p := Tested(procs[k], ticks, keys);
      if procs[k].pendingExit && procs[k].pid == pid {
        LookupAt(procs, k);
        LookupRemoved(procs, k, pid);
        ScanSettles(Removed(procs, k), k, cycle, ticks, keys, false, pid);
      } else if procs[k].pendingExit {
        ScannedRemoved(procs, k, ticks, keys, pid);
        ScanTests(Removed(procs, k), k, cycle, ticks, keys, false, pid);
      } else if !Breaks(procs[k]) && !(Eligible(p) && p.lastCycle != cycle) {
        ScannedTested(procs, k, ticks, keys, pid);
        ScanTests(procs[k := p], k + 1, cycle, ticks, keys, ran || p.lastCycle == cycle, pid);
      }
    }
  }

  /** Could be chosen in this cycle. */
  predicate Waiting(p: Process, cycle: nat) {
    Eligible(p) && !p.pendingExit && p.lastCycle != cycle
  }

  /** The first `k` processes are not exiting and not to be chosen in this cycle. */
  ghost predicate PassedOver(procs: seq<Process>, k: nat, cycle: nat) {
    forall j :: 0 <= j < k && j < |procs| ==> !Waiting(procs[j], cycle) && !procs[j].pendingExit
  }

  /** Some process that ran in this cycle lies behind every exiting process from entry `k` on. */
  ghost predicate LateRunner(procs: seq<Process>, k: nat, cycle: nat) {
    exists j :: k <= j < |procs| && RunnerLast(procs, j, cycle)
  }

  ghost predicate RunnerLast(procs: seq<Process>, j: nat, cycle: nat)
    requires j < |procs|
  {
    procs[j].lastCycle == cycle && NoExits(procs, j)
  }

  ghost predicate NoExits(procs: seq<Process>, k: nat) {
    forall i :: k <= i < |procs| ==> !procs[i].pendingExit
  }

  /**
   What a scan decides. It chooses the first process that may run in this
   cycle, and reaches the end only if there is none.
   */
  lemma {:induction false} ScanDecides(procs: seq<Process>, k: nat, cycle: nat, ticks: nat, keys: map<nat, nat>, ran: bool)
    requires Distinct(procs) && k <= |procs|
    requires PassedOver(procs, k, cycle)
    ensures var r := ScanFrom(procs, k, cycle, ticks, keys, ran);
      && k <= r.at <= |r.procs| <= |procs|
      && (r.verdict.EndOfList? <==> r.at == |r.procs|)
      && PassedOver(r.procs, r.at, cycle)
      && (r.verdict.Chosen? ==> Waiting(r.procs[r.at], cycle))
    decreases |procs| - k
  {
    if k < |procs| {
      LookupAt(procs, k);
      var p := Tested(procs[k], ticks, keys);
      if procs[k].pendingExit {
        ScanDecides(Removed(procs, k), k, cycle, ticks, keys, false);
      } else if !Breaks(procs[k]) && !(Eligible(p) && p.lastCycle != cycle) {
        ScanDecides(procs[k := p], k + 1, cycle, ticks, keys, ran || p.lastCycle == cycle);
      }
    }
  }

  /** When the end is reached, the flag tells exactly whether a process that ran in this cycle lies behind every exiting one. */
  lemma {:induction false} ScanRan(procs: seq<Process>, k: nat, cycle: nat, ticks: nat, keys: map<nat, nat>, ran: bool)
    requires Distinct(procs) && k <= |procs|
    ensures var r := ScanFrom(procs, k, cycle, ticks, keys, ran);
      r.verdict.EndOfList? ==>
        && (r.ran <==> LateRunner(procs, k, cycle) || (ran && NoExits(procs, k)))
        && (NoExits(procs, k) <==> |r.procs| == |procs|)
    decreases |procs| - k
  {
    if k < |procs| {
      LookupAt(procs, k);
      var p := Tested(procs[k], ticks, keys);
      if procs[k].pendingExit {
        var after := Removed(procs, k);
        ScanRan(after, k, cycle, ticks, keys, false);
        ScanShrinks(after, k, cycle, ticks, keys, false);
        LateRunnerRemoved(procs, k, cycle);
      } else if !Breaks(procs[k]) && !(Eligible(p) && p.lastCycle != cycle) {
        var after := procs[k := p];
        ScanRan(after, k + 1, cycle, ticks, keys, ran || p.lastCycle == cycle);
        LateRunnerTested(procs, k, p, cycle);
      }
    }
  }

  lemma LateRunnerRemoved(procs: seq<Process>, k: nat, cycle: nat)
    requires k < |procs| && procs[k].pendingExit
    ensures LateRunner(Removed(procs, k), k, cycle) <==> LateRunner(procs, k, cycle)
  {
    var after := Removed(procs, k);
    if LateRunner(after, k, cycle) {
      var j :| k <= j < |after| && RunnerLast(after, j, cycle);
      forall i | j + 1 <= i < |procs| ensures !procs[i].pendingExit {
        assert procs[i] == after[i - 1];
      }
      assert RunnerLast(procs, j + 1, cycle);
    }
    if LateRunner(procs, k, cycle) {
      var j :| k <= j < |procs| && RunnerLast(procs, j, cycle);
      assert j != k;
      forall i | j - 1 <= i < |after| ensures !after[i].pendingExit {
        assert procs[i + 1] == after[i];
      }
      assert RunnerLast(after, j - 1, cycle);
    }
  }

  lemma LateRunnerTested(procs: seq<Process>, k: nat, p: Process, cycle: nat)
    requires k < |procs| && !procs[k].pendingExit && p.lastCycle == procs[k].lastCycle && p.pendingExit == procs[k].pendingExit
    ensures NoExits(procs[k := p], k + 1) <==> NoExits(procs, k)
    ensures LateRunner(procs, k, cycle) <==>
      LateRunner(procs[k := p], k + 1, cycle) || (p.lastCycle == cycle && NoExits(procs, k))
  {
    var after := procs[k := p];
    assert forall j :: k < j < |procs| ==> after[j] == procs[j];
    if LateRunner(procs, k, cycle) {
      var j :| k <= j < |procs| && RunnerLast(procs, j, cycle);
      if j > k { assert RunnerLast(after, j, cycle); }
    }
    if LateRunner(after, k + 1, cycle) {
      var j :| k + 1 <= j < |after| && RunnerLast(after, j, cycle);
      assert RunnerLast(procs, j, cycle);
    }
    if p.lastCycle == cycle && NoExits(procs, k) { assert RunnerLast(procs, k, cycle); }
  }

  lemma {:induction false} ScanShrinks(procs: seq<Process>, k: nat, cycle: nat, ticks: nat, keys: map<nat, nat>, ran: bool)
    requires k <= |procs|
    ensures |ScanFrom(procs, k, cycle, ticks, keys, ran).procs| <= |procs|
    decreases |procs| - k
  {
    if k < |procs| {
      var p := Tested(procs[k], ticks, keys);
      if procs[k].pendingExit {
        ScanShrinks(Removed(procs, FindPid(procs, procs[k].pid)), k, cycle, ticks, keys, false);
      } else if !Breaks(procs[k]) && !(Eligible(p) && p.lastCycle != cycle) {
        ScanShrinks(procs[k := p], k + 1, cycle, ticks, keys, ran || p.lastCycle == cycle);
      }
    }
  }
}
