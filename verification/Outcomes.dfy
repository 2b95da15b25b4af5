/** When a handler idles, advances the cycle, halts the kernel, or does not end. */
module Outcomes {
  import opened Base
  import opened Scheduler
  import opened Transitions

  // -------------------------------------------------------------- idle or not

  predicate Runnable(p: Process) { Eligible(p) && !p.pendingExit }

  predicate SomeRunnable(procs: seq<Process>) {
    exists k :: 0 <= k < |procs| && Runnable(procs[k])
  }

  /** All processes that may run have run in this cycle. */
  predicate AllRan(procs: seq<Process>, cycle: nat) {
    forall k :: 0 <= k < |procs| && Runnable(procs[k]) ==> procs[k].lastCycle == cycle
  }

  lemma LastCycleBound(s: State, k: nat)
    requires Inv(s) && k < |s.procs|
    ensures ProcessOk(s.cpus, s.cycle, s.procs[k])
  {
    LookupAt(s.procs, k);
    assert Lookup(s.procs, s.procs[k].pid).Some?;
  }

  /** After the cycle was advanced the flag stays clear, so that it is advanced at most once a call. */
  lemma AdvancesOnce(s: State, keys: map<nat, nat>, keysAgain: map<nat, nat>)
    requires Inv(s) && FirstScan(s, keys).verdict.EndOfList?
    ensures var again := FirstScan(s.(procs := FirstScan(s, keys).procs, cycle := s.cycle + 1), keysAgain);
      again.verdict.EndOfList? ==> !again.ran && !SomeRunnable(again.procs)
  {
    var s' := s.(procs := FirstScan(s, keys).procs, cycle := s.cycle + 1);
    FirstScanKeepsInv(s, keys, s.cycle);
    FirstScanKeepsInv(s, keys, s.cycle + 1);
    forall k | 0 <= k < |s'.procs| ensures s'.procs[k].lastCycle < s'.cycle {
      LastCycleBound(s'.(cycle := s.cycle), k);
    }
    ScanRan(s'.procs, 0, s'.cycle, s'.ticks, keysAgain, false);
    ScanDecides(s'.procs, 0, s'.cycle, s'.ticks, keysAgain, false);
    var again := FirstScan(s', keysAgain);
    FirstScanKeepsInv(s', keysAgain, s'.cycle);
    forall k | again.verdict.EndOfList? && 0 <= k < |again.procs| ensures again.procs[k].lastCycle != s'.cycle {
      LookupAt(again.procs, k);
      ScanSettles(s'.procs, 0, s'.cycle, s'.ticks, keysAgain, false, again.procs[k].pid);
      LookupAt(s'.procs, FindPid(s'.procs, again.procs[k].pid));
    }
  }

  /** The cycle advances only when every process that may run has run in it, and some process has. */
  lemma CycleAdvances(s: State, c: nat, frame: Registers, keys: map<nat, nat>, keysAgain: map<nat, nat>)
    requires Inv(s) && c < |s.cpus|
    ensures var r := PickNext(s, c, frame, keys, keysAgain);
      && s.cycle <= r.state.cycle <= s.cycle + 1
      && (r.state.cycle > s.cycle ==> AllRan(FirstScan(s, keys).procs, s.cycle) && LateRunner(s.procs, 0, s.cycle))
  {
    ScanDecides(s.procs, 0, s.cycle, s.ticks, keys, false);
    ScanRan(s.procs, 0, s.cycle, s.ticks, keys, false);
  }

  /** The scan passes over the process: it is exiting, or its test succeeds and it may not run in this cycle. */
  predicate Passes(p: Process, cycle: nat, ticks: nat, keys: map<nat, nat>) {
    p.pendingExit || (!Breaks(p) && !(Eligible(Tested(p, ticks, keys)) && p.lastCycle != cycle))
  }

  /** The process can run once its suspension was tested. */
  predicate Wakeable(p: Process, ticks: nat, keys: map<nat, nat>) {
    !p.pendingExit && Eligible(Tested(p, ticks, keys))
  }

  /** What is left of these processes when a scan has passed over them. */
  function Left(procs: seq<Process>, ticks: nat, keys: map<nat, nat>): seq<Process> {
    if procs == [] then []
    else (if procs[0].pendingExit then [] else [Tested(procs[0], ticks, keys)]) + Left(procs[1..], ticks, keys)
  }

  /** How many processes a scan passes over. */
  function Passed(procs: seq<Process>, cycle: nat, ticks: nat, keys: map<nat, nat>): (n: nat)
    ensures n <= |procs| && (n < |procs| ==> !Passes(procs[n], cycle, ticks, keys))
  {
    if procs == [] || !Passes(procs[0], cycle, ticks, keys) then 0 else 1 + Passed(procs[1..], cycle, ticks, keys)
  }

  /** The scan ends as one pass over `rest`, behind the processes in `done`, would end. */
  predicate OnePass(r: Scan, done: seq<Process>, rest: seq<Process>, cycle: nat, ticks: nat, keys: map<nat, nat>) {
    var n := Passed(rest, cycle, ticks, keys);
    var kept := done + Left(rest[..n], ticks, keys);
    && r.at == |kept|
    && if n == |rest| then r.procs == kept && r.verdict == EndOfList
       else if Breaks(rest[n]) then r.procs == kept + rest[n..] && r.verdict == Broken
       else r.procs == kept + [Tested(rest[n], ticks, keys)] + rest[n + 1..] && r.verdict == Chosen
  }

  lemma OnePassOn(r: Scan, done: seq<Process>, rest: seq<Process>, cycle: nat, ticks: nat, keys: map<nat, nat>)
    requires rest != [] && Passes(rest[0], cycle, ticks, keys)
    requires OnePass(r, done + if rest[0].pendingExit then [] else [Tested(rest[0], ticks, keys)], rest[1..], cycle, ticks, keys)
    ensures OnePass(r, done, rest, cycle, ticks, keys)
  {
    var n, kept := Passed(rest, cycle, ticks, keys), if rest[0].pendingExit then [] else [Tested(rest[0], ticks, keys)];
    assert rest[..n][1..] == rest[1..][..n - 1];
    assert done + kept + Left(rest[1..][..n - 1], ticks, keys) == done + Left(rest[..n], ticks, keys);
    assert rest[1..][n - 1..] == rest[n..];
    if n < |rest| { assert rest[1..][n..] == rest[n + 1..]; }
  }

  /**
   The scan, which shortens the table it walks and starts again after each
   removal, is one pass from left to right: up to the first process that it does
   not pass over, exiting processes go and all others are tested, and nothing
   behind that one changes.
   */
  lemma {:induction false} ScanIs(done: seq<Process>, rest: seq<Process>, cycle: nat, ticks: nat, keys: map<nat, nat>, ran: bool)
    requires Distinct(done + rest)
    ensures OnePass(ScanFrom(done + rest, |done|, cycle, ticks, keys, ran), done, rest, cycle, ticks, keys)
    decreases |rest|
  {
    var procs, k := done + rest, |done|;
    if rest == [] {
      assert procs == done;
    } else {
      var p := Tested(rest[0], ticks, keys);
      ScanStep(procs, k, cycle, ticks, keys, ran);
      assert procs[k] == rest[0] && procs[k := p] == done + [p] + rest[1..];
      if rest[0].pendingExit {
        LookupRemoved(procs, k, 0);
        assert Removed(procs, k) == done + rest[1..] && done + [] == done;
        ScanIs(done, rest[1..], cycle, ticks, keys, false);
        OnePassOn(ScanFrom(procs, k, cycle, ticks, keys, ran), done, rest, cycle, ticks, keys);
      } else if Passes(rest[0], cycle, ticks, keys) {
        LookupUpdated(procs, k, p, 0);
        ScanIs(done + [p], rest[1..], cycle, ticks, keys, ran || p.lastCycle == cycle);
        OnePassOn(ScanFrom(procs, k, cycle, ticks, keys, ran), done, rest, cycle, ticks, keys);
      }
    }
  }

  ghost predicate AllPass(procs: seq<Process>, k: nat, cycle: nat, ticks: nat, keys: map<nat, nat>) {
    forall j :: k <= j < |procs| ==> Passes(procs[j], cycle, ticks, keys)
  }

  ghost predicate SomeWakeable(procs: seq<Process>, k: nat, ticks: nat, keys: map<nat, nat>) {
    exists j :: k <= j < |procs| && Wakeable(procs[j], ticks, keys)
  }

  /** A process before entry `k` can run, or one from there on can once it was tested. */
  ghost predicate CanRun(procs: seq<Process>, k: nat, ticks: nat, keys: map<nat, nat>) {
    (exists j :: 0 <= j < k && j < |procs| && Runnable(procs[j])) || SomeWakeable(procs, k, ticks, keys)
  }

  lemma AllPassRemoved(procs: seq<Process>, k: nat, cycle: nat, ticks: nat, keys: map<nat, nat>)
    requires k < |procs| && procs[k].pendingExit
    ensures AllPass(procs, k, cycle, ticks, keys) <==> AllPass(Removed(procs, k), k, cycle, ticks, keys)
  {
    var after := Removed(procs, k);
    assert forall j :: k < j < |procs| ==> procs[j] == after[j - 1];
    if AllPass(procs, k, cycle, ticks, keys) {
      forall j | k <= j < |after| ensures Passes(after[j], cycle, ticks, keys) { assert after[j] == procs[j + 1]; }
    }
  }

  lemma AllPassTested(procs: seq<Process>, k: nat, p: Process, cycle: nat, ticks: nat, keys: map<nat, nat>)
    requires k < |procs| && Passes(procs[k], cycle, ticks, keys)
    ensures AllPass(procs, k, cycle, ticks, keys) <==> AllPass(procs[k := p], k + 1, cycle, ticks, keys)
  {
    var after := procs[k := p];
    assert forall j :: k < j < |procs| ==> after[j] == procs[j];
  }

  lemma CanRunRemoved(procs: seq<Process>, k: nat, ticks: nat, keys: map<nat, nat>)
    requires k < |procs| && procs[k].pendingExit
    ensures CanRun(procs, k, ticks, keys) <==> CanRun(Removed(procs, k), k, ticks, keys)
  {
    var after := Removed(procs, k);
    assert forall j :: k < j < |procs| ==> procs[j] == after[j - 1];
    assert forall j :: 0 <= j < k ==> procs[j] == after[j];
    if SomeWakeable(after, k, ticks, keys) {
      var j :| k <= j < |after| && Wakeable(after[j], ticks, keys);
      assert Wakeable(procs[j + 1], ticks, keys);
    }
  }

  lemma CanRunTested(procs: seq<Process>, k: nat, p: Process, ticks: nat, keys: map<nat, nat>)
    requires k < |procs| && (Runnable(p) <==> Wakeable(procs[k], ticks, keys))
    ensures CanRun(procs, k, ticks, keys) <==> CanRun(procs[k := p], k + 1, ticks, keys)
  {
    var after := procs[k := p];
    assert forall j :: 0 <= j < |procs| && j != k ==> after[j] == procs[j];
    assert after[k] == p;
  }

  /** The scan reaches the end of the list exactly if it passes over every process, as one can tell before it starts. */
  lemma {:induction false} ScanEndsIff(procs: seq<Process>, k: nat, cycle: nat, ticks: nat, keys: map<nat, nat>, ran: bool)
    requires Distinct(procs) && k <= |procs|
    ensures ScanFrom(procs, k, cycle, ticks, keys, ran).verdict.EndOfList? <==> AllPass(procs, k, cycle, ticks, keys)
    decreases |procs| - k
  {
    if k < |procs| {
      LookupAt(procs, k);
      var p := Tested(procs[k], ticks, keys);
      if procs[k].pendingExit {
        AllPassRemoved(procs, k, cycle, ticks, keys);
        ScanEndsIff(Removed(procs, k), k, cycle, ticks, keys, false);
      } else if !Breaks(procs[k]) && !(Eligible(p) && p.lastCycle != cycle) {
        AllPassTested(procs, k, p, cycle, ticks, keys);
        ScanEndsIff(procs[k := p], k + 1, cycle, ticks, keys, ran || p.lastCycle == cycle);
      } else {
        assert !Passes(procs[k], cycle, ticks, keys);
      }
    }
  }

  /** What can run after a scan that reached the end is what could run, once tested, before it. */
  lemma {:induction false} ScanLeavesRunnable(procs: seq<Process>, k: nat, cycle: nat, ticks: nat, keys: map<nat, nat>, ran: bool)
    requires Distinct(procs) && k <= |procs|
    ensures var r := ScanFrom(procs, k, cycle, ticks, keys, ran);
      r.verdict.EndOfList? ==> (SomeRunnable(r.procs) <==> CanRun(procs, k, ticks, keys))
    decreases |procs| - k
  {
    if k < |procs| {
      LookupAt(procs, k);
      var p := Tested(procs[k], ticks, keys);
      if procs[k].pendingExit {
        CanRunRemoved(procs, k, ticks, keys);
        ScanLeavesRunnable(Removed(procs, k), k, cycle, ticks, keys, false);
      } else if !Breaks(procs[k]) && !(Eligible(p) && p.lastCycle != cycle) {
        CanRunTested(procs, k, p, ticks, keys);
        ScanLeavesRunnable(procs[k := p], k + 1, cycle, ticks, keys, ran || p.lastCycle == cycle);
      }
    }
  }

  /**
   Exactly when a processor is left idle although a process could run, told from
   the table before the scan: every process is passed over, so that those that
   can run have run in this cycle; one of them can run; and some process is
   exiting with none that ran in this cycle behind the last such, so that the
   flag that would advance the cycle is lost.
   */
  lemma IdleWhileRunnable(s: State, c: nat, frame: Registers, keys: map<nat, nat>, keysAgain: map<nat, nat>)
    requires Inv(s) && c < |s.cpus|
    ensures var r := PickNext(s, c, frame, keys, keysAgain);
      r.outcome.Idle? && SomeRunnable(r.state.procs) <==>
        && AllPass(s.procs, 0, s.cycle, s.ticks, keys)
        && SomeWakeable(s.procs, 0, s.ticks, keys)
        && !NoExits(s.procs, 0) && !LateRunner(s.procs, 0, s.cycle)
  {
    ScanEndsIff(s.procs, 0, s.cycle, s.ticks, keys, false);
    ScanLeavesRunnable(s.procs, 0, s.cycle, s.ticks, keys, false);
    IdleAfterScan(s, c, frame, keys, keysAgain);
  }

  lemma IdleAfterScan(s: State, c: nat, frame: Registers, keys: map<nat, nat>, keysAgain: map<nat, nat>)
    requires Inv(s) && c < |s.cpus|
    ensures var r := PickNext(s, c, frame, keys, keysAgain);
      r.outcome.Idle? && SomeRunnable(r.state.procs) <==>
        && FirstScan(s, keys).verdict.EndOfList? && SomeRunnable(FirstScan(s, keys).procs)
        && !NoExits(s.procs, 0) && !LateRunner(s.procs, 0, s.cycle)
  {
    var first := FirstScan(s, keys);
    ScanDecides(s.procs, 0, s.cycle, s.ticks, keys, false);
    ScanRan(s.procs, 0, s.cycle, s.ticks, keys, false);
    if first.verdict.EndOfList? && first.ran {
      AdvancesOnce(s, keys, keysAgain);
    } else if first.verdict.EndOfList? && NoExits(s.procs, 0) && SomeRunnable(first.procs) {
      var k :| 0 <= k < |first.procs| && Runnable(first.procs[k]);
      FirstScanKeepsInv(s, keys, s.cycle);
      LookupAt(first.procs, k);
      ScanSettles(s.procs, 0, s.cycle, s.ticks, keys, false, first.procs[k].pid);
      assert first.procs[k].lastCycle == s.cycle;
      assert RunnerLast(s.procs, FindPid(s.procs, first.procs[k].pid), s.cycle);
    }
  }

  /** With no exiting process a processor idles only if nothing can run. */
  lemma IdleMeansNothingToRun(s: State, c: nat, frame: Registers, keys: map<nat, nat>, keysAgain: map<nat, nat>)
    requires Inv(s) && c < |s.cpus| && NoExits(s.procs, 0)
    ensures var r := PickNext(s, c, frame, keys, keysAgain);
      r.outcome.Idle? ==> !SomeRunnable(r.state.procs)
  {
    IdleWhileRunnable(s, c, frame, keys, keysAgain);
  }

  /** A concrete case: one process has run in this cycle, the one behind it is exiting, and the processor idles. */
  lemma IdlesBesideRunnable(frame: Registers) returns (s: State)
    ensures Inv(s) && |s.cpus| == 1 && SomeRunnable(s.procs)
    ensures PickNext(s, 0, frame, map[], map[]).outcome.Idle?
    ensures SomeRunnable(PickNext(s, 0, frame, map[], map[]).state.procs)
  {
    var p := Process(1, true, 7, false, Awake, false, 0, frame);
    var q := Process(2, true, 7, false, Exiting, true, 0, frame);
    s := State([p, q], [Cpu(0, 0)], 7, 2, 0, 0);
    assert Inv(s) by {
      assert forall pid :: Lookup(s.procs, pid).Some? ==> Lookup(s.procs, pid).value == p || Lookup(s.procs, pid).value == q;
    }
    assert Runnable(s.procs[0]);
    LookupAt(s.procs, 1);
    assert Removed(s.procs, 1) == [p];
    assert s.procs[0 := p] == s.procs;
    assert ScanFrom([p], 1, 7, 0, map[], false) == Scan([p], 1, EndOfList, false);
    assert ScanFrom([p, q], 1, 7, 0, map[], true) == ScanFrom([p], 1, 7, 0, map[], false);
    assert FirstScan(s, map[]) == Scan([p], 1, EndOfList, false);
    assert Runnable(PickNext(s, 0, frame, map[], map[]).state.procs[0]);
  }

  // --------------------------------------------------------- halting the kernel

  /** Process `j` breaks the scan from `k`: its test stops the kernel, and the scan passes over all before it. */
  ghost predicate BreaksAt(procs: seq<Process>, k: nat, j: nat, cycle: nat, ticks: nat, keys: map<nat, nat>)
    requires j < |procs|
  {
    !procs[j].pendingExit && Breaks(procs[j]) && forall i :: k <= i < j ==> Passes(procs[i], cycle, ticks, keys)
  }

  ghost predicate SomeBreaks(procs: seq<Process>, k: nat, cycle: nat, ticks: nat, keys: map<nat, nat>) {
    exists j :: k <= j < |procs| && BreaksAt(procs, k, j, cycle, ticks, keys)
  }

  lemma BreaksShifted(procs: seq<Process>, k: nat, cycle: nat, ticks: nat, keys: map<nat, nat>)
    requires k < |procs| && procs[k].pendingExit
    ensures SomeBreaks(procs, k, cycle, ticks, keys) <==> SomeBreaks(Removed(procs, k), k, cycle, ticks, keys)
  {
    var after := Removed(procs, k);
    assert forall j :: k < j < |procs| ==> procs[j] == after[j - 1];
    if SomeBreaks(procs, k, cycle, ticks, keys) {
      var j :| k <= j < |procs| && BreaksAt(procs, k, j, cycle, ticks, keys);
      forall i | k <= i < j - 1 ensures Passes(after[i], cycle, ticks, keys) { assert after[i] == procs[i + 1]; }
      assert BreaksAt(after, k, j - 1, cycle, ticks, keys);
    }
    if SomeBreaks(after, k, cycle, ticks, keys) {
      var j :| k <= j < |after| && BreaksAt(after, k, j, cycle, ticks, keys);
      forall i | k <= i < j + 1 ensures Passes(procs[i], cycle, ticks, keys) { assert i > k ==> procs[i] == after[i - 1]; }
      assert procs[j + 1] == after[j];
      assert BreaksAt(procs, k, j + 1, cycle, ticks, keys);
    }
  }

  lemma BreaksAdvanced(procs: seq<Process>, k: nat, p: Process, cycle: nat, ticks: nat, keys: map<nat, nat>)
    requires k < |procs| && !procs[k].pendingExit && Passes(procs[k], cycle, ticks, keys)
    ensures SomeBreaks(procs, k, cycle, ticks, keys) <==> SomeBreaks(procs[k := p], k + 1, cycle, ticks, keys)
  {
    var after := procs[k := p];
    if SomeBreaks(procs, k, cycle, ticks, keys) {
      var j :| k <= j < |procs| && BreaksAt(procs, k, j, cycle, ticks, keys);
      assert BreaksAt(after, k + 1, j, cycle, ticks, keys);
    }
    if SomeBreaks(after, k + 1, cycle, ticks, keys) {
      var j :| k + 1 <= j < |after| && BreaksAt(after, k + 1, j, cycle, ticks, keys);
      forall i | k <= i < j ensures Passes(procs[i], cycle, ticks, keys) { assert i > k ==> procs[i] == after[i]; }
      assert BreaksAt(procs, k, j, cycle, ticks, keys);
    }
  }

  /** The scan breaks exactly if some process breaks it. */
  lemma {:induction false} ScanBreaksIff(procs: seq<Process>, k: nat, cycle: nat, ticks: nat, keys: map<nat, nat>, ran: bool)
    requires Distinct(procs) && k <= |procs|
    ensures ScanFrom(procs, k, cycle, ticks, keys, ran).verdict.Broken? <==> SomeBreaks(procs, k, cycle, ticks, keys)
    decreases |procs| - k
  {
    if k < |procs| {
      LookupAt(procs, k);
      var p := Tested(procs[k], ticks, keys);
      if procs[k].pendingExit {
        BreaksShifted(procs, k, cycle, ticks, keys);
        ScanBreaksIff(Removed(procs, k), k, cycle, ticks, keys, false);
      } else if Breaks(procs[k]) {
        assert BreaksAt(procs, k, k, cycle, ticks, keys);
      } else if !(Eligible(p) && p.lastCycle != cycle) {
        BreaksAdvanced(procs, k, p, cycle, ticks, keys);
        ScanBreaksIff(procs[k := p], k + 1, cycle, ticks, keys, ran || p.lastCycle == cycle);
      }
    }
  }

  /** None of the first `k` processes breaks a scan. */
  ghost predicate Safe(procs: seq<Process>, k: nat) {
    forall j :: 0 <= j < k && j < |procs| ==> !Breaks(procs[j])
  }

  /** After a scan that reached the end nothing is left that could break another. */
  lemma {:induction false} EndedScanIsSafe(procs: seq<Process>, k: nat, cycle: nat, ticks: nat, keys: map<nat, nat>, ran: bool)
    requires Distinct(procs) && k <= |procs| && Safe(procs, k)
    ensures var r := ScanFrom(procs, k, cycle, ticks, keys, ran);
      r.verdict.EndOfList? ==> Safe(r.procs, |r.procs|)
    decreases |procs| - k
  {
    if k < |procs| {
      LookupAt(procs, k);
      var p := Tested(procs[k], ticks, keys);
      if procs[k].pendingExit {
        EndedScanIsSafe(Removed(procs, k), k, cycle, ticks, keys, false);
      } else if !Breaks(procs[k]) && !(Eligible(p) && p.lastCycle != cycle) {
        assert !Breaks(p);
        EndedScanIsSafe(procs[k := p], k + 1, cycle, ticks, keys, ran || p.lastCycle == cycle);
      }
    }
  }

  /** The handlers that stop the kernel by design: exceptions of the kernel itself, and spurious interrupts. */
  predicate Fatal(s: State, step: Step) {
    step.Interrupt? &&
    (step.event.Spurious? || step.event == Exception(false) || FindCpu(s.cpus, step.apic) == |s.cpus| ||
     (s.cpus[FindCpu(s.cpus, step.apic)].currentPid == 0 && (step.event.Exception? || step.event.SystemCall?)))
  }

  /**
   Exactly when a handler other than the timer's halts the kernel: never because
   the current process is unknown, and never because a process that calls a
   kernel function is suspended already.
   */
  lemma HaltsExactly(s: State, step: Step)
    requires Inv(s) && !(step.Interrupt? && step.event.Timer?)
    ensures Next(s, step).outcome.Halted? <==> Fatal(s, step)
  {
    if step.Interrupt? && FindCpu(s.cpus, step.apic) < |s.cpus| {
      var c := FindCpu(s.cpus, step.apic);
      match step.event
      case SystemCall(call) =>
        if s.cpus[c].currentPid == 0 {
          assert Lookup(s.procs, 0).Some? ==> ProcessOk(s.cpus, s.cycle, Lookup(s.procs, 0).value);
        } else {
          assert Lookup(s.procs, s.cpus[c].currentPid).Some?;
          CallKeepsInv(s, c, step.frame, call);
        }
      case Exception(_) => KilledKeepsInv(s, c);
      case _ =>
    }
  }

  lemma PickNextHalts(s: State, c: nat, frame: Registers, keys: map<nat, nat>, keysAgain: map<nat, nat>)
    requires Inv(s) && c < |s.cpus|
    ensures PickNext(s, c, frame, keys, keysAgain).outcome.Halted? <==> SomeBreaks(s.procs, 0, s.cycle, s.ticks, keys)
  {
    ScanBreaksIff(s.procs, 0, s.cycle, s.ticks, keys, false);
    var first := FirstScan(s, keys);
    if first.verdict.EndOfList? && first.ran {
      EndedScanIsSafe(s.procs, 0, s.cycle, s.ticks, keys, false);
      FirstScanKeepsInv(s, keys, s.cycle);
      ScanBreaksIff(first.procs, 0, s.cycle + 1, s.ticks, keysAgain, false);
    }
  }

  /**
   Exactly when a timer interrupt halts the kernel: its processor is unknown, or,
   once the interrupted process is saved, some process reads from something other
   than the keyboard and the scan passes over all before it.
   */
  lemma TimerHaltsExactly(s: State, step: Step)
    requires Inv(s) && step.Interrupt? && step.event.Timer?
    ensures var c, t := FindCpu(s.cpus, step.apic), Ticked(s, step.apic);
      Next(s, step).outcome.Halted? <==>
        c == |s.cpus| || (Saved(t, c, step.frame).Some? && SomeBreaks(Saved(t, c, step.frame).value.procs, 0, t.cycle, t.ticks, step.event.keys))
  {
    var c, t := FindCpu(s.cpus, step.apic), Ticked(s, step.apic);
    if c < |s.cpus| {
      SavedKeepsInv(t, c, step.frame);
      PickNextHalts(Saved(t, c, step.frame).value, c, step.frame, step.event.keys, step.event.keysAgain);
    }
  }

  // ------------------------------------------------------------ the pid search

  /** The `i`-th pid that the search tries after `last`. */
  function PidAfter(last: nat, i: nat): nat {
    if i == 0 then last else NextPid(PidAfter(last, i - 1))
  }

  lemma {:induction false} PidAfterStep(last: nat, i: nat)
    ensures PidAfter(last, i + 1) == PidAfter(NextPid(last), i)
  {
    if i > 0 { PidAfterStep(last, i - 1); }
  }

  lemma {:induction false} PidAfterIs(last: nat, i: nat)
    requires last <= MAX_PID && 1 <= i <= MAX_PID
    ensures PidAfter(last, i) == if last + i <= MAX_PID then last + i else last + i - MAX_PID
  {
    if i > 1 { PidAfterIs(last, i - 1); }
  }

  /** The first `n - 1` pids tried are in use. */
  ghost predicate Used(procs: seq<Process>, last: nat, n: nat) {
    forall i {:trigger PidAfter(last, i)} :: 1 <= i < n ==> Lookup(procs, PidAfter(last, i)).Some?
  }

  lemma UsedStep(procs: seq<Process>, last: nat, n: nat)
    requires Lookup(procs, NextPid(last)).Some? && Used(procs, NextPid(last), n)
    ensures Used(procs, last, n + 1)
  {
    forall i | 1 <= i < n + 1 ensures Lookup(procs, PidAfter(last, i)).Some? {
      PidAfterStep(last, i - 1);
      assert i == 1 ==> PidAfter(last, i) == NextPid(PidAfter(last, 0)) == NextPid(last);
    }
  }

  /** The search stops at the first free pid in cyclic order. */
  lemma {:induction false} FreePidFirst(procs: seq<Process>, last: nat, tries: nat) returns (i: nat)
    ensures 1 <= i <= tries + 1 && Used(procs, last, i)
    ensures match FreePid(procs, last, tries)
      case None => i == tries + 1
      case Some(pid) => i <= tries && pid == PidAfter(last, i) && Lookup(procs, pid).None?
    decreases tries
  {
    i := 1;
    if tries > 0 {
      assert PidAfter(last, 1) == NextPid(PidAfter(last, 0));
      if Lookup(procs, NextPid(last)).Some? {
        i := FreePidFirst(procs, NextPid(last), tries - 1);
        UsedStep(procs, last, i);
        PidAfterStep(last, i);
        i := i + 1;
      }
    }
  }

  function Pids(procs: seq<Process>): (pids: set<nat>)
    ensures forall p :: p in pids <==> Lookup(procs, p).Some?
  {
    if procs == [] then {} else {procs[0].pid} + Pids(procs[1..])
  }

  lemma {:induction false} PidCount(procs: seq<Process>)
    requires Distinct(procs)
    ensures |Pids(procs)| == |procs|
  {
    if procs != [] {
      PidCount(procs[1..]);
      assert Lookup(procs[1..], procs[0].pid).None?;
    }
  }

  /** The first `n` pids that the search tries. */
  function Tried(last: nat, n: nat): set<nat> {
    set i | 1 <= i <= n :: PidAfter(last, i)
  }

  lemma {:induction false} TriedCount(last: nat, n: nat)
    requires last <= MAX_PID && n <= MAX_PID
    ensures |Tried(last, n)| == n
  {
    if n > 0 {
      TriedCount(last, n - 1);
      PidAfterIs(last, n);
      forall i | 1 <= i < n ensures PidAfter(last, i) != PidAfter(last, n) { PidAfterIs(last, i); }
      assert Tried(last, n) == Tried(last, n - 1) + {PidAfter(last, n)};
    }
  }

  /** Every pid is tried. */
  lemma PidReached(last: nat, pid: nat)
    requires last <= MAX_PID && 0 < pid <= MAX_PID
    ensures pid in Tried(last, MAX_PID)
  {
    var i := if pid > last then pid - last else pid - last + MAX_PID;
    PidAfterIs(last, i);
    assert PidAfter(last, i) == pid;
  }

  /** The pids in use are among those tried. */
  lemma PidsTried(s: State)
    requires Inv(s)
    ensures Pids(s.procs) <= Tried(s.lastPid, MAX_PID)
    ensures |Pids(s.procs)| == |s.procs| <= MAX_PID
  {
    forall p | p in Pids(s.procs) ensures p in Tried(s.lastPid, MAX_PID) {
      assert ProcessOk(s.cpus, s.cycle, Lookup(s.procs, p).value);
      PidReached(s.lastPid, p);
    }
    PidCount(s.procs);
    TriedCount(s.lastPid, MAX_PID);
    Fits(Pids(s.procs), Tried(s.lastPid, MAX_PID));
  }

  /** Trying more pids than are in use finds a free one. */
  lemma SomeIsFree(procs: seq<Process>, last: nat)
    requires Distinct(procs) && last <= MAX_PID && |procs| < MAX_PID
    ensures FreePid(procs, last, |procs| + 1).Some?
  {
    var n := |procs| + 1;
    var i := FreePidFirst(procs, last, n);
    if FreePid(procs, last, n).None? {
      PidCount(procs);
      TriedCount(last, n);
      Fits(Tried(last, n), Pids(procs));
    }
  }

  /** The pid search ends unless all 65535 pids are in use. */
  lemma HungExactly(s: State, launch: Launch)
    requires Inv(s)
    ensures Launched(s, launch).None? <==> |s.procs| == MAX_PID
  {
    PidsTried(s);
    if |s.procs| < MAX_PID {
      SomeIsFree(s.procs, s.lastPid);
    } else if Launched(s, launch).Some? {
      var n := |s.procs| + 1;
      var i := FreePidFirst(s.procs, s.lastPid, n);
      FreePidIsFree(s.procs, s.lastPid, n);
      var p := FreePid(s.procs, s.lastPid, n).value;
      PidReached(s.lastPid, p);
      TriedCount(s.lastPid, MAX_PID);
      Fits(Pids(s.procs) + {p}, Tried(s.lastPid, MAX_PID));
    }
  }

  lemma {:induction false} Fits(a: set<nat>, b: set<nat>)
    requires a <= b
    ensures |a| <= |b|
  {
    if a != {} {
      var x :| x in a;
      Fits(a - {x}, b - {x});
    }
  }
}
