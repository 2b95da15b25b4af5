/** The memory of processes after any sequence of calls. */
module MemoryRuns {
  import opened Base
  import opened PageTree
  import opened Paging
  import opened ProcessMemory
  import Memory
  import StackEnd

  /** A call that changes the memory of processes. */
  datatype Op =
    | MapPage(space: nat, va: nat, pa: nat, ignore: bool, flags: Flags)
    | AllocatePage(space: nat, va: nat, ignore: bool, flags: Flags)
    | NewPage(space: nat, count: nat)
    | SetUpStack(space: nat, size: nat)
    | NewProcess(start: nat, end: nat, textStart: nat, textEnd: nat, tasks: seq<Run>)

  predicate ProcessFlags(flags: Flags) { flags & PRESENT != 0 && flags & PAGE_FRAME == 0 }

  /** The process is there, and the addresses lie below 2^48. */
  predicate Possible(spaces: seq<Space>, op: Op) {
    match op
    case MapPage(i, va, _, _, flags) => i < |spaces| && va / 4096 < PAGES && ProcessFlags(flags)
    case AllocatePage(i, va, _, flags) => i < |spaces| && va / 4096 < PAGES && ProcessFlags(flags)
    case NewPage(i, count) => i < |spaces| && HeapEnd(spaces[i]) / 4096 + count / 0x1000 < PAGES
    case SetUpStack(i, size) => i < |spaces| && StackPage(size / 4096) < PAGES
    case NewProcess(_, end, _, _, tasks) => end <= PAGES && forall k :: 0 <= k < |tasks| ==> tasks[k].end <= PAGES
  }

  // ------------------------------------------------------------ what a call does

  ghost predicate StackStep(blocks: seq<Memory.Block>, w: World, w': World, i: nat, size: nat, r: MapResult, stack: nat, done: nat, taken: Snapshot) {
    StackCall(r, w, w', i, size / 4096, size + size % 4096, Some(stack), done, taken, blocks) && !r.NullMemory?
  }

  ghost predicate HeapStep(blocks: seq<Memory.Block>, w: World, w': World, i: nat, count: nat, r: MapResult, fs: seq<nat>)
    requires WorldOk(w) && i < |w.mem.spaces|
  {
    HeapOutcome(r, w.mem, w', i, fs, blocks) && !r.NullMemory? && w'.loose == w.loose && HeapTurns(r, count, |fs|)
  }

  /** All pages asked for were gained, or fewer. */
  predicate HeapTurns(r: MapResult, count: nat, n: nat) {
    if r.Mapped? then n == count / 0x1000 + 1 else n < count / 0x1000 + 1
  }

  ghost predicate ProcessStep(w: World, w': World, start: nat, end: nat, textStart: nat, textEnd: nat, tasks: seq<Run>)
    requires WorldOk(w) && WorldOk(w')
  {
    var i := |w.mem.spaces|;
    && SpaceBegun(w.mem, w'.mem, start, end, textStart, textEnd, tasks) && w'.mem.spaces[..i] == w.mem.spaces
    && var s := w'.mem.spaces[i];
    && HeapEnd(s) == HEAP_ADDR + 0x1000 && |s.va| == 1 && s.va[0].va == HEAP_ADDR && s.alloc == [s.va[0].pa]
    && Backed(w'.mem.tables, s.cr3, w'.home, w.mem.slots, i, HEAP_ADDR / 4096, HEAP_FLAGS)
    && w'.loose == w.loose + KernelLoose(w.mem.slots, w.home, start, end, tasks)
  }

  /** A call: what it makes of the world, all of it as the methods promise. Pages handed out before keep their homes. */
  ghost predicate Step(blocks: seq<Memory.Block>, w: World, op: Op, w': World) {
    WorldOk(w) && WorldOk(w') && KeepsHomes(w.home, w'.home) &&
    if !Possible(w.mem.spaces, op) then w' == w else
    match op
    case MapPage(i, va, pa, ignore, flags) => exists r :: MapWent(r, w, w', i, va, pa, ignore, flags, blocks) && !r.NullMemory?
    case AllocatePage(i, va, ignore, flags) => exists r, f :: PageWent(r, w, w', i, va, ignore, flags, f, blocks) && !r.NullMemory?
    case NewPage(i, count) => exists r, fs :: HeapStep(blocks, w, w', i, count, r, fs)
    case SetUpStack(i, size) => exists r, stack, done, taken :: StackStep(blocks, w, w', i, size, r, stack, done, taken)
    case NewProcess(start, end, textStart, textEnd, tasks) => ProcessStep(w, w', start, end, textStart, textEnd, tasks)
  }

  // --------------------------------------------------- which memory a call asks for

  /** How many of the first `n` pages behind a heap come before one that is refused. */
  function HeapRoom(s: Space, n: nat): (k: nat)
    ensures k <= n && (k < n ==> RefusedAt(s, HeapVa(s, k)))
    ensures forall j: nat {:trigger HeapVa(s, j)} :: j < k ==> !RefusedAt(s, HeapVa(s, j))
  {
    if n == 0 then 0 else
    var k := HeapRoom(s, n - 1);
    if k < n - 1 || RefusedAt(s, HeapVa(s, n - 1)) then k else n
  }

  /** How many of the first `n` pages of a stack come before one that is indexed already. */
  function StackRoom(va: seq<VaEntry>, n: nat): (k: nat)
    ensures k <= n && (k < n ==> HasVa(va, STACK_VA + k * 4096)) && StackClear(va, k)
  {
    if n == 0 then 0 else
    var k := StackRoom(va, n - 1);
    if k < n - 1 || HasVa(va, STACK_VA + (n - 1) * 4096) then k else (StackClearMore(va, n - 1, n); n)
  }

  /** The requests for `n` more pages of heap: those before the first refused one, and that page alone. */
  ghost function NewPageAsks(places: map<nat, Place>, s: Space, n: nat): seq<Ask> {
    var k := HeapRoom(s, n);
    HeapAsks(places, s.cr3, HeapStart(s), HeapStop(s, k)) + if k < n then [Ask(4096, PAGE_TAG)] else []
  }

  /** The requests for a stack: its memory, and then the tables of its pages before the first that is refused. */
  ghost function StackAsks(places: map<nat, Place>, s: Space, size: nat): seq<Ask> {
    [Ask(size + size % 4096, STACK_TAG)] + TableAsks(TablesFor(places, s.cr3, StackRun(StackRoom(s.va, size / 4096 + 1))))
  }

  /** The requests that a call makes, up to the first that is refused, told from the world before it. */
  ghost function Asks(w: World, op: Op): seq<Ask> {
    if !Possible(w.mem.spaces, op) then [] else
    match op
    case MapPage(i, va, pa, _, _) =>
      if pa % 4096 != 0 || RefusedAt(w.mem.spaces[i], va) then [] else TableAsks(Missing(w.mem.places, w.mem.spaces[i].cr3, 1, 3, va / 4096))
    case AllocatePage(i, va, _, _) =>
      if RefusedAt(w.mem.spaces[i], va) then [Ask(4096, PAGE_TAG)] else PageAsks(Missing(w.mem.places, w.mem.spaces[i].cr3, 1, 3, va / 4096))
    case NewPage(i, count) =>
      NewPageAsks(w.mem.places, w.mem.spaces[i], count / 0x1000 + 1)
    case SetUpStack(i, size) =>
      StackAsks(w.mem.places, w.mem.spaces[i], size)
    case NewProcess(start, end, _, _, tasks) => ProcessAsks(start, end, tasks)
  }

  /** All of them are granted. */
  ghost predicate AllGranted(blocks: seq<Memory.Block>, w: World, op: Op) {
    forall r {:trigger IsAnswer(r, BooksOf(w.mem), blocks, Asks(w, op))} :: IsAnswer(r, BooksOf(w.mem), blocks, Asks(w, op)) ==> r.outcome.Granted?
  }

  lemma GrantedIff(blocks: seq<Memory.Block>, w: World, op: Op, ok: bool, b: Books)
    requires Took(BooksOf(w.mem), blocks, Asks(w, op), ok, b)
    ensures ok <==> AllGranted(blocks, w, op)
  {
    assert IsAnswer(AnswerTo(BooksOf(w.mem), blocks, Asks(w, op)), BooksOf(w.mem), blocks, Asks(w, op));
  }

  /** The first requests of a sequence having failed, the sequence fails. */
  lemma TookStops(b: Books, blocks: seq<Memory.Block>, asks: seq<Ask>, b': Books, all: seq<Ask>)
    requires Took(b, blocks, asks, false, b') && asks <= all
    ensures Took(b, blocks, all, false, b')
  {
    TookThen(b, blocks, asks, false, b', all[|asks|..], false, b');
    assert asks + all[|asks|..] == all;
  }

  lemma {:induction false} HeapAsksPrefix(places: map<nat, Place>, root: nat, start: nat, end: nat, last: nat)
    requires end <= last
    ensures HeapAsks(places, root, start, end) <= HeapAsks(places, root, start, last)
    decreases last
  {
    if end < last { HeapAsksPrefix(places, root, start, end, last - 1); }
  }

  lemma GaveBackTook(b: Books, blocks: seq<Memory.Block>, granted: bool, b': Books) returns (b1: Books)
    requires GaveBack(b, blocks, granted, b')
    ensures Took(b, blocks, [Ask(4096, PAGE_TAG)], granted, b1)
  {
    var r := Memory.Request(b.mt, b.slots, blocks, 4096, Memory.Align4KB, PAGE_TAG);
    assert IsReply(r, b.mt, b.slots, blocks, 4096, PAGE_TAG);
    TookOne(b, blocks, 4096, PAGE_TAG, r);
    b1 := Books(r.tables, r.slots);
  }

  lemma PageGranted(blocks: seq<Memory.Block>, w: World, op: Op, r: MapResult, w': World, f: nat)
    requires WorldOk(w) && op.AllocatePage? && Possible(w.mem.spaces, op)
    requires PageWent(r, w, w', op.space, op.va, op.ignore, op.flags, f, blocks)
    ensures !r.NullMemory? <==> AllGranted(blocks, w, op)
  {
    var b := BooksOf(w'.mem);
    if RefusedAt(w.mem.spaces[op.space], op.va) { b := GaveBackTook(BooksOf(w.mem), blocks, r.Refused?, b); }
    GrantedIff(blocks, w, op, !r.NullMemory?, b);
  }

  lemma MapGranted(blocks: seq<Memory.Block>, w: World, op: Op, r: MapResult, w': World)
    requires WorldOk(w) && op.MapPage? && Possible(w.mem.spaces, op)
    requires MapWent(r, w, w', op.space, op.va, op.pa, op.ignore, op.flags, blocks)
    ensures !r.NullMemory? <==> AllGranted(blocks, w, op)
  {
    if r.Refused? { TookNone(BooksOf(w.mem), blocks); }
    GrantedIff(blocks, w, op, !r.NullMemory?, BooksOf(w'.mem));
  }

  /** The requests of growing a heap by `n` pages, whatever came of it. */
  lemma HeapCallTook(blocks: seq<Memory.Block>, m: Snapshot, i: nat, n: nat, r: MapResult, w': World, fs: seq<nat>) returns (b: Books)
    requires i < |m.spaces| && if r.Mapped? then |fs| == n else |fs| < n
    requires HeapOutcome(r, m, w', i, fs, blocks)
    ensures Took(BooksOf(m), blocks, NewPageAsks(m.places, m.spaces[i], n), !r.NullMemory?, b)
  {
    var s := m.spaces[i];
    b := BooksOf(w'.mem);
    match r
    case Mapped => HeapAllTook(m.places, BooksOf(m), s, n, b, blocks);
    case Refused =>
      var b1: Books :| TookHeap(m.places, BooksOf(m), b1, s.cr3, HeapStart(s), HeapStop(s, |fs|), [], blocks, true) && GaveBack(b1, blocks, true, b);
      b := HeapSomeTook(m.places, BooksOf(m), s, n, |fs|, b1, b, blocks);
    case NullMemory => HeapNoneTook(m, i, n, |fs|, b, blocks);
  }

  /** All pages of a heap were gained. */
  lemma HeapAllTook(places: map<nat, Place>, b0: Books, s: Space, n: nat, b: Books, blocks: seq<Memory.Block>)
    requires HeapClear(s, n) && TookHeap(places, b0, b, s.cr3, HeapStart(s), HeapStop(s, n), [], blocks, true)
    ensures Took(b0, blocks, NewPageAsks(places, s, n), true, b)
  {
    HeapRoomIs(s, n, HeapRoom(s, n), n);
    assert IsHeapAsks(HeapAsks(places, s.cr3, HeapStart(s), HeapStop(s, n)), places, s.cr3, HeapStart(s), HeapStop(s, n));
  }

  /** Some were gained, and the next was asked for and given back. */
  lemma HeapSomeTook(places: map<nat, Place>, b0: Books, s: Space, n: nat, m: nat, b1: Books, b2: Books, blocks: seq<Memory.Block>) returns (b: Books)
    requires m < n && HeapClear(s, m) && RefusedAt(s, HeapVa(s, m)) && GaveBack(b1, blocks, true, b2)
    requires TookHeap(places, b0, b1, s.cr3, HeapStart(s), HeapStop(s, m), [], blocks, true)
    ensures Took(b0, blocks, NewPageAsks(places, s, n), true, b)
  {
    var asks := HeapAsks(places, s.cr3, HeapStart(s), HeapStop(s, m));
    HeapRoomIs(s, n, HeapRoom(s, n), m);
    assert IsHeapAsks(asks, places, s.cr3, HeapStart(s), HeapStop(s, m)) && asks + [] == asks;
    b := GaveBackTook(b1, blocks, true, b2);
    TookThen(b0, blocks, asks, true, b1, [Ask(4096, PAGE_TAG)], true, b);
  }

  /** For the next one memory was not granted. */
  lemma HeapNoneTook(m: Snapshot, i: nat, n: nat, k: nat, b: Books, blocks: seq<Memory.Block>)
    requires i < |m.spaces| && k < n && HeapClear(m.spaces[i], k) && HeapFailed(m, i, k, blocks, b)
    ensures Took(BooksOf(m), blocks, NewPageAsks(m.places, m.spaces[i], n), false, b)
  {
    var s := m.spaces[i];
    HeapRoomIs(s, n, HeapRoom(s, n), k);
    if RefusedAt(s, HeapVa(s, k)) {
      assert IsHeapAsks(HeapAsks(m.places, s.cr3, HeapStart(s), HeapStop(s, k)), m.places, s.cr3, HeapStart(s), HeapStop(s, k));
    } else {
      var next := HeapStop(s, k) + 1;
      var more := HeapAsks(m.places, s.cr3, HeapStart(s), next);
      assert IsHeapAsks(more, m.places, s.cr3, HeapStart(s), next) && more + [] == more;
      HeapAsksPrefix(m.places, s.cr3, HeapStart(s), next, HeapStop(s, HeapRoom(s, n)));
      TookStops(BooksOf(m), blocks, more, b, NewPageAsks(m.places, s, n));
    }
  }

  /** Pages that were gained lie before the first that is refused. */
  lemma HeapRoomIs(s: Space, n: nat, k: nat, m: nat)
    requires k == HeapRoom(s, n) && HeapClear(s, m) && m <= n
    ensures m <= k && (m < n && RefusedAt(s, HeapVa(s, m)) ==> k == m) && (m < n && !RefusedAt(s, HeapVa(s, m)) ==> m < k)
  {
    if k < n { assert RefusedAt(s, HeapVa(s, k)); }
  }

  /** The requests of setting up a stack, whatever came of it. */
  lemma StackCallTook(blocks: seq<Memory.Block>, w: World, i: nat, size: nat, r: MapResult, w': World, stack: Option<nat>, done: nat, taken: Snapshot)
    requires i < |w.mem.spaces|
    ensures StackCall(r, w, w', i, size / 4096, size + size % 4096, stack, done, taken, blocks) ==>
      Took(BooksOf(w.mem), blocks, StackAsks(w.mem.places, w.mem.spaces[i], size), !r.NullMemory?, BooksOf(w'.mem))
  {
    if !StackCall(r, w, w', i, size / 4096, size + size % 4096, stack, done, taken, blocks) { return; }
    var s, b := w.mem.spaces[i], if stack.None? then BooksOf(w'.mem) else BooksOf(taken);
    if stack.Some? { StackTablesTook(w.mem.places, s, size, b, done, BooksOf(w'.mem), blocks, !r.NullMemory?); }
    StackAllTook(w.mem.places, s, size, BooksOf(w.mem), stack.Some?, b, !r.NullMemory?, BooksOf(w'.mem), blocks);
  }

  /** The memory of a stack, and then its tables. */
  lemma StackAllTook(places: map<nat, Place>, s: Space, size: nat, b0: Books, there: bool, b1: Books, ok: bool, b: Books, blocks: seq<Memory.Block>)
    requires Took(b0, blocks, [Ask(size + size % 4096, STACK_TAG)], there, b1)
    requires if there then Took(b1, blocks, TableAsks(TablesFor(places, s.cr3, StackRun(StackRoom(s.va, size / 4096 + 1)))), ok, b) else !ok && b == b1
    ensures Took(b0, blocks, StackAsks(places, s, size), ok, b)
  {
    TookThen(b0, blocks, [Ask(size + size % 4096, STACK_TAG)], there, b1, TableAsks(TablesFor(places, s.cr3, StackRun(StackRoom(s.va, size / 4096 + 1)))), ok, b);
  }

  lemma StackTablesTook(places: map<nat, Place>, s: Space, size: nat, b0: Books, done: nat, b: Books, blocks: seq<Memory.Block>, ok: bool)
    requires done <= size / 4096 + 1 && StackClear(s.va, done) && TookTables(places, b0, b, s.cr3, StackRun(done), blocks, ok)
    requires ok && done <= size / 4096 ==> HasVa(s.va, STACK_VA + done * 4096)
    ensures Took(b0, blocks, TableAsks(TablesFor(places, s.cr3, StackRun(StackRoom(s.va, size / 4096 + 1)))), ok, b)
  {
    var n := size / 4096 + 1;
    var k := StackRoom(s.va, n);
    StackRoomIs(s.va, n, k, done);
    if !ok {
      assert StackRun(done) <= StackRun(k);
      PagesFailedLater(places, b0, b, s.cr3, StackRun(done), StackRun(k), blocks);
    }
    assert IsTablesFor(TablesFor(places, s.cr3, StackRun(k)), places, s.cr3, StackRun(k));
  }

  lemma StackRoomIs(va: seq<VaEntry>, n: nat, k: nat, m: nat)
    requires k == StackRoom(va, n) && StackClear(va, m) && m <= n
    ensures m <= k && (m < n && HasVa(va, STACK_VA + m * 4096) ==> k == m)
  {
    assert StackPage(k) >= 0 && StackPage(m) >= 0;
  }

  // ------------------------------------------------------ which frames become loose

  /** Mapping a page makes its frame loose unless the mapping is refused or tight. */
  ghost function MapAdds(w: World, i: nat, va: nat, pa: nat, flags: Flags): iset<nat>
    requires i < |w.mem.spaces|
  {
    if va % 4096 != 0 || pa % 4096 != 0 || HasVa(w.mem.spaces[i].va, va)
      || IsTight(w.mem.slots, w.home, Mapping(pa / 4096, flags), i, va / 4096) then iset{}
    else iset{pa / 4096}
  }

  /** Where the allocator would put memory for a stack of this size. */
  ghost function StackAt(blocks: seq<Memory.Block>, w: World, size: nat): nat {
    var r := Memory.Request(w.mem.mt, w.mem.slots, blocks, size + size % 4096, Memory.Align4KB, STACK_TAG);
    if r.outcome.Granted? then r.outcome.addr else 0
  }

  /** One of the pages of a stack is indexed already. */
  ghost predicate StackBlocked(va: seq<VaEntry>, q: nat) {
    exists k: nat {:trigger StackPage(k)} :: k <= q && HasVa(va, STACK_VA + k * 4096)
  }

  /** A stack makes its last frame loose unless it is refused, or the frame lies in its memory or was handed out for that page. */
  ghost function StackAdds(blocks: seq<Memory.Block>, w: World, i: nat, size: nat): iset<nat>
    requires i < |w.mem.spaces|
  {
    var q := size / 4096;
    var f := StackFrame(StackAt(blocks, w, size), q);
    if StackBlocked(w.mem.spaces[i].va, q) || size % 4096 >= 2048 || Owns(w.home, f, i, StackPage(q)) then iset{} else iset{f}
  }

  /** The frames that a call makes loose, told from the world before it. */
  ghost function Adds(blocks: seq<Memory.Block>, w: World, op: Op): iset<nat> {
    if !Possible(w.mem.spaces, op) then iset{} else
    match op
    case MapPage(i, va, pa, _, flags) => MapAdds(w, i, va, pa, flags)
    case AllocatePage(_, _, _, _) => iset{}
    case NewPage(_, _) => iset{}
    case SetUpStack(i, size) => StackAdds(blocks, w, i, size)
    case NewProcess(start, end, _, _, tasks) => KernelLoose(w.mem.slots, w.home, start, end, tasks)
  }

  lemma StackIsAt(blocks: seq<Memory.Block>, w: World, size: nat, stack: nat, b: Books)
    requires Ranged(BooksOf(w.mem), blocks, size + size % 4096, STACK_TAG, Some(stack), b)
    ensures stack == StackAt(blocks, w, size)
  {
    var n := size + size % 4096;
    var r := Memory.Request(w.mem.mt, w.mem.slots, blocks, n, Memory.Align4KB, STACK_TAG);
    assert IsReply(r, w.mem.mt, w.mem.slots, blocks, n, STACK_TAG);
  }

  lemma StackStepAdds(blocks: seq<Memory.Block>, w: World, w': World, i: nat, size: nat, r: MapResult, stack: nat, done: nat, taken: Snapshot)
    requires WorldOk(w) && i < |w.mem.spaces|
    ensures StackStep(blocks, w, w', i, size, r, stack, done, taken) ==> w'.loose == w.loose + StackAdds(blocks, w, i, size)
  {
    if StackStep(blocks, w, w', i, size, r, stack, done, taken) {
      assert taken.spaces == w.mem.spaces;
      StackIsAt(blocks, w, size, stack, BooksOf(taken));
      StackLooseAdds(blocks, w, w'.home, w'.loose, i, size, stack, done, r.Mapped?);
    }
  }

  lemma StackLooseAdds(blocks: seq<Memory.Block>, w: World, home: map<nat, Home>, loose: iset<nat>, i: nat, size: nat, stack: nat, done: nat, all: bool)
    requires i < |w.mem.spaces| && stack == StackAt(blocks, w, size) && home == Claimed(w.home, i, stack, WholePages(size + size % 4096, size / 4096))
    requires StackClear(w.mem.spaces[i].va, done)
    requires if all then done == size / 4096 + 1 && loose == LooseAfter(w.loose, home, i, stack, done, size / 4096)
             else done <= size / 4096 && HasVa(w.mem.spaces[i].va, STACK_VA + done * 4096) && loose == w.loose
    ensures loose == w.loose + StackAdds(blocks, w, i, size)
  {
    StackEnd.LastPageOwnIff(w.home, i, stack, size);
    assert StackPage(done) >= 0;
    forall k: nat | k < done ensures !HasVa(w.mem.spaces[i].va, STACK_VA + k * 4096) { assert StackPage(k) >= 0; }
  }

  /** Exactly which frames a call makes loose. */
  lemma StepAdds(blocks: seq<Memory.Block>, w: World, op: Op, w': World)
    ensures Step(blocks, w, op, w') ==> w'.loose == w.loose + Adds(blocks, w, op)
  {
    if Step(blocks, w, op, w') && Possible(w.mem.spaces, op) {
      match op
      case SetUpStack(i, size) =>
        var r, stack, done, taken :| StackStep(blocks, w, w', i, size, r, stack, done, taken);
        StackStepAdds(blocks, w, w', i, size, r, stack, done, taken);
      case MapPage(i, va, pa, ignore, flags) =>
        var r :| MapWent(r, w, w', i, va, pa, ignore, flags, blocks) && !r.NullMemory?;
        MapStepAdds(blocks, w, w', i, va, pa, ignore, flags, r);
      case AllocatePage(i, va, ignore, flags) =>
        var r, f :| PageWent(r, w, w', i, va, ignore, flags, f, blocks) && !r.NullMemory?;
      case NewPage(i, count) =>
        var r, fs :| HeapStep(blocks, w, w', i, count, r, fs);
      case NewProcess(_, _, _, _, _) =>
    }
  }

  lemma MapStepAdds(blocks: seq<Memory.Block>, w: World, w': World, i: nat, va: nat, pa: nat, ignore: bool, flags: Flags, r: MapResult)
    requires Sized(w.mem.tables) && i < |w.mem.spaces| && !r.NullMemory?
    ensures MapWent(r, w, w', i, va, pa, ignore, flags, blocks) ==> w'.loose == w.loose + MapAdds(w, i, va, pa, flags)
  {
  }

  // ------------------------------------------------------------ calls, one by one

  ghost function WorldOf(a: AddressSpaces): World
    reads a, a.pt, a.pt.mm
  {
    a.Here()
  }

  /** The call was made, and this is what came of it. */
  ghost predicate Stepped(a: AddressSpaces, was: World, op: Op)
    reads a, a.pt, a.pt.mm
  {
    a.Valid() && forall w {:trigger a.IsHere(w)} :: a.IsHere(w) ==> Step(a.pt.mm.blocks, was, op, w)
  }

  method DoMap(a: AddressSpaces, op: Op) returns (ok: bool)
    requires a.Valid() && op.MapPage? && Possible(a.spaces, op)
    modifies a, a.pt, a.pt.mm
    ensures !ok || (Stepped(a, old(WorldOf(a)), op) && a.KeptSince(old(a.Memo())))
    ensures ok <==> AllGranted(a.pt.mm.blocks, old(WorldOf(a)), op)
  {
    var r := a.Map(op.space, op.va, op.pa, op.ignore, op.flags);
    ok := !r.NullMemory?;
    MapGranted(a.pt.mm.blocks, old(WorldOf(a)), op, r, WorldOf(a));
  }

  method DoAllocate(a: AddressSpaces, op: Op) returns (ok: bool)
    requires a.Valid() && op.AllocatePage? && Possible(a.spaces, op)
    modifies a, a.pt, a.pt.mm
    ensures !ok || (Stepped(a, old(WorldOf(a)), op) && a.KeptSince(old(a.Memo())))
    ensures ok <==> AllGranted(a.pt.mm.blocks, old(WorldOf(a)), op)
  {
    var r, page;
    ghost var f;
    r, page, f := a.AllocatePage(op.space, op.va, op.ignore, op.flags);
    ok := !r.NullMemory?;
    assert a.IsHere(a.Here());
    PageGranted(a.pt.mm.blocks, old(WorldOf(a)), op, r, WorldOf(a), f);
  }

  method DoNewPage(a: AddressSpaces, op: Op) returns (ok: bool)
    requires a.Valid() && op.NewPage? && Possible(a.spaces, op)
    modifies a, a.pt, a.pt.mm
    ensures !ok || (Stepped(a, old(WorldOf(a)), op) && a.KeptSince(old(a.Memo())))
    ensures ok <==> AllGranted(a.pt.mm.blocks, old(WorldOf(a)), op)
  {
    var r, addr;
    ghost var fs;
    r, addr, fs := a.NewPage(op.space, op.count);
    ok := !r.NullMemory?;
    assert a.IsHere(a.Here());
    HeapDone(a.pt.mm.blocks, old(WorldOf(a)), WorldOf(a), op, r, fs);
  }

  /** What growing a heap promises makes it a step of a run. */
  lemma HeapDone(blocks: seq<Memory.Block>, w: World, w': World, op: Op, r: MapResult, fs: seq<nat>)
    requires op.NewPage? && Possible(w.mem.spaces, op) && HeapTurns(r, op.count, |fs|)
    ensures HeapOutcome(r, w.mem, w', op.space, fs, blocks) ==>
      && (!r.NullMemory? <==> AllGranted(blocks, w, op))
      && (WorldOk(w) && WorldOk(w') && !r.NullMemory? && w'.loose == w.loose && KeepsHomes(w.home, w'.home) ==> Step(blocks, w, op, w'))
  {
    if HeapOutcome(r, w.mem, w', op.space, fs, blocks) {
      var b := HeapCallTook(blocks, w.mem, op.space, op.count / 0x1000 + 1, r, w', fs);
      GrantedIff(blocks, w, op, !r.NullMemory?, b);
      if WorldOk(w) && !r.NullMemory? && w'.loose == w.loose { assert HeapStep(blocks, w, w', op.space, op.count, r, fs); }
    }
  }

  method DoStack(a: AddressSpaces, op: Op) returns (ok: bool)
    requires a.Valid() && op.SetUpStack? && Possible(a.spaces, op)
    modifies a, a.pt, a.pt.mm
    ensures !ok || Stepped(a, old(WorldOf(a)), op)
    ensures !ok || a.KeptSince(old(a.Memo()))
    ensures ok <==> AllGranted(a.pt.mm.blocks, old(WorldOf(a)), op)
  {
    var r, stack;
    ghost var done, taken;
    r, stack, done, taken := a.SetUpStack(op.space, op.size);
    assert a.IsHere(a.Here());
    ok := !r.NullMemory?;
    assert ok ==> WorldOk(WorldOf(a));
    StackDone(a.pt.mm.blocks, old(WorldOf(a)), WorldOf(a), op, r, stack, done, taken);
  }

  /** What setting up a stack promises makes it a step of a run. */
  lemma StackDone(blocks: seq<Memory.Block>, w: World, w': World, op: Op, r: MapResult, stack: Option<nat>, done: nat, taken: Snapshot)
    requires op.SetUpStack? && Possible(w.mem.spaces, op)
    ensures StackCall(r, w, w', op.space, op.size / 4096, op.size + op.size % 4096, stack, done, taken, blocks) ==>
      && (!r.NullMemory? <==> AllGranted(blocks, w, op))
      && (WorldOk(w) && WorldOk(w') && !r.NullMemory? ==> Step(blocks, w, op, w'))
  {
    StackCallTook(blocks, w, op.space, op.size, r, w', stack, done, taken);
    if StackCall(r, w, w', op.space, op.size / 4096, op.size + op.size % 4096, stack, done, taken, blocks) {
      GrantedIff(blocks, w, op, !r.NullMemory?, BooksOf(w'.mem));
      if !r.NullMemory? { assert StackStep(blocks, w, w', op.space, op.size, r, stack.value, done, taken); }
    }
  }

  method DoNewProcess(a: AddressSpaces, op: Op) returns (ok: bool)
    requires a.Valid() && op.NewProcess? && Possible(a.spaces, op)
    modifies a, a.pt, a.pt.mm
    ensures !ok || (Stepped(a, old(WorldOf(a)), op) && a.KeptSince(old(a.Memo())))
    ensures ok <==> AllGranted(a.pt.mm.blocks, old(WorldOf(a)), op)
  {
    ok := a.NewProcess(op.start, op.end, op.textStart, op.textEnd, op.tasks);
    GrantedIff(a.pt.mm.blocks, old(WorldOf(a)), op, ok, a.pt.Mem());
  }

  /**
   One call of a run; a call for a process that is not there is not made. It
   fails exactly if a request it makes, as told from the world before it, is not
   granted.
   */
  method Do(a: AddressSpaces, op: Op) returns (ok: bool)
    requires a.Valid()
    modifies a, a.pt, a.pt.mm
    ensures ok <==> AllGranted(a.pt.mm.blocks, old(WorldOf(a)), op)
    ensures !ok || (Stepped(a, old(WorldOf(a)), op) && a.KeptSince(old(a.Memo())))
    ensures ok ==> a.loose == old(a.loose) + Adds(a.pt.mm.blocks, old(WorldOf(a)), op)
  {
    ok := true;
    if Possible(a.spaces, op) {
      match op
      case MapPage(_, _, _, _, _) => ok := DoMap(a, op);
      case AllocatePage(_, _, _, _) => ok := DoAllocate(a, op);
      case NewPage(_, _) => ok := DoNewPage(a, op);
      case SetUpStack(_, _) => ok := DoStack(a, op);
      case NewProcess(_, _, _, _, _) => ok := DoNewProcess(a, op);
    } else {
      TookNone(a.pt.Mem(), a.pt.mm.blocks);
      GrantedIff(a.pt.mm.blocks, WorldOf(a), op, true, a.pt.Mem());
    }
    if ok {
      assert a.IsHere(a.Here());
      StepAdds(a.pt.mm.blocks, old(WorldOf(a)), op, WorldOf(a));
    }
  }

  // ---------------------------------------------------------------------- runs

  ghost predicate IsStep(blocks: seq<Memory.Block>, w: World, op: Op, w': World) {
    forall v {:trigger IsWorld(v, w')} :: IsWorld(v, w') ==> Step(blocks, w, op, v)
  }

  ghost predicate IsWorld(v: World, w: World) { v == w }

  /** The worlds before each call of a run and after the last. */
  ghost predicate IsRun(blocks: seq<Memory.Block>, ws: seq<World>, ops: seq<Op>) {
    |ws| == |ops| + 1 && WorldOk(ws[0]) && forall k :: 0 <= k < |ops| ==> IsStep(blocks, ws[k], ops[k], ws[k + 1])
  }

  /** One of the first `n` calls of a run made the frame loose. */
  ghost predicate Added(blocks: seq<Memory.Block>, ws: seq<World>, ops: seq<Op>, n: nat, f: nat)
    requires |ws| == |ops| + 1
  {
    exists k :: 0 <= k < n && k < |ops| && f in Adds(blocks, ws[k], ops[k])
  }

  /** A frame is loose in a run exactly if it was so at the start, or some call made it so. */
  lemma {:induction false} RunLoose(blocks: seq<Memory.Block>, ws: seq<World>, ops: seq<Op>, n: nat, f: nat)
    requires IsRun(blocks, ws, ops) && n <= |ops|
    ensures WorldOk(ws[n]) && KeepsHomes(ws[0].home, ws[n].home)
    ensures f in ws[n].loose <==> f in ws[0].loose || Added(blocks, ws, ops, n, f)
  {
    if n > 0 {
      RunLoose(blocks, ws, ops, n - 1, f);
      assert IsStep(blocks, ws[n - 1], ops[n - 1], ws[n]) && IsWorld(ws[n], ws[n]);
      StepAdds(blocks, ws[n - 1], ops[n - 1], ws[n]);
      AddedMore(blocks, ws, ops, n, f);
    }
  }

  lemma AddedMore(blocks: seq<Memory.Block>, ws: seq<World>, ops: seq<Op>, n: nat, f: nat)
    requires |ws| == |ops| + 1 && 0 < n <= |ops|
    ensures Added(blocks, ws, ops, n, f) <==> Added(blocks, ws, ops, n - 1, f) || f in Adds(blocks, ws[n - 1], ops[n - 1])
  {
  }

  /**
   Safety over a whole run: a frame that was not loose at the start, and that no
   call made loose, is after the run mapped nowhere but at the page it was handed
   out for; and every page of a user that leads to such a frame is that page.
   */
  lemma RunKeepsApart(blocks: seq<Memory.Block>, ws: seq<World>, ops: seq<Op>, f: nat)
    requires IsRun(blocks, ws, ops) && f !in ws[0].loose && !Added(blocks, ws, ops, |ops|, f)
    ensures var w := ws[|ops|];
      && WorldOk(w)
      && (f in ws[0].home ==> Owns(w.home, f, ws[0].home[f].space, ws[0].home[f].page))
      && (f in w.home ==> OnlyAt(w.mem.tables, w.mem.spaces, w.home[f].space, w.home[f].page, f))
      && forall i: nat, v: nat {:trigger Translate(w.mem.tables, w.mem.spaces[i].cr3, v)} ::
           i < |w.mem.spaces| && v < PAGES && MapsTo(Translate(w.mem.tables, w.mem.spaces[i].cr3, v), f)
             && ForUser(Translate(w.mem.tables, w.mem.spaces[i].cr3, v).value) ==>
           Owns(w.home, f, i, v) && Private(w.mem.slots, f) && f !in w.mem.tables
  {
    RunLoose(blocks, ws, ops, |ops|, f);
    var w := ws[|ops|];
    if f in w.home { HandedOnlyAtHome(w.mem.tables, w.mem.places, w.mem.slots, w.mem.spaces, w.home, w.loose, f); }
  }

  /**
   Every frame handed out is, unless loose, mapped at its one page of its one
   process and nowhere else; and every page that a user can reach leads, unless
   loose, to private memory that was handed out for it and is no page table.
   */
  ghost predicate Apart(a: AddressSpaces)
    requires a.pt.Valid()
    reads a, a.pt, a.pt.mm
  {
    && (forall f {:trigger f in a.home} :: f in a.home && f !in a.loose ==> OnlyAt(a.pt.tables, a.spaces, a.home[f].space, a.home[f].page, f))
    && forall i: nat, v: nat {:trigger Translate(a.pt.tables, a.spaces[i].cr3, v)} ::
         i < |a.spaces| && v < PAGES && Translate(a.pt.tables, a.spaces[i].cr3, v).Some? ==> UserPageOk(a, i, v)
  }

  ghost predicate UserPageOk(a: AddressSpaces, i: nat, v: nat)
    requires a.pt.Valid() && i < |a.spaces| && Translate(a.pt.tables, a.spaces[i].cr3, v).Some?
    reads a, a.pt, a.pt.mm
  {
    var m := Translate(a.pt.tables, a.spaces[i].cr3, v).value;
    ForUser(m) && m.frame !in a.loose ==> Owns(a.home, m.frame, i, v) && Private(a.pt.mm.slots, m.frame) && m.frame !in a.pt.tables
  }

  lemma ValidIsApart(a: AddressSpaces)
    requires a.Valid()
    ensures Apart(a)
  {
    forall f | f in a.home && f !in a.loose ensures OnlyAt(a.pt.tables, a.spaces, a.home[f].space, a.home[f].page, f) {
      HandedOnlyAtHome(a.pt.tables, a.pt.places, a.pt.mm.slots, a.spaces, a.home, a.loose, f);
    }
  }

  /** The first calls are a run whose requests were all granted; the next one is to be made, or stopped it. */
  ghost predicate Progress(a: AddressSpaces, ok: bool, ops: seq<Op>, done: nat, ws: seq<World>)
    reads a, a.pt, a.pt.mm
  {
    && done <= |ops| && IsRun(a.pt.mm.blocks, ws, ops[..done])
    && (forall k :: 0 <= k < done ==> AllGranted(a.pt.mm.blocks, ws[k], ops[k]))
    && if ok then a.Valid() && ws[done] == WorldOf(a) else done < |ops| && !AllGranted(a.pt.mm.blocks, ws[done], ops[done])
  }

  /** The next call of a run. */
  method DoNext(a: AddressSpaces, ops: seq<Op>, done: nat, ghost ws: seq<World>) returns (ok: bool, next: nat, ghost ws': seq<World>)
    requires Progress(a, true, ops, done, ws) && done < |ops|
    modifies a, a.pt, a.pt.mm
    ensures Progress(a, ok, ops, next, ws') && ws'[0] == ws[0] && next == if ok then done + 1 else done
  {
    ok := Do(a, ops[done]);
    next, ws' := done, ws;
    if ok {
      assert a.IsHere(a.Here());
      RunMore(a.pt.mm.blocks, ws, ops, done, WorldOf(a));
      next, ws' := done + 1, ws + [WorldOf(a)];
    }
  }

  /**
   Any sequence of calls is a run from the world before it on: `ws` are the worlds
   before each call and after the last. It ends early exactly at a call whose
   requests, as told from the world before that call, are not all granted. After
   it exactly the frames that some call made loose, as told from the world before
   that call, are loose besides those that were so at the start; all others are
   kept apart.
   */
  method DoAll(a: AddressSpaces, ops: seq<Op>) returns (done: nat, ghost ws: seq<World>)
    requires a.Valid()
    modifies a, a.pt, a.pt.mm
    ensures done <= |ops| && IsRun(a.pt.mm.blocks, ws, ops[..done]) && ws[0] == old(WorldOf(a))
    ensures forall k :: 0 <= k < |ops| && k <= done ==> (k < done <==> AllGranted(a.pt.mm.blocks, ws[k], ops[k]))
    ensures done == |ops| ==> a.Valid() && IsRun(a.pt.mm.blocks, ws, ops) && ws[|ops|] == WorldOf(a) && Apart(a)
    ensures done == |ops| ==> forall f: nat :: f in a.loose <==> f in old(a.loose) || Added(a.pt.mm.blocks, ws, ops, |ops|, f)
  {
    done, ws := 0, [WorldOf(a)];
    var ok := true;
    while done < |ops| && ok
      invariant Progress(a, ok, ops, done, ws) && ws[0] == old(WorldOf(a))
      decreases |ops| - done, ok
    {
      ok, done, ws := DoNext(a, ops, done, ws);
    }
    if done == |ops| {
      assert ops[..done] == ops;
      ValidIsApart(a);
      forall f: nat ensures f in a.loose <==> f in old(a.loose) || Added(a.pt.mm.blocks, ws, ops, |ops|, f) { RunLoose(a.pt.mm.blocks, ws, ops, |ops|, f); }
    }
  }

  /** Call `k` of a run is its step; told of equal worlds and calls it is the same step. */
  lemma RunMore(blocks: seq<Memory.Block>, ws: seq<World>, ops: seq<Op>, k: nat, w: World)
    requires k < |ops| && IsRun(blocks, ws, ops[..k])
    ensures Step(blocks, ws[k], ops[k], w) ==> IsRun(blocks, ws + [w], ops[..k + 1])
  {
    var ws', ops' := ws + [w], ops[..k + 1];
    forall j | Step(blocks, ws[k], ops[k], w) && 0 <= j < k + 1 ensures IsStep(blocks, ws'[j], ops'[j], ws'[j + 1]) {
      if j < k { assert IsStep(blocks, ws[j], ops[..k][j], ws[j + 1]); }
    }
  }
}
