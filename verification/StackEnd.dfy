/** The last page mapped for a stack, which can lie behind the stack's memory. */
module StackEnd {
  import opened Base
  import opened PageTree
  import opened Paging
  import opened ProcessMemory
  import Memory

  /**
   Exactly when the last page mapped for a stack is its own: the size is at least
   2048 bytes over a multiple of 4096, so that adding the remainder as the source
   does covers the page; or the frame was handed out for that very page before.
   */
  lemma LastPageOwnIff(home: map<nat, Home>, i: nat, stack: nat, size: nat)
    ensures var q, n := size / 4096, size + size % 4096;
      Owns(Claimed(home, i, stack, WholePages(n, q)), StackFrame(stack, q), i, StackPage(q)) <==>
        size % 4096 >= 2048 || Owns(home, StackFrame(stack, q), i, StackPage(q))
  {
    var q, r := size / 4096, size % 4096;
    assert size + r == q * 4096 + (r + r);
    assert (size + r) / 4096 == if r >= 2048 then q + 1 else q;
  }

  /** A stack at `s` is granted without growth, in a block that goes on behind it. */
  ghost predicate StackFits(mt: seq<Memory.Table>, slots: seq<Memory.Slot>, blocks: seq<Memory.Block>, k: nat, s: nat)
    requires |mt| > 0
  {
    && k < |blocks| && s > 0 && s + 4096 < Memory.Limit(blocks[k])
    && Memory.LeastCandidate(slots, blocks[k], 4096, Memory.Align4KB, s)
    && (forall j: nat, a: nat :: j < k ==> !Memory.Candidate(slots, blocks[j], 4096, Memory.Align4KB, a))
    && !Memory.NeedsGrowth(mt, slots) && Memory.FirstUnused(slots) < |slots|
    && !Memory.NeedsGrowth(mt, Memory.Record(slots, Memory.Slot(s, 4096, true, STACK_TAG)))
  }

  /** The page behind a new stack is the next one granted exactly if it was free. */
  lemma PageBehindIsNext(mt: seq<Memory.Table>, slots: seq<Memory.Slot>, blocks: seq<Memory.Block>, k: nat, s: nat, tag: Memory.Tag)
    returns (r: Memory.Reply, next: Memory.Reply)
    requires Memory.WellFormed(mt, slots) && StackFits(mt, slots, blocks, k, s)
    ensures IsReply(r, mt, slots, blocks, 4096, STACK_TAG) && r.outcome == Memory.Granted(s)
    ensures IsReply(next, r.tables, r.slots, blocks, 4096, tag)
    ensures next.outcome == Memory.Granted(s + 4096) <==> Memory.IsFree(slots, s + 4096, 4096)
  {
    r := Granting(mt, slots, blocks, k, s, STACK_TAG);
    var n := Memory.FirstUnused(slots);
    assert r.slots == slots[n := Memory.Slot(s, 4096, true, STACK_TAG)];
    BehindCandidate(slots, r.slots, n, blocks, k, s);
    if Memory.IsFree(slots, s + 4096, 4096) {
      next := Granting(mt, r.slots, blocks, k, s + 4096, tag);
    } else {
      next := Memory.Request(mt, r.slots, blocks, 4096, Memory.Align4KB, tag);
      Memory.PlainRequest(mt, r.slots, blocks, 4096, Memory.Align4KB, tag);
    }
  }

  /** Without growth the least candidate of the first block that has one is granted. */
  lemma Granting(mt: seq<Memory.Table>, slots: seq<Memory.Slot>, blocks: seq<Memory.Block>, k: nat, s: nat, tag: Memory.Tag) returns (r: Memory.Reply)
    requires Memory.WellFormed(mt, slots) && !Memory.NeedsGrowth(mt, slots) && k < |blocks| && s > 0
    requires Memory.LeastCandidate(slots, blocks[k], 4096, Memory.Align4KB, s)
    requires forall j: nat, a: nat :: j < k ==> !Memory.Candidate(slots, blocks[j], 4096, Memory.Align4KB, a)
    ensures IsReply(r, mt, slots, blocks, 4096, tag) && r.outcome == Memory.Granted(s) && r.tables == mt && Memory.WellFormed(mt, r.slots)
    ensures Memory.FirstUnused(slots) < |slots| && r.slots == Memory.Record(slots, Memory.Slot(s, 4096, true, tag))
  {
    Memory.FirstFitIs(slots, blocks, 4096, Memory.Align4KB, 0, k, s);
    Memory.PlainRequest(mt, slots, blocks, 4096, Memory.Align4KB, tag);
    r := Memory.Nested(mt, slots, blocks, 4096, Memory.Align4KB, tag);
  }

  /** With the stack recorded, the search passes over everything before the page behind it. */
  lemma BehindCandidate(slots: seq<Memory.Slot>, after: seq<Memory.Slot>, n: nat, blocks: seq<Memory.Block>, k: nat, s: nat)
    requires n < |slots| && !slots[n].used && after == slots[n := Memory.Slot(s, 4096, true, STACK_TAG)]
    requires k < |blocks| && s + 4096 < Memory.Limit(blocks[k]) && Memory.LeastCandidate(slots, blocks[k], 4096, Memory.Align4KB, s)
    requires forall j: nat, a: nat :: j < k ==> !Memory.Candidate(slots, blocks[j], 4096, Memory.Align4KB, a)
    ensures forall j: nat, a: nat :: j < k ==> !Memory.Candidate(after, blocks[j], 4096, Memory.Align4KB, a)
    ensures Memory.IsFree(after, s + 4096, 4096) <==> Memory.IsFree(slots, s + 4096, 4096)
    ensures Memory.IsFree(slots, s + 4096, 4096) ==> Memory.LeastCandidate(after, blocks[k], 4096, Memory.Align4KB, s + 4096)
  {
    forall a: nat | Memory.IsFree(after, a, 4096) ensures Memory.IsFree(slots, a, 4096) && !Memory.Clash(after[n], a, 4096) {
      forall i | 0 <= i < |slots| ensures !Memory.Clash(slots[i], a, 4096) {
        assert !Memory.Clash(after[i], a, 4096);
      }
    }
    forall j: nat, a: nat | j < k ensures !Memory.Candidate(after, blocks[j], 4096, Memory.Align4KB, a) {
      assert !Memory.Candidate(slots, blocks[j], 4096, Memory.Align4KB, a);
    }
    forall a: nat | a < s + 4096 ensures !Memory.Candidate(after, blocks[k], 4096, Memory.Align4KB, a) {
      if Memory.Candidate(after, blocks[k], 4096, Memory.Align4KB, a) {
        assert Memory.Candidate(slots, blocks[k], 4096, Memory.Align4KB, a);
      }
    }
    if Memory.IsFree(slots, s + 4096, 4096) {
      forall i | 0 <= i < |after| ensures !Memory.Clash(after[i], s + 4096, 4096) {
        assert !Memory.Clash(slots[i], s + 4096, 4096);
      }
    }
  }

  /** The first two pages of a stack are served by the same tables. */
  lemma StackPrefix()
    ensures Prefix(StackPage(1), 3) == Prefix(StackPage(0), 3) && Prefix(StackPage(1), 1) == Prefix(StackPage(0), 1)
  {
    PrefixTop(StackPage(0));
    PrefixTop(StackPage(1));
  }

  lemma SecondIsTableIff(tables: Tables, places: map<nat, Place>, next: Memory.Reply, mt: seq<Memory.Table>, slots: seq<Memory.Slot>, blocks: seq<Memory.Block>, cr3: nat, s: nat)
    requires Tree(tables, places) && IsReply(next, mt, slots, blocks, 4096, Paging.TABLE_TAG) && s % 4096 == 0
    requires GrantedTo(mt, slots, blocks, places, cr3, StackPage(0))
    ensures Serves(places, s / 4096 + 1, cr3, 3, StackPage(1)) <==> next.outcome == Memory.Granted(s + 4096)
  {
    StackPrefix();
    var g :| g * 4096 == next.outcome.addr && Serves(places, g, cr3, 3, StackPage(0));
    var f := s / 4096 + 1;
    assert f * 4096 == s + 4096;
    if Serves(places, f, cr3, 3, StackPage(1)) { assert SamePlace(places, f, g); }
  }

  lemma LaunchedStack(was: Snapshot, taken: Snapshot, b: Books, now: Snapshot, blocks: seq<Memory.Block>, cr3: nat, stack: Option<nat>, k: nat, s: nat, mapped: bool)
    requires Memory.WellFormed(was.mt, was.slots) && Ranged(BooksOf(was), blocks, 4096, STACK_TAG, stack, b) && (stack.Some? ==> b == BooksOf(taken))
    requires mapped ==> Tree(now.tables, now.places) && (TopAbsent(was.tables, cr3, StackPage(0)) ==>
      GrantedTo(taken.mt, taken.slots, blocks, now.places, cr3, StackPage(0)))
    requires mapped ==> stack.Some?
    ensures StackFits(was.mt, was.slots, blocks, k, s) ==> stack == Some(s)
    ensures StackFits(was.mt, was.slots, blocks, k, s) && mapped && TopAbsent(was.tables, cr3, StackPage(0)) ==>
      (Serves(now.places, s / 4096 + 1, cr3, 3, StackPage(1)) <==> Memory.IsFree(was.slots, s + 4096, 4096))
  {
    if StackFits(was.mt, was.slots, blocks, k, s) {
      var reply, next := PageBehindIsNext(was.mt, was.slots, blocks, k, s, Paging.TABLE_TAG);
      if mapped && TopAbsent(was.tables, cr3, StackPage(0)) {
        SecondIsTableIff(now.tables, now.places, next, taken.mt, taken.slots, blocks, cr3, s);
      }
    }
  }

  /** The user can write the second page of a stack, which leads to the frame behind its memory. */
  ghost predicate SecondPage(tables: Tables, cr3: nat, stack: nat)
    requires forall f :: f in tables ==> |tables[f]| == ENTRIES
  {
    Translate(tables, cr3, StackPage(1)) == Some(Mapping(stack / 4096 + 1, HEAP_FLAGS)) && HEAP_FLAGS & (USER | RW) == USER | RW
  }

  /** What setting up the stack of a launch promises of its second page. */
  lemma SecondPageMapped(r: MapResult, was: World, w: World, i: nat, stack: Option<nat>, done: nat, taken: Snapshot, blocks: seq<Memory.Block>)
    requires i < |was.mem.spaces|
    ensures StackCall(r, was, w, i, 1, 4096, stack, done, taken, blocks) && r.Mapped? ==>
      && stack.Some? && Sized(w.mem.tables) && SecondPage(w.mem.tables, was.mem.spaces[i].cr3, stack.value)
      && (stack.value / 4096 + 1 in w.loose || Owns(was.home, stack.value / 4096 + 1, i, StackPage(1)))
  {
    assert HEAP_FLAGS & (USER | RW) == USER | RW;
    assert stack.Some? ==> StackFrame(stack.value, 1) == stack.value / 4096 + 1;
  }

  /** And of the page behind the stack's memory. */
  lemma PageBehindStack(r: MapResult, was: World, w: World, i: nat, stack: Option<nat>, done: nat, taken: Snapshot, blocks: seq<Memory.Block>, k: nat, s: nat)
    requires WorldOk(was) && i < |was.mem.spaces|
    ensures StackCall(r, was, w, i, 1, 4096, stack, done, taken, blocks) && StackFits(was.mem.mt, was.mem.slots, blocks, k, s) ==>
      && stack == Some(s)
      && var cr3 := was.mem.spaces[i].cr3;
         r.Mapped? && TopAbsent(was.mem.tables, cr3, StackPage(0)) ==>
           (Serves(w.mem.places, s / 4096 + 1, cr3, 3, StackPage(1)) <==> Memory.IsFree(was.mem.slots, s + 4096, 4096))
  {
    if StackCall(r, was, w, i, 1, 4096, stack, done, taken, blocks) {
      LaunchedStack(was.mem, taken, if stack.None? then BooksOf(w.mem) else BooksOf(taken), w.mem, blocks, was.mem.spaces[i].cr3, stack, k, s, r.Mapped?);
    }
  }

  /**
   The stack of every launch has 4096 bytes and two pages. For a process that has
   no tables near its stack the second page is the process's own table of the
   third level exactly if the page behind the stack's memory was free.
   */
  method LaunchStack(a: AddressSpaces, i: nat, ghost k: nat, ghost s: nat) returns (r: MapResult, stack: Option<nat>)
    requires a.Valid() && i < |a.spaces|
    modifies a, a.pt, a.pt.mm
    ensures r.NullMemory? || a.Valid()
    ensures r.Mapped? ==>
      && stack.Some? && SecondPage(a.pt.tables, old(a.spaces)[i].cr3, stack.value)
      && (stack.value / 4096 + 1 in a.loose || Owns(old(a.home), stack.value / 4096 + 1, i, StackPage(1)))
    ensures old(StackFits(a.pt.mm.tables, a.pt.mm.slots, a.pt.mm.blocks, k, s)) ==>
      && stack == Some(s)
      && (r.Mapped? && TopAbsent(old(a.pt.tables), old(a.spaces)[i].cr3, StackPage(0)) ==>
            (Serves(a.pt.places, s / 4096 + 1, old(a.spaces)[i].cr3, 3, StackPage(1)) <==> Memory.IsFree(old(a.pt.mm.slots), s + 4096, 4096)))
  {
    ghost var done, taken;
    r, stack, done, taken := a.SetUpStack(i, 4096);
    assert a.IsHere(a.Here());
    SecondPageMapped(r, old(a.Here()), a.Here(), i, stack, done, taken, a.pt.mm.blocks);
    PageBehindStack(r, old(a.Here()), a.Here(), i, stack, done, taken, a.pt.mm.blocks, k, s);
  }

  /**
   Where the tables are there already, the page handed out next after the stack of
   a launch is the second page of that stack, if the page behind its memory was
   free: two pages lead to one frame.
   */
  method StackThenPage(a: AddressSpaces, i: nat, j: nat, va: nat, ghost k: nat, ghost s: nat) returns (ghost f: nat)
    requires a.Valid() && i < |a.spaces| && j < |a.spaces| && va % 4096 == 0 && va / 4096 < PAGES
    requires StackFits(a.pt.mm.tables, a.pt.mm.slots, a.pt.mm.blocks, k, s) && Memory.IsFree(a.pt.mm.slots, s + 4096, 4096)
    requires AllTables(a.pt.places, a.spaces[i].cr3, 2) && HasTable(a.pt.places, a.spaces[j].cr3, va / 4096)
    requires !HasVa(a.spaces[i].va, STACK_VA) && !HasVa(a.spaces[i].va, STACK_VA + 4096) && !HasVa(a.spaces[j].va, va)
    requires i == j ==> va != STACK_VA && va != STACK_VA + 4096
    modifies a, a.pt, a.pt.mm
    ensures a.Valid() && SameRoots(old(a.spaces), a.spaces)
    ensures f == s / 4096 + 1 && Owns(a.home, f, j, va / 4096)
    ensures MapsTo(Translate(a.pt.tables, a.spaces[i].cr3, StackPage(1)), f)
    ensures MapsTo(Translate(a.pt.tables, a.spaces[j].cr3, va / 4096), f)
  {
    StackNotVa(a.spaces, i, j, s, va);
    ghost var ri, rj := a.spaces[i].cr3, a.spaces[j].cr3;
    StackWithTables(a, i, k, s);
    ghost var was := a.Now();
    RootsPlaced(a, i);
    RootsPlaced(a, j);
    f := PageWithTables(a, j, va, s + 4096);
    PageOnTop(was.tables, was.places, a.pt.tables, ri, rj, s, va, f);
  }

  /** The stack of a launch where its tables are there: mapped without any memory but its own, so that the page behind is granted next. */
  method StackWithTables(a: AddressSpaces, i: nat, ghost k: nat, ghost s: nat)
    requires a.Valid() && i < |a.spaces|
    requires StackFits(a.pt.mm.tables, a.pt.mm.slots, a.pt.mm.blocks, k, s) && Memory.IsFree(a.pt.mm.slots, s + 4096, 4096)
    requires AllTables(a.pt.places, a.spaces[i].cr3, 2) && !HasVa(a.spaces[i].va, STACK_VA) && !HasVa(a.spaces[i].va, STACK_VA + 4096)
    modifies a, a.pt, a.pt.mm
    ensures a.Valid() && a.spaces == IndexedAll(old(a.spaces), i, StackEntries(s, 2)) && a.pt.places == old(a.pt.places)
    ensures SameRoots(old(a.spaces), a.spaces) && StackMapped(a.pt.tables, old(a.spaces)[i].cr3, s, 2)
    ensures NextGrant(a.pt.mm.tables, a.pt.mm.slots, a.pt.mm.blocks, s + 4096)
  {
    ghost var reply, next := PageBehindIsNext(a.pt.mm.tables, a.pt.mm.slots, a.pt.mm.blocks, k, s, PAGE_TAG);
    var r, stack;
    ghost var done, taken;
    r, stack, done, taken := a.SetUpStack(i, 4096);
    assert a.IsHere(a.Here());
    StackHasTables(r, old(a.Here()), a.Here(), i, stack, done, taken, a.pt.mm.blocks, reply, next, s);
  }

  /** A stack of two pages whose tables are there, and which are not indexed: nothing can go wrong but its memory. */
  lemma StackHasTables(r: MapResult, was: World, w: World, i: nat, stack: Option<nat>, done: nat, taken: Snapshot, blocks: seq<Memory.Block>,
                       reply: Memory.Reply, next: Memory.Reply, s: nat)
    requires i < |was.mem.spaces| && AllTables(was.mem.places, was.mem.spaces[i].cr3, 2)
    requires !HasVa(was.mem.spaces[i].va, STACK_VA) && !HasVa(was.mem.spaces[i].va, STACK_VA + 4096)
    requires IsReply(reply, was.mem.mt, was.mem.slots, blocks, 4096, STACK_TAG) && reply.outcome == Memory.Granted(s)
    requires IsReply(next, reply.tables, reply.slots, blocks, 4096, PAGE_TAG) && next.outcome == Memory.Granted(s + 4096)
    ensures StackCall(r, was, w, i, 1, 4096, stack, done, taken, blocks) ==>
      && r.Mapped? && w.mem.spaces == IndexedAll(was.mem.spaces, i, StackEntries(s, 2)) && w.mem.places == was.mem.places
      && Sized(w.mem.tables) && StackMapped(w.mem.tables, was.mem.spaces[i].cr3, s, 2)
      && SameRoots(was.mem.spaces, w.mem.spaces) && NextGrant(w.mem.mt, w.mem.slots, blocks, s + 4096)
  {
    if StackCall(r, was, w, i, 1, 4096, stack, done, taken, blocks) {
      assert stack == Some(s);
      assert done == 0 || done == 1 || done == 2;
    }
  }

  /** The next page granted starts at this address. */
  ghost predicate NextGrant(mt: seq<Memory.Table>, slots: seq<Memory.Slot>, blocks: seq<Memory.Block>, addr: nat) {
    exists r :: IsReply(r, mt, slots, blocks, 4096, PAGE_TAG) && r.outcome == Memory.Granted(addr)
  }

  /** A page handed out where its tables are there. */
  method PageWithTables(a: AddressSpaces, j: nat, va: nat, ghost addr: nat) returns (ghost f: nat)
    requires a.Valid() && j < |a.spaces| && va % 4096 == 0 && va / 4096 < PAGES && !HasVa(a.spaces[j].va, va)
    requires HasTable(a.pt.places, a.spaces[j].cr3, va / 4096) && NextGrant(a.pt.mm.tables, a.pt.mm.slots, a.pt.mm.blocks, addr)
    modifies a, a.pt, a.pt.mm
    ensures a.Valid() && SameRoots(old(a.spaces), a.spaces)
    ensures f * 4096 == addr && Owns(a.home, f, j, va / 4096)
    ensures Remaps(old(a.pt.tables), old(a.pt.places), a.pt.tables, old(a.spaces)[j].cr3, va / 4096, 1, Entry(f, HEAP_FLAGS))
  {
    ghost var next :| IsReply(next, a.pt.mm.tables, a.pt.mm.slots, a.pt.mm.blocks, 4096, PAGE_TAG) && next.outcome == Memory.Granted(addr);
    assert HEAP_FLAGS & PRESENT != 0 && HEAP_FLAGS & PAGE_FRAME == 0;
    var r, page;
    r, page, f := a.AllocatePage(j, va, false, HEAP_FLAGS);
    assert a.IsHere(a.Here());
    assert r.Mapped?;
  }

  ghost predicate SameRoots(spaces: seq<Space>, spaces': seq<Space>) {
    |spaces'| == |spaces| && forall m :: 0 <= m < |spaces| ==> spaces'[m].cr3 == spaces[m].cr3
  }

  lemma RootsPlaced(a: AddressSpaces, i: nat)
    requires a.Valid() && i < |a.spaces|
    ensures a.spaces[i].cr3 in a.pt.places && a.pt.places[a.spaces[i].cr3] == Place(a.spaces[i].cr3, 4, 0)
  {
    assert SpaceOk(a.pt.tables, a.pt.places, a.spaces[i]);
  }

  lemma StackNotVa(spaces: seq<Space>, i: nat, j: nat, s: nat, va: nat)
    requires i < |spaces| && j < |spaces| && !HasVa(spaces[j].va, va) && (i == j ==> va != STACK_VA && va != STACK_VA + 4096)
    ensures !HasVa(IndexedAll(spaces, i, StackEntries(s, 2))[j].va, va)
  {
    var all := spaces[i].va + StackEntries(s, 2);
    if i == j {
      forall n | 0 <= n < |all| ensures all[n].va != va {
        if n < |spaces[i].va| {
          assert spaces[i].va[n].va != va;
        } else {
          assert all[n] == StackEntry(s, n - |spaces[i].va|);
        }
      }
    }
  }

  lemma PageOnTop(tables: Tables, places: map<nat, Place>, tables': Tables, ri: nat, rj: nat, s: nat, va: nat, f: nat)
    requires Placed(tables, places) && ri in places && places[ri] == Place(ri, 4, 0) && rj in places && places[rj] == Place(rj, 4, 0)
    requires forall g :: g in tables' ==> |tables'[g]| == ENTRIES
    requires StackMapped(tables, ri, s, 2) && f == s / 4096 + 1 && va / 4096 < PAGES
    requires Remaps(tables, places, tables', rj, va / 4096, 1, Entry(f, HEAP_FLAGS))
    ensures MapsTo(Translate(tables', ri, StackPage(1)), f) && MapsTo(Translate(tables', rj, va / 4096), f)
  {
    assert HEAP_FLAGS & PRESENT != 0;
    PrefixTop(StackPage(1));
    PrefixTop(va / 4096);
    assert Serves(places, ri, ri, 4, StackPage(1)) && Serves(places, rj, rj, 4, va / 4096);
    assert StackFrame(s, 1) == f;
  }

  // -------------------------------------------------------------- a concrete case

  /** Since `b` empty tables were added, down to table `f` of a level on the way to a page. */
  ghost predicate Descends(b: Tables, bp: map<nat, Place>, t: Tables, p: map<nat, Place>, f: nat, root: nat, level: nat, vpn: nat) {
    && Sized(b) && Tree(t, p) && Keeps(bp, p) && SameTranslations(b, bp, t)
    && Serves(p, f, root, level, vpn) && t[f] == ZeroTable()
    && forall h: nat :: h in t <==> h in b || root < h <= f
  }

  /** One more table on the way to a page. */
  lemma OneMoreTable(b: Tables, bp: map<nat, Place>, t: Tables, p: map<nat, Place>, f: nat, root: nat, level: nat, vpn: nat) returns (p': map<nat, Place>)
    requires Descends(b, bp, t, p, f, root, level, vpn) && level > 1 && f + 1 !in b && root <= f && vpn < PAGES
    ensures Descends(b, bp, Attach(t, f, Index(vpn, level), f + 1), p', f + 1, root, level - 1, vpn)
  {
    var i, g := Index(vpn, level), f + 1;
    assert !Present(ZERO);
    AttachKeepsTree(t, p, f, i, g);
    p' := p[g := Below(p[f], i)];
    forall r, v: nat | Serves(bp, r, r, 4, v) && v < PAGES ensures Translate(Attach(t, f, i, g), r, v) == Translate(b, r, v) {
      PrefixTop(v);
      assert Serves(p, r, r, 4, v);
      AttachTranslates(t, p, f, i, g, r, v);
      assert Translate(t, r, v) == Translate(b, r, v);
    }
    PrefixStep(vpn, level);
  }

  /** Tables from `f` down to the last level on the way to a page, each in the next frame. */
  method DownTables(ghost b: Tables, ghost bp: map<nat, Place>, t: Tables, ghost p: map<nat, Place>, f: nat, ghost root: nat, level: nat, vpn: nat)
    returns (t': Tables, ghost p': map<nat, Place>, ghost last: nat)
    requires Descends(b, bp, t, p, f, root, level, vpn) && 1 <= level && root <= f && vpn < PAGES
    requires forall h: nat :: f < h < f + level ==> h !in b
    ensures Descends(b, bp, t', p', last, root, 1, vpn) && last == f + level - 1
    decreases level
  {
    if level == 1 {
      t', p', last := t, p, f;
    } else {
      ghost var q := OneMoreTable(b, bp, t, p, f, root, level, vpn);
      t', p', last := DownTables(b, bp, Attach(t, f, Index(vpn, level), f + 1), q, f + 1, root, level - 1, vpn);
    }
  }

  /** A new address space that maps nothing and has all the tables on the way to a page; the others map what they did. */
  method SpaceWithTables(t: Tables, ghost p: map<nat, Place>, f: nat, vpn: nat) returns (t': Tables, ghost p': map<nat, Place>)
    requires Tree(t, p) && (forall h: nat :: f <= h < f + 4 ==> h !in t) && vpn < PAGES
    ensures Tree(t', p') && SameTranslations(t, p, t') && forall v: nat :: v < PAGES ==> Translate(t', f, v) == None
    ensures Keeps(p, p') && f in p' && p'[f] == Place(f, 4, 0) && HasTable(p', f, vpn)
    ensures forall h: nat :: h in t' <==> h in t || f <= h < f + 4
  {
    NewRootKeepsTree(t, p, f);
    PrefixTop(vpn);
    var t0 := t[f := ZeroTable()];
    ghost var p0 := p[f := Place(f, 4, 0)];
    assert Descends(t0, p0, t0, p0, f, f, 4, vpn);
    ghost var last;
    t', p', last := DownTables(t0, p0, t0, p0, f, f, 4, vpn);
    SameTwice(t, p, t0, p0, t', f);
  }

  lemma SameTwice(t: Tables, p: map<nat, Place>, t0: Tables, p0: map<nat, Place>, t': Tables, f: nat)
    requires Sized(t) && Sized(t0) && Sized(t') && Keeps(p, p0) && SameTranslations(t, p, t0) && SameTranslations(t0, p0, t')
    requires f in p0 && p0[f] == Place(f, 4, 0) && forall v: nat :: v < PAGES ==> Translate(t0, f, v) == None
    ensures SameTranslations(t, p, t') && forall v: nat :: v < PAGES ==> Translate(t', f, v) == None
  {
    forall v: nat | v < PAGES ensures Translate(t', f, v) == None {
      PrefixTop(v);
      assert Serves(p0, f, f, 4, v);
    }
    forall r, v: nat | Serves(p, r, r, 4, v) && v < PAGES ensures Translate(t', r, v) == Translate(t, r, v) {
      assert Serves(p0, r, r, 4, v);
      assert Translate(t0, r, v) == Translate(t, r, v);
    }
  }

  /** Two processes that have mapped nothing agree with their tables. */
  lemma EmptySpacesOk(t: Tables, p: map<nat, Place>, slots: seq<Memory.Slot>, f: nat, g: nat)
    requires Placed(t, p) && f != g && f in p && g in p && p[f] == Place(f, 4, 0) && p[g] == Place(g, 4, 0)
    requires forall v: nat :: v < PAGES ==> Translate(t, f, v) == None && Translate(t, g, v) == None
    ensures Consistent(t, p, slots, [NewSpaceOf(f), NewSpaceOf(g)], map[], iset{})
  {
    var spaces := [NewSpaceOf(f), NewSpaceOf(g)];
    forall i | 0 <= i < |spaces| ensures SpaceOk(t, p, spaces[i]) {
    }
  }

  const CASE_TABLES := Memory.Slot(0x20_0000, 0x9000, true, Memory.UNTAGGED)
  const CASE_BLOCK := Memory.Block(0x40_0000, 0x10_0000, true)

  /** At 4MB nothing is allocated, so that a stack is granted there and the page behind it is free. */
  lemma CaseFits(mt: seq<Memory.Table>, slots: seq<Memory.Slot>)
    requires Memory.WellFormed(mt, slots) && |mt| == 1 && |slots| == Memory.INITIAL_ENTRIES
    requires slots[0] == Memory.Slot(0x10_0000, Memory.TABLE_ENTRY_SIZE * Memory.INITIAL_ENTRIES, true, Memory.UNTAGGED) && slots[1] == CASE_TABLES
    requires forall i :: 2 <= i < |slots| ==> !slots[i].used
    ensures StackFits(mt, slots, [CASE_BLOCK], 0, 0x40_0000) && Memory.IsFree(slots, 0x40_1000, 4096)
  {
    assert Memory.IsFree(slots, 0x40_0000, 4096);
    assert Memory.Candidate(slots, CASE_BLOCK, 4096, Memory.Align4KB, 0x40_0000);
    var n := Memory.FirstUnused(slots);
    assert !slots[2].used && n <= 2;
    var after := Memory.Record(slots, Memory.Slot(0x40_0000, 4096, true, STACK_TAG));
    assert !after[3].used && Memory.FirstUnused(after) <= 3;
  }

  /**
   A concrete case: two processes with tables near their stacks. The stack of one
   is set up as every launch does, then the other is given a page, and both can
   write the same frame.
   */
  method SharedStackPage() returns (a: AddressSpaces, ghost f: nat)
    ensures a.Valid() && |a.spaces| == 2
    ensures MapsTo(Translate(a.pt.tables, a.spaces[0].cr3, StackPage(1)), f)
    ensures MapsTo(Translate(a.pt.tables, a.spaces[1].cr3, StackPage(0)), f) && Owns(a.home, f, 1, StackPage(0))
    ensures !OnlyAt(a.pt.tables, a.spaces, 1, StackPage(0), f)
  {
    a := CaseSpaces();
    f := StackThenPage(a, 0, 1, STACK_VA, 0, 0x40_0000);
    assert STACK_VA / 4096 == StackPage(0);
    assert MapsTo(Translate(a.pt.tables, a.spaces[0].cr3, StackPage(1)), f);
  }

  /** The state of the concrete case before the stack is set up. */
  method CaseSpaces() returns (a: AddressSpaces)
    ensures fresh(a) && fresh(a.pt) && fresh(a.pt.mm) && a.Valid() && |a.spaces| == 2
    ensures a.spaces[0].va == [] && a.spaces[1].va == []
    ensures StackFits(a.pt.mm.tables, a.pt.mm.slots, a.pt.mm.blocks, 0, 0x40_0000) && Memory.IsFree(a.pt.mm.slots, 0x40_1000, 4096)
    ensures AllTables(a.pt.places, a.spaces[0].cr3, 2) && HasTable(a.pt.places, a.spaces[1].cr3, StackPage(0))
  {
    var pt := CaseTables();
    a := new AddressSpaces(pt);
    EmptySpacesOk(pt.tables, pt.places, pt.mm.slots, 0x200, 0x204);
    TwoTables(pt.places, 0x200);
    a.spaces := [NewSpaceOf(0x200), NewSpaceOf(0x204)];
  }

  lemma TwoTables(places: map<nat, Place>, root: nat)
    requires HasTable(places, root, StackPage(0))
    ensures AllTables(places, root, 2)
  {
    StackPrefix();
    var t :| Serves(places, t, root, 1, StackPage(0));
    assert Serves(places, t, root, 1, StackPage(1));
  }

  /** The page tables of the concrete case. */
  method CaseTables() returns (pt: PageTables)
    ensures fresh(pt) && fresh(pt.mm) && pt.Valid()
    ensures StackFits(pt.mm.tables, pt.mm.slots, pt.mm.blocks, 0, 0x40_0000) && Memory.IsFree(pt.mm.slots, 0x40_1000, 4096)
    ensures IsEmptySpace(pt.tables, pt.places, 0x200) && IsEmptySpace(pt.tables, pt.places, 0x204)
  {
    var mm := CaseMemory();
    ghost var slots := mm.slots;
    assert FrameHeld(slots, 0x208) && HeldFrom(slots, 0x200, 0x204) && HeldFrom(slots, 0x204, 0x208);
    pt := new PageTables(mm, 0x208);
    AddSpace(pt, 0x200);
    assert pt.mm.slots == slots;
    AddSpace(pt, 0x204);
  }

  ghost predicate HeldFrom(slots: seq<Memory.Slot>, start: nat, end: nat) {
    forall g: nat {:trigger FrameHeld(slots, g)} :: start <= g < end ==> FrameHeld(slots, g)
  }

  /** The memory of the concrete case. */
  method CaseMemory() returns (mm: Memory.Allocator)
    ensures fresh(mm) && mm.Valid() && StackFits(mm.tables, mm.slots, mm.blocks, 0, 0x40_0000) && Memory.IsFree(mm.slots, 0x40_1000, 4096)
    ensures HeldFrom(mm.slots, 0x200, 0x209)
  {
    mm := new Memory.Allocator([CASE_BLOCK], 0x10_0000, [CASE_TABLES], map[]);
    CaseFits(mm.tables, mm.slots);
    forall g: nat | 0x200 <= g < 0x209 ensures FrameHeld(mm.slots, g) { assert Shares(mm.slots[1], g); }
  }

  /** An address space that maps nothing and has the tables on the way to its stack. */
  ghost predicate IsEmptySpace(t: Tables, p: map<nat, Place>, f: nat)
    requires Sized(t)
  {
    f in p && p[f] == Place(f, 4, 0) && HasTable(p, f, StackPage(0)) && forall v: nat :: v < PAGES ==> Translate(t, f, v) == None
  }

  method AddSpace(pt: PageTables, f: nat)
    requires pt.Valid() && forall h: nat :: f <= h < f + 4 ==> h !in pt.tables
    requires HeldFrom(pt.mm.slots, f, f + 4)
    modifies pt
    ensures pt.Valid() && IsEmptySpace(pt.tables, pt.places, f)
    ensures forall h: nat :: h in pt.tables <==> h in old(pt.tables) || f <= h < f + 4
    ensures forall g: nat :: IsEmptySpace(old(pt.tables), old(pt.places), g) ==> IsEmptySpace(pt.tables, pt.places, g)
  {
    var t;
    ghost var p;
    t, p := SpaceWithTables(pt.tables, pt.places, f, StackPage(0));
    forall g: nat | IsEmptySpace(pt.tables, pt.places, g) ensures IsEmptySpace(t, p, g) {
      EmptyStays(pt.tables, pt.places, t, p, g);
    }
    pt.tables := t;
    pt.places := p;
  }

  lemma EmptyStays(t: Tables, p: map<nat, Place>, t': Tables, p': map<nat, Place>, g: nat)
    requires Sized(t) && Sized(t') && Keeps(p, p') && SameTranslations(t, p, t') && IsEmptySpace(t, p, g)
    ensures IsEmptySpace(t', p', g)
  {
    var h :| Serves(p, h, g, 1, StackPage(0));
    assert Serves(p', h, g, 1, StackPage(0));
    forall v: nat | v < PAGES ensures Translate(t', g, v) == None {
      PrefixTop(v);
      assert Serves(p, g, g, 4, v);
    }
  }
}
