/**
 Who else can reach a frame that a process has mapped: pages of the user are
 their process's own unless they are loose, and this is when they are.
 */
module Sharing {
  import opened Base
  import opened PageTree
  import opened Paging
  import opened ProcessMemory
  import Memory

  // --------------------------------------------------------- pages of the user

  /** The range and the frame have no byte in common. */
  predicate Outside(addr: nat, n: nat, f: nat) {
    addr + n <= f * 4096 || (f + 1) * 4096 <= addr
  }

  /** No other allocation shares a byte with a private frame, and none of the allocator's own tables does. */
  lemma PrivateIsApart(mt: seq<Memory.Table>, slots: seq<Memory.Slot>, k: nat, f: nat)
    requires Memory.WellFormed(mt, slots) && k < |slots| && Inside(slots[k], f)
    ensures forall j :: 0 <= j < |slots| && Shares(slots[j], f) ==> j == k
    ensures forall t :: 0 <= t < |mt| ==> Outside(mt[t].addr, Memory.TABLE_ENTRY_SIZE * mt[t].count, f)
    ensures forall t :: 0 < t < |mt| ==> Outside(mt[t].node, Memory.TABLE_INDEX_SIZE, f)
  {
    forall j | 0 <= j < |slots| && slots[j].used && j != k ensures !Shares(slots[j], f) && Outside(slots[j].addr, slots[j].size, f) {
      if j < k { assert Memory.Apart(slots[j], slots[k]); } else { assert Memory.Apart(slots[k], slots[j]); }
    }
    forall t | 0 <= t < |mt|
      ensures Outside(mt[t].addr, Memory.TABLE_ENTRY_SIZE * mt[t].count, f) && (t > 0 ==> Outside(mt[t].node, Memory.TABLE_INDEX_SIZE, f))
    {
      assert Memory.Holds(slots, mt[t].addr, Memory.TABLE_ENTRY_SIZE * mt[t].count, Memory.TagOf(t));
      var j :| 0 <= j < |slots| && slots[j] == Memory.Slot(mt[t].addr, Memory.TABLE_ENTRY_SIZE * mt[t].count, true, Memory.TagOf(t));
      if t > 0 {
        var n :| 0 <= n < |slots| && slots[n] == Memory.Slot(mt[t].node, Memory.TABLE_INDEX_SIZE, true, Memory.NODE_TAG);
      }
    }
  }

  /**
   A page that the user can reach leads, unless its frame is loose, to a frame
   that was handed out for it: mapped nowhere else, no page table, apart from the
   allocator's tables, and sharing no byte with any allocation but that of the
   page or stack it is part of.
   */
  lemma UserPageIsItsOwn(mt: seq<Memory.Table>, tables: Tables, places: map<nat, Place>, slots: seq<Memory.Slot>, spaces: seq<Space>,
                         home: map<nat, Home>, loose: iset<nat>, i: nat, v: nat, m: Mapping)
    returns (k: nat)
    requires Memory.WellFormed(mt, slots) && Placed(tables, places) && Consistent(tables, places, slots, spaces, home, loose)
    requires i < |spaces| && v < PAGES && Translate(tables, spaces[i].cr3, v) == Some(m) && ForUser(m) && m.frame !in loose
    ensures Owns(home, m.frame, i, v) && OnlyAt(tables, spaces, i, v, m.frame) && m.frame !in tables
    ensures k < |slots| && Inside(slots[k], m.frame) && forall j :: 0 <= j < |slots| && Shares(slots[j], m.frame) ==> j == k
    ensures forall t :: 0 <= t < |mt| ==> Outside(mt[t].addr, Memory.TABLE_ENTRY_SIZE * mt[t].count, m.frame)
    ensures forall t :: 0 < t < |mt| ==> Outside(mt[t].node, Memory.TABLE_INDEX_SIZE, m.frame)
  {
    assert IsTight(slots, home, m, i, v);
    HandedOnlyAtHome(tables, places, slots, spaces, home, loose, m.frame);
    assert Private(slots, m.frame);
    k :| 0 <= k < |slots| && Inside(slots[k], m.frame);
    PrivateIsApart(mt, slots, k, m.frame);
  }

  // ---------------------------------------------- which frames can be granted

  /** Some memory map makes the next request for a page answer with this frame. */
  ghost predicate Grantable(slots: seq<Memory.Slot>, f: nat) {
    exists blocks: seq<Memory.Block> :: Memory.FirstFit(slots, blocks, 4096, Memory.Align4KB) == f * 4096
  }

  /** A frame can be the next one granted exactly if the allocator's own test finds it free. */
  lemma GrantableIff(slots: seq<Memory.Slot>, f: nat)
    requires f > 0
    ensures Grantable(slots, f) <==> Memory.IsFree(slots, f * 4096, 4096)
  {
    if Memory.IsFree(slots, f * 4096, 4096) {
      var b := Memory.Block(f * 4096, 4096, true);
      assert Memory.LeastCandidate(slots, b, 4096, Memory.Align4KB, f * 4096);
      Memory.FirstFitIs(slots, [b], 4096, Memory.Align4KB, 0, 0, f * 4096);
    }
    if Grantable(slots, f) {
      var blocks :| Memory.FirstFit(slots, blocks, 4096, Memory.Align4KB) == f * 4096;
      Memory.FirstFitFree(slots, blocks, 4096, Memory.Align4KB);
    }
  }

  /** The frame is free exactly if no allocation shares a byte with it or starts right behind it. */
  lemma FreeIff(slots: seq<Memory.Slot>, f: nat)
    ensures Memory.IsFree(slots, f * 4096, 4096) <==>
      !FrameHeld(slots, f) && forall i :: 0 <= i < |slots| && slots[i].used ==> slots[i].addr != (f + 1) * 4096
  {
    forall i | 0 <= i < |slots|
      ensures Memory.Clash(slots[i], f * 4096, 4096) <==> Shares(slots[i], f) || (slots[i].used && slots[i].addr == (f + 1) * 4096)
    {
    }
  }

  /** Allocations that share no byte with the frame, and are no tables of the allocator, were released; nothing else has changed. */
  ghost predicate Freed(mt: seq<Memory.Table>, slots: seq<Memory.Slot>, later: seq<Memory.Slot>, f: nat) {
    |later| == |slots| && forall i :: 0 <= i < |slots| ==>
      later[i] == slots[i] || (!Shares(slots[i], f) && !Memory.IsBookkeeping(mt, slots[i].addr) && !later[i].used)
  }

  lemma FreedKeepsWellFormed(mt: seq<Memory.Table>, slots: seq<Memory.Slot>, later: seq<Memory.Slot>, f: nat)
    requires Memory.WellFormed(mt, slots) && Freed(mt, slots, later, f)
    ensures Memory.WellFormed(mt, later)
  {
    forall t | 0 <= t < |mt|
      ensures Memory.Holds(later, mt[t].addr, Memory.TABLE_ENTRY_SIZE * mt[t].count, Memory.TagOf(t))
      ensures t > 0 ==> Memory.Holds(later, mt[t].node, Memory.TABLE_INDEX_SIZE, Memory.NODE_TAG)
    {
      var i :| 0 <= i < |slots| && slots[i] == Memory.Slot(mt[t].addr, Memory.TABLE_ENTRY_SIZE * mt[t].count, true, Memory.TagOf(t));
      assert later[i] == slots[i];
      if t > 0 {
        var j :| 0 <= j < |slots| && slots[j] == Memory.Slot(mt[t].node, Memory.TABLE_INDEX_SIZE, true, Memory.NODE_TAG);
        assert later[j] == slots[j];
      }
    }
  }

  lemma TableIsThere(mt: seq<Memory.Table>, slots: seq<Memory.Slot>, addr: nat)
    requires Memory.Held(mt, slots) && Memory.IsBookkeeping(mt, addr)
    ensures exists j :: 0 <= j < |slots| && slots[j].used && slots[j].addr == addr
  {
    var t :| 0 <= t < |mt| && (addr == mt[t].addr || (t > 0 && addr == mt[t].node));
    if addr == mt[t].addr {
      assert Memory.Holds(slots, addr, Memory.TABLE_ENTRY_SIZE * mt[t].count, Memory.TagOf(t));
    } else {
      assert Memory.Holds(slots, addr, Memory.TABLE_INDEX_SIZE, Memory.NODE_TAG);
    }
  }

  /** What is left when all allocations but the allocator's own tables are released. */
  function AllFreed(mt: seq<Memory.Table>, slots: seq<Memory.Slot>): seq<Memory.Slot> {
    seq(|slots|, i requires 0 <= i < |slots| => if Memory.IsBookkeeping(mt, slots[i].addr) then slots[i] else slots[i].(used := false))
  }

  /**
   A mapped frame can be granted to another page once other allocations are
   released exactly if it lies in no allocation and none of the allocator's
   tables starts right behind it.
   */
  lemma GrantableLaterIff(mt: seq<Memory.Table>, slots: seq<Memory.Slot>, f: nat)
    requires Memory.WellFormed(mt, slots) && f > 0
    ensures (exists later :: Freed(mt, slots, later, f) && Memory.WellFormed(mt, later) && Grantable(later, f))
      <==> !FrameHeld(slots, f) && !Memory.IsBookkeeping(mt, (f + 1) * 4096)
  {
    if !FrameHeld(slots, f) && !Memory.IsBookkeeping(mt, (f + 1) * 4096) {
      var later := AllFreed(mt, slots);
      forall i | 0 <= i < |slots| ensures !Shares(later[i], f) && (later[i].used ==> later[i].addr != (f + 1) * 4096) {
        assert !Shares(slots[i], f);
      }
      FreeIff(later, f);
      GrantableIff(later, f);
      assert Freed(mt, slots, later, f);
      FreedKeepsWellFormed(mt, slots, later, f);
    }
    forall later | Freed(mt, slots, later, f) && Memory.WellFormed(mt, later) && Grantable(later, f)
      ensures !FrameHeld(slots, f) && !Memory.IsBookkeeping(mt, (f + 1) * 4096)
    {
      GrantableIff(later, f);
      FreeIff(later, f);
      forall i | 0 <= i < |slots| ensures !Shares(slots[i], f) {
        assert !Shares(later[i], f);
      }
      if Memory.IsBookkeeping(mt, (f + 1) * 4096) { TableIsThere(mt, later, (f + 1) * 4096); }
    }
  }

  /**
   Exactly when mapping a page keeps every mapped frame to itself: the frame was
   handed out for the page; or the page is the kernel's alone, and its frame is
   part of an allocation and was not handed out.
   */
  lemma MapExclusiveIff(tables: Tables, places: map<nat, Place>, slots: seq<Memory.Slot>, tables': Tables, places': map<nat, Place>, slots': seq<Memory.Slot>,
                        spaces: seq<Space>, home: map<nat, Home>, i: nat, e: VaEntry, flags: Flags)
    requires Placed(tables, places) && Placed(tables', places') && Consistent(tables, places, slots, spaces, home, iset{})
    requires i < |spaces| && e.va / 4096 < PAGES && Grows(places, slots, places', slots') && flags & PRESENT != 0
    requires Remaps(tables, places, tables', spaces[i].cr3, e.va / 4096, 1, Entry(e.pa / 4096, flags))
    ensures Exclusive(tables', slots', Indexed(spaces, i, e), home, iset{}) <==>
      Owns(home, e.pa / 4096, i, e.va / 4096) || (flags & USER == 0 && FrameHeld(slots', e.pa / 4096) && e.pa / 4096 !in home)
  {
    var spaces', m, v := Indexed(spaces, i, e), Mapping(e.pa / 4096, flags), e.va / 4096;
    PrefixTop(v);
    assert SpaceOk(tables, places, spaces[i]);
    assert Serves(places, spaces[i].cr3, spaces[i].cr3, 4, v);
    assert spaces'[i].cr3 == spaces[i].cr3;
    assert Translate(tables', spaces'[i].cr3, v) == Some(m);
    if IsTight(slots', home, m, i, v) { OthersTight(tables, places, slots, tables', places', slots', spaces, home, i, e, flags); }
  }

  lemma OthersTight(tables: Tables, places: map<nat, Place>, slots: seq<Memory.Slot>, tables': Tables, places': map<nat, Place>, slots': seq<Memory.Slot>,
                    spaces: seq<Space>, home: map<nat, Home>, i: nat, e: VaEntry, flags: Flags)
    requires Placed(tables, places) && Placed(tables', places') && Consistent(tables, places, slots, spaces, home, iset{})
    requires i < |spaces| && e.va / 4096 < PAGES && Grows(places, slots, places', slots') && flags & PRESENT != 0
    requires IsTight(slots', home, Mapping(e.pa / 4096, flags), i, e.va / 4096)
    requires Remaps(tables, places, tables', spaces[i].cr3, e.va / 4096, 1, Entry(e.pa / 4096, flags))
    ensures Exclusive(tables', slots', Indexed(spaces, i, e), home, iset{})
  {
    var spaces' := Indexed(spaces, i, e);
    forall j: nat, v: nat | j < |spaces'| && v < PAGES && Translate(tables', spaces'[j].cr3, v).Some?
      ensures IsTight(slots', home, Translate(tables', spaces'[j].cr3, v).value, j, v)
    {
      PrefixTop(v);
      assert SpaceOk(tables, places, spaces[j]);
      assert Serves(places, spaces[j].cr3, spaces[j].cr3, 4, v);
      if !(j == i && v == e.va / 4096) {
        assert Translate(tables', spaces[j].cr3, v) == Translate(tables, spaces[j].cr3, v);
        TightLater(slots, slots', home, Translate(tables, spaces[j].cr3, v).value, j, v);
      }
    }
  }

  // ---------------------------------------------------- the pages of the kernel

  /** A range of memory that the kernel maps in every process, page by page. */
  datatype Extent = Extent(addr: nat, size: nat)

  /** The pages from the one that holds its first byte to the one that holds the byte behind its last. */
  function PagesOf(x: Extent): Run { Run(x.addr / 4096, (x.addr + x.size) / 4096 + 1) }

  predicate Covers(s: Memory.Slot, x: Extent) {
    s.used && s.addr <= x.addr && x.addr + x.size <= s.addr + s.size
  }

  /** The range is not empty and lies inside one allocation. */
  ghost predicate Allocated(slots: seq<Memory.Slot>, x: Extent) {
    x.size > 0 && exists i :: 0 <= i < |slots| && Covers(slots[i], x)
  }

  /** Its end lies inside a page, or the page behind it is part of another allocation. */
  ghost predicate EndHeld(slots: seq<Memory.Slot>, x: Extent) {
    (x.addr + x.size) % 4096 != 0 || FrameHeld(slots, (x.addr + x.size) / 4096)
  }

  /** All pages mapped for a range inside an allocation are held exactly if its end is. */
  lemma PagesHeldIff(slots: seq<Memory.Slot>, x: Extent)
    requires Allocated(slots, x)
    ensures (forall v: nat :: PagesOf(x).start <= v < PagesOf(x).end ==> FrameHeld(slots, v)) <==> EndHeld(slots, x)
  {
    var i :| 0 <= i < |slots| && Covers(slots[i], x);
    forall v: nat | PagesOf(x).start <= v && v * 4096 < x.addr + x.size ensures FrameHeld(slots, v) {
      assert Shares(slots[i], v);
    }
    var last := (x.addr + x.size) / 4096;
    assert PagesOf(x).start <= last < PagesOf(x).end;
  }

  /**
   Exactly when a new address space shares no frame with pages handed out: each
   range that all processes map ends inside a page or before another allocation,
   and none of their pages was handed out.
   */
  lemma KernelTightIff(slots: seq<Memory.Slot>, home: map<nat, Home>, kernel: Extent, others: seq<Extent>, tasks: seq<Run>)
    requires Allocated(slots, kernel) && |tasks| == |others|
    requires forall k :: 0 <= k < |others| ==> Allocated(slots, others[k]) && tasks[k] == PagesOf(others[k])
    ensures KernelLoose(slots, home, PagesOf(kernel).start, PagesOf(kernel).end, tasks) == iset{} <==>
      && EndHeld(slots, kernel) && (forall k :: 0 <= k < |others| ==> EndHeld(slots, others[k]))
      && forall v {:trigger v in home} :: KernelPage(PagesOf(kernel).start, PagesOf(kernel).end, tasks, v) ==> v !in home
  {
    var start, end := PagesOf(kernel).start, PagesOf(kernel).end;
    var loose := KernelLoose(slots, home, start, end, tasks);
    PagesHeldIff(slots, kernel);
    forall k | 0 <= k < |others|
      ensures (forall v: nat :: tasks[k].start <= v < tasks[k].end ==> FrameHeld(slots, v)) <==> EndHeld(slots, others[k])
    {
      PagesHeldIff(slots, others[k]);
    }
    if loose == iset{} {
      forall v | KernelPage(start, end, tasks, v) ensures FrameHeld(slots, v) && v !in home {
        assert v !in loose;
      }
    }
  }
}
