/**
 The memory of processes: the index of mapped addresses that the kernel keeps
 beside each process's page tables, and the pages it hands out.
 */
module ProcessMemory {
  import opened Base
  import opened PageTree
  import opened Paging
  import Memory

  /** One entry of p->va: a page the kernel mapped, and whether its own functions ignore it. */
  datatype VaEntry = VaEntry(va: nat, pa: nat, ignore: bool)

  /** The memory part of a process. */
  datatype Space = Space(cr3: nat, va: seq<VaEntry>, alloc: seq<nat>, heapAddr: nat, heapSize: nat)

  datatype MapResult = Mapped | Refused | NullMemory

  const HEAP_ADDR: nat := 0x2000_0000
  const PAGE_TAG := Memory.Tag("DispatcherProcessAllocatePage", 103)
  const STACK_VA: nat := 0xFF_FFFF_0000
  const STACK_TAG := Memory.Tag("DispatcherProcessSetUpStack", 31)
  const HEAP_FLAGS: Flags := USER | RW | PRESENT

  // ------------------------------------------------------------ what must hold

  /** The entry is what the hardware finds for its page. */
  ghost predicate Recorded(tables: Tables, cr3: nat, e: VaEntry)
    requires forall f :: f in tables ==> |tables[f]| == ENTRIES
  {
    && e.va % 4096 == 0 && e.pa % 4096 == 0 && e.va / 4096 < PAGES
    && Translate(tables, cr3, e.va / 4096).Some?
    && Translate(tables, cr3, e.va / 4096).value.frame == e.pa / 4096
  }

  predicate HasVa(va: seq<VaEntry>, page: nat) {
    exists k :: 0 <= k < |va| && va[k].va == page
  }

  /** Entry `k` is the first one for the page. */
  predicate FirstAt(va: seq<VaEntry>, k: nat, page: nat)
    requires k < |va|
  {
    va[k].va == page && forall j :: 0 <= j < k ==> va[j].va != page
  }

  /** The index agrees with the page tables, and holds no page twice. */
  ghost predicate Agrees(tables: Tables, s: Space)
    requires forall f :: f in tables ==> |tables[f]| == ENTRIES
  {
    && (forall k :: 0 <= k < |s.va| ==> Recorded(tables, s.cr3, s.va[k]))
    && (forall j, k :: 0 <= j < k < |s.va| ==> s.va[j].va != s.va[k].va)
  }

  ghost predicate SpaceOk(tables: Tables, places: map<nat, Place>, s: Space)
    requires forall f :: f in tables ==> |tables[f]| == ENTRIES
  {
    s.cr3 in places && places[s.cr3] == Place(s.cr3, 4, 0) && SmallPages(tables, s.cr3) && Agrees(tables, s)
  }

  /** A page of a process: which process, which virtual page. */
  datatype Home = Home(space: nat, page: nat)

  /** The frame was handed out for this page. */
  predicate Owns(home: map<nat, Home>, f: nat, i: nat, v: nat) {
    f in home && home[f] == Home(i, v)
  }

  predicate ForUser(m: Mapping) { m.flags & USER != 0 }

  /**
   The mapping shares its frame with nothing: the frame was handed out for this
   page, or it is a page of the kernel alone that cannot be granted to anyone.
   */
  ghost predicate IsTight(slots: seq<Memory.Slot>, home: map<nat, Home>, m: Mapping, i: nat, v: nat) {
    Owns(home, m.frame, i, v) || (!ForUser(m) && FrameHeld(slots, m.frame) && m.frame !in home)
  }

  /** Every mapping but those of the frames in `loose` is tight. */
  ghost predicate Exclusive(tables: Tables, slots: seq<Memory.Slot>, spaces: seq<Space>, home: map<nat, Home>, loose: iset<nat>)
    requires forall f :: f in tables ==> |tables[f]| == ENTRIES
  {
    forall i: nat, v: nat {:trigger Translate(tables, spaces[i].cr3, v)} ::
      i < |spaces| && v < PAGES && Translate(tables, spaces[i].cr3, v).Some? ==>
        var m := Translate(tables, spaces[i].cr3, v).value; m.frame in loose || IsTight(slots, home, m, i, v)
  }

  /** How a frame is mapped at a page. */
  datatype Fit = Tight | Loose

  ghost function FitOf(slots: seq<Memory.Slot>, home: map<nat, Home>, m: Mapping, i: nat, v: nat): Fit {
    if IsTight(slots, home, m, i, v) then Tight else Loose
  }

  /** The loose frames after mapping a frame: it joins them exactly if the mapping is not tight. */
  function Loosened(loose: iset<nat>, f: nat, fit: Fit): iset<nat> {
    if fit.Tight? then loose else loose + iset{f}
  }

  /** The frame lies wholly inside this allocation, which was made for a page or a stack of a process. */
  predicate Inside(s: Memory.Slot, f: nat) {
    s.used && s.addr <= f * 4096 && (f + 1) * 4096 <= s.addr + s.size && (s.tag == PAGE_TAG || s.tag == STACK_TAG)
  }

  ghost predicate Private(slots: seq<Memory.Slot>, f: nat) {
    exists k :: 0 <= k < |slots| && Inside(slots[k], f)
  }

  /** The page is listed with its process, for which it was handed out. */
  ghost predicate ListedOk(slots: seq<Memory.Slot>, home: map<nat, Home>, i: nat, page: nat) {
    page % 4096 == 0 && page / 4096 in home && home[page / 4096].space == i && Memory.Holds(slots, page, 4096, PAGE_TAG)
  }

  /** Frames handed out are private memory of processes and no page tables; the pages among them are listed. */
  ghost predicate Handed(tables: Tables, slots: seq<Memory.Slot>, spaces: seq<Space>, home: map<nat, Home>) {
    && (forall f {:trigger f in home} :: f in home ==> Private(slots, f) && f !in tables)
    && (forall i, k :: 0 <= i < |spaces| && 0 <= k < |spaces[i].alloc| ==> ListedOk(slots, home, i, spaces[i].alloc[k]))
  }

  /** Append an entry to p->va. */
  function Indexed(spaces: seq<Space>, i: nat, e: VaEntry): seq<Space>
    requires i < |spaces|
  {
    spaces[i := spaces[i].(va := spaces[i].va + [e])]
  }

  /** Append a page to p->alloc. */
  function Listed(spaces: seq<Space>, i: nat, page: nat): seq<Space>
    requires i < |spaces|
  {
    spaces[i := spaces[i].(alloc := spaces[i].alloc + [page])]
  }

  ghost predicate DistinctRoots(spaces: seq<Space>) {
    forall i, j :: 0 <= i < j < |spaces| ==> spaces[i].cr3 != spaces[j].cr3
  }

  ghost predicate Consistent(tables: Tables, places: map<nat, Place>, slots: seq<Memory.Slot>, spaces: seq<Space>, home: map<nat, Home>, loose: iset<nat>)
    requires forall f :: f in tables ==> |tables[f]| == ENTRIES
  {
    && (forall i :: 0 <= i < |spaces| ==> SpaceOk(tables, places, spaces[i]))
    && DistinctRoots(spaces)
    && Exclusive(tables, slots, spaces, home, loose)
    && Handed(tables, slots, spaces, home)
  }

  // -------------------------------------------------------------- steps on values

  lemma PrivateHeld(slots: seq<Memory.Slot>, f: nat)
    requires Private(slots, f)
    ensures FrameHeld(slots, f)
  {
    var k :| 0 <= k < |slots| && Inside(slots[k], f);
    assert Shares(slots[k], f);
  }

  lemma PrivateLater(slots: seq<Memory.Slot>, slots': seq<Memory.Slot>, f: nat)
    requires Private(slots, f) && Memory.Extends(slots, slots')
    ensures Private(slots', f)
  {
    var k :| 0 <= k < |slots| && Inside(slots[k], f);
    assert slots'[k] == slots[k];
  }

  lemma TightLater(slots: seq<Memory.Slot>, slots': seq<Memory.Slot>, home: map<nat, Home>, m: Mapping, i: nat, v: nat)
    requires Memory.Extends(slots, slots') && IsTight(slots, home, m, i, v)
    ensures IsTight(slots', home, m, i, v)
  {
    if FrameHeld(slots, m.frame) { HeldLater(slots, slots', m.frame); }
  }

  /** Allocating memory keeps everything consistent. */
  lemma ConsistentLater(tables: Tables, places: map<nat, Place>, slots: seq<Memory.Slot>, slots': seq<Memory.Slot>, spaces: seq<Space>, home: map<nat, Home>, loose: iset<nat>)
    requires Placed(tables, places) && Consistent(tables, places, slots, spaces, home, loose)
    requires Memory.Extends(slots, slots')
    ensures Consistent(tables, places, slots', spaces, home, loose)
  {
    forall i: nat, v: nat | i < |spaces| && v < PAGES && Translate(tables, spaces[i].cr3, v).Some?
      ensures var m := Translate(tables, spaces[i].cr3, v).value; m.frame in loose || IsTight(slots', home, m, i, v)
    {
      var m := Translate(tables, spaces[i].cr3, v).value;
      if m.frame !in loose { TightLater(slots, slots', home, m, i, v); }
    }
    HandedLater(tables, places, slots, tables, places, slots', spaces, spaces, home);
  }

  /** Mapping a page of one process, and indexing it: index and tables stay in agreement, whatever the frame. */
  lemma ConsistentMapped(tables: Tables, places: map<nat, Place>, slots: seq<Memory.Slot>, tables': Tables, places': map<nat, Place>, slots': seq<Memory.Slot>,
                         spaces: seq<Space>, home: map<nat, Home>, loose: iset<nat>, i: nat, e: VaEntry, flags: Flags)
    requires Placed(tables, places) && Placed(tables', places') && Consistent(tables, places, slots, spaces, home, loose)
    requires i < |spaces| && e.va % 4096 == 0 && e.pa % 4096 == 0 && e.va / 4096 < PAGES && !HasVa(spaces[i].va, e.va)
    requires flags & PRESENT != 0 && flags & PAGE_FRAME == 0
    requires Grows(places, slots, places', slots')
    requires Remaps(tables, places, tables', spaces[i].cr3, e.va / 4096, 1, Entry(e.pa / 4096, flags))
    ensures Consistent(tables', places', slots', Indexed(spaces, i, e), home, Loosened(loose, e.pa / 4096, FitOf(slots, home, Mapping(e.pa / 4096, flags), i, e.va / 4096)))
  {
    var spaces' := Indexed(spaces, i, e);
    forall j | 0 <= j < |spaces'| ensures SpaceOk(tables', places', spaces'[j]) {
      SpaceMapped(tables, places, tables', places', spaces[j], spaces[i].cr3, e, flags, j == i);
    }
    ExclusiveMapped(tables, places, slots, tables', places', slots', spaces, home, loose, i, e, flags);
    HandedLater(tables, places, slots, tables', places', slots', spaces, spaces', home);
  }

  lemma ExclusiveMapped(tables: Tables, places: map<nat, Place>, slots: seq<Memory.Slot>, tables': Tables, places': map<nat, Place>, slots': seq<Memory.Slot>,
                        spaces: seq<Space>, home: map<nat, Home>, loose: iset<nat>, i: nat, e: VaEntry, flags: Flags)
    requires Placed(tables, places) && Placed(tables', places') && Consistent(tables, places, slots, spaces, home, loose)
    requires i < |spaces| && e.va / 4096 < PAGES && Grows(places, slots, places', slots') && flags & PRESENT != 0
    requires Remaps(tables, places, tables', spaces[i].cr3, e.va / 4096, 1, Entry(e.pa / 4096, flags))
    ensures Exclusive(tables', slots', Indexed(spaces, i, e), home, Loosened(loose, e.pa / 4096, FitOf(slots, home, Mapping(e.pa / 4096, flags), i, e.va / 4096)))
  {
    var spaces', g := Indexed(spaces, i, e), e.pa / 4096;
    var loose' := Loosened(loose, g, FitOf(slots, home, Mapping(g, flags), i, e.va / 4096));
    forall j: nat, v: nat | j < |spaces'| && v < PAGES && Translate(tables', spaces'[j].cr3, v).Some?
      ensures var m := Translate(tables', spaces'[j].cr3, v).value; m.frame in loose' || IsTight(slots', home, m, j, v)
    {
      PrefixTop(v);
      assert SpaceOk(tables, places, spaces[j]);
      assert Serves(places, spaces[j].cr3, spaces[j].cr3, 4, v);
      var m := Translate(tables', spaces[j].cr3, v).value;
      if j == i && v == e.va / 4096 {
        assert m == Mapping(g, flags);
      } else {
        assert Translate(tables', spaces[j].cr3, v) == Translate(tables, spaces[j].cr3, v);
      }
      if m.frame !in loose' { TightLater(slots, slots', home, m, j, v); }
    }
  }

  lemma SpaceMapped(tables: Tables, places: map<nat, Place>, tables': Tables, places': map<nat, Place>, s: Space,
                    root: nat, e: VaEntry, flags: Flags, own: bool)
    requires Placed(tables, places) && Placed(tables', places') && Keeps(places, places') && SpaceOk(tables, places, s)
    requires e.va % 4096 == 0 && e.pa % 4096 == 0 && e.va / 4096 < PAGES
    requires flags & PRESENT != 0 && flags & PAGE_FRAME == 0
    requires Remaps(tables, places, tables', root, e.va / 4096, 1, Entry(e.pa / 4096, flags))
    requires own ==> s.cr3 == root && !HasVa(s.va, e.va)
    requires !own ==> s.cr3 != root
    ensures SpaceOk(tables', places', if own then s.(va := s.va + [e]) else s)
  {
    forall v: nat | v < PAGES && Translate(tables', s.cr3, v).Some?
      ensures Translate(tables', s.cr3, v).value.flags & PAGE_FRAME == 0
    {
      PrefixTop(v);
      assert Serves(places, s.cr3, s.cr3, 4, v);
      assert !(own && v == e.va / 4096) ==> Translate(tables', s.cr3, v) == Translate(tables, s.cr3, v);
    }
    forall k | 0 <= k < |s.va| ensures Recorded(tables', s.cr3, s.va[k]) {
      assert Recorded(tables, s.cr3, s.va[k]);
      PrefixTop(s.va[k].va / 4096);
      assert Serves(places, s.cr3, s.cr3, 4, s.va[k].va / 4096);
      assert own ==> s.va[k].va != e.va;
    }
    if own {
      PrefixTop(e.va / 4096);
      assert Serves(places, root, root, 4, e.va / 4096);
      assert Recorded(tables', root, e);
    }
  }

  lemma HandedLater(tables: Tables, places: map<nat, Place>, slots: seq<Memory.Slot>, tables': Tables, places': map<nat, Place>, slots': seq<Memory.Slot>,
                    spaces: seq<Space>, spaces': seq<Space>, home: map<nat, Home>)
    requires Handed(tables, slots, spaces, home)
    requires tables.Keys == places.Keys && tables'.Keys == places'.Keys && Grows(places, slots, places', slots')
    requires |spaces| == |spaces'| && forall j :: 0 <= j < |spaces| ==> spaces'[j].alloc == spaces[j].alloc
    ensures Handed(tables', slots', spaces', home)
  {
    forall f | f in home ensures Private(slots', f) && f !in tables' {
      PrivateLater(slots, slots', f);
      PrivateHeld(slots, f);
    }
    forall i, k | 0 <= i < |spaces'| && 0 <= k < |spaces'[i].alloc| ensures ListedOk(slots', home, i, spaces'[i].alloc[k]) {
      assert ListedOk(slots, home, i, spaces[i].alloc[k]);
      Memory.ExtendsHolds(slots, slots', spaces[i].alloc[k], 4096, PAGE_TAG);
    }
  }

  /** Pages handed out before are handed out still, for the same page. */
  predicate KeepsHomes(home: map<nat, Home>, home': map<nat, Home>) {
    forall f :: f in home ==> f in home' && home'[f] == home[f]
  }

  /** Handing out private frames that are mapped nowhere, or are loose. */
  lemma ConsistentClaimed(tables: Tables, places: map<nat, Place>, slots: seq<Memory.Slot>, spaces: seq<Space>, home: map<nat, Home>, home': map<nat, Home>, loose: iset<nat>)
    requires Placed(tables, places) && Consistent(tables, places, slots, spaces, home, loose) && KeepsHomes(home, home')
    requires forall f {:trigger f in home'} :: f in home' && f !in home ==> Private(slots, f) && f !in tables && (f in loose || Nowhere(tables, spaces, f))
    ensures Consistent(tables, places, slots, spaces, home', loose)
  {
    forall i: nat, v: nat | i < |spaces| && v < PAGES && Translate(tables, spaces[i].cr3, v).Some?
      ensures var m := Translate(tables, spaces[i].cr3, v).value; m.frame in loose || IsTight(slots, home', m, i, v)
    {
      var m := Translate(tables, spaces[i].cr3, v).value;
      assert MapsTo(Translate(tables, spaces[i].cr3, v), m.frame);
    }
    forall i, k | 0 <= i < |spaces| && 0 <= k < |spaces[i].alloc| ensures ListedOk(slots, home', i, spaces[i].alloc[k]) {
      assert ListedOk(slots, home, i, spaces[i].alloc[k]);
    }
  }

  /** Listing a page that was handed out with its process. */
  lemma ConsistentListed(tables: Tables, places: map<nat, Place>, slots: seq<Memory.Slot>, spaces: seq<Space>, home: map<nat, Home>, loose: iset<nat>, i: nat, page: nat)
    requires Placed(tables, places) && Consistent(tables, places, slots, spaces, home, loose) && i < |spaces| && ListedOk(slots, home, i, page)
    ensures Consistent(tables, places, slots, Listed(spaces, i, page), home, loose)
  {
    var spaces' := Listed(spaces, i, page);
    forall j | 0 <= j < |spaces'| ensures SpaceOk(tables, places, spaces'[j]) {
      assert SpaceOk(tables, places, spaces[j]);
    }
    ExclusiveSame(tables, slots, spaces, spaces', home, loose);
  }

  lemma PageListed(slots: seq<Memory.Slot>, slots': seq<Memory.Slot>, home: map<nat, Home>, i: nat, v: nat, f: nat)
    requires Owns(home, f, i, v) && Memory.Holds(slots, f * 4096, 4096, PAGE_TAG) && Memory.Extends(slots, slots')
    ensures ListedOk(slots', home, i, f * 4096)
  {
    Memory.ExtendsHolds(slots, slots', f * 4096, 4096, PAGE_TAG);
    assert f * 4096 / 4096 == f;
  }

  lemma ExclusiveSame(tables: Tables, slots: seq<Memory.Slot>, spaces: seq<Space>, spaces': seq<Space>, home: map<nat, Home>, loose: iset<nat>)
    requires (forall f :: f in tables ==> |tables[f]| == ENTRIES) && Exclusive(tables, slots, spaces, home, loose)
    requires |spaces| == |spaces'| && forall j :: 0 <= j < |spaces| ==> spaces'[j].cr3 == spaces[j].cr3
    ensures Exclusive(tables, slots, spaces', home, loose)
  {
    forall j: nat, v: nat | j < |spaces'| && v < PAGES && Translate(tables, spaces'[j].cr3, v).Some?
      ensures var m := Translate(tables, spaces'[j].cr3, v).value; m.frame in loose || IsTight(slots, home, m, j, v)
    {
      assert Translate(tables, spaces[j].cr3, v).Some?;
    }
  }

  predicate MapsTo(m: Option<Mapping>, f: nat) {
    m.Some? && m.value.frame == f
  }

  /** No page of any process but one is mapped to the frame. */
  ghost predicate OnlyAt(tables: Tables, spaces: seq<Space>, i: nat, v: nat, f: nat)
    requires forall f :: f in tables ==> |tables[f]| == ENTRIES
  {
    forall j: nat, w: nat {:trigger Translate(tables, spaces[j].cr3, w)} :: j < |spaces| && w < PAGES && MapsTo(Translate(tables, spaces[j].cr3, w), f)
      ==> j == i && w == v
  }

  /** The frame is mapped nowhere. */
  ghost predicate Nowhere(tables: Tables, spaces: seq<Space>, f: nat)
    requires forall f :: f in tables ==> |tables[f]| == ENTRIES
  {
    forall j: nat, w: nat {:trigger Translate(tables, spaces[j].cr3, w)} :: j < |spaces| && w < PAGES ==> !MapsTo(Translate(tables, spaces[j].cr3, w), f)
  }

  /** Frames in no allocation were not handed out, and are mapped nowhere unless they are loose. */
  lemma UnheldIsNowhere(tables: Tables, places: map<nat, Place>, slots: seq<Memory.Slot>, spaces: seq<Space>, home: map<nat, Home>, loose: iset<nat>, f: nat)
    requires Placed(tables, places) && Consistent(tables, places, slots, spaces, home, loose) && !FrameHeld(slots, f)
    ensures f !in home && (f !in loose ==> Nowhere(tables, spaces, f))
  {
    if f in home { PrivateHeld(slots, f); }
  }

  /** A frame that was handed out and is not loose is mapped at its one home only. */
  lemma HandedOnlyAtHome(tables: Tables, places: map<nat, Place>, slots: seq<Memory.Slot>, spaces: seq<Space>, home: map<nat, Home>, loose: iset<nat>, f: nat)
    requires Placed(tables, places) && Consistent(tables, places, slots, spaces, home, loose) && f in home
    ensures f in loose || OnlyAt(tables, spaces, home[f].space, home[f].page, f)
  {
  }

  /** A page held by an allocation of its own is no table's storage, and releasing it uncovers no other frame. */
  lemma ReleasePage(tables: seq<Memory.Table>, slots: seq<Memory.Slot>, k: nat, page: nat, f: nat)
    requires Memory.WellFormed(tables, slots) && Memory.Holds(slots, page, 4096, PAGE_TAG) && page == f * 4096
    requires k < |slots| && slots[k].used && slots[k].addr == page
    ensures !Memory.IsBookkeeping(tables, page)
    ensures forall g: nat :: FrameHeld(slots, g) && g != f ==> FrameHeld(Memory.Release(slots, k), g)
    ensures forall g: nat :: Private(slots, g) && g != f ==> Private(Memory.Release(slots, k), g)
    ensures forall addr: nat :: Memory.Holds(slots, addr, 4096, PAGE_TAG) && addr != page ==> Memory.Holds(Memory.Release(slots, k), addr, 4096, PAGE_TAG)
  {
    var m :| 0 <= m < |slots| && slots[m] == Memory.Slot(page, 4096, true, PAGE_TAG);
    forall i | 0 <= i < |slots| && slots[i].used && slots[i].addr == page && slots[i].size > 0 ensures i == m {
      if i != m { Memory.StartsDistinct(slots, i, m); }
    }
    var after := Memory.Release(slots, k);
    forall g: nat | FrameHeld(slots, g) && g != f ensures FrameHeld(after, g) {
      var i :| 0 <= i < |slots| && Shares(slots[i], g);
      assert after[i] == slots[i];
    }
    forall g: nat | Private(slots, g) && g != f ensures Private(after, g) {
      var i :| 0 <= i < |slots| && Inside(slots[i], g);
      assert after[i] == slots[i];
    }
    forall addr: nat | Memory.Holds(slots, addr, 4096, PAGE_TAG) && addr != page ensures Memory.Holds(after, addr, 4096, PAGE_TAG) {
      var i :| 0 <= i < |slots| && slots[i] == Memory.Slot(addr, 4096, true, PAGE_TAG);
      assert after[i] == slots[i];
    }
  }

  lemma ConsistentReleased(tables: Tables, places: map<nat, Place>, slots: seq<Memory.Slot>, slots': seq<Memory.Slot>, spaces: seq<Space>, home: map<nat, Home>, loose: iset<nat>, f: nat)
    requires Placed(tables, places) && Consistent(tables, places, slots, spaces, home, loose) && (f in loose || Nowhere(tables, spaces, f)) && f !in home
    requires forall g: nat :: FrameHeld(slots, g) && g != f ==> FrameHeld(slots', g)
    requires forall g: nat :: Private(slots, g) && g != f ==> Private(slots', g)
    requires forall addr: nat :: Memory.Holds(slots, addr, 4096, PAGE_TAG) && addr != f * 4096 ==> Memory.Holds(slots', addr, 4096, PAGE_TAG)
    ensures Consistent(tables, places, slots', spaces, home, loose)
  {
    forall i: nat, v: nat | i < |spaces| && v < PAGES && Translate(tables, spaces[i].cr3, v).Some?
      ensures var m := Translate(tables, spaces[i].cr3, v).value; m.frame in loose || IsTight(slots', home, m, i, v)
    {
      assert MapsTo(Translate(tables, spaces[i].cr3, v), Translate(tables, spaces[i].cr3, v).value.frame);
    }
    forall i, k | 0 <= i < |spaces| && 0 <= k < |spaces[i].alloc| ensures ListedOk(slots', home, i, spaces[i].alloc[k]) {
      assert ListedOk(slots, home, i, spaces[i].alloc[k]);
    }
  }

  function PageOf(va: nat): nat { va - va % 4096 }

  /** The page is indexed, and kernel functions do not ignore it. */
  ghost predicate Visible(va: seq<VaEntry>, page: nat, ignore: bool) {
    exists k :: 0 <= k < |va| && va[k].va == page && !(ignore && va[k].ignore)
  }

  /** The hardware walk for a virtual address ends at this physical address. */
  ghost predicate Reaches(tables: Tables, cr3: nat, va: nat, pa: nat)
    requires forall f :: f in tables ==> |tables[f]| == ENTRIES
  {
    Translate(tables, cr3, va / 4096).Some? && pa == Translate(tables, cr3, va / 4096).value.frame * 4096 + va % 4096
  }

  lemma OnlyEntry(tables: Tables, s: Space, k: nat, va: nat, ignore: bool)
    requires forall f :: f in tables ==> |tables[f]| == ENTRIES
    requires Agrees(tables, s) && k < |s.va| && s.va[k].va == PageOf(va)
    ensures Visible(s.va, PageOf(va), ignore) <==> !(ignore && s.va[k].ignore)
    ensures Reaches(tables, s.cr3, va, s.va[k].pa + va % 4096)
  {
    assert Recorded(tables, s.cr3, s.va[k]);
    assert PageOf(va) / 4096 == va / 4096;
  }

  /** The page has a zero-initialised frame of its own, taken from memory that was in no allocation before. */
  ghost predicate Backed(tables: Tables, cr3: nat, home: map<nat, Home>, slots: seq<Memory.Slot>, i: nat, v: nat, flags: Flags)
    requires forall f :: f in tables ==> |tables[f]| == ENTRIES
  {
    var m := Translate(tables, cr3, v);
    m.Some? && m.value.flags == flags && m.value.frame in home && home[m.value.frame] == Home(i, v) && !FrameHeld(slots, m.value.frame)
  }

  function HeapEnd(s: Space): nat { s.heapAddr + s.heapSize }

  /** No page can be added at the end of the heap: it is misaligned, or indexed already. */
  predicate NoPageAt(s: Space) { RefusedAt(s, HeapEnd(s)) }

  /** A page at this address is refused: misaligned, or indexed already. */
  predicate RefusedAt(s: Space, va: nat) { va % 4096 != 0 || HasVa(s.va, va) }

  /** The heap size plays no part in what must hold. */
  lemma ConsistentResized(tables: Tables, places: map<nat, Place>, slots: seq<Memory.Slot>, spaces: seq<Space>, home: map<nat, Home>, loose: iset<nat>, i: nat, size: nat)
    requires Placed(tables, places) && Consistent(tables, places, slots, spaces, home, loose) && i < |spaces|
    ensures Consistent(tables, places, slots, spaces[i := spaces[i].(heapSize := size)], home, loose)
  {
    var spaces' := spaces[i := spaces[i].(heapSize := size)];
    forall j | 0 <= j < |spaces'| ensures SpaceOk(tables, places, spaces'[j]) {
      assert SpaceOk(tables, places, spaces[j]);
    }
    ExclusiveSame(tables, slots, spaces, spaces', home, loose);
  }

  /** A page that every address space maps: of the kernel, or of a task segment or stack. */
  predicate KernelPage(start: nat, end: nat, tasks: seq<Run>, v: nat) {
    start <= v < end || InTasks(tasks, |tasks|, v)
  }

  /** The shared pages that lie in no allocation, or were handed out. */
  ghost function KernelLoose(slots: seq<Memory.Slot>, home: map<nat, Home>, start: nat, end: nat, tasks: seq<Run>): iset<nat> {
    iset v: nat | KernelPage(start, end, tasks, v) && (!FrameHeld(slots, v) || v in home)
  }

  /** What a new address space maps is the kernel's own, page for page. */
  lemma ImitatedForKernel(start: nat, end: nat, textStart: nat, textEnd: nat, tasks: seq<Run>, v: nat)
    ensures KernelMapping(start, end, textStart, textEnd, tasks, v).Some? ==>
      var m := KernelMapping(start, end, textStart, textEnd, tasks, v).value;
      m.frame == v && KernelPage(start, end, tasks, v) && !ForUser(m)
  {
    assert (PRESENT | RW) & USER == 0 && (PRESENT | 0) & USER == 0;
  }

  function NewSpaceOf(cr3: nat): Space { Space(cr3, [], [], HEAP_ADDR, 0x1000) }

  /** A new address space that maps only the kernel. */
  lemma ConsistentAdded(tables: Tables, places: map<nat, Place>, slots: seq<Memory.Slot>, tables': Tables, places': map<nat, Place>, slots': seq<Memory.Slot>,
                        spaces: seq<Space>, home: map<nat, Home>, loose: iset<nat>, cr3: nat, start: nat, end: nat, textStart: nat, textEnd: nat, tasks: seq<Run>)
    requires Placed(tables, places) && Placed(tables', places') && Consistent(tables, places, slots, spaces, home, loose)
    requires Grows(places, slots, places', slots') && SameTranslations(tables, places, tables')
    requires cr3 !in tables && cr3 in places' && places'[cr3] == Place(cr3, 4, 0) && SmallPages(tables', cr3)
    requires forall v: nat :: v < PAGES ==> Translate(tables', cr3, v) == KernelMapping(start, end, textStart, textEnd, tasks, v)
    ensures Consistent(tables', places', slots', spaces + [NewSpaceOf(cr3)], home, loose + KernelLoose(slots, home, start, end, tasks))
  {
    var spaces', loose' := spaces + [NewSpaceOf(cr3)], loose + KernelLoose(slots, home, start, end, tasks);
    forall j: nat | j < |spaces| ensures SpaceOk(tables', places', spaces[j]) && spaces[j].cr3 != cr3 {
      assert SpaceOk(tables, places, spaces[j]);
      SpaceStays(tables, places, tables', places', spaces[j]);
    }
    forall j: nat, v: nat | j < |spaces'| && v < PAGES && Translate(tables', spaces'[j].cr3, v).Some?
      ensures var m := Translate(tables', spaces'[j].cr3, v).value; m.frame in loose' || IsTight(slots', home, m, j, v)
    {
      var m := Translate(tables', spaces'[j].cr3, v).value;
      if j < |spaces| {
        PrefixTop(v);
        assert SpaceOk(tables, places, spaces[j]);
        assert Serves(places, spaces[j].cr3, spaces[j].cr3, 4, v);
        assert Translate(tables', spaces[j].cr3, v) == Translate(tables, spaces[j].cr3, v);
      } else {
        ImitatedForKernel(start, end, textStart, textEnd, tasks, v);
      }
      if m.frame !in loose' { TightLater(slots, slots', home, m, j, v); }
    }
    HandedLater(tables, places, slots, tables', places', slots', spaces, spaces, home);
  }

  lemma SpaceStays(tables: Tables, places: map<nat, Place>, tables': Tables, places': map<nat, Place>, s: Space)
    requires Placed(tables, places) && Placed(tables', places') && Keeps(places, places') && SpaceOk(tables, places, s)
    requires SameTranslations(tables, places, tables')
    ensures SpaceOk(tables', places', s)
  {
    forall v: nat | v < PAGES ensures Translate(tables', s.cr3, v) == Translate(tables, s.cr3, v) {
      PrefixTop(v);
      assert Serves(places, s.cr3, s.cr3, 4, v);
    }
    forall k | 0 <= k < |s.va| ensures Recorded(tables', s.cr3, s.va[k]) {
      assert Recorded(tables, s.cr3, s.va[k]);
    }
  }

  /** All pages of a run are backed. */
  ghost predicate AllBacked(tables: Tables, cr3: nat, home: map<nat, Home>, slots: seq<Memory.Slot>, i: nat, start: nat, end: nat, flags: Flags)
    requires forall f :: f in tables ==> |tables[f]| == ENTRIES
  {
    forall v: nat {:trigger Backed(tables, cr3, home, slots, i, v, flags)} :: start <= v < end ==> Backed(tables, cr3, home, slots, i, v, flags)
  }

  lemma BackedMore(tables: Tables, places: map<nat, Place>, tables': Tables, s0: seq<Memory.Slot>, slots: seq<Memory.Slot>,
                   cr3: nat, home: map<nat, Home>, i: nat, start: nat, end: nat, next: nat, f: nat, flags: Flags, home': map<nat, Home>)
    requires Placed(tables, places) && cr3 in places && places[cr3] == Place(cr3, 4, 0)
    requires forall g :: g in tables' ==> |tables'[g]| == ENTRIES
    requires end < PAGES && next == end + 1 && flags & PRESENT != 0
    requires AllBacked(tables, cr3, home, s0, i, start, end, flags)
    requires Memory.Extends(s0, slots) && !FrameHeld(slots, f) && f !in home && home' == home[f := Home(i, end)]
    requires Remaps(tables, places, tables', cr3, end, 1, Entry(f, flags))
    ensures AllBacked(tables', cr3, home', s0, i, start, next, flags)
  {
    forall v: nat | start <= v < next
      ensures Backed(tables', cr3, home', s0, i, v, flags)
    {
      PrefixTop(v);
      assert Serves(places, cr3, cr3, 4, v);
      if v == end {
        if FrameHeld(s0, f) { HeldLater(s0, slots, f); }
      } else {
        assert Backed(tables, cr3, home, s0, i, v, flags);
      }
    }
  }

  /** The memory of all processes at one time. */
  datatype Snapshot = Snapshot(tables: Tables, places: map<nat, Place>, mt: seq<Memory.Table>, slots: seq<Memory.Slot>, spaces: seq<Space>)

  /** The memory of all processes, which pages were handed out, and which frames are loose. */
  datatype World = World(mem: Snapshot, home: map<nat, Home>, loose: iset<nat>)

  ghost predicate WorldOk(w: World) {
    && Memory.WellFormed(w.mem.mt, w.mem.slots) && Tree(w.mem.tables, w.mem.places)
    && (forall f {:trigger FrameHeld(w.mem.slots, f)} :: f in w.mem.tables ==> FrameHeld(w.mem.slots, f))
    && Consistent(w.mem.tables, w.mem.places, w.mem.slots, w.mem.spaces, w.home, w.loose)
  }

  /** All pages of all address spaces translate as before, but for a run of one of them. */
  ghost predicate OutsideSame(tables: Tables, places: map<nat, Place>, tables': Tables, cr3: nat, start: nat, end: nat)
    requires forall f :: f in tables ==> |tables[f]| == ENTRIES
    requires forall f :: f in tables' ==> |tables'[f]| == ENTRIES
  {
    forall r, v: nat {:trigger Translate(tables', r, v)} :: Serves(places, r, r, 4, v) && v < PAGES && !(r == cr3 && start <= v < end) ==>
      Translate(tables', r, v) == Translate(tables, r, v)
  }

  lemma OutsideMore(t0: Tables, p0: map<nat, Place>, t: Tables, p: map<nat, Place>, t': Tables, cr3: nat, start: nat, end: nat, next: nat, e: Entry)
    requires Placed(t0, p0) && Placed(t, p) && Keeps(p0, p) && start <= end && next == end + 1
    requires forall f :: f in t' ==> |t'[f]| == ENTRIES
    requires OutsideSame(t0, p0, t, cr3, start, end) && Remaps(t, p, t', cr3, end, 1, e)
    ensures OutsideSame(t0, p0, t', cr3, start, next)
  {
    forall r, v: nat | Serves(p0, r, r, 4, v) && v < PAGES && !(r == cr3 && start <= v < next)
      ensures Translate(t', r, v) == Translate(t0, r, v)
    {
      assert Serves(p, r, r, 4, v);
      assert Translate(t', r, v) == Translate(t, r, v);
    }
  }

  /** The first page of a heap was mapped. */
  ghost predicate FirstPage(was: Snapshot, now: Snapshot, i: nat, f: nat) {
    && Sized(was.tables) && Sized(now.tables) && i < |was.spaces| && i < |now.spaces| && now.spaces[i].cr3 == was.spaces[i].cr3
    && Grows(was.places, was.slots, now.places, now.slots)
    && Remaps(was.tables, was.places, now.tables, was.spaces[i].cr3, HEAP_ADDR / 4096, 1, Entry(f, HEAP_FLAGS))
  }

  /** A new address space maps the kernel and one page of heap; every page of every other one translates as before. */
  ghost predicate SpaceBegun(was: Snapshot, now: Snapshot, start: nat, end: nat, textStart: nat, textEnd: nat, tasks: seq<Run>) {
    && Sized(was.tables) && Sized(now.tables) && |now.spaces| == |was.spaces| + 1
    && Grows(was.places, was.slots, now.places, now.slots) && SameTranslations(was.tables, was.places, now.tables)
    && var cr3 := now.spaces[|was.spaces|].cr3;
    && cr3 !in was.places
    && forall v: nat {:trigger Translate(now.tables, cr3, v)} :: v < PAGES && v != HEAP_ADDR / 4096 ==>
         Translate(now.tables, cr3, v) == KernelMapping(start, end, textStart, textEnd, tasks, v)
  }

  lemma BegunSpace(was: Snapshot, mid: Snapshot, now: Snapshot, start: nat, end: nat, textStart: nat, textEnd: nat, tasks: seq<Run>, f: nat)
    requires Sized(was.tables) && Placed(mid.tables, mid.places) && |mid.spaces| == |now.spaces| == |was.spaces| + 1
    requires FirstPage(mid, now, |was.spaces|, f)
    requires Grows(was.places, was.slots, mid.places, mid.slots) && SameTranslations(was.tables, was.places, mid.tables)
    requires var cr3 := mid.spaces[|was.spaces|].cr3;
      && cr3 !in was.places && cr3 in mid.places && mid.places[cr3] == Place(cr3, 4, 0)
      && forall v: nat :: v < PAGES ==> Translate(mid.tables, cr3, v) == KernelMapping(start, end, textStart, textEnd, tasks, v)
    ensures SpaceBegun(was, now, start, end, textStart, textEnd, tasks)
  {
    var cr3 := mid.spaces[|was.spaces|].cr3;
    GrowsTwice(was.places, was.slots, mid.places, mid.slots, now.places, now.slots);
    forall r, v: nat | Serves(was.places, r, r, 4, v) && v < PAGES ensures Translate(now.tables, r, v) == Translate(was.tables, r, v) {
      assert Serves(mid.places, r, r, 4, v);
      assert Translate(mid.tables, r, v) == Translate(was.tables, r, v);
    }
    forall v: nat | v < PAGES && v != HEAP_ADDR / 4096
      ensures Translate(now.tables, cr3, v) == KernelMapping(start, end, textStart, textEnd, tasks, v)
    {
      PrefixTop(v);
      assert Serves(mid.places, cr3, cr3, 4, v);
    }
  }

  /** The requests of a new process: its tables for the kernel, and then a page of heap with the tables this still lacks. */
  ghost function ProcessAsks(start: nat, end: nat, tasks: seq<Run>): seq<Ask> {
    TableAsks(SpaceTables(start, end, tasks)) + PageAsks(Missing(map[], 0, 1, 3, HEAP_ADDR / 4096, KernelPages(start, end, tasks)))
  }

  lemma MissingOnly(places: map<nat, Place>, root: nat, vs: seq<nat>, v: nat)
    requires OnlyBelow(places, root, vs) && v < PAGES
    ensures Missing(places, root, 1, 3, v) == Missing(map[], 0, 1, 3, v, vs)
  {
    forall level: nat | 1 <= level <= 3 ensures Lacks(places, root, level, v, []) <==> Lacks(map[], 0, level, v, vs) {
      assert HasTableAt(places, root, level, v) <==> Beside(vs, level, v);
      assert !HasTableAt(map[], 0, level, v);
    }
  }

  // --------------------------------------------------------------- growing heaps

  /** The requests for the pages of heap from `start` to `end` in turn, each with the tables it still lacks. */
  ghost function HeapAsks(places: map<nat, Place>, root: nat, start: nat, end: nat): seq<Ask>
    decreases end
  {
    if end <= start then [] else
    HeapAsks(places, root, start, end - 1) + PageAsks(Missing(places, root, 1, 3, end - 1, RunPages(start, end - 1)))
  }

  ghost predicate IsHeapAsks(asks: seq<Ask>, places: map<nat, Place>, root: nat, start: nat, end: nat) {
    asks == HeapAsks(places, root, start, end)
  }

  /** These pages of heap were asked for in turn, and then `more`; `ok` if all was granted. */
  ghost predicate TookHeap(p0: map<nat, Place>, b0: Books, b: Books, root: nat, start: nat, end: nat, more: seq<Ask>, blocks: seq<Memory.Block>, ok: bool) {
    forall asks {:trigger IsHeapAsks(asks, p0, root, start, end)} :: IsHeapAsks(asks, p0, root, start, end) ==> Took(b0, blocks, asks + more, ok, b)
  }

  lemma TookNoHeap(p0: map<nat, Place>, b0: Books, root: nat, start: nat, blocks: seq<Memory.Block>)
    ensures TookHeap(p0, b0, b0, root, start, start, [], blocks, true) && TablesAre(p0, p0, root, RunPages(start, start))
  {
    TookNone(b0, blocks);
    assert RunPages(start, start) == [];
  }

  lemma TookMoreHeap(p0: map<nat, Place>, b0: Books, p: map<nat, Place>, b: Books, p': map<nat, Place>, b': Books,
                     root: nat, start: nat, end: nat, next: nat, blocks: seq<Memory.Block>, ok: bool)
    requires start <= end && next == end + 1 && TookHeap(p0, b0, b, root, start, end, [], blocks, true) && TablesAre(p0, p, root, RunPages(start, end))
    requires Took(b, blocks, PageAsks(Missing(p, root, 1, 3, end)), ok, b')
    ensures TookHeap(p0, b0, b', root, start, next, [], blocks, ok)
    ensures AddsTables(p, p', root, 1, 3, end) ==> TablesAre(p0, p', root, RunPages(start, next))
  {
    var asks, vs, more := HeapAsks(p0, root, start, end), RunPages(start, end), PageAsks(Missing(p, root, 1, 3, end));
    assert IsHeapAsks(asks, p0, root, start, end) && asks + [] == asks;
    MissingThen(p0, p, root, vs, end);
    TookThen(b0, blocks, asks, true, b, more, ok, b');
    assert HeapAsks(p0, root, start, next) + [] == asks + more;
    assert vs + [end] == RunPages(start, next);
    if AddsTables(p, p', root, 1, 3, end) { TablesAreMore(p0, p, p', root, vs, end); }
  }

  lemma TookHeapThen(p0: map<nat, Place>, b0: Books, b: Books, root: nat, start: nat, end: nat, more: seq<Ask>, blocks: seq<Memory.Block>, ok: bool, b': Books)
    requires TookHeap(p0, b0, b, root, start, end, [], blocks, true) && Took(b, blocks, more, ok, b')
    ensures TookHeap(p0, b0, b', root, start, end, more, blocks, ok)
  {
    var asks := HeapAsks(p0, root, start, end);
    assert IsHeapAsks(asks, p0, root, start, end) && asks + [] == asks;
    TookThen(b0, blocks, asks, true, b, more, ok, b');
  }

  lemma GaveBackNone(b: Books, blocks: seq<Memory.Block>, b': Books)
    requires GaveBack(b, blocks, false, b')
    ensures Took(b, blocks, [Ask(4096, PAGE_TAG)], false, b')
  {
    var r := Memory.Request(b.mt, b.slots, blocks, 4096, Memory.Align4KB, PAGE_TAG);
    assert IsReply(r, b.mt, b.slots, blocks, 4096, PAGE_TAG);
    TookOne(b, blocks, 4096, PAGE_TAG, r);
  }

  /** The address of the heap's k-th new page. */
  function HeapVa(s: Space, k: nat): nat { HeapEnd(s) + k * 0x1000 }

  /** The index entries of new heap pages at these frames. */
  function HeapEntries(s: Space, fs: seq<nat>): seq<VaEntry> {
    seq(|fs|, k requires 0 <= k < |fs| => VaEntry(HeapVa(s, k), fs[k] * 4096, false))
  }

  function PagesAt(fs: seq<nat>): seq<nat> { seq(|fs|, k requires 0 <= k < |fs| => fs[k] * 4096) }

  /** The heap of process `i` is extended by pages at these frames. */
  function HeapAdded(spaces: seq<Space>, i: nat, fs: seq<nat>): seq<Space>
    requires i < |spaces|
  {
    var s := spaces[i];
    spaces[i := s.(va := s.va + HeapEntries(s, fs), alloc := s.alloc + PagesAt(fs), heapSize := s.heapSize + |fs| * 0x1000)]
  }

  lemma HeapAddedMore(spaces: seq<Space>, i: nat, fs: seq<nat>, f: nat)
    requires i < |spaces|
    ensures HeapAdded(spaces, i, []) == spaces
    ensures var was := HeapAdded(spaces, i, fs);
      HeapEnd(was[i]) == HeapVa(spaces[i], |fs|) && HeapAdded(spaces, i, fs + [f]) == GrownBy(was, i, f)
  {
    var s := spaces[i];
    assert HeapEntries(s, fs + [f]) == HeapEntries(s, fs) + [VaEntry(HeapVa(s, |fs|), f * 4096, false)];
    assert PagesAt(fs + [f]) == PagesAt(fs) + [f * 4096];
    assert s.va + HeapEntries(s, []) == s.va && s.alloc + PagesAt([]) == s.alloc;
    assert s.va + HeapEntries(s, fs + [f]) == s.va + HeapEntries(s, fs) + [VaEntry(HeapVa(s, |fs|), f * 4096, false)];
    assert s.alloc + PagesAt(fs + [f]) == s.alloc + PagesAt(fs) + [f * 4096];
  }

  /** New heap pages are not in the way of the next one. */
  lemma HeapRefused(spaces: seq<Space>, i: nat, fs: seq<nat>)
    requires i < |spaces|
    ensures NoPageAt(HeapAdded(spaces, i, fs)[i]) <==> RefusedAt(spaces[i], HeapVa(spaces[i], |fs|))
  {
    var s, n := spaces[i], |fs|;
    var all := s.va + HeapEntries(s, fs);
    forall j | 0 <= j < |all| ensures j < |s.va| ==> all[j] == s.va[j]
      ensures j >= |s.va| ==> all[j].va != HeapVa(s, n)
    {
      if j >= |s.va| { assert all[j].va == HeapVa(s, j - |s.va|); }
    }
  }

  lemma HeapPageNumber(s: Space, k: nat)
    ensures HeapVa(s, k) / 4096 == HeapEnd(s) / 4096 + k && HeapVa(s, k) % 4096 == HeapEnd(s) % 4096
  {
  }

  /** None of the first `n` pages behind the heap is refused. */
  ghost predicate HeapClear(s: Space, n: nat) {
    forall k: nat {:trigger HeapVa(s, k)} :: k < n ==> !RefusedAt(s, HeapVa(s, k))
  }

  /** The virtual page where a heap starts to grow, and the one behind its first `n` new pages. */
  function HeapStart(s: Space): nat { HeapEnd(s) / 4096 }

  function HeapStop(s: Space, n: nat): nat { HeapStart(s) + n }

  /** A page of heap, or a table that it lacks, was not granted; a page that would be refused is asked for alone. */
  ghost predicate HeapFailed(b: Snapshot, i: nat, n: nat, blocks: seq<Memory.Block>, b': Books)
    requires i < |b.spaces|
  {
    var s := b.spaces[i];
    if RefusedAt(s, HeapVa(s, n)) then TookHeap(b.places, BooksOf(b), b', s.cr3, HeapStart(s), HeapStop(s, n), [Ask(4096, PAGE_TAG)], blocks, false)
    else TookHeap(b.places, BooksOf(b), b', s.cr3, HeapStart(s), HeapStop(s, n) + 1, [], blocks, false)
  }

  // ------------------------------------------------------------------- stacks

  /** The virtual page, and the frame, of the k-th page mapped for a stack. */
  function StackPage(k: nat): nat { STACK_VA / 4096 + k }

  function StackFrame(stack: nat, k: nat): nat { stack / 4096 + k }

  function StackEntry(stack: nat, k: nat): VaEntry { VaEntry(STACK_VA + k * 4096, stack + k * 4096, false) }

  /** The entries that mapping `count` pages of a stack appends to p->va. */
  function StackEntries(stack: nat, count: nat): seq<VaEntry> {
    seq(count, k requires 0 <= k < count => StackEntry(stack, k))
  }

  /** Append entries to p->va. */
  function IndexedAll(spaces: seq<Space>, i: nat, es: seq<VaEntry>): seq<Space>
    requires i < |spaces|
  {
    spaces[i := spaces[i].(va := spaces[i].va + es)]
  }

  lemma IndexedNone(spaces: seq<Space>, i: nat, stack: nat)
    requires i < |spaces|
    ensures IndexedAll(spaces, i, StackEntries(stack, 0)) == spaces
  {
    assert spaces[i].va + StackEntries(stack, 0) == spaces[i].va;
  }

  lemma IndexedMore(spaces: seq<Space>, i: nat, stack: nat, k: nat, next: nat)
    requires i < |spaces| && next == k + 1
    ensures Indexed(IndexedAll(spaces, i, StackEntries(stack, k)), i, StackEntry(stack, k)) == IndexedAll(spaces, i, StackEntries(stack, next))
  {
    assert spaces[i].va + StackEntries(stack, k) + [StackEntry(stack, k)] == spaces[i].va + StackEntries(stack, next);
  }

  /** One of the first `w` frames of a stack. */
  predicate InStack(stack: nat, w: nat, f: nat) { stack / 4096 <= f < stack / 4096 + w }

  /** The first `w` frames of a stack are handed out for its pages. */
  function Claimed(home: map<nat, Home>, i: nat, stack: nat, w: nat): (r: map<nat, Home>)
    ensures forall f {:trigger f in r} :: f in r <==> f in home || InStack(stack, w, f)
    ensures forall f {:trigger r[f]} :: f in r ==> r[f] == if InStack(stack, w, f) then Home(i, StackPage(f - stack / 4096)) else home[f]
  {
    if w == 0 then home else Claimed(home, i, stack, w - 1)[StackFrame(stack, w - 1) := Home(i, StackPage(w - 1))]
  }

  /** How many of the pages mapped for a stack lie wholly in its memory of `n` bytes. */
  function WholePages(n: nat, q: nat): nat {
    if n / 4096 < q + 1 then n / 4096 else q + 1
  }

  lemma StackPageNumber(stack: nat, k: nat)
    requires stack % 4096 == 0
    ensures (stack + k * 4096) / 4096 == StackFrame(stack, k) && (stack + k * 4096) % 4096 == 0
    ensures (STACK_VA + k * 4096) / 4096 == StackPage(k) && (STACK_VA + k * 4096) % 4096 == 0
  {
    assert stack + k * 4096 == StackFrame(stack, k) * 4096;
  }

  /** The range starts a page, and the allocator's own test finds it free. */
  ghost predicate WasFree(slots: seq<Memory.Slot>, addr: nat, n: nat) {
    addr % 4096 == 0 && Memory.IsFree(slots, addr, n)
  }

  lemma NewFramesUnheld(slots: seq<Memory.Slot>, slots': seq<Memory.Slot>, addr: nat, n: nat, f: nat)
    requires WasFree(slots, addr, n) && Memory.Holds(slots', addr, n, STACK_TAG) && addr <= f * 4096 && (f + 1) * 4096 <= addr + n
    ensures !FrameHeld(slots, f) && Private(slots', f)
  {
    if FrameHeld(slots, f) {
      var i :| 0 <= i < |slots| && Shares(slots[i], f);
      assert Memory.Clash(slots[i], addr, n);
    }
    var k :| 0 <= k < |slots'| && slots'[k] == Memory.Slot(addr, n, true, STACK_TAG);
    assert Inside(slots'[k], f);
  }

  /** Handing out the whole frames of new memory. */
  lemma StackClaimed(tables: Tables, places: map<nat, Place>, slots: seq<Memory.Slot>, slots': seq<Memory.Slot>, spaces: seq<Space>, home: map<nat, Home>, loose: iset<nat>,
                     i: nat, stack: nat, n: nat, w: nat)
    requires Placed(tables, places) && Consistent(tables, places, slots, spaces, home, loose) && Consistent(tables, places, slots', spaces, home, loose)
    requires forall f {:trigger FrameHeld(slots, f)} :: f in tables ==> FrameHeld(slots, f)
    requires WasFree(slots, stack, n) && Memory.Holds(slots', stack, n, STACK_TAG) && w * 4096 <= n
    ensures Consistent(tables, places, slots', spaces, Claimed(home, i, stack, w), loose) && KeepsHomes(home, Claimed(home, i, stack, w))
  {
    var home' := Claimed(home, i, stack, w);
    forall f: nat | InStack(stack, w, f)
      ensures Private(slots', f) && f !in tables && f !in home && (f in loose || Nowhere(tables, spaces, f))
    {
      NewFramesUnheld(slots, slots', stack, n, f);
      UnheldIsNowhere(tables, places, slots, spaces, home, loose, f);
    }
    ConsistentClaimed(tables, places, slots', spaces, home, home', loose);
  }

  /** The loose frames after mapping page `k` of a stack. */
  ghost function StackLoose(loose: iset<nat>, home: map<nat, Home>, i: nat, stack: nat, k: nat): iset<nat> {
    if Owns(home, StackFrame(stack, k), i, StackPage(k)) then loose else loose + iset{StackFrame(stack, k)}
  }

  /** The first `n` pages of a stack are mapped to its memory, for the user to write. */
  ghost predicate StackMapped(tables: Tables, cr3: nat, stack: nat, n: nat)
    requires forall f :: f in tables ==> |tables[f]| == ENTRIES
  {
    forall k: nat {:trigger StackPage(k)} :: k < n ==> Translate(tables, cr3, StackPage(k)) == Some(Mapping(StackFrame(stack, k), HEAP_FLAGS))
  }

  lemma StackPageIs(tables: Tables, places: map<nat, Place>, tables': Tables, cr3: nat, stack: nat, n: nat, k: nat)
    requires k <= n && Placed(tables, places) && cr3 in places && places[cr3] == Place(cr3, 4, 0) && StackPage(n) < PAGES
    requires forall f :: f in tables' ==> |tables'[f]| == ENTRIES
    requires k < n ==> Translate(tables, cr3, StackPage(k)) == Some(Mapping(StackFrame(stack, k), HEAP_FLAGS))
    requires Remaps(tables, places, tables', cr3, StackPage(n), 1, Entry(StackFrame(stack, n), HEAP_FLAGS))
    ensures Translate(tables', cr3, StackPage(k)) == Some(Mapping(StackFrame(stack, k), HEAP_FLAGS))
  {
    assert HEAP_FLAGS & PRESENT != 0;
    PrefixTop(StackPage(k));
    assert Serves(places, cr3, cr3, 4, StackPage(k));
  }

  lemma StackMore(tables: Tables, places: map<nat, Place>, tables': Tables, cr3: nat, stack: nat, n: nat, next: nat)
    requires next == n + 1 && Placed(tables, places) && cr3 in places && places[cr3] == Place(cr3, 4, 0) && StackPage(n) < PAGES
    requires forall f :: f in tables' ==> |tables'[f]| == ENTRIES
    requires StackMapped(tables, cr3, stack, n)
    requires Remaps(tables, places, tables', cr3, StackPage(n), 1, Entry(StackFrame(stack, n), HEAP_FLAGS))
    ensures StackMapped(tables', cr3, stack, next)
  {
    forall k: nat | k < next ensures Translate(tables', cr3, StackPage(k)) == Some(Mapping(StackFrame(stack, k), HEAP_FLAGS)) {
      StackPageIs(tables, places, tables', cr3, stack, n, k);
    }
  }

  /** Every one of the first `n` pages of the stack has its table. */
  ghost predicate AllTables(places: map<nat, Place>, root: nat, n: nat) {
    forall k: nat {:trigger StackPage(k)} :: k < n ==> HasTable(places, root, StackPage(k))
  }

  lemma StackRefused(va: seq<VaEntry>, stack: nat, done: nat)
    ensures HasVa(va + StackEntries(stack, done), STACK_VA + done * 4096) <==> HasVa(va, STACK_VA + done * 4096)
  {
    var all := va + StackEntries(stack, done);
    assert forall j :: |va| <= j < |all| ==> all[j].va == STACK_VA + (j - |va|) * 4096;
    assert forall j :: 0 <= j < |va| ==> all[j] == va[j];
  }

  /** None of the first `n` pages of a stack is indexed. */
  ghost predicate StackClear(va: seq<VaEntry>, n: nat) {
    forall k: nat {:trigger StackPage(k)} :: k < n ==> !HasVa(va, STACK_VA + k * 4096)
  }

  /** No table of the third level is there for the page. */
  predicate TopAbsent(tables: Tables, root: nat, vpn: nat) {
    root in tables && |tables[root]| == ENTRIES && !Present(tables[root][Index(vpn, 4)])
  }

  /** The frame is the next page that is granted. */
  ghost predicate PageReply(b: Books, blocks: seq<Memory.Block>, f: Option<nat>) {
    forall r {:trigger IsReply(r, b.mt, b.slots, blocks, 4096, PAGE_TAG)} :: IsReply(r, b.mt, b.slots, blocks, 4096, PAGE_TAG) ==>
      (f.Some? <==> r.outcome.Granted?) && (f.Some? ==> f.value * 4096 == r.outcome.addr)
  }

  /** The requests for a page and then for the `n` tables that its address lacks. */
  function PageAsks(n: nat): seq<Ask> { [Ask(4096, PAGE_TAG)] + TableAsks(n) }

  /** One page was asked for and, if granted, released again by its address. */
  ghost predicate GaveBack(b: Books, blocks: seq<Memory.Block>, granted: bool, b': Books) {
    forall r {:trigger IsReply(r, b.mt, b.slots, blocks, 4096, PAGE_TAG)} :: IsReply(r, b.mt, b.slots, blocks, 4096, PAGE_TAG) ==>
      && (granted <==> r.outcome.Granted?)
      && b' == Books(r.tables, if granted then FreedAt(r.slots, r.outcome.addr) else r.slots)
  }

  /** The first allocation in use at the address is released. */
  function FreedAt(slots: seq<Memory.Slot>, addr: nat): seq<Memory.Slot> {
    var k := Memory.FindSlot(slots, addr);
    if k < |slots| then Memory.Release(slots, k) else slots
  }

  /**
   Giving a page back leaves in use what was in use before and the bookkeeping of
   a table created meanwhile, and nothing else, unless an empty allocation starts
   at the page's address.
   */
  lemma GivenBack(b: Books, blocks: seq<Memory.Block>, b': Books, r: Memory.Reply)
    requires Memory.WellFormed(b.mt, b.slots) && GaveBack(b, blocks, true, b') && IsReply(r, b.mt, b.slots, blocks, 4096, PAGE_TAG)
    ensures r.outcome.Granted?
    ensures (forall i :: 0 <= i < |b.slots| && b.slots[i].used && b.slots[i].addr == r.outcome.addr ==> b.slots[i].size > 0) ==>
      Memory.Extends(b.slots, b'.slots) && Memory.OnlyAdds(b.slots, b'.slots, Memory.Extra(b.mt, b'.mt))
  {
    Memory.RequestKeepsWellFormed(b.mt, b.slots, blocks, 4096, Memory.Align4KB, PAGE_TAG);
    if forall i :: 0 <= i < |b.slots| && b.slots[i].used && b.slots[i].addr == r.outcome.addr ==> b.slots[i].size > 0 {
      GivenBackSlot(b, r);
    }
  }

  lemma OneAt(slots: seq<Memory.Slot>, i: nat, j: nat)
    requires Memory.Disjoint(slots) && i < |slots| && j < |slots|
    ensures i != j && slots[i].used && slots[j].used && slots[i].size > 0 && slots[j].size > 0 ==> slots[i].addr != slots[j].addr
  {
    if i != j && slots[i].used && slots[j].used && slots[i].size > 0 && slots[j].size > 0 { Memory.StartsDistinct(slots, i, j); }
  }

  lemma GivenBackSlot(b: Books, r: Memory.Reply)
    requires r.outcome.Granted? && Memory.Answers(b.mt, b.slots, 4096, Memory.Align4KB, PAGE_TAG, r)
    requires forall i :: 0 <= i < |b.slots| && b.slots[i].used && b.slots[i].addr == r.outcome.addr ==> b.slots[i].size > 0
    ensures Memory.Extends(b.slots, FreedAt(r.slots, r.outcome.addr))
    ensures Memory.OnlyAdds(b.slots, FreedAt(r.slots, r.outcome.addr), Memory.Extra(b.mt, r.tables))
  {
    var page, k := Memory.Slot(r.outcome.addr, 4096, true, PAGE_TAG), Memory.FindSlot(r.slots, r.outcome.addr);
    var n :| 0 <= n < |r.slots| && r.slots[n] == page;
    assert r.slots[k].used && r.slots[k].addr == page.addr && r.slots[k].size > 0;
    OneAt(r.slots, k, n);
    forall j | 0 <= j < |r.slots| && j != n && r.slots[j].used ensures r.slots[j] != page {
      OneAt(r.slots, j, n);
    }
  }

  /**
   Where the memory for mapping a page comes from: exactly the tables missing for
   it are asked for. With all tables there nothing is allocated, and with none of
   them the first page granted is the table of the third level.
   */
  ghost predicate Supplied(tables: Tables, places: map<nat, Place>, b: Books, blocks: seq<Memory.Block>, root: nat, vpn: nat,
                           places': map<nat, Place>, b': Books) {
    && Took(b, blocks, TableAsks(Missing(places, root, 1, 3, vpn)), true, b') && AddsTables(places, places', root, 1, 3, vpn)
    && (HasTable(places, root, vpn) ==> places' == places && b' == b)
    && (TopAbsent(tables, root, vpn) ==> GrantedTo(b.mt, b.slots, blocks, places', root, vpn))
  }

  /** A table missing for a page was not granted. */
  ghost predicate Unsupplied(places: map<nat, Place>, b: Books, blocks: seq<Memory.Block>, root: nat, vpn: nat, b': Books) {
    Took(b, blocks, TableAsks(Missing(places, root, 1, 3, vpn)), false, b')
  }

  lemma UnsuppliedLacks(tables: Tables, places: map<nat, Place>, b: Books, blocks: seq<Memory.Block>, root: nat, vpn: nat, b': Books)
    requires Tree(tables, places) && Unsupplied(places, b, blocks, root, vpn, b')
    ensures !HasTable(places, root, vpn)
  {
    if HasTable(places, root, vpn) {
      AllThere(tables, places, root, vpn);
      TableAsksAdd(0, 0);
      TookNone(b, blocks);
      TookOnce(b, blocks, [], false, b', true, b);
    }
  }

  ghost function BooksOf(s: Snapshot): Books { Books(s.mt, s.slots) }

  /** The virtual pages of the first `n` pages of a stack. */
  function StackRun(n: nat): seq<nat> { RunPages(StackPage(0), StackPage(n)) }

  /**
   Where the memory for the tables of a stack comes from: exactly those missing
   for its pages are asked for. With all tables there nothing is allocated, and
   with none the first page granted is the table of the third level.
   */
  ghost predicate StackSupplied(cr3: nat, done: nat, all: nat, b: Snapshot, blocks: seq<Memory.Block>, now: Snapshot) {
    && PagesTook(b.places, BooksOf(b), now.places, BooksOf(now), cr3, StackRun(done), blocks)
    && (done == 0 ==> now.tables == b.tables && now.mt == b.mt && now.slots == b.slots)
    && (AllTables(b.places, cr3, all) ==> now.places == b.places && now.mt == b.mt && now.slots == b.slots)
    && (done > 0 && TopAbsent(b.tables, cr3, StackPage(0)) ==> GrantedTo(b.mt, b.slots, blocks, now.places, cr3, StackPage(0)))
  }

  /** A table for page `k` of a stack was not granted. */
  lemma StackFails(b: Snapshot, was: Snapshot, b': Books, blocks: seq<Memory.Block>, cr3: nat, k: nat, next: nat, all: nat)
    requires next == k + 1 && Tree(was.tables, was.places) && StackSupplied(cr3, k, all, b, blocks, was) && k < all
    requires Unsupplied(was.places, BooksOf(was), blocks, cr3, StackPage(k), b')
    ensures TookTables(b.places, BooksOf(b), b', cr3, StackRun(next), blocks, false)
    ensures !AllTables(b.places, cr3, all)
  {
    assert StackRun(k) + [StackPage(k)] == StackRun(next);
    PagesTookMore(b.places, BooksOf(b), was.places, BooksOf(was), was.places, b', cr3, StackRun(k), StackPage(k), blocks, false);
    UnsuppliedLacks(was.tables, was.places, BooksOf(was), blocks, cr3, StackPage(k), b');
  }

  lemma SuppliedMore(was: Snapshot, blocks: seq<Memory.Block>, cr3: nat, k: nat, next: nat, all: nat, b: Snapshot, now: Snapshot)
    requires next == k + 1
    requires Supplied(was.tables, was.places, BooksOf(was), blocks, cr3, StackPage(k), now.places, BooksOf(now))
    requires StackSupplied(cr3, k, all, b, blocks, was) && k < all && Keeps(was.places, now.places)
    ensures StackSupplied(cr3, next, all, b, blocks, now)
  {
    assert StackRun(k) + [StackPage(k)] == StackRun(next);
    PagesTookMore(b.places, BooksOf(b), was.places, BooksOf(was), now.places, BooksOf(now), cr3, StackRun(k), StackPage(k), blocks, true);
    if AllTables(b.places, cr3, all) { assert HasTable(b.places, cr3, StackPage(k)); }
    if k > 0 && TopAbsent(b.tables, cr3, StackPage(0)) {
      forall r | IsReply(r, b.mt, b.slots, blocks, 4096, TABLE_TAG)
        ensures r.outcome.Granted? && exists g :: g * 4096 == r.outcome.addr && Serves(now.places, g, cr3, 3, StackPage(0))
      {
        var g :| g * 4096 == r.outcome.addr && Serves(was.places, g, cr3, 3, StackPage(0));
        assert Serves(now.places, g, cr3, 3, StackPage(0));
      }
    }
  }

  /** The first `n` frames of a stack were handed out for its pages. */
  ghost predicate OwnsStack(home: map<nat, Home>, i: nat, stack: nat, n: nat) {
    forall k: nat {:trigger StackPage(k)} :: k < n ==> Owns(home, StackFrame(stack, k), i, StackPage(k))
  }

  /** The loose frames after mapping `done` pages of a stack. */
  ghost function LooseAfter(loose: iset<nat>, home: map<nat, Home>, i: nat, stack: nat, done: nat, q: nat): iset<nat> {
    if done == q + 1 then StackLoose(loose, home, i, stack, q) else loose
  }

  lemma LooseStep(loose: iset<nat>, home: map<nat, Home>, i: nat, stack: nat, k: nat, next: nat, q: nat)
    requires OwnsStack(home, i, stack, q) && k <= q && next == k + 1
    ensures StackLoose(LooseAfter(loose, home, i, stack, k, q), home, i, stack, k) == LooseAfter(loose, home, i, stack, next, q)
  {
    assert k < q ==> Owns(home, StackFrame(stack, k), i, StackPage(k));
  }

  lemma ClaimedOwns(home: map<nat, Home>, i: nat, stack: nat, w: nat, n: nat)
    requires n <= w
    ensures OwnsStack(Claimed(home, i, stack, w), i, stack, n)
  {
  }

  /** The allocations in use at a time, and the bytes of memory then. */
  datatype Contents = Contents(slots: seq<Memory.Slot>, bytes: map<nat, byte>)

  /** In between the frame was taken from memory that was in no allocation, and no byte that was in use has changed. */
  ghost predicate TakenBy(was: Contents, now: Contents, f: nat) {
    Memory.LiveKept(was.slots, was.bytes, now.bytes) && Memory.Extends(was.slots, now.slots) && !FrameHeld(was.slots, f)
  }

  /** No byte outside the range differs. */
  ghost predicate Cleared(addr: nat, n: nat, bytes: map<nat, byte>, bytes': map<nat, byte>) {
    forall a: nat {:trigger Memory.ByteAt(bytes', a)} :: !(addr <= a < addr + n) ==> Memory.ByteAt(bytes', a) == Memory.ByteAt(bytes, a)
  }

  ghost predicate Zeroed(addr: nat, n: nat, bytes: map<nat, byte>) {
    forall a: nat {:trigger Memory.ByteAt(bytes, a)} :: addr <= a < addr + n ==> Memory.ByteAt(bytes, a) == 0
  }

  /** Clearing a frame that no allocation shared a byte with. */
  lemma KeptBeside(was: Contents, mid: Contents, b1: map<nat, byte>, b2: map<nat, byte>, f: nat)
    requires Cleared(f * 4096, 4096, b1, b2)
    ensures Memory.LiveKept(mid.slots, mid.bytes, b1) && TakenBy(was, mid, f) ==> Memory.LiveKept(was.slots, was.bytes, b2)
  {
    if Memory.LiveKept(mid.slots, mid.bytes, b1) && TakenBy(was, mid, f) {
      Memory.LiveKeptThen(was.slots, was.bytes, mid.slots, mid.bytes, b1);
      forall i, a: nat | 0 <= i < |was.slots| && Memory.InSlot(was.slots[i], a) ensures Memory.ByteAt(b2, a) == Memory.ByteAt(was.bytes, a) {
        assert !Shares(was.slots[i], f);
        assert Memory.ByteAt(b1, a) == Memory.ByteAt(was.bytes, a);
      }
    }
  }

  lemma KeptBesideRange(slots: seq<Memory.Slot>, b0: map<nat, byte>, b1: map<nat, byte>, b2: map<nat, byte>, addr: nat, n: nat)
    requires Memory.LiveKept(slots, b0, b1) && Cleared(addr, n, b1, b2) && Memory.IsFree(slots, addr, n)
    ensures Memory.LiveKept(slots, b0, b2)
  {
    forall i, a: nat | 0 <= i < |slots| && Memory.InSlot(slots[i], a) ensures Memory.ByteAt(b2, a) == Memory.ByteAt(b0, a) {
      assert !Memory.Clash(slots[i], addr, n);
      assert Memory.ByteAt(b1, a) == Memory.ByteAt(b0, a);
    }
  }

  /** Memory in use that was cleared stays so while its bytes are kept. */
  lemma StaysZeroed(slots: seq<Memory.Slot>, b1: map<nat, byte>, b2: map<nat, byte>, addr: nat, n: nat)
    requires Memory.Holds(slots, addr, n, STACK_TAG) && Memory.LiveKept(slots, b1, b2) && Zeroed(addr, n, b1)
    ensures Zeroed(addr, n, b2)
  {
    var i :| 0 <= i < |slots| && slots[i] == Memory.Slot(addr, n, true, STACK_TAG);
    forall a: nat | addr <= a < addr + n ensures Memory.ByteAt(b2, a) == 0 {
      assert Memory.InSlot(slots[i], a) && Memory.ByteAt(b1, a) == 0;
    }
  }

  /** Memory for a stack was taken, which was free; nothing else has changed. */
  ghost predicate StackTaken(was: Snapshot, taken: Snapshot, stack: nat, n: nat) {
    && taken.tables == was.tables && taken.places == was.places && taken.spaces == was.spaces
    && Memory.Extends(was.slots, taken.slots) && WasFree(was.slots, stack, n) && Memory.Holds(taken.slots, stack, n, STACK_TAG)
  }

  /**
   How mapping a page of a process went. It is refused exactly for misaligned
   addresses and pages indexed already, with nothing changed; otherwise exactly
   the tables it lacks are asked for, and if all are granted index and tables gain
   the page.
   */
  ghost predicate MapWent(r: MapResult, was: World, w: World, i: nat, va: nat, pa: nat, ignore: bool, flags: Flags, blocks: seq<Memory.Block>)
    requires Sized(was.mem.tables) && i < |was.mem.spaces|
  {
    MapAt(r, was, w, i, VaEntry(va, pa, ignore), va / 4096, pa / 4096, flags, blocks)
  }

  /** The same, for page `v` and frame `f`. */
  ghost predicate MapAt(r: MapResult, was: World, w: World, i: nat, e: VaEntry, v: nat, f: nat, flags: Flags, blocks: seq<Memory.Block>)
    requires Sized(was.mem.tables) && i < |was.mem.spaces|
  {
    var s := was.mem.spaces[i];
    (r.Refused? <==> e.pa % 4096 != 0 || RefusedAt(s, e.va)) &&
    match r
    case Refused => w == was
    case NullMemory => Unsupplied(was.mem.places, BooksOf(was.mem), blocks, s.cr3, v, BooksOf(w.mem))
    case Mapped =>
      && Sized(w.mem.tables) && w.home == was.home && w.loose == Loosened(was.loose, f, FitOf(was.mem.slots, was.home, Mapping(f, flags), i, v))
      && Grows(was.mem.places, was.mem.slots, w.mem.places, w.mem.slots) && w.mem.spaces == Indexed(was.mem.spaces, i, e)
      && Remaps(was.mem.tables, was.mem.places, w.mem.tables, s.cr3, v, 1, Entry(f, flags))
      && Supplied(was.mem.tables, was.mem.places, BooksOf(was.mem), blocks, s.cr3, v, w.mem.places, BooksOf(w.mem))
  }

  /** How mapping page `k` of a stack went. */
  ghost predicate StackPageWent(r: MapResult, was: World, w: World, i: nat, stack: nat, k: nat, blocks: seq<Memory.Block>)
    requires Sized(was.mem.tables) && i < |was.mem.spaces|
  {
    && MapAt(r, was, w, i, StackEntry(stack, k), StackPage(k), StackFrame(stack, k), HEAP_FLAGS, blocks)
    && (r.Refused? <==> HasVa(was.mem.spaces[i].va, STACK_VA + k * 4096))
    && (r.Mapped? ==> WorldOk(w) && w.loose == StackLoose(was.loose, was.home, i, stack, k))
  }

  /**
   Since `b` the first `done` of `all` pages of a stack have been indexed and
   mapped, and no other page has changed.
   */
  ghost predicate StackGrew(b: Snapshot, w: World, i: nat, stack: nat, done: nat, all: nat, blocks: seq<Memory.Block>) {
    && WorldOk(w) && Placed(b.tables, b.places) && i < |b.spaces| && Grows(b.places, b.slots, w.mem.places, w.mem.slots)
    && w.mem.spaces == IndexedAll(b.spaces, i, StackEntries(stack, done)) && StackClear(b.spaces[i].va, done)
    && StackMapped(w.mem.tables, b.spaces[i].cr3, stack, done)
    && OutsideSame(b.tables, b.places, w.mem.tables, b.spaces[i].cr3, StackPage(0), StackPage(done))
    && StackSupplied(b.spaces[i].cr3, done, all, b, blocks, w.mem)
  }

  /**
   How mapping the `q` + 1 pages of a stack went since `b`: all of them are
   mapped, and the last is loose unless it was handed out for its page; or one
   was refused, because it is indexed, and none is loose; or a table that the
   first `done` of them need was not granted, which cannot be when all tables
   were there.
   */
  ghost predicate StackOutcome(r: MapResult, b: Snapshot, w: World, i: nat, stack: nat, done: nat, q: nat, loose0: iset<nat>, blocks: seq<Memory.Block>) {
    i < |b.spaces| &&
    match r
    case Mapped =>
      StackGrew(b, w, i, stack, done, q + 1, blocks) && w.loose == LooseAfter(loose0, w.home, i, stack, done, q)
    case Refused =>
      StackGrew(b, w, i, stack, done, q + 1, blocks) && w.loose == loose0 && done <= q && HasVa(b.spaces[i].va, STACK_VA + done * 4096)
    case NullMemory =>
      && !AllTables(b.places, b.spaces[i].cr3, q + 1) && 0 < done <= q + 1 && StackClear(b.spaces[i].va, done)
      && TookTables(b.places, BooksOf(b), BooksOf(w.mem), b.spaces[i].cr3, StackRun(done), blocks, false)
  }

  /**
   A stack of `n` bytes was set up: the memory was granted, or not; if it was, its
   whole frames were handed out for the pages of the stack, and `q` + 1 pages were
   mapped from its start. `taken` is the state once the memory was taken.
   */
  ghost predicate StackCall(r: MapResult, was: World, w: World, i: nat, q: nat, n: nat, stack: Option<nat>, done: nat, taken: Snapshot, blocks: seq<Memory.Block>) {
    && Ranged(BooksOf(was.mem), blocks, n, STACK_TAG, stack, if stack.None? then BooksOf(w.mem) else BooksOf(taken))
    && (stack.None? ==> r.NullMemory?)
    && (stack.Some? ==>
      && StackTaken(was.mem, taken, stack.value, n) && StackOutcome(r, taken, w, i, stack.value, done, q, was.loose, blocks)
      && w.home == Claimed(was.home, i, stack.value, WholePages(n, q)) && KeepsHomes(was.home, w.home))
    && (r.Mapped? ==> done == q + 1)
  }

  lemma StackCalled(r: MapResult, was: World, mid: World, w: World, i: nat, q: nat, n: nat, stack: Option<nat>, done: nat, blocks: seq<Memory.Block>)
    requires Ranged(BooksOf(was.mem), blocks, n, STACK_TAG, stack, BooksOf(mid.mem)) && w.home == mid.home && mid.loose == was.loose
    requires stack.None? ==> r.NullMemory? && w.mem == mid.mem
    requires stack.Some? ==> StackTaken(was.mem, mid.mem, stack.value, n) && w.home == Claimed(was.home, i, stack.value, WholePages(n, q)) && KeepsHomes(was.home, w.home)
    requires r.Mapped? ==> done == q + 1
    ensures (stack.Some? ==> StackOutcome(r, mid.mem, w, i, stack.value, done, q, was.loose, blocks)) ==>
      StackCall(r, was, w, i, q, n, stack, done, mid.mem, blocks)
  {
  }

  lemma StackBegun(w: World, i: nat, stack: nat, q: nat, blocks: seq<Memory.Block>)
    requires WorldOk(w) && i < |w.mem.spaces|
    ensures StackOutcome(Mapped, w.mem, w, i, stack, 0, q, w.loose, blocks)
  {
    IndexedNone(w.mem.spaces, i, stack);
    assert StackRun(0) == [];
    PagesTookNone(w.mem.places, BooksOf(w.mem), w.mem.spaces[i].cr3, blocks);
  }

  /** One more page of a stack. */
  lemma StackTurned(r: MapResult, b: Snapshot, was: World, w: World, i: nat, stack: nat, k: nat, next: nat, done: nat, q: nat, loose0: iset<nat>, blocks: seq<Memory.Block>)
    requires WorldOk(was) && i < |was.mem.spaces| && i < |b.spaces| && OwnsStack(was.home, i, stack, q) && k <= q && StackPage(k) < PAGES
    requires next == k + 1 && done == (if r.Refused? then k else next)
    ensures StackOutcome(Mapped, b, was, i, stack, k, q, loose0, blocks) && StackPageWent(r, was, w, i, stack, k, blocks) ==>
      StackOutcome(r, b, w, i, stack, done, q, loose0, blocks)
  {
    if StackOutcome(Mapped, b, was, i, stack, k, q, loose0, blocks) && StackPageWent(r, was, w, i, stack, k, blocks) {
      LooseStep(loose0, was.home, i, stack, k, next, q);
      StackRefused(b.spaces[i].va, stack, k);
      if !r.Refused? { StackClearMore(b.spaces[i].va, k, next); }
      match r
      case Mapped =>
        StackPageMapped(b, was, w, i, stack, k, next, q + 1, blocks);
      case NullMemory =>
        StackFails(b, was.mem, BooksOf(w.mem), blocks, b.spaces[i].cr3, k, next, q + 1);
      case Refused =>
    }
  }

  lemma StackClearMore(va: seq<VaEntry>, k: nat, next: nat)
    requires StackClear(va, k) && !HasVa(va, STACK_VA + k * 4096) && next == k + 1
    ensures StackClear(va, next)
  {
    forall j: nat | j < next ensures !HasVa(va, STACK_VA + j * 4096) {
      if j < k { assert StackPage(j) >= 0; } else { assert j == k; }
    }
  }

  lemma StackPageMapped(b: Snapshot, was: World, w: World, i: nat, stack: nat, k: nat, next: nat, all: nat, blocks: seq<Memory.Block>)
    requires WorldOk(was) && i < |was.mem.spaces| && i < |b.spaces| && next == k + 1 <= all && StackPage(k) < PAGES && StackClear(b.spaces[i].va, next)
    ensures StackGrew(b, was, i, stack, k, all, blocks) && StackPageWent(Mapped, was, w, i, stack, k, blocks) ==> StackGrew(b, w, i, stack, next, all, blocks)
  {
    if !(StackGrew(b, was, i, stack, k, all, blocks) && StackPageWent(Mapped, was, w, i, stack, k, blocks)) { return; }
    var cr3 := b.spaces[i].cr3;
    assert SpaceOk(was.mem.tables, was.mem.places, was.mem.spaces[i]);
    IndexedMore(b.spaces, i, stack, k, next);
    StackMore(was.mem.tables, was.mem.places, w.mem.tables, cr3, stack, k, next);
    OutsideMore(b.tables, b.places, was.mem.tables, was.mem.places, w.mem.tables, cr3, StackPage(0), StackPage(k), StackPage(next),
                Entry(StackFrame(stack, k), HEAP_FLAGS));
    GrowsTwice(b.places, b.slots, was.mem.places, was.mem.slots, w.mem.places, w.mem.slots);
    SuppliedMore(was.mem, blocks, cr3, k, next, all, b, w.mem);
  }

  /**
   How handing a process a page at an address went. Exactly the page and the
   tables missing for its address are asked for; a refused address gives the page
   back; otherwise the frame is a new one, handed out for this page, which is
   indexed, listed and mapped, and nothing else has changed.
   */
  ghost predicate PageWent(r: MapResult, was: World, w: World, i: nat, va: nat, ignore: bool, flags: Flags, f: nat, blocks: seq<Memory.Block>)
    requires Sized(was.mem.tables) && i < |was.mem.spaces|
  {
    var s, b, b' := was.mem.spaces[i], BooksOf(was.mem), BooksOf(w.mem);
    && (if RefusedAt(s, va) then !r.Mapped? && GaveBack(b, blocks, r.Refused?, b')
        else !r.Refused? && Took(b, blocks, PageAsks(Missing(was.mem.places, s.cr3, 1, 3, va / 4096)), r.Mapped?, b'))
    && (r.NullMemory? && HasTable(was.mem.places, s.cr3, va / 4096) ==> PageReply(b, blocks, None))
    && (!r.NullMemory? ==> w.loose == was.loose && KeepsHomes(was.home, w.home))
    && (r.Refused? ==> w.home == was.home && w.mem == was.mem.(mt := w.mem.mt, slots := w.mem.slots))
    && (r.Mapped? ==>
      && PageReply(b, blocks, Some(f)) && PageAdded(was, w, i, va / 4096, Entry(f, flags))
      && w.mem.spaces == Listed(Indexed(was.mem.spaces, i, VaEntry(va, f * 4096, ignore)), i, f * 4096))
  }

  /**
   How a page taken before was given to a process: refused, with these slots left,
   or handed out and mapped with the tables it lacks.
   */
  ghost predicate TakenWent(r: MapResult, was: World, w: World, i: nat, va: nat, ignore: bool, flags: Flags, f: nat, slots: seq<Memory.Slot>, blocks: seq<Memory.Block>)
    requires Sized(was.mem.tables) && i < |was.mem.spaces|
  {
    var s := was.mem.spaces[i];
    && (r.Refused? <==> RefusedAt(s, va)) && (r.Refused? ==> w == was.(mem := was.mem.(slots := slots)))
    && (!r.Refused? ==> Took(BooksOf(was.mem), blocks, TableAsks(Missing(was.mem.places, s.cr3, 1, 3, va / 4096)), r.Mapped?, BooksOf(w.mem)))
    && (r.Mapped? ==>
      && Sized(w.mem.tables) && Grows(was.mem.places, was.mem.slots, w.mem.places, w.mem.slots)
      && AddsTables(was.mem.places, w.mem.places, s.cr3, 1, 3, va / 4096)
      && w.loose == was.loose && w.home == was.home[f := Home(i, va / 4096)]
      && w.mem.spaces == Listed(Indexed(was.mem.spaces, i, VaEntry(va, f * 4096, ignore)), i, f * 4096)
      && Remaps(was.mem.tables, was.mem.places, w.mem.tables, s.cr3, va / 4096, 1, Entry(f, flags)))
  }

  /** A page that was handed out is mapped and listed. */
  /** The page is listed with its process. */
  ghost function WithPage(w: World, i: nat, page: nat): World
    requires i < |w.mem.spaces|
  {
    w.(mem := w.mem.(spaces := Listed(w.mem.spaces, i, page)))
  }

  lemma TakenMapped(r: MapResult, was: World, mid: World, w: World, i: nat, va: nat, ignore: bool, flags: Flags, f: nat, blocks: seq<Memory.Block>)
    requires Sized(was.mem.tables) && i < |was.mem.spaces| && Owns(was.home, f, i, va / 4096)
    requires IsTight(was.mem.slots, was.home, Mapping(f, flags), i, va / 4096) || f in was.loose
    requires if r.Mapped? then i < |mid.mem.spaces| && w == WithPage(mid, i, f * 4096) else w == mid
    ensures MapAt(r, was, mid, i, VaEntry(va, f * 4096, ignore), va / 4096, f, flags, blocks) ==>
      TakenWent(r, was, w, i, va, ignore, flags, f, was.mem.slots, blocks)
  {
    assert was.home[f := Home(i, va / 4096)] == was.home;
  }

  /** A page is handed out and mapped, or not handed out after all. */
  lemma TakenFresh(r: MapResult, was: World, claimed: World, mid: World, w: World, i: nat, va: nat, ignore: bool, flags: Flags, f: nat, blocks: seq<Memory.Block>)
    requires Sized(was.mem.tables) && i < |was.mem.spaces| && claimed == was.(home := was.home[f := Home(i, va / 4096)])
    requires w == if r.Refused? then mid.(home := was.home) else mid
    ensures TakenWent(r, claimed, mid, i, va, ignore, flags, f, was.mem.slots, blocks) ==> TakenWent(r, was, w, i, va, ignore, flags, f, was.mem.slots, blocks)
  {
  }

  /** A page is taken, and then mapped or given back. */
  lemma PageDone(r: MapResult, was: World, mid: World, w: World, i: nat, va: nat, ignore: bool, flags: Flags, frame: Option<nat>, f: nat, blocks: seq<Memory.Block>)
    requires Tree(was.mem.tables, was.mem.places) && i < |was.mem.spaces| && mid == was.(mem := was.mem.(mt := mid.mem.mt, slots := mid.mem.slots))
    requires AskedPage(was.mem.mt, was.mem.slots, blocks, PAGE_TAG, frame, mid.mem.mt, mid.mem.slots)
    requires Took(BooksOf(was.mem), blocks, [Ask(4096, PAGE_TAG)], frame.Some?, BooksOf(mid.mem))
    requires frame.None? ==> r.NullMemory? && w == mid
    requires frame.Some? ==> f == frame.value && Memory.Extends(was.mem.slots, mid.mem.slots) && !FrameHeld(was.mem.slots, f) && f !in was.home
    ensures (frame.Some? ==> TakenWent(r, mid, w, i, va, ignore, flags, f, FreedAt(mid.mem.slots, f * 4096), blocks)) ==>
      PageWent(r, was, w, i, va, ignore, flags, f, blocks)
  {
    if frame.Some? ==> TakenWent(r, mid, w, i, va, ignore, flags, f, FreedAt(mid.mem.slots, f * 4096), blocks) {
      var s, b0, b, b' := was.mem.spaces[i], BooksOf(was.mem), BooksOf(mid.mem), BooksOf(w.mem);
      var n := Missing(was.mem.places, s.cr3, 1, 3, va / 4096);
      if !r.Refused? { TookThen(b0, blocks, [Ask(4096, PAGE_TAG)], frame.Some?, b, TableAsks(n), r.Mapped?, b'); }
      if r.Mapped? {
        GrowsTwice(was.mem.places, was.mem.slots, mid.mem.places, mid.mem.slots, w.mem.places, w.mem.slots);
      } else if r.NullMemory? && frame.Some? {
        UnsuppliedLacks(was.mem.tables, was.mem.places, b, blocks, s.cr3, va / 4096, b');
      }
    }
  }

  /** Counting a new page at the end of a heap. */
  lemma HeapPageDone(r: MapResult, was: World, mid: World, w: World, i: nat, end: nat, v: nat, f: nat, blocks: seq<Memory.Block>)
    requires Sized(was.mem.tables) && i < |was.mem.spaces| && end == HeapEnd(was.mem.spaces[i]) && v == HeapStart(was.mem.spaces[i])
    requires if r.Mapped? then i < |mid.mem.spaces| && w == mid.(mem := mid.mem.(spaces := Counted(mid.mem.spaces, i))) else w == mid
    ensures PageWent(r, was, mid, i, end, false, HEAP_FLAGS, f, blocks) ==> HeapPageWent(r, was, w, i, v, f, blocks)
  {
  }

  /** How adding page `v` to a heap went. */
  ghost predicate HeapPageWent(r: MapResult, was: World, w: World, i: nat, v: nat, f: nat, blocks: seq<Memory.Block>)
    requires Sized(was.mem.tables) && i < |was.mem.spaces|
  {
    var s := was.mem.spaces[i];
    && (if NoPageAt(s) then !r.Mapped? && GaveBack(BooksOf(was.mem), blocks, r.Refused?, BooksOf(w.mem))
        else !r.Refused? && Took(BooksOf(was.mem), blocks, PageAsks(Missing(was.mem.places, s.cr3, 1, 3, v)), r.Mapped?, BooksOf(w.mem)))
    && (!r.NullMemory? ==> w.loose == was.loose && KeepsHomes(was.home, w.home))
    && (r.Refused? ==> w.home == was.home && w.mem == was.mem.(mt := w.mem.mt, slots := w.mem.slots))
    && (r.Mapped? ==> PageAdded(was, w, i, v, Entry(f, HEAP_FLAGS)) && w.mem.spaces == GrownBy(was.mem.spaces, i, f))
  }

  /** A page at a frame is indexed, listed and counted at the end of a heap. */
  function GrownBy(spaces: seq<Space>, i: nat, f: nat): seq<Space>
    requires i < |spaces|
  {
    Counted(Listed(Indexed(spaces, i, VaEntry(HeapEnd(spaces[i]), f * 4096, false)), i, f * 4096), i)
  }

  function Counted(spaces: seq<Space>, i: nat): seq<Space>
    requires i < |spaces|
  {
    spaces[i := spaces[i].(heapSize := spaces[i].heapSize + 0x1000)]
  }

  /** One page was mapped, to a frame that was in no allocation and is now handed out for it. */
  ghost predicate PageAdded(was: World, w: World, i: nat, v: nat, e: Entry) {
    && Sized(was.mem.tables) && Sized(w.mem.tables) && i < |was.mem.spaces|
    && Grows(was.mem.places, was.mem.slots, w.mem.places, w.mem.slots) && !FrameHeld(was.mem.slots, e.frame)
    && e.frame !in was.home && w.home == was.home[e.frame := Home(i, v)]
    && Remaps(was.mem.tables, was.mem.places, w.mem.tables, was.mem.spaces[i].cr3, v, 1, e)
    && AddsTables(was.mem.places, w.mem.places, was.mem.spaces[i].cr3, 1, 3, v)
  }

  /**
   Since `b` the heap of process `i` has gained backed pages at the frames `fs`,
   indexed and listed in turn, and nothing else has changed.
   */
  ghost predicate HeapGrew(b: Snapshot, w: World, i: nat, fs: seq<nat>) {
    && WorldOk(w) && Placed(b.tables, b.places) && Keeps(b.places, w.mem.places) && i < |b.spaces| && w.mem.spaces == HeapAdded(b.spaces, i, fs)
    && var s := b.spaces[i];
    && HeapClear(s, |fs|) && AllBacked(w.mem.tables, s.cr3, w.home, b.slots, i, HeapStart(s), HeapStop(s, |fs|), HEAP_FLAGS)
    && OutsideSame(b.tables, b.places, w.mem.tables, s.cr3, HeapStart(s), HeapStop(s, |fs|))
  }

  /** Besides, nothing but these pages and their tables was asked for. */
  ghost predicate HeapTook(b: Snapshot, w: World, i: nat, n: nat, blocks: seq<Memory.Block>)
    requires i < |b.spaces|
  {
    var s := b.spaces[i];
    && Memory.Extends(b.slots, w.mem.slots) && TablesAre(b.places, w.mem.places, s.cr3, RunPages(HeapStart(s), HeapStop(s, n)))
    && TookHeap(b.places, BooksOf(b), BooksOf(w.mem), s.cr3, HeapStart(s), HeapStop(s, n), [], blocks, true)
  }

  /** A page more was asked for and given back. */
  ghost predicate HeapReturned(b: Snapshot, w: World, i: nat, n: nat, blocks: seq<Memory.Block>)
    requires i < |b.spaces|
  {
    exists b1: Books :: TookHeap(b.places, BooksOf(b), b1, b.spaces[i].cr3, HeapStart(b.spaces[i]), HeapStop(b.spaces[i], n), [], blocks, true)
      && GaveBack(b1, blocks, true, BooksOf(w.mem))
  }

  /**
   How growing a heap went since `b`: it gained pages at `fs`; besides the next
   one was refused; or for the next one memory was not granted.
   */
  ghost predicate HeapOutcome(r: MapResult, b: Snapshot, w: World, i: nat, fs: seq<nat>, blocks: seq<Memory.Block>) {
    i < |b.spaces| &&
    match r
    case Mapped => HeapGrew(b, w, i, fs) && HeapTook(b, w, i, |fs|, blocks)
    case Refused => HeapGrew(b, w, i, fs) && RefusedAt(b.spaces[i], HeapVa(b.spaces[i], |fs|)) && HeapReturned(b, w, i, |fs|, blocks)
    case NullMemory => HeapClear(b.spaces[i], |fs|) && HeapFailed(b, i, |fs|, blocks, BooksOf(w.mem))
  }

  lemma HeapBegun(w: World, i: nat, blocks: seq<Memory.Block>)
    requires WorldOk(w) && i < |w.mem.spaces|
    ensures HeapOutcome(Mapped, w.mem, w, i, [], blocks)
  {
    HeapAddedMore(w.mem.spaces, i, [], 0);
    TookNoHeap(w.mem.places, BooksOf(w.mem), w.mem.spaces[i].cr3, HeapStart(w.mem.spaces[i]), blocks);
  }

  /** One more page of heap. */
  lemma HeapTurned(r: MapResult, b: Snapshot, was: World, w: World, i: nat, fs: seq<nat>, f: nat, fs': seq<nat>, blocks: seq<Memory.Block>)
    requires Sized(was.mem.tables) && i < |was.mem.spaces| && i < |b.spaces| && HeapStop(b.spaces[i], |fs|) < PAGES
    requires fs' == (if r.Mapped? then fs + [f] else fs) && (r.NullMemory? || WorldOk(w))
    ensures HeapOutcome(Mapped, b, was, i, fs, blocks) && HeapPageWent(r, was, w, i, HeapStop(b.spaces[i], |fs|), f, blocks) ==>
      HeapOutcome(r, b, w, i, fs', blocks)
  {
    if HeapOutcome(Mapped, b, was, i, fs, blocks) && HeapPageWent(r, was, w, i, HeapStop(b.spaces[i], |fs|), f, blocks) {
      HeapAddedMore(b.spaces, i, fs, f);
      HeapRefused(b.spaces, i, fs);
      HeapBooks(r, b, was, w, i, |fs|, |fs| + 1, f, blocks);
      if r.Mapped? { HeapMore(b, was, w, i, fs, f, fs'); }
    }
  }

  /** The requests of one more page of heap. */
  lemma HeapBooks(r: MapResult, b: Snapshot, was: World, w: World, i: nat, n: nat, next: nat, f: nat, blocks: seq<Memory.Block>)
    requires i < |b.spaces| && i < |was.mem.spaces| && Sized(was.mem.tables) && was.mem.spaces[i].cr3 == b.spaces[i].cr3 && next == n + 1
    requires NoPageAt(was.mem.spaces[i]) <==> RefusedAt(b.spaces[i], HeapVa(b.spaces[i], n))
    ensures HeapTook(b, was, i, n, blocks) && HeapPageWent(r, was, w, i, HeapStop(b.spaces[i], n), f, blocks) ==>
      match r
      case Mapped => HeapTook(b, w, i, next, blocks)
      case Refused => HeapReturned(b, w, i, n, blocks)
      case NullMemory => HeapFailed(b, i, n, blocks, BooksOf(w.mem))
  {
    var s := b.spaces[i];
    if HeapTook(b, was, i, n, blocks) && HeapPageWent(r, was, w, i, HeapStop(s, n), f, blocks) {
      if !NoPageAt(was.mem.spaces[i]) {
        TookMoreHeap(b.places, BooksOf(b), was.mem.places, BooksOf(was.mem), w.mem.places, BooksOf(w.mem), s.cr3, HeapStart(s), HeapStop(s, n), HeapStop(s, next),
                     blocks, r.Mapped?);
      } else if r.NullMemory? {
        GaveBackNone(BooksOf(was.mem), blocks, BooksOf(w.mem));
        TookHeapThen(b.places, BooksOf(b), BooksOf(was.mem), s.cr3, HeapStart(s), HeapStop(s, n), [Ask(4096, PAGE_TAG)], blocks, false, BooksOf(w.mem));
      }
    }
  }

  lemma HeapMore(b: Snapshot, was: World, w: World, i: nat, fs: seq<nat>, f: nat, fs': seq<nat>)
    requires WorldOk(w) && i < |b.spaces| && fs' == fs + [f] && w.mem.spaces == HeapAdded(b.spaces, i, fs')
    requires !RefusedAt(b.spaces[i], HeapVa(b.spaces[i], |fs|)) && Memory.Extends(b.slots, was.mem.slots) && HeapStop(b.spaces[i], |fs|) < PAGES
    ensures HeapGrew(b, was, i, fs) && PageAdded(was, w, i, HeapStop(b.spaces[i], |fs|), Entry(f, HEAP_FLAGS)) ==> HeapGrew(b, w, i, fs')
  {
    var s := b.spaces[i];
    var end, next := HeapStop(s, |fs|), HeapStop(s, |fs'|);
    if HeapGrew(b, was, i, fs) && PageAdded(was, w, i, end, Entry(f, HEAP_FLAGS)) {
      assert SpaceOk(was.mem.tables, was.mem.places, was.mem.spaces[i]);
      assert HEAP_FLAGS & PRESENT != 0;
      BackedMore(was.mem.tables, was.mem.places, w.mem.tables, b.slots, was.mem.slots, s.cr3, was.home, i, HeapStart(s), end, next, f, HEAP_FLAGS, w.home);
      OutsideMore(b.tables, b.places, was.mem.tables, was.mem.places, w.mem.tables, s.cr3, HeapStart(s), end, next, Entry(f, HEAP_FLAGS));
    }
  }

  class AddressSpaces {
    const pt: PageTables
    var spaces: seq<Space>
    ghost var home: map<nat, Home>
    /** Frames whose mapping may be shared with a page handed out before or later. */
    ghost var loose: iset<nat>

    ghost predicate Valid()
      reads this, pt, pt.mm
    {
      pt.Valid() && Consistent(pt.tables, pt.places, pt.mm.slots, spaces, home, loose)
    }

    constructor (pt: PageTables)
      requires pt.Valid()
      ensures Valid() && this.pt == pt && spaces == [] && home == map[] && loose == iset{}
    {
      this.pt := pt;
      spaces := [];
      home := map[];
      loose := iset{};
    }

    /** DispatcherProcessCheckVa: 0 when the page is not indexed, 2 when its entry is to be ignored. */
    method CheckVa(i: nat, va: nat, ignore: bool) returns (r: nat)
      requires i < |spaces|
      ensures r == 0 <==> !HasVa(spaces[i].va, va)
      ensures r != 0 ==> exists k :: 0 <= k < |spaces[i].va| && FirstAt(spaces[i].va, k, va)
                           && (r == if ignore && spaces[i].va[k].ignore then 2 else 1)
    {
      var k := 0;
      while k < |spaces[i].va|
        invariant 0 <= k <= |spaces[i].va|
        invariant forall j :: 0 <= j < k ==> spaces[i].va[j].va != va
      {
        if spaces[i].va[k].va == va {
          assert FirstAt(spaces[i].va, k, va);
          if ignore && spaces[i].va[k].ignore {
            return 2;
          } else {
            return 1;
          }
        }
        k := k + 1;
      }
      return 0;
    }

    /**
     DispatcherProcessGetPa: for an indexed page that is not ignored, the
     physical address the hardware would reach; otherwise NULL.
     */
    method GetPa(i: nat, va: nat, ignore: bool) returns (pa: Option<nat>)
      requires Valid() && i < |spaces|
      ensures pa.None? <==> !Visible(spaces[i].va, PageOf(va), ignore)
      ensures pa.Some? ==> Reaches(pt.tables, spaces[i].cr3, va, pa.value)
    {
      var page, offset := PageOf(va), va % 4096;
      ghost var s := spaces[i];
      assert SpaceOk(pt.tables, pt.places, s);
      var k := 0;
      while k < |spaces[i].va|
        invariant 0 <= k <= |spaces[i].va|
        invariant forall j :: 0 <= j < k ==> spaces[i].va[j].va != page
      {
        if spaces[i].va[k].va == page {
          OnlyEntry(pt.tables, s, k, va, ignore);
          if ignore && spaces[i].va[k].ignore {
            return None;
          } else {
            return Some(spaces[i].va[k].pa + offset);
          }
        }
        k := k + 1;
      }
      return None;
    }

    /** DispatcherProcessMap: index a page and map it. It is refused exactly for misaligned addresses and pages indexed already. */
    method Map(i: nat, va: nat, pa: nat, ignore: bool, flags: Flags) returns (r: MapResult)
      requires Valid() && i < |spaces| && va / 4096 < PAGES && flags & PRESENT != 0 && flags & PAGE_FRAME == 0
      modifies this, pt, pt.mm
      ensures r.NullMemory? || Valid()
      ensures home == old(home) && (r.Refused? ==> pt.mm.bytes == old(pt.mm.bytes)) && (r.NullMemory? || KeptSince(old(Memo())))
      ensures MapWent(r, old(Here()), Here(), i, va, pa, ignore, flags, pt.mm.blocks)
    {
      r := MapPage(i, va, pa, ignore, flags, va / 4096, pa / 4096);
      assert IsHere(Here());
    }

    /** The same, told of page `v` and frame `f`. */
    method MapPage(i: nat, va: nat, pa: nat, ignore: bool, flags: Flags, ghost v: nat, ghost f: nat) returns (r: MapResult)
      requires Valid() && i < |spaces| && v == va / 4096 < PAGES && f == pa / 4096 && flags & PRESENT != 0 && flags & PAGE_FRAME == 0
      modifies this, pt, pt.mm
      ensures r.NullMemory? || Valid()
      ensures home == old(home) && (r.Refused? ==> pt.mm.bytes == old(pt.mm.bytes)) && (r.NullMemory? || KeptSince(old(Memo())))
      ensures forall w {:trigger IsHere(w)} :: IsHere(w) ==> MapAt(r, old(Here()), w, i, VaEntry(va, pa, ignore), v, f, flags, pt.mm.blocks)
    {
      r := Refused;
      if va % 4096 == 0 && pa % 4096 == 0 {
        var found := CheckVa(i, va, ignore);
        if found == 0 {
          r := MapNew(i, va, pa, ignore, flags, v, f, FitOf(pt.mm.slots, home, Mapping(f, flags), i, v));
        }
      }
    }

    /** DispatcherProcessMap, once its checks have passed. */
    method MapNew(i: nat, va: nat, pa: nat, ignore: bool, flags: Flags, ghost v: nat, ghost f: nat, ghost fit: Fit) returns (r: MapResult)
      requires Valid() && i < |spaces| && v == va / 4096 < PAGES && f == pa / 4096 && flags & PRESENT != 0 && flags & PAGE_FRAME == 0
      requires va % 4096 == 0 && pa % 4096 == 0 && !HasVa(spaces[i].va, va)
      requires fit == FitOf(pt.mm.slots, home, Mapping(f, flags), i, v)
      modifies this, pt, pt.mm
      ensures r.NullMemory? || Valid()
      ensures home == old(home) && !r.Refused? && (r.NullMemory? || KeptSince(old(Memo())))
      ensures forall w {:trigger IsHere(w)} :: IsHere(w) ==> MapAt(r, old(Here()), w, i, VaEntry(va, pa, ignore), v, f, flags, pt.mm.blocks)
    {
      ghost var before, loose0 := spaces, loose;
      loose := Loosened(loose, f, fit);
      spaces := spaces[i := spaces[i].(va := spaces[i].va + [VaEntry(va, pa, ignore)])];
      r := SetSmall(spaces[i].cr3, va, pa, flags, before, i);
      if r.Mapped? {
        ConsistentMapped(old(pt.tables), old(pt.places), old(pt.mm.slots), pt.tables, pt.places, pt.mm.slots, before, home, loose0, i, VaEntry(va, pa, ignore), flags);
      }
    }

    /** MemoryPagingSetPage of one small page of a process; it is never refused. */
    method SetSmall(cr3: nat, va: nat, pa: nat, flags: Flags, ghost before: seq<Space>, ghost i: nat) returns (r: MapResult)
      requires pt.Valid() && va / 4096 < PAGES && va % 4096 == 0 && pa % 4096 == 0
      requires i < |before| && cr3 == before[i].cr3 && SpaceOk(pt.tables, pt.places, before[i])
      modifies pt, pt.mm
      ensures !r.Refused?
      ensures r.NullMemory? || pt.Valid()
      ensures r.NullMemory? ==> Unsupplied(old(pt.places), old(pt.Mem()), pt.mm.blocks, cr3, va / 4096, pt.Mem())
      ensures !r.Mapped? ||
        (&& Grows(old(pt.places), old(pt.mm.slots), pt.places, pt.mm.slots)
         && Remaps(old(pt.tables), old(pt.places), pt.tables, cr3, va / 4096, 1, Entry(pa / 4096, flags))
         && KeptSince(old(Memo()))
         && Supplied(old(pt.tables), old(pt.places), old(pt.Mem()), pt.mm.blocks, cr3, va / 4096, pt.places, pt.Mem()))
    {
      SmallNeverBlocked(pt.tables, pt.places, cr3, va / 4096);
      assert Aligned(va, pa, PAGE_SIZE_4KB);
      var set_ := pt.SetPage(cr3, va, pa, flags, PAGE_SIZE_4KB);
      r := if set_.NullTable? then NullMemory else Mapped;
    }

    /** A page of its own that is not handed out, and mapped nowhere unless it is loose. */
    ghost predicate IsSpare(f: nat)
      requires pt.Valid()
      reads this, pt, pt.mm
    {
      && Memory.Holds(pt.mm.slots, f * 4096, 4096, PAGE_TAG) && f !in home && f !in pt.tables
      && (f in loose || Nowhere(pt.tables, spaces, f))
    }

    /**
     DispatcherProcessAllocatePage: a zeroed page of its own, mapped at one
     address of one process and, unless the frame is loose, nowhere else. A
     refused address gives the memory back. Exactly a page and the tables missing
     for its address are asked for.
     */
    method AllocatePage(i: nat, va: nat, ignore: bool, flags: Flags) returns (r: MapResult, page: nat, ghost f: nat)
      requires Valid() && i < |spaces| && va / 4096 < PAGES && flags & PRESENT != 0 && flags & PAGE_FRAME == 0
      modifies this, pt, pt.mm
      ensures r.NullMemory? || Valid()
      ensures Gave(r, old(Here()), i, va, ignore, flags, f)
      ensures r.NullMemory? || KeptSince(old(Memo()))
      ensures page == if r.Mapped? then f * 4096 else 0
      ensures r.Mapped? ==> (f in loose || OnlyAt(pt.tables, spaces, i, va / 4096, f)) && forall a :: page <= a < page + 4096 ==> Memory.ByteAt(pt.mm.bytes, a) == 0
    {
      r, page, f := NullMemory, 0, 0;
      var frame := TakeFrame();
      ghost var mid := Here();
      if frame.Some? {
        f := frame.value;
        r := MapTaken(i, va, frame.value, ignore, flags, old(Memo()));
        if r.Mapped? {
          page := frame.value * 4096;
        }
      }
      assert IsHere(Here());
      PageDone(r, old(Here()), mid, Here(), i, va, ignore, flags, frame, f, pt.mm.blocks);
    }

    /** From `was` on, one page was handed to a process, as told by `PageWent`. */
    ghost predicate Gave(r: MapResult, was: World, i: nat, va: nat, ignore: bool, flags: Flags, f: nat)
      requires Sized(was.mem.tables) && i < |was.mem.spaces|
      reads this, pt, pt.mm
    {
      forall w {:trigger IsHere(w)} :: IsHere(w) ==> PageWent(r, was, w, i, va, ignore, flags, f, pt.mm.blocks)
    }

    /** DispatcherProcessAllocatePage, once it has its memory: mapped, or given back. */
    method MapTaken(i: nat, va: nat, f: nat, ignore: bool, flags: Flags, ghost was: Contents) returns (r: MapResult)
      requires Valid() && i < |spaces| && va / 4096 < PAGES && flags & PRESENT != 0 && flags & PAGE_FRAME == 0
      requires IsSpare(f)
      modifies this, pt, pt.mm
      ensures r.NullMemory? || Valid()
      ensures old(TakenBy(was, Memo(), f)) && !r.NullMemory? ==> KeptSince(was)
      ensures forall w {:trigger IsHere(w)} :: IsHere(w) ==>
        TakenWent(r, old(Here()), w, i, va, ignore, flags, f, FreedAt(old(pt.mm.slots), f * 4096), pt.mm.blocks)
      ensures r.Mapped? ==> (f in loose || OnlyAt(pt.tables, spaces, i, va / 4096, f)) && ZeroPage(f)
    {
      r := MapFresh(i, va, f, ignore, flags, was);
      assert IsHere(Here());
      if r.Refused? {
        GiveBack(f * 4096, f);
      }
    }

    ghost predicate ZeroPage(f: nat)
      reads pt.mm
    {
      forall a :: f * 4096 <= a < f * 4096 + 4096 ==> Memory.ByteAt(pt.mm.bytes, a) == 0
    }

    /** The part of DispatcherProcessAllocatePage that hands the page out and maps it. */
    method MapFresh(i: nat, va: nat, f: nat, ignore: bool, flags: Flags, ghost was: Contents) returns (r: MapResult)
      requires Valid() && i < |spaces| && va / 4096 < PAGES && flags & PRESENT != 0 && flags & PAGE_FRAME == 0
      requires IsSpare(f)
      modifies this, pt, pt.mm
      ensures r.NullMemory? || Valid()
      ensures old(TakenBy(was, Memo(), f)) && !r.NullMemory? ==> KeptSince(was)
      ensures forall w {:trigger IsHere(w)} :: IsHere(w) ==> TakenWent(r, old(Here()), w, i, va, ignore, flags, f, old(pt.mm.slots), pt.mm.blocks)
      ensures r.Refused? ==> IsSpare(f)
      ensures r.Mapped? ==> (f in loose || OnlyAt(pt.tables, spaces, i, va / 4096, f)) && ZeroPage(f)
    {
      Claim(i, va / 4096, f);
      ghost var claimed := Here();
      r := MapClaimed(i, va, f, ignore, flags, was);
      ghost var mid := Here();
      assert IsHere(mid);
      if r.Refused? {
        home := old(home);
      }
      TakenFresh(r, old(Here()), claimed, mid, Here(), i, va, ignore, flags, f, pt.mm.blocks);
    }

    /** The frame is handed out for a page. */
    ghost method Claim(i: nat, v: nat, f: nat)
      requires Valid() && IsSpare(f)
      modifies this`home
      ensures Valid() && home == old(home)[f := Home(i, v)]
    {
      var k :| 0 <= k < |pt.mm.slots| && pt.mm.slots[k] == Memory.Slot(f * 4096, 4096, true, PAGE_TAG);
      assert Inside(pt.mm.slots[k], f);
      ConsistentClaimed(pt.tables, pt.places, pt.mm.slots, spaces, home, home[f := Home(i, v)], loose);
      home := home[f := Home(i, v)];
    }

    /** A page that was handed out is mapped, listed with its process and cleared. */
    method MapClaimed(i: nat, va: nat, f: nat, ignore: bool, flags: Flags, ghost was: Contents) returns (r: MapResult)
      requires Valid() && i < |spaces| && va / 4096 < PAGES && flags & PRESENT != 0 && flags & PAGE_FRAME == 0
      requires Owns(home, f, i, va / 4096) && Memory.Holds(pt.mm.slots, f * 4096, 4096, PAGE_TAG)
      modifies this, pt, pt.mm
      ensures r.NullMemory? || Valid()
      ensures old(TakenBy(was, Memo(), f)) && !r.NullMemory? ==> KeptSince(was)
      ensures forall w {:trigger IsHere(w)} :: IsHere(w) ==> TakenWent(r, old(Here()), w, i, va, ignore, flags, f, old(pt.mm.slots), pt.mm.blocks)
      ensures r.Mapped? ==> (f in loose || OnlyAt(pt.tables, spaces, i, va / 4096, f)) && ZeroPage(f)
    {
      assert f * 4096 / 4096 == f;
      r := MapPage(i, va, f * 4096, ignore, flags, va / 4096, f);
      ghost var mid := Here();
      assert IsHere(mid);
      if r.Mapped? {
        HandOut(i, va / 4096, f, old(Memo()), was);
      }
      TakenMapped(r, old(Here()), mid, Here(), i, va, ignore, flags, f, pt.mm.blocks);
    }

    /** The bookkeeping of DispatcherProcessAllocatePage: the page is listed with its process and cleared. */
    method HandOut(i: nat, ghost v: nat, f: nat, ghost mid: Contents, ghost was: Contents)
      requires Valid() && i < |spaces| && Owns(home, f, i, v)
      requires Memory.Holds(mid.slots, f * 4096, 4096, PAGE_TAG) && Memory.Extends(mid.slots, pt.mm.slots)
      modifies this`spaces, pt.mm`bytes
      ensures Valid() && (f in loose || OnlyAt(pt.tables, spaces, i, v, f))
      ensures Here() == WithPage(old(Here()), i, f * 4096)
      ensures old(KeptSince(mid)) && TakenBy(was, mid, f) ==> KeptSince(was)
      ensures forall a :: f * 4096 <= a < f * 4096 + 4096 ==> Memory.ByteAt(pt.mm.bytes, a) == 0
    {
      PageListed(mid.slots, pt.mm.slots, home, i, v, f);
      ConsistentListed(pt.tables, pt.places, pt.mm.slots, spaces, home, loose, i, f * 4096);
      spaces := spaces[i := spaces[i].(alloc := spaces[i].alloc + [f * 4096])];
      HandedOnlyAtHome(pt.tables, pt.places, pt.mm.slots, spaces, home, loose, f);
      Clear(f * 4096, 4096);
      KeptBeside(was, mid, old(pt.mm.bytes), pt.mm.bytes, f);
    }

    /** memset of memory handed to a process. */
    method Clear(addr: nat, n: nat)
      requires Valid()
      modifies pt.mm`bytes
      ensures Valid()
      ensures forall a :: addr <= a < addr + n ==> Memory.ByteAt(pt.mm.bytes, a) == 0
      ensures Cleared(addr, n, old(pt.mm.bytes), pt.mm.bytes)
    {
      pt.mm.MemSet(addr, 0, n);
    }

    /** A new page that nothing refers to. */
    method TakeFrame() returns (f: Option<nat>)
      requires Valid()
      modifies pt.mm
      ensures f.None? || Valid()
      ensures f.Some? ==>
        && Grows(pt.places, old(pt.mm.slots), pt.places, pt.mm.slots) && IsSpare(f.value)
        && f.value !in home && TakenBy(old(Memo()), Memo(), f.value)
      ensures AskedPage(old(pt.mm.tables), old(pt.mm.slots), pt.mm.blocks, PAGE_TAG, f, pt.mm.tables, pt.mm.slots)
      ensures Took(old(pt.Mem()), pt.mm.blocks, [Ask(4096, PAGE_TAG)], f.Some?, pt.Mem())
    {
      f := pt.NewFrame(PAGE_TAG);
      if f.Some? {
        ConsistentLater(pt.tables, pt.places, old(pt.mm.slots), pt.mm.slots, spaces, home, loose);
        UnheldIsNowhere(pt.tables, pt.places, old(pt.mm.slots), spaces, home, loose, f.value);
      }
    }

    /** free of a page that is mapped nowhere, or is loose. */
    method GiveBack(page: nat, ghost f: nat)
      requires Valid() && page == f * 4096 && IsSpare(f)
      modifies pt.mm`slots
      ensures Valid() && pt.mm.slots == FreedAt(old(pt.mm.slots), page)
    {
      ghost var m :| 0 <= m < |pt.mm.slots| && pt.mm.slots[m] == Memory.Slot(page, 4096, true, PAGE_TAG);
      assert Memory.FindSlot(pt.mm.slots, page) < |pt.mm.slots|;
      ReleasePage(pt.mm.tables, pt.mm.slots, Memory.FindSlot(pt.mm.slots, page), page, f);
      var halted := pt.mm.Free(page);
      ConsistentReleased(pt.tables, pt.places, old(pt.mm.slots), pt.mm.slots, spaces, home, loose, f);
    }

    /** malloc_align outside the page tables: memory that shares no byte with anything in use. */
    method TakeMemory(n: nat) returns (addr: Option<nat>)
      requires Valid()
      modifies pt.mm
      ensures addr.None? || (Valid() && StackTaken(old(Now()), Now(), addr.value, n) && KeptSince(old(Memo())))
      ensures Ranged(old(pt.Mem()), pt.mm.blocks, n, STACK_TAG, addr, pt.Mem())
    {
      addr := pt.NewRange(n, STACK_TAG);
      if addr.Some? { ConsistentLater(pt.tables, pt.places, old(pt.mm.slots), pt.mm.slots, spaces, home, loose); }
    }

    /** malloc_align and memset of the memory of a stack; the frames that lie wholly in it are handed out. */
    method TakeStack(i: nat, n: nat, ghost w: nat) returns (addr: Option<nat>)
      requires Valid() && w * 4096 <= n
      modifies pt.mm, this`home
      ensures addr.None? || (Valid() && StackTaken(old(Now()), Now(), addr.value, n) && KeptSince(old(Memo())))
      ensures Ranged(old(pt.Mem()), pt.mm.blocks, n, STACK_TAG, addr, pt.Mem())
      ensures addr.Some? ==> home == Claimed(old(home), i, addr.value, w) && KeepsHomes(old(home), home)
      ensures addr.Some? ==> forall a :: addr.value <= a < addr.value + n ==> Memory.ByteAt(pt.mm.bytes, a) == 0
    {
      addr := TakeMemory(n);
      if addr.Some? {
        StackClaimed(pt.tables, pt.places, old(pt.mm.slots), pt.mm.slots, spaces, home, loose, i, addr.value, n, w);
        home := Claimed(home, i, addr.value, w);
        ghost var taken := pt.mm.bytes;
        Clear(addr.value, n);
        KeptBesideRange(old(pt.mm.slots), old(pt.mm.bytes), taken, pt.mm.bytes, addr.value, n);
      }
    }

    /** One page of a stack is indexed and mapped. */
    method MapStackPage(i: nat, stack: nat, k: nat) returns (r: MapResult)
      requires Valid() && i < |spaces| && StackPage(k) < PAGES && stack % 4096 == 0
      modifies this, pt, pt.mm
      ensures r.NullMemory? || Valid()
      ensures home == old(home) && (r.NullMemory? || KeptSince(old(Memo())))
      ensures forall w {:trigger IsHere(w)} :: IsHere(w) ==> StackPageWent(r, old(Here()), w, i, stack, k, pt.mm.blocks)
    {
      StackPageNumber(stack, k);
      assert HEAP_FLAGS & PRESENT != 0 && HEAP_FLAGS & PAGE_FRAME == 0 && HEAP_FLAGS & USER != 0;
      r := MapPage(i, STACK_VA + k * 4096, stack + k * 4096, false, HEAP_FLAGS, StackPage(k), StackFrame(stack, k));
    }

    ghost predicate StackWent(r: MapResult, i: nat, stack: nat, done: nat, q: nat, b: Snapshot, loose0: iset<nat>, bytes0: map<nat, byte>)
      reads this, pt, pt.mm
    {
      && (r.NullMemory? || (!pt.mm.growing && Memory.LiveKept(b.slots, bytes0, pt.mm.bytes)))
      && forall w {:trigger IsHere(w)} :: IsHere(w) ==> StackOutcome(r, b, w, i, stack, done, q, loose0, pt.mm.blocks)
    }

    /** The loop of DispatcherProcessSetUpStack. */
    method MapStack(i: nat, stack: nat, q: nat) returns (r: MapResult, ghost done: nat)
      requires Valid() && i < |spaces| && StackPage(q) < PAGES && stack % 4096 == 0
      requires OwnsStack(home, i, stack, q)
      modifies this, pt, pt.mm
      ensures home == old(home)
      ensures StackWent(r, i, stack, done, q, old(Now()), old(loose), old(pt.mm.bytes)) && (r.Mapped? ==> done == q + 1)
    {
      r, done := Mapped, 0;
      StackBegun(Here(), i, stack, q, pt.mm.blocks);
      var k := 0;
      while k < q + 1 && r.Mapped?
        invariant 0 <= k <= q + 1 && home == old(home) && (r.Mapped? ==> done == k)
        invariant StackWent(r, i, stack, done, q, old(Now()), old(loose), old(pt.mm.bytes))
        decreases q + 1 - k
      {
        r, done, k := StackTurn(i, stack, k, q, old(Now()), old(loose), old(pt.mm.bytes));
      }
    }

    /** One turn of that loop, with its step. */
    method StackTurn(i: nat, stack: nat, k: nat, ghost q: nat, ghost b: Snapshot, ghost loose0: iset<nat>, ghost bytes0: map<nat, byte>)
      returns (r: MapResult, ghost done: nat, next: nat)
      requires StackWent(Mapped, i, stack, k, q, b, loose0, bytes0) && k <= q && StackPage(k) < PAGES && stack % 4096 == 0
      requires OwnsStack(home, i, stack, q)
      modifies this, pt, pt.mm
      ensures home == old(home) && next == k + 1
      ensures StackWent(r, i, stack, done, q, b, loose0, bytes0) && (r.Mapped? ==> done == next)
    {
      ghost var was := Here();
      assert IsHere(was);
      r := MapStackPage(i, stack, k);
      next := k + 1;
      done := if r.Refused? then k else next;
      assert IsHere(Here());
      if !r.NullMemory? { Memory.LiveKeptThen(b.slots, bytes0, was.mem.slots, old(pt.mm.bytes), pt.mm.bytes); }
      StackTurned(r, b, was, Here(), i, stack, k, next, done, q, loose0, pt.mm.blocks);
    }

    /**
     DispatcherProcessSetUpStack: the stack gets zeroed memory, whose whole frames
     are handed out for its pages, and size / 4096 + 1 pages are mapped from its
     start. `taken` is the state once the memory was taken.
     */
    method SetUpStack(i: nat, size: nat) returns (r: MapResult, stack: Option<nat>, ghost done: nat, ghost taken: Snapshot)
      requires Valid() && i < |spaces| && StackPage(size / 4096) < PAGES
      modifies this, pt, pt.mm
      ensures r.NullMemory? || Valid()
      ensures forall w {:trigger IsHere(w)} :: IsHere(w) ==> StackCall(r, old(Here()), w, i, size / 4096, size + size % 4096, stack, done, taken, pt.mm.blocks)
      ensures r.NullMemory? || KeptSince(old(Memo()))
      ensures !r.NullMemory? ==> stack.Some? && Zeroed(stack.value, size + size % 4096, pt.mm.bytes)
    {
      r, stack, done, taken := AllocateStack(i, size / 4096, size + size % 4096);
    }

    /** DispatcherProcessSetUpStack, for `n` bytes of memory and `q` + 1 pages. */
    method AllocateStack(i: nat, q: nat, n: nat) returns (r: MapResult, stack: Option<nat>, ghost done: nat, ghost taken: Snapshot)
      requires Valid() && i < |spaces| && StackPage(q) < PAGES && q * 4096 <= n
      modifies this, pt, pt.mm
      ensures r.NullMemory? || Valid()
      ensures forall w {:trigger IsHere(w)} :: IsHere(w) ==> StackCall(r, old(Here()), w, i, q, n, stack, done, taken, pt.mm.blocks)
      ensures r.NullMemory? || KeptSince(old(Memo()))
      ensures !r.NullMemory? ==> stack.Some? && Zeroed(stack.value, n, pt.mm.bytes)
    {
      r, done := NullMemory, 0;
      stack := TakeStack(i, n, WholePages(n, q));
      ghost var mid := Here();
      taken := mid.mem;
      if stack.Some? {
        ghost var zeroed := pt.mm.bytes;
        ClaimedOwns(old(home), i, stack.value, WholePages(n, q), q);
        r, done := MapStack(i, stack.value, q);
        assert IsHere(Here());
        if !r.NullMemory? {
          Memory.LiveKeptThen(old(pt.mm.slots), old(pt.mm.bytes), taken.slots, zeroed, pt.mm.bytes);
          StaysZeroed(taken.slots, zeroed, pt.mm.bytes, stack.value, n);
        }
      }
      StackCalled(r, old(Here()), mid, Here(), i, q, n, stack, done, pt.mm.blocks);
    }

    /** MemoryPagingNewPD for a new process, whose index starts empty. */
    method AddSpace(start: nat, end: nat, textStart: nat, textEnd: nat, tasks: seq<Run>) returns (ok: bool)
      requires Valid() && end <= PAGES && forall k :: 0 <= k < |tasks| ==> tasks[k].end <= PAGES
      modifies this, pt, pt.mm
      ensures home == old(home)
      ensures !ok || Valid()
      ensures ok ==> loose == old(loose) + KernelLoose(old(pt.mm.slots), home, start, end, tasks)
      ensures ok ==>
        && |spaces| == |old(spaces)| + 1
        && var cr3 := spaces[|old(spaces)|].cr3;
        && cr3 !in old(pt.places)
        && spaces == old(spaces) + [NewSpaceOf(cr3)] && Grows(old(pt.places), old(pt.mm.slots), pt.places, pt.mm.slots)
        && SameTranslations(old(pt.tables), old(pt.places), pt.tables) && KeptSince(old(Memo()))
        && (forall v: nat :: v < PAGES ==> Translate(pt.tables, cr3, v) == KernelMapping(start, end, textStart, textEnd, tasks, v))
        && OnlyBelow(pt.places, cr3, KernelPages(start, end, tasks))
      ensures Took(old(pt.Mem()), pt.mm.blocks, TableAsks(SpaceTables(start, end, tasks)), ok, pt.Mem())
    {
      var root := pt.NewSpace(start, end, textStart, textEnd, tasks);
      if root.None? {
        return false;
      }
      ConsistentAdded(old(pt.tables), old(pt.places), old(pt.mm.slots), pt.tables, pt.places, pt.mm.slots, spaces, home, loose,
                      root.value, start, end, textStart, textEnd, tasks);
      loose := loose + KernelLoose(old(pt.mm.slots), home, start, end, tasks);
      spaces := spaces + [Space(root.value, [], [], HEAP_ADDR, 0x1000)];
      return true;
    }

    /**
     The memory of DispatcherProcessNew: a new address space with one heap
     page of its own. It fails exactly if a table of the new space, or the page or
     one of its tables, is not granted.
     */
    method NewProcess(start: nat, end: nat, textStart: nat, textEnd: nat, tasks: seq<Run>) returns (ok: bool)
      requires Valid() && end <= PAGES && forall k :: 0 <= k < |tasks| ==> tasks[k].end <= PAGES
      modifies this, pt, pt.mm
      ensures !ok || Valid()
      ensures ok ==>
        && |spaces| == |old(spaces)| + 1 && spaces[..|old(spaces)|] == old(spaces)
        && var s := spaces[|old(spaces)|];
        && HeapEnd(s) == HEAP_ADDR + 0x1000 && |s.va| == 1 && s.va[0].va == HEAP_ADDR && s.alloc == [s.va[0].pa]
        && Backed(pt.tables, s.cr3, home, old(pt.mm.slots), |old(spaces)|, HEAP_ADDR / 4096, HEAP_FLAGS)
      ensures ok ==> loose == old(loose) + KernelLoose(old(pt.mm.slots), old(home), start, end, tasks) && KeepsHomes(old(home), home)
      ensures ok ==> SpaceBegun(old(Now()), Now(), start, end, textStart, textEnd, tasks) && KeptSince(old(Memo()))
      ensures Took(old(pt.Mem()), pt.mm.blocks, ProcessAsks(start, end, tasks), ok, pt.Mem())
    {
      var i := |spaces|;
      ok := AddSpace(start, end, textStart, textEnd, tasks);
      ghost var was, f, added, bytes1 := Now(), 0, ok, pt.mm.bytes;
      if ok {
        ok, f := FirstHeapPage(i, old(pt.mm.slots));
        MissingOnly(was.places, was.spaces[i].cr3, KernelPages(start, end, tasks), HEAP_ADDR / 4096);
        if ok { Memory.LiveKeptThen(old(pt.mm.slots), old(pt.mm.bytes), was.slots, bytes1, pt.mm.bytes); }
        if ok { BegunSpace(old(Now()), was, Now(), start, end, textStart, textEnd, tasks, f); }
      }
      TookThen(old(pt.Mem()), pt.mm.blocks, TableAsks(SpaceTables(start, end, tasks)), added, BooksOf(was),
               PageAsks(Missing(map[], 0, 1, 3, HEAP_ADDR / 4096, KernelPages(start, end, tasks))), ok, pt.Mem());
    }

    method FirstHeapPage(i: nat, ghost s0: seq<Memory.Slot>) returns (ok: bool, ghost f: nat)
      requires Valid() && |spaces| == i + 1 && spaces[i] == NewSpaceOf(spaces[i].cr3) && Memory.Extends(s0, pt.mm.slots)
      modifies this, pt, pt.mm
      ensures !ok || Valid()
      ensures ok ==> loose == old(loose) && KeepsHomes(old(home), home) && KeptSince(old(Memo()))
      ensures ok ==> FirstPage(old(Now()), Now(), i, f)
      ensures Took(old(pt.Mem()), pt.mm.blocks, PageAsks(Missing(old(pt.places), old(spaces)[i].cr3, 1, 3, HEAP_ADDR / 4096)), ok, pt.Mem())
      ensures ok ==>
        && |spaces| == i + 1 && spaces[..i] == old(spaces)[..i]
        && var s := spaces[i];
        && HeapEnd(s) == HEAP_ADDR + 0x1000 && |s.va| == 1 && s.va[0].va == HEAP_ADDR && s.alloc == [s.va[0].pa]
        && Backed(pt.tables, s.cr3, home, s0, i, HEAP_ADDR / 4096, HEAP_FLAGS)
    {
      assert HEAP_FLAGS & PRESENT != 0 && HEAP_FLAGS & PAGE_FRAME == 0;
      assert SpaceOk(pt.tables, pt.places, spaces[i]);
      assert !HasVa(spaces[i].va, HEAP_ADDR);
      assert AllBacked(pt.tables, spaces[i].cr3, home, s0, i, HEAP_ADDR / 4096, HEAP_ADDR / 4096, HEAP_FLAGS);
      var page;
      var r;
      r, page, f := AllocatePage(i, spaces[i].heapAddr, false, HEAP_FLAGS);
      assert IsHere(Here());
      if r.Mapped? {
        BackedMore(old(pt.tables), old(pt.places), pt.tables, s0, old(pt.mm.slots), spaces[i].cr3, old(home), i,
                   HEAP_ADDR / 4096, HEAP_ADDR / 4096, HEAP_ADDR / 4096 + 1, f, HEAP_FLAGS, home);
      }
      ok := r.Mapped?;
    }

    ghost function Memo(): Contents
      reads this, pt, pt.mm
    {
      Contents(pt.mm.slots, pt.mm.bytes)
    }

    /** No byte of an allocation that was in use then has changed since. */
    ghost predicate KeptSince(was: Contents)
      reads this, pt, pt.mm
    {
      Memory.LiveKept(was.slots, was.bytes, pt.mm.bytes)
    }


    ghost function Now(): Snapshot
      reads this, pt, pt.mm
    {
      Snapshot(pt.tables, pt.places, pt.mm.tables, pt.mm.slots, spaces)
    }

    ghost function Here(): World
      reads this, pt, pt.mm
    {
      World(Now(), home, loose)
    }

    ghost predicate IsHere(w: World)
      reads this, pt, pt.mm
    {
      w == Here()
    }

    /** One turn of the loop of KernelFunctionNewPage: the heap grows by one page, or nothing changes. */
    method GrowHeap(i: nat, ghost v: nat) returns (r: MapResult, ghost f: nat)
      requires Valid() && i < |spaces| && v == HeapStart(spaces[i]) < PAGES
      modifies this, pt, pt.mm
      ensures r.NullMemory? || (Valid() && KeptSince(old(Memo())))
      ensures forall w {:trigger IsHere(w)} :: IsHere(w) ==> HeapPageWent(r, old(Here()), w, i, v, f, pt.mm.blocks)
    {
      assert HEAP_FLAGS & PRESENT != 0 && HEAP_FLAGS & PAGE_FRAME == 0;
      var end, page := spaces[i].heapAddr + spaces[i].heapSize, 0;
      r, page, f := AllocatePage(i, end, false, HEAP_FLAGS);
      ghost var mid := Here();
      assert IsHere(mid);
      if r.Mapped? {
        CountPage(i);
      }
      HeapPageDone(r, old(Here()), mid, Here(), i, end, v, f, pt.mm.blocks);
    }

    /** heap_size grows by a page. */
    method CountPage(i: nat)
      requires Valid() && i < |spaces|
      modifies this`spaces
      ensures Valid() && spaces == Counted(old(spaces), i)
    {
      ConsistentResized(pt.tables, pt.places, pt.mm.slots, spaces, home, loose, i, spaces[i].heapSize + 0x1000);
      spaces := spaces[i := spaces[i].(heapSize := spaces[i].heapSize + 0x1000)];
    }

    /** How growing a heap went since `b`, when these frames were loose and these pages handed out. */
    ghost predicate HeapWent(r: MapResult, i: nat, fs: seq<nat>, b: Snapshot, home0: map<nat, Home>, loose0: iset<nat>, bytes0: map<nat, byte>)
      reads this, pt, pt.mm
    {
      && (r.NullMemory? || (!pt.mm.growing && loose == loose0 && KeepsHomes(home0, home) && Memory.LiveKept(b.slots, bytes0, pt.mm.bytes)))
      && forall w {:trigger IsHere(w)} :: IsHere(w) ==> HeapOutcome(r, b, w, i, fs, pt.mm.blocks)
    }

    /** One more page of a run of new heap pages. */
    method GrowRun(i: nat, ghost fs: seq<nat>, ghost b: Snapshot, ghost home0: map<nat, Home>, ghost loose0: iset<nat>, ghost bytes0: map<nat, byte>) returns (r: MapResult, ghost fs': seq<nat>)
      requires HeapWent(Mapped, i, fs, b, home0, loose0, bytes0) && i < |b.spaces| && HeapStop(b.spaces[i], |fs|) < PAGES
      modifies this, pt, pt.mm
      ensures HeapWent(r, i, fs', b, home0, loose0, bytes0) && |fs'| == if r.Mapped? then |fs| + 1 else |fs|
    {
      ghost var was, f := Here(), 0;
      assert IsHere(was);
      HeapAddedMore(b.spaces, i, fs, 0);
      HeapPageNumber(b.spaces[i], |fs|);
      r, f := GrowHeap(i, HeapStop(b.spaces[i], |fs|));
      assert IsHere(Here());
      fs' := if r.Mapped? then fs + [f] else fs;
      if !r.NullMemory? { Memory.LiveKeptThen(b.slots, bytes0, was.mem.slots, old(pt.mm.bytes), pt.mm.bytes); }
      HeapTurned(r, b, was, Here(), i, fs, f, fs', pt.mm.blocks);
    }

    /**
     KernelFunctionNewPage: extend a heap by count / 0x1000 + 1 pages and return
     its old end. Every new page has a frame of its own, and no other page of any
     process changes. It is refused where the next page is indexed already or the
     end of the heap is misaligned; the pages gained before that stay. It fails
     exactly if a page, or a table that a page lacks, is not granted. `fs` are the
     frames of the pages gained.
     */
    method NewPage(i: nat, count: nat) returns (r: MapResult, addr: nat, ghost fs: seq<nat>)
      requires Valid() && i < |spaces| && HeapEnd(spaces[i]) / 4096 + count / 0x1000 < PAGES
      modifies this, pt, pt.mm
      ensures HeapWent(r, i, fs, old(Now()), old(home), old(loose), old(pt.mm.bytes))
      ensures if r.Mapped? then |fs| == count / 0x1000 + 1 && addr == HeapEnd(old(spaces)[i]) && addr % 4096 == 0
              else |fs| < count / 0x1000 + 1 && addr == 0
    {
      addr := spaces[i].heapAddr + spaces[i].heapSize;
      ghost var b, home0, loose0, bytes0 := Now(), home, loose, pt.mm.bytes;
      HeapBegun(Here(), i, pt.mm.blocks);
      r, fs := Mapped, [];
      var k := 0;
      while k < count / 0x1000 + 1 && r.Mapped?
        invariant 0 <= k <= count / 0x1000 + 1 && if r.Mapped? then |fs| == k else |fs| < count / 0x1000 + 1
        invariant HeapWent(r, i, fs, b, home0, loose0, bytes0)
        decreases count / 0x1000 + 1 - k
      {
        r, fs := GrowRun(i, fs, b, home0, loose0, bytes0);
        k := k + 1;
      }
      if r.Mapped? { HeapStartsAligned(b.spaces[i], fs); }
      assert IsHere(Here());
      if !r.Mapped? {
        addr := 0;
      }
    }
  }

  lemma HeapStartsAligned(s: Space, fs: seq<nat>)
    requires |fs| > 0
    ensures HeapClear(s, |fs|) ==> HeapEnd(s) % 4096 == 0
  {
    assert HeapVa(s, 0) == HeapEnd(s);
  }
}
