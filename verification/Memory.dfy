/**
 The kernel allocator: first-fit search over the allocations in use, recorded
 in a list of fixed-size tables that are themselves allocated by the allocator.
 */
module Memory {
  import opened Base

  /** Packed sizes of a table entry and of a table's list node, in bytes. */
  const TABLE_ENTRY_SIZE: nat := 221
  const TABLE_INDEX_SIZE: nat := 32
  const INITIAL_ENTRIES: nat := 100
  const NEW_TABLE_ENTRIES: nat := 1000
  const NEW_TABLE_SIZE: nat := TABLE_ENTRY_SIZE * NEW_TABLE_ENTRIES
  /** Meeting one of this many final entries of the last table in use makes the tables grow. */
  const GROWTH_MARK: nat := 10

  datatype Align = AlignNone | Align4KB

  /** Where an allocation was asked for: the source's function and line labels. */
  datatype Tag = Tag(caller: string, line: nat)

  datatype Slot = Slot(addr: nat, size: nat, used: bool, tag: Tag)

  /**
   A table: the address of its storage and of its list node (0 for the static
   first node), and which slots it holds. Slots are numbered through all
   tables in list order.
   */
  datatype Table = Table(addr: nat, node: nat, first: nat, count: nat)

  datatype Block = Block(start: nat, length: nat, available: bool)

  const UNTAGGED := Tag("", 0)
  const EMPTY_SLOT := Slot(0, 0, false, UNTAGGED)
  const NODE_TAG := Tag("MemoryNewTable", 29)
  const TABLE_TAG := Tag("MemoryNewTable", 32)

  // ---------------------------------------------------------------- intervals

  /** The conservative overlap test of MemoryIsFree: touching on the left counts. */
  predicate Clash(s: Slot, addr: nat, size: nat) {
    s.used && s.addr <= addr + size && addr < s.addr + s.size
  }

  /** The two byte ranges have no byte in common. */
  predicate Apart(a: Slot, b: Slot) {
    a.addr + a.size <= b.addr || b.addr + b.size <= a.addr
  }

  ghost predicate IsFree(slots: seq<Slot>, addr: nat, size: nat) {
    forall i :: 0 <= i < |slots| ==> !Clash(slots[i], addr, size)
  }

  /** All allocations in use are pairwise disjoint. */
  ghost predicate Disjoint(slots: seq<Slot>) {
    forall i, j :: 0 <= i < j < |slots| && slots[i].used && slots[j].used ==> Apart(slots[i], slots[j])
  }

  /** Exactly this range is recorded as an allocation in use, under this label. */
  ghost predicate Holds(slots: seq<Slot>, addr: nat, size: nat, tag: Tag) {
    exists i :: 0 <= i < |slots| && slots[i] == Slot(addr, size, true, tag)
  }

  // ------------------------------------------------------------ first-fit search

  /** Every address the search tries in a block lies below this bound; the start is always tried. */
  function Limit(b: Block): nat {
    b.start + if b.length == 0 then 1 else b.length
  }

  ghost predicate Candidate(slots: seq<Slot>, b: Block, size: nat, align: Align, addr: nat) {
    && b.available
    && b.start <= addr < Limit(b)
    && (align == Align4KB ==> b.start % 4096 == 0 && addr % 4096 == 0)
    && IsFree(slots, addr, size)
  }

  ghost predicate LeastCandidate(slots: seq<Slot>, b: Block, size: nat, align: Align, addr: nat) {
    Candidate(slots, b, size, align, addr)
    && forall a: nat :: a < addr ==> !Candidate(slots, b, size, align, a)
  }

  lemma {:induction false} SomeCandidateIsLeast(slots: seq<Slot>, b: Block, size: nat, align: Align, addr: nat)
    requires Candidate(slots, b, size, align, addr)
    ensures exists a: nat :: LeastCandidate(slots, b, size, align, a)
    decreases addr
  {
    if a: nat :| a < addr && Candidate(slots, b, size, align, a) {
      SomeCandidateIsLeast(slots, b, size, align, a);
    } else {
      assert LeastCandidate(slots, b, size, align, addr);
    }
  }

  /**
   The least candidate of the earliest block, from block `k` on, that has one;
   0 (the source's NULL) when no block has any.
   */
  ghost function FirstFit(slots: seq<Slot>, blocks: seq<Block>, size: nat, align: Align, k: nat := 0): (r: nat)
    requires k <= |blocks|
    ensures r != 0 ==> exists j :: k <= j < |blocks| && LeastCandidate(slots, blocks[j], size, align, r)
    decreases |blocks| - k
  {
    if k == |blocks| then 0
    else if exists a: nat :: Candidate(slots, blocks[k], size, align, a) then
      var a: nat :| Candidate(slots, blocks[k], size, align, a);
      SomeCandidateIsLeast(slots, blocks[k], size, align, a);
      var least: nat :| LeastCandidate(slots, blocks[k], size, align, least);
      least
    else FirstFit(slots, blocks, size, align, k + 1)
  }

  lemma {:induction false} FirstFitIs(slots: seq<Slot>, blocks: seq<Block>, size: nat, align: Align, k: nat, j: nat, addr: nat)
    requires k <= j < |blocks|
    requires forall i: nat, a: nat :: k <= i < j ==> !Candidate(slots, blocks[i], size, align, a)
    requires LeastCandidate(slots, blocks[j], size, align, addr)
    ensures FirstFit(slots, blocks, size, align, k) == addr
    decreases j - k
  {
    if k < j {
      FirstFitIs(slots, blocks, size, align, k + 1, j, addr);
    } else {
      assert Candidate(slots, blocks[k], size, align, addr);
    }
  }

  lemma {:induction false} FirstFitNone(slots: seq<Slot>, blocks: seq<Block>, size: nat, align: Align, k: nat)
    requires k <= |blocks|
    requires forall i: nat, a: nat :: k <= i < |blocks| ==> !Candidate(slots, blocks[i], size, align, a)
    ensures FirstFit(slots, blocks, size, align, k) == 0
    decreases |blocks| - k
  {
    if k < |blocks| {
      FirstFitNone(slots, blocks, size, align, k + 1);
    }
  }

  /** The least candidate of the earliest block that has one. */
  ghost predicate FirstUsable(slots: seq<Slot>, blocks: seq<Block>, size: nat, align: Align, addr: nat) {
    exists k :: 0 <= k < |blocks| && LeastCandidate(slots, blocks[k], size, align, addr)
      && forall j: nat, a: nat :: j < k ==> !Candidate(slots, blocks[j], size, align, a)
  }

  /** No block has a candidate, or the least one of the first that has is 0, the source's NULL. */
  ghost predicate NoSpace(slots: seq<Slot>, blocks: seq<Block>, size: nat, align: Align) {
    (forall k: nat, a: nat :: k < |blocks| ==> !Candidate(slots, blocks[k], size, align, a)) || FirstUsable(slots, blocks, size, align, 0)
  }

  /** What the search finds: nothing where there is no space, and otherwise the first usable address. */
  lemma {:induction false} FirstFitFinds(slots: seq<Slot>, blocks: seq<Block>, size: nat, align: Align, k: nat)
    requires k <= |blocks| && forall j: nat, a: nat :: j < k ==> !Candidate(slots, blocks[j], size, align, a)
    ensures var r := FirstFit(slots, blocks, size, align, k);
      (r == 0 <==> NoSpace(slots, blocks, size, align)) && (r != 0 ==> FirstUsable(slots, blocks, size, align, r))
    decreases |blocks| - k
  {
    if k < |blocks| {
      if a: nat :| Candidate(slots, blocks[k], size, align, a) {
        SomeCandidateIsLeast(slots, blocks[k], size, align, a);
        var r := FirstFit(slots, blocks, size, align, k);
        assert LeastCandidate(slots, blocks[k], size, align, r);
        if FirstUsable(slots, blocks, size, align, 0) { OneFirstUsable(slots, blocks, size, align, r, 0); }
      } else {
        FirstFitFinds(slots, blocks, size, align, k + 1);
      }
    }
  }

  lemma OneFirstUsable(slots: seq<Slot>, blocks: seq<Block>, size: nat, align: Align, a: nat, b: nat)
    requires FirstUsable(slots, blocks, size, align, a) && FirstUsable(slots, blocks, size, align, b)
    ensures a == b
  {
  }

  // ----------------------------------------------------------- recording a slot

  function FirstUnused(slots: seq<Slot>): (i: nat)
    ensures i <= |slots|
    ensures forall j :: 0 <= j < i ==> slots[j].used
    ensures i < |slots| ==> !slots[i].used
  {
    if slots == [] || !slots[0].used then 0 else 1 + FirstUnused(slots[1..])
  }

  function Record(slots: seq<Slot>, s: Slot): seq<Slot>
    requires FirstUnused(slots) < |slots|
  {
    slots[FirstUnused(slots) := s]
  }

  /** Index of the first slot whose use makes the tables grow. */
  function Mark(tables: seq<Table>, total: nat): int
    requires |tables| > 0
  {
    var last := tables[|tables| - 1];
    if last.first > total - GROWTH_MARK then last.first else total - GROWTH_MARK
  }

  /** A slot at or after the mark is met in use before any unused slot. */
  predicate NeedsGrowth(tables: seq<Table>, slots: seq<Slot>)
    requires |tables| > 0
  {
    FirstUnused(slots) > Mark(tables, |slots|)
  }

  datatype Outcome = Granted(addr: nat) | Exhausted | Fault | Halted

  datatype Reply = Reply(tables: seq<Table>, slots: seq<Slot>, outcome: Outcome)

  /** A request made while a table is being created: it never grows the tables itself. */
  ghost function Nested(tables: seq<Table>, slots: seq<Slot>, blocks: seq<Block>, size: nat, align: Align, tag: Tag): Reply {
    var addr := FirstFit(slots, blocks, size, align);
    if |tables| == 0 then Reply(tables, slots, Halted)
    else if addr == 0 then Reply(tables, slots, Exhausted)
    else if FirstUnused(slots) == |slots| then Reply(tables, slots, Halted)
    else Reply(tables, Record(slots, Slot(addr, size, true, tag)), Granted(addr))
  }

  function EmptySlots(): seq<Slot> {
    seq(NEW_TABLE_ENTRIES, _ => EMPTY_SLOT)
  }

  /**
   Growth: a list node and then storage are allocated from the old tables, and
   the empty table is linked at the end. A failed search is dereferenced as NULL.
   */
  ghost function Grow(tables: seq<Table>, slots: seq<Slot>, blocks: seq<Block>): Reply {
    var node := Nested(tables, slots, blocks, TABLE_INDEX_SIZE, AlignNone, NODE_TAG);
    if !node.outcome.Granted? then OrFault(node) else LinkStorage(tables, node.slots, blocks, node.outcome.addr)
  }

  /** The second half of growth, once the list node is there. */
  ghost function LinkStorage(tables: seq<Table>, slots: seq<Slot>, blocks: seq<Block>, node: nat): Reply {
    var storage := Nested(tables, slots, blocks, NEW_TABLE_SIZE, AlignNone, TABLE_TAG);
    if !storage.outcome.Granted? then OrFault(storage) else
    Reply(tables + [Table(storage.outcome.addr, node, |slots|, NEW_TABLE_ENTRIES)], storage.slots + EmptySlots(), storage.outcome)
  }

  function OrFault(r: Reply): Reply {
    if r.outcome.Exhausted? then r.(outcome := Fault) else r
  }

  /** One pass of a request; `again` when a table was created, so that the address found may be taken. */
  datatype Try = Try(reply: Reply, again: bool)

  ghost function Attempt(tables: seq<Table>, slots: seq<Slot>, blocks: seq<Block>, size: nat, align: Align, tag: Tag, growing: bool): Try
  {
    if |tables| == 0 then Try(Reply(tables, slots, Halted), false)
    else if FirstFit(slots, blocks, size, align) == 0 then Try(Reply(tables, slots, Exhausted), false)
    else if growing || !NeedsGrowth(tables, slots) then Try(Nested(tables, slots, blocks, size, align, tag), false)
    else var grown := Grow(tables, slots, blocks); Try(grown, grown.outcome.Granted?)
  }

  /** A top-level request: one pass, or two when the first had to grow. A second restart halts the kernel. */
  ghost function Request(tables: seq<Table>, slots: seq<Slot>, blocks: seq<Block>, size: nat, align: Align, tag: Tag,
                         restarted: bool := false): Reply
    decreases !restarted
  {
    var a := Attempt(tables, slots, blocks, size, align, tag, false);
    if !a.again then a.reply
    else if restarted then a.reply.(outcome := Halted)
    else Request(a.reply.tables, a.reply.slots, blocks, size, align, tag, true)
  }

  // ------------------------------------------------------- invariant of the tables

  /** The tables' slots are numbered consecutively and cover all slots. */
  ghost predicate Contiguous(tables: seq<Table>, total: nat) {
    && |tables| > 0
    && tables[0].first == 0
    && (forall t :: 0 <= t < |tables| ==> tables[t].count > 0)
    && (forall t, u :: 0 <= t < u < |tables| && u == t + 1 ==> tables[t].first + tables[t].count == tables[u].first)
    && tables[|tables| - 1].first + tables[|tables| - 1].count == total
  }

  /** The last nine slots of the final table are unused. */
  ghost predicate Reserve(tables: seq<Table>, slots: seq<Slot>)
    requires Contiguous(tables, |slots|)
  {
    && tables[|tables| - 1].count >= GROWTH_MARK
    && forall i :: |slots| - (GROWTH_MARK - 1) <= i < |slots| ==> !slots[i].used
  }

  function TagOf(t: nat): Tag { if t == 0 then UNTAGGED else TABLE_TAG }

  /** The storage of every table, and the node of every table but the first, is itself an allocation in use. */
  ghost predicate Held(tables: seq<Table>, slots: seq<Slot>) {
    forall t :: 0 <= t < |tables| ==>
      && Holds(slots, tables[t].addr, TABLE_ENTRY_SIZE * tables[t].count, TagOf(t))
      && (t > 0 ==> Holds(slots, tables[t].node, TABLE_INDEX_SIZE, NODE_TAG))
  }

  ghost predicate WellFormed(tables: seq<Table>, slots: seq<Slot>) {
    Contiguous(tables, |slots|) && Reserve(tables, slots) && Disjoint(slots) && Held(tables, slots)
  }

  /** Slots never move, and nothing in use changed from `before` to `after`. */
  ghost predicate Extends(before: seq<Slot>, after: seq<Slot>) {
    |before| <= |after| && forall i :: 0 <= i < |before| && before[i].used ==> after[i] == before[i]
  }

  /** Every allocation in use in `after` was in use in `before` or is one of `added`. */
  ghost predicate OnlyAdds(before: seq<Slot>, after: seq<Slot>, added: set<Slot>) {
    forall i :: 0 <= i < |after| && after[i].used ==> (i < |before| && before[i].used) || after[i] in added
  }

  lemma ExtendsHolds(before: seq<Slot>, after: seq<Slot>, addr: nat, size: nat, tag: Tag)
    requires Extends(before, after) && Holds(before, addr, size, tag)
    ensures Holds(after, addr, size, tag)
  {
    var i :| 0 <= i < |before| && before[i] == Slot(addr, size, true, tag);
    assert after[i] == before[i];
  }

  lemma RecordFacts(slots: seq<Slot>, s: Slot)
    requires FirstUnused(slots) < |slots|
    requires s.used && IsFree(slots, s.addr, s.size)
    ensures Extends(slots, Record(slots, s)) && OnlyAdds(slots, Record(slots, s), {s})
    ensures Holds(Record(slots, s), s.addr, s.size, s.tag)
    ensures Disjoint(slots) ==> Disjoint(Record(slots, s))
  {
    assert Record(slots, s)[FirstUnused(slots)] == s;
  }

  /** Recording uses up at most the first of the unused slots at the end. */
  lemma RecordKeepsTail(slots: seq<Slot>, s: Slot, m: nat)
    requires m < |slots| && forall i :: m <= i < |slots| ==> !slots[i].used
    ensures FirstUnused(slots) <= m
    ensures forall i :: m < i < |slots| ==> !Record(slots, s)[i].used
  {
    assert !slots[m].used;
  }

  /** FirstFit answers with a free address, aligned as asked. */
  lemma FirstFitFree(slots: seq<Slot>, blocks: seq<Block>, size: nat, align: Align)
    ensures var r := FirstFit(slots, blocks, size, align);
      r != 0 ==> IsFree(slots, r, size) && (align == Align4KB ==> r % 4096 == 0)
  {
  }

  ghost function Bookkeeping(t: Table): set<Slot> {
    {Slot(t.node, TABLE_INDEX_SIZE, true, NODE_TAG), Slot(t.addr, NEW_TABLE_SIZE, true, TABLE_TAG)}
  }

  /** A nested request adds exactly one slot, apart from everything in use. */
  lemma NestedFacts(tables: seq<Table>, slots: seq<Slot>, blocks: seq<Block>, size: nat, align: Align, tag: Tag)
    requires Nested(tables, slots, blocks, size, align, tag).outcome.Granted?
    ensures var r := Nested(tables, slots, blocks, size, align, tag);
      var s := Slot(r.outcome.addr, size, true, tag);
      && r.slots == Record(slots, s)
      && IsFree(slots, s.addr, size) && (align == Align4KB ==> s.addr % 4096 == 0)
      && Extends(slots, r.slots) && OnlyAdds(slots, r.slots, {s}) && Holds(r.slots, s.addr, size, tag)
      && (Disjoint(slots) ==> Disjoint(r.slots))
  {
    var s := Slot(Nested(tables, slots, blocks, size, align, tag).outcome.addr, size, true, tag);
    FirstFitFree(slots, blocks, size, align);
    RecordFacts(slots, s);
  }

  /** With the reserve, growing never meets full tables, and leaves room below the new mark. */
  lemma GrowHasRoom(tables: seq<Table>, slots: seq<Slot>, blocks: seq<Block>)
    requires Contiguous(tables, |slots|) && Reserve(tables, slots)
    ensures var g := Grow(tables, slots, blocks);
      && !g.outcome.Halted? && !g.outcome.Exhausted?
      && (g.outcome.Granted? ==>
        Contiguous(g.tables, |g.slots|) && Reserve(g.tables, g.slots) && !NeedsGrowth(g.tables, g.slots))
  {
    var n := |slots|;
    RecordKeepsTail(slots, EMPTY_SLOT, n - 9);
    var node := Nested(tables, slots, blocks, TABLE_INDEX_SIZE, AlignNone, NODE_TAG);
    if node.outcome.Granted? {
      RecordKeepsTail(slots, Slot(node.outcome.addr, TABLE_INDEX_SIZE, true, NODE_TAG), n - 9);
      RecordKeepsTail(node.slots, EMPTY_SLOT, n - 8);
      var storage := Nested(tables, node.slots, blocks, NEW_TABLE_SIZE, AlignNone, TABLE_TAG);
      if storage.outcome.Granted? {
        RecordKeepsTail(node.slots, Slot(storage.outcome.addr, NEW_TABLE_SIZE, true, TABLE_TAG), n - 8);
        assert !Grow(tables, slots, blocks).slots[n - 1].used;
      }
    }
  }

  /** Growth keeps everything in use, and adds the two allocations that hold the new table. */
  lemma GrowKeeps(tables: seq<Table>, slots: seq<Slot>, blocks: seq<Block>)
    requires Disjoint(slots) && Grow(tables, slots, blocks).outcome.Granted?
    ensures var g := Grow(tables, slots, blocks);
      && |g.tables| == |tables| + 1 && g.tables[..|tables|] == tables
      && Disjoint(g.slots) && Extends(slots, g.slots)
      && OnlyAdds(slots, g.slots, Bookkeeping(g.tables[|tables|]))
      && IsFree(slots, g.tables[|tables|].addr, NEW_TABLE_SIZE)
      && IsFree(slots, g.tables[|tables|].node, TABLE_INDEX_SIZE)
  {
    NestedFacts(tables, slots, blocks, TABLE_INDEX_SIZE, AlignNone, NODE_TAG);
    var node := Nested(tables, slots, blocks, TABLE_INDEX_SIZE, AlignNone, NODE_TAG);
    NestedFacts(tables, node.slots, blocks, NEW_TABLE_SIZE, AlignNone, TABLE_TAG);
    var storage := Nested(tables, node.slots, blocks, NEW_TABLE_SIZE, AlignNone, TABLE_TAG);
    FreeBefore(slots, node.slots, storage.outcome.addr, NEW_TABLE_SIZE);
    GrowDisjoint(storage.slots);
  }

  lemma FreeBefore(before: seq<Slot>, after: seq<Slot>, addr: nat, size: nat)
    requires Extends(before, after) && IsFree(after, addr, size)
    ensures IsFree(before, addr, size)
  {
    forall i | 0 <= i < |before| ensures !Clash(before[i], addr, size) {
      assert !Clash(after[i], addr, size);
    }
  }

  lemma GrowDisjoint(slots: seq<Slot>)
    requires Disjoint(slots)
    ensures Disjoint(slots + EmptySlots())
  {
  }

  lemma GrowHeld(tables: seq<Table>, slots: seq<Slot>, blocks: seq<Block>)
    requires Held(tables, slots) && Disjoint(slots) && Grow(tables, slots, blocks).outcome.Granted?
    ensures var g := Grow(tables, slots, blocks); Held(g.tables, g.slots)
  {
    GrowKeeps(tables, slots, blocks);
    NestedFacts(tables, slots, blocks, TABLE_INDEX_SIZE, AlignNone, NODE_TAG);
    var node := Nested(tables, slots, blocks, TABLE_INDEX_SIZE, AlignNone, NODE_TAG);
    NestedFacts(tables, node.slots, blocks, NEW_TABLE_SIZE, AlignNone, TABLE_TAG);
    var storage := Nested(tables, node.slots, blocks, NEW_TABLE_SIZE, AlignNone, TABLE_TAG);
    var g := Grow(tables, slots, blocks);
    assert Extends(storage.slots, g.slots);
    ExtendsHolds(storage.slots, g.slots, storage.outcome.addr, NEW_TABLE_SIZE, TABLE_TAG);
    HeldLater(tables, slots, node.slots, g.tables[|tables|], g.slots);
  }

  lemma HeldLater(tables: seq<Table>, slots: seq<Slot>, middle: seq<Slot>, t: Table, after: seq<Slot>)
    requires Held(tables, slots) && Extends(slots, after) && Extends(middle, after)
    requires |tables| > 0 && t.count == NEW_TABLE_ENTRIES
    requires Holds(middle, t.node, TABLE_INDEX_SIZE, NODE_TAG) && Holds(after, t.addr, NEW_TABLE_SIZE, TABLE_TAG)
    ensures Held(tables + [t], after)
  {
    ExtendsHolds(middle, after, t.node, TABLE_INDEX_SIZE, NODE_TAG);
    HeldExtends(tables, slots, after);
  }

  /** The address of a table's storage or list node. */
  predicate IsBookkeeping(tables: seq<Table>, addr: nat) {
    exists t :: 0 <= t < |tables| && (addr == tables[t].addr || (t > 0 && addr == tables[t].node))
  }

  lemma FreeIsNotBookkeeping(tables: seq<Table>, slots: seq<Slot>, addr: nat, size: nat)
    requires Contiguous(tables, |slots|) && Held(tables, slots) && IsFree(slots, addr, size)
    ensures !IsBookkeeping(tables, addr)
  {
    if t :| 0 <= t < |tables| && (addr == tables[t].addr || (t > 0 && addr == tables[t].node)) {
      if addr == tables[t].addr {
        HeldNotFree(slots, addr, TABLE_ENTRY_SIZE * tables[t].count, TagOf(t), size);
      } else {
        HeldNotFree(slots, addr, TABLE_INDEX_SIZE, NODE_TAG, size);
      }
    }
  }

  lemma HeldNotFree(slots: seq<Slot>, addr: nat, held: nat, tag: Tag, size: nat)
    requires Holds(slots, addr, held, tag) && held > 0
    ensures !IsFree(slots, addr, size)
  {
    var i :| 0 <= i < |slots| && slots[i] == Slot(addr, held, true, tag);
    assert Clash(slots[i], addr, size);
  }

  /** An allocation in use keeps being no table's storage or node when tables are added. */
  lemma KeepsNotBookkeeping(tables: seq<Table>, slots: seq<Slot>, after: seq<Table>, k: nat, size: nat)
    requires k < |slots| && slots[k].used && slots[k].size > 0
    requires !IsBookkeeping(tables, slots[k].addr) && GrewAtMostOnce(tables, slots, after)
    ensures !IsBookkeeping(after, slots[k].addr)
  {
    if |after| > |tables| {
      assert !Clash(slots[k], after[|tables|].addr, NEW_TABLE_SIZE);
      assert !Clash(slots[k], after[|tables|].node, TABLE_INDEX_SIZE);
    }
    forall t | 0 <= t < |after| ensures slots[k].addr != after[t].addr && !(t > 0 && slots[k].addr == after[t].node) {
      if t < |tables| { assert after[t] == tables[t]; }
    }
  }

  /** What a request adds besides the slot asked for. */
  ghost function Extra(before: seq<Table>, after: seq<Table>): set<Slot> {
    if |after| > |before| then Bookkeeping(after[|after| - 1]) else {}
  }

  /** `after` is `before`, possibly with one new table whose ranges were free. */
  ghost predicate GrewAtMostOnce(before: seq<Table>, slots: seq<Slot>, after: seq<Table>) {
    && |before| <= |after| <= |before| + 1 && after[..|before|] == before
    && (|after| > |before| ==>
      && IsFree(slots, after[|before|].addr, NEW_TABLE_SIZE)
      && IsFree(slots, after[|before|].node, TABLE_INDEX_SIZE))
  }

  /**
   The reply keeps everything in use where it was, adds the range granted and
   at most one table, and every range added was free before.
   */
  ghost predicate Answers(tables: seq<Table>, slots: seq<Slot>, size: nat, align: Align, tag: Tag, r: Reply) {
    && WellFormed(r.tables, r.slots)
    && Extends(slots, r.slots)
    && GrewAtMostOnce(tables, slots, r.tables)
    && (r.outcome.Exhausted? ==> OnlyAdds(slots, r.slots, Extra(tables, r.tables)))
    && (r.outcome.Granted? ==>
      && IsFree(slots, r.outcome.addr, size)
      && (align == Align4KB ==> r.outcome.addr % 4096 == 0)
      && Holds(r.slots, r.outcome.addr, size, tag)
      && OnlyAdds(slots, r.slots, {Slot(r.outcome.addr, size, true, tag)} + Extra(tables, r.tables)))
  }

  /** A request that needs no growth. */
  lemma PlainRequest(tables: seq<Table>, slots: seq<Slot>, blocks: seq<Block>, size: nat, align: Align, tag: Tag)
    requires WellFormed(tables, slots) && !NeedsGrowth(tables, slots)
    ensures var r := Nested(tables, slots, blocks, size, align, tag);
      && (forall restarted :: Request(tables, slots, blocks, size, align, tag, restarted) == r)
      && (r.outcome.Exhausted? || r.outcome.Granted?)
      && r.tables == tables && Answers(tables, slots, size, align, tag, r)
  {
    var r := Nested(tables, slots, blocks, size, align, tag);
    if r.outcome.Granted? {
      NestedFacts(tables, slots, blocks, size, align, tag);
      HeldExtends(tables, slots, r.slots);
    }
  }

  lemma AnswersAfterGrowth(tables: seq<Table>, slots: seq<Slot>, blocks: seq<Block>, size: nat, align: Align, tag: Tag, r: Reply)
    requires WellFormed(tables, slots) && Grow(tables, slots, blocks).outcome.Granted?
    requires var g := Grow(tables, slots, blocks); Answers(g.tables, g.slots, size, align, tag, r) && r.tables == g.tables
    ensures Answers(tables, slots, size, align, tag, r)
  {
    GrowKeeps(tables, slots, blocks);
    var g := Grow(tables, slots, blocks);
    if r.outcome.Granted? { FreeBefore(slots, g.slots, r.outcome.addr, size); }
  }

  /**
   Requests keep the tables well formed, never halt, and restart at most once;
   the range granted was free, and so were the ranges of a new table.
   */
  lemma RequestKeepsWellFormed(tables: seq<Table>, slots: seq<Slot>, blocks: seq<Block>, size: nat, align: Align, tag: Tag)
    requires WellFormed(tables, slots)
    ensures var r := Request(tables, slots, blocks, size, align, tag);
      !r.outcome.Halted? && (!r.outcome.Fault? ==> Answers(tables, slots, size, align, tag, r))
  {
    if !NeedsGrowth(tables, slots) {
      PlainRequest(tables, slots, blocks, size, align, tag);
    } else if FirstFit(slots, blocks, size, align) != 0 {
      GrowHasRoom(tables, slots, blocks);
      var g := Grow(tables, slots, blocks);
      if g.outcome.Granted? {
        GrownWellFormed(tables, slots, blocks);
        PlainRequest(g.tables, g.slots, blocks, size, align, tag);
        AnswersAfterGrowth(tables, slots, blocks, size, align, tag, Nested(g.tables, g.slots, blocks, size, align, tag));
      }
    }
  }

  /** Only the nine slots at the end are left. */
  ghost predicate Crowded(slots: seq<Slot>) {
    forall i :: 0 <= i <= |slots| - GROWTH_MARK ==> slots[i].used
  }

  /** The same allocations are in use, slot by slot. */
  ghost predicate SameUse(a: seq<Slot>, b: seq<Slot>) {
    |a| == |b| && forall i :: 0 <= i < |a| ==> a[i] == b[i] || (!a[i].used && !b[i].used)
  }

  lemma SameUseSameSpace(a: seq<Slot>, b: seq<Slot>, blocks: seq<Block>, size: nat, align: Align, addr: nat)
    requires SameUse(a, b)
    ensures FirstUsable(a, blocks, size, align, addr) <==> FirstUsable(b, blocks, size, align, addr)
  {
    forall x: nat ensures IsFree(a, x, size) <==> IsFree(b, x, size) {}
    forall c, x: nat ensures Candidate(a, c, size, align, x) <==> Candidate(b, c, size, align, x) {}
  }

  /** The first unused slot now records the first usable address of everything else in use. */
  ghost predicate TookFirst(slots: seq<Slot>, blocks: seq<Block>, size: nat, align: Align, tag: Tag, addr: nat) {
    exists n :: 0 <= n < |slots| && slots[n] == Slot(addr, size, true, tag) && addr != 0
      && (forall j :: 0 <= j < n ==> slots[j].used)
      && FirstUsable(slots[n := EMPTY_SLOT], blocks, size, align, addr)
  }

  /**
   The answer is borne out by the slots it leaves: a refused request finds no
   space there, a granted one took the first usable address, and a fault means
   that another table was needed and there is no space for its node or storage.
   */
  ghost predicate Justified(slots: seq<Slot>, blocks: seq<Block>, size: nat, align: Align, tag: Tag, outcome: Outcome) {
    && (outcome.Exhausted? ==> NoSpace(slots, blocks, size, align))
    && (outcome.Granted? ==> TookFirst(slots, blocks, size, align, tag, outcome.addr))
    && (outcome.Fault? ==>
      && Crowded(slots)
      && (NoSpace(slots, blocks, TABLE_INDEX_SIZE, AlignNone) || NoSpace(slots, blocks, NEW_TABLE_SIZE, AlignNone)))
  }

  lemma NestedJustified(tables: seq<Table>, slots: seq<Slot>, blocks: seq<Block>, size: nat, align: Align, tag: Tag)
    ensures var r := Nested(tables, slots, blocks, size, align, tag); Justified(r.slots, blocks, size, align, tag, r.outcome)
  {
    var r := Nested(tables, slots, blocks, size, align, tag);
    FirstFitFinds(slots, blocks, size, align, 0);
    if r.outcome.Granted? {
      var n := FirstUnused(slots);
      SameUseSameSpace(slots, r.slots[n := EMPTY_SLOT], blocks, size, align, r.outcome.addr);
      assert r.slots[n] == Slot(r.outcome.addr, size, true, tag);
    }
  }

  /** Growth fails only for want of space for the node, or then for the storage. */
  lemma GrowFails(tables: seq<Table>, slots: seq<Slot>, blocks: seq<Block>)
    requires WellFormed(tables, slots) && Crowded(slots) && Grow(tables, slots, blocks).outcome.Fault?
    ensures var g := Grow(tables, slots, blocks);
      Crowded(g.slots) && (NoSpace(g.slots, blocks, TABLE_INDEX_SIZE, AlignNone) || NoSpace(g.slots, blocks, NEW_TABLE_SIZE, AlignNone))
  {
    NestedJustified(tables, slots, blocks, TABLE_INDEX_SIZE, AlignNone, NODE_TAG);
    var node := Nested(tables, slots, blocks, TABLE_INDEX_SIZE, AlignNone, NODE_TAG);
    NestedJustified(tables, node.slots, blocks, NEW_TABLE_SIZE, AlignNone, TABLE_TAG);
  }

  /**
   Requests are answered from what is free: after growth the search is made
   again, and the tables grow exactly when only nine slots are left and the
   search finds something.
   */
  lemma RequestJustified(tables: seq<Table>, slots: seq<Slot>, blocks: seq<Block>, size: nat, align: Align, tag: Tag)
    requires WellFormed(tables, slots)
    ensures var r := Request(tables, slots, blocks, size, align, tag);
      && Justified(r.slots, blocks, size, align, tag, r.outcome)
      && (r.outcome.Fault? ==> Crowded(slots) && !NoSpace(slots, blocks, size, align))
      && (|r.tables| > |tables| <==> Crowded(slots) && !NoSpace(slots, blocks, size, align) && !r.outcome.Fault?)
  {
    assert !slots[|slots| - 9].used;
    FirstFitFinds(slots, blocks, size, align, 0);
    if !NeedsGrowth(tables, slots) {
      PlainRequest(tables, slots, blocks, size, align, tag);
      NestedJustified(tables, slots, blocks, size, align, tag);
    } else if FirstFit(slots, blocks, size, align) != 0 {
      GrownJustified(tables, slots, blocks, size, align, tag);
    }
  }

  /** A request that finds only the reserve left. */
  lemma GrownJustified(tables: seq<Table>, slots: seq<Slot>, blocks: seq<Block>, size: nat, align: Align, tag: Tag)
    requires WellFormed(tables, slots) && Crowded(slots) && NeedsGrowth(tables, slots) && FirstFit(slots, blocks, size, align) != 0
    ensures var r := Request(tables, slots, blocks, size, align, tag);
      Justified(r.slots, blocks, size, align, tag, r.outcome) && (|r.tables| > |tables| <==> !r.outcome.Fault?)
  {
    GrowHasRoom(tables, slots, blocks);
    var g := Grow(tables, slots, blocks);
    if g.outcome.Granted? {
      GrowKeeps(tables, slots, blocks);
      GrownWellFormed(tables, slots, blocks);
      PlainRequest(g.tables, g.slots, blocks, size, align, tag);
      NestedJustified(g.tables, g.slots, blocks, size, align, tag);
    } else {
      GrowFails(tables, slots, blocks);
    }
  }

  lemma GrownWellFormed(tables: seq<Table>, slots: seq<Slot>, blocks: seq<Block>)
    requires WellFormed(tables, slots) && Grow(tables, slots, blocks).outcome.Granted?
    ensures var g := Grow(tables, slots, blocks); WellFormed(g.tables, g.slots) && !NeedsGrowth(g.tables, g.slots)
  {
    GrowHasRoom(tables, slots, blocks);
    GrowKeeps(tables, slots, blocks);
    GrowHeld(tables, slots, blocks);
  }

  lemma HeldExtends(tables: seq<Table>, before: seq<Slot>, after: seq<Slot>)
    requires Held(tables, before) && Extends(before, after)
    ensures Held(tables, after)
  {
    forall k | 0 <= k < |tables|
      ensures Holds(after, tables[k].addr, TABLE_ENTRY_SIZE * tables[k].count, TagOf(k))
      ensures k > 0 ==> Holds(after, tables[k].node, TABLE_INDEX_SIZE, NODE_TAG)
    {
      ExtendsHolds(before, after, tables[k].addr, TABLE_ENTRY_SIZE * tables[k].count, TagOf(k));
      if k > 0 { ExtendsHolds(before, after, tables[k].node, TABLE_INDEX_SIZE, NODE_TAG); }
    }
  }

  // ------------------------------------------------------------ release and resize

  /** The first slot in use that starts at `addr`; the number of slots when there is none. */
  function FindSlot(slots: seq<Slot>, addr: nat): (k: nat)
    ensures k <= |slots|
    ensures forall i :: 0 <= i < k ==> !(slots[i].used && slots[i].addr == addr)
    ensures k < |slots| ==> slots[k].used && slots[k].addr == addr
  {
    if slots == [] || (slots[0].used && slots[0].addr == addr) then 0 else 1 + FindSlot(slots[1..], addr)
  }

  function Release(slots: seq<Slot>, k: nat): seq<Slot>
    requires k < |slots|
  {
    slots[k := slots[k].(used := false, tag := UNTAGGED)]
  }

  /** Releasing anything but a table's own storage keeps the tables well formed. */
  lemma ReleaseKeepsWellFormed(tables: seq<Table>, slots: seq<Slot>, k: nat)
    requires WellFormed(tables, slots) && k < |slots| && !IsBookkeeping(tables, slots[k].addr)
    ensures WellFormed(tables, Release(slots, k))
  {
    var after := Release(slots, k);
    forall t | 0 <= t < |tables|
      ensures Holds(after, tables[t].addr, TABLE_ENTRY_SIZE * tables[t].count, TagOf(t))
      ensures t > 0 ==> Holds(after, tables[t].node, TABLE_INDEX_SIZE, NODE_TAG)
    {
      var i :| 0 <= i < |slots| && slots[i] == Slot(tables[t].addr, TABLE_ENTRY_SIZE * tables[t].count, true, TagOf(t));
      assert after[i] == slots[i];
      if t > 0 {
        var j :| 0 <= j < |slots| && slots[j] == Slot(tables[t].node, TABLE_INDEX_SIZE, true, NODE_TAG);
        assert after[j] == slots[j];
      }
    }
  }

  /** Two allocations in use that both hold a byte start at different addresses. */
  lemma StartsDistinct(slots: seq<Slot>, i: nat, j: nat)
    requires Disjoint(slots) && i < |slots| && j < |slots| && i != j
    requires slots[i].used && slots[j].used && slots[i].size > 0 && slots[j].size > 0
    ensures slots[i].addr != slots[j].addr
  {
    if i < j { assert Apart(slots[i], slots[j]); } else { assert Apart(slots[j], slots[i]); }
  }

  /**
   After a request is granted, the same request would be granted the same
   address again exactly when it asked for no bytes.
   */
  lemma AddressStaysFreeIffEmpty(slots: seq<Slot>, addr: nat, size: nat, tag: Tag)
    requires IsFree(slots, addr, size) && FirstUnused(slots) < |slots|
    ensures IsFree(Record(slots, Slot(addr, size, true, tag)), addr, size) <==> size == 0
  {
    var s := Slot(addr, size, true, tag);
    assert Record(slots, s)[FirstUnused(slots)] == s;
    assert Clash(s, addr, size) <==> size > 0;
  }

  // -------------------------------------------------------------- rounding down

  predicate IsMultiple(m: nat, align: nat)
    requires align > 0
  {
    m % align == 0
  }

  lemma {:induction false} Times(align: nat, p: int, q: int)
    requires p < q
    ensures align * p + align <= align * q
    decreases q - p
  {
    assert align * q == align * (q - 1) + align;
    if p + 1 < q { Times(align, p, q - 1); }
  }

  lemma TimesIsMultiple(align: nat, q: nat)
    requires align > 0
    ensures align * q >= 0 && IsMultiple(align * q, align)
  {
    var p := align * q / align;
    if p < q { Times(align, p, q); }
    if p > q { Times(align, q, p); }
  }

  /** Rounding down leads to the greatest multiple that is not above the address. */
  lemma LastMultiple(addr: nat, align: nat, m: nat)
    requires align > 0
    ensures IsMultiple(addr - addr % align, align)
    ensures m <= addr && IsMultiple(m, align) ==> m <= addr - addr % align
  {
    var p, q := m / align, addr / align;
    TimesIsMultiple(align, q);
    if p > q { Times(align, q, p); } else if p < q { Times(align, p, q); }
  }

  // ------------------------------------------------------------------ the allocator

  class Allocator {
    const blocks: seq<Block>
    var tables: seq<Table>
    var slots: seq<Slot>
    var growing: bool
    /** The bytes of memory outside the tables' entries and list nodes. */
    var bytes: map<nat, byte>

    ghost predicate Valid()
      reads this
    {
      WellFormed(tables, slots) && !growing
    }

    /** Boot: the first table, its own entry, and the ranges already taken. */
    constructor (blocks: seq<Block>, table: nat, taken: seq<Slot>, bytes: map<nat, byte>)
      requires |taken| <= INITIAL_ENTRIES - GROWTH_MARK
      requires forall i :: 0 <= i < |taken| ==> taken[i].used && Apart(Slot(table, TABLE_ENTRY_SIZE * INITIAL_ENTRIES, true, UNTAGGED), taken[i])
      requires Disjoint(taken)
      ensures Valid() && this.blocks == blocks
      ensures slots == [Slot(table, TABLE_ENTRY_SIZE * INITIAL_ENTRIES, true, UNTAGGED)] + taken + seq(INITIAL_ENTRIES - 1 - |taken|, _ => EMPTY_SLOT)
    {
      this.blocks := blocks;
      this.tables := [Table(table, 0, 0, INITIAL_ENTRIES)];
      this.slots := [Slot(table, TABLE_ENTRY_SIZE * INITIAL_ENTRIES, true, UNTAGGED)] + taken + seq(INITIAL_ENTRIES - 1 - |taken|, _ => EMPTY_SLOT);
      this.growing := false;
      this.bytes := bytes;
      new;
      assert slots[0] == Slot(table, TABLE_ENTRY_SIZE * INITIAL_ENTRIES, true, UNTAGGED);
    }

    /** MemoryIsFree: the end of the first clashing allocation when the range is not free. */
    method CheckFree(addr: nat, size: nat) returns (free: bool, end: nat)
      requires Contiguous(tables, |slots|)
      ensures free == IsFree(slots, addr, size)
      ensures !free ==> exists k :: 0 <= k < |slots| && Clash(slots[k], addr, size) && FreeBelow(slots, k, addr, size)
                          && end == slots[k].addr + slots[k].size
    {
      var t := 0;
      while t < |tables|
        invariant 0 <= t <= |tables|
        invariant FreeBelow(slots, StartOf(tables, |slots|, t), addr, size)
      {
        var i := tables[t].first;
        TableInRange(tables, |slots|, t);
        while i < tables[t].first + tables[t].count
          invariant tables[t].first <= i <= tables[t].first + tables[t].count <= |slots|
          invariant FreeBelow(slots, i, addr, size)
        {
          var s := slots[i];
          i := i + 1;
          if !s.used {
            continue;
          }
          if addr + size < s.addr {
            continue;
          }
          if addr >= s.addr + s.size {
            continue;
          }
          assert Clash(slots[i - 1], addr, size);
          return false, s.addr + s.size;
        }
        t := t + 1;
      }
      return true, 0;
    }

    /** MemoryAlign: round down, refused when that falls below `min`. */
    static method AlignDown(addr: nat, min: nat, align: nat) returns (ok: bool, r: nat)
      requires align > 0
      ensures ok <==> exists m :: min <= m <= addr && IsMultiple(m, align)
      ensures ok ==> IsMultiple(r, align) && min <= r <= addr < r + align
    {
      r := addr - addr % align;
      ok := r >= min;
      forall m | min <= m <= addr && IsMultiple(m, align) ensures m <= r { LastMultiple(addr, align, m); }
      LastMultiple(addr, align, 0);
    }

    /** MemoryFindSpace: the least usable address of the first block that has one, else 0. */
    method FindSpace(size: nat, align: Align) returns (r: nat)
      requires Contiguous(tables, |slots|)
      ensures r == FirstFit(slots, blocks, size, align)
    {
      var k := 0;
      while k < |blocks|
        invariant 0 <= k <= |blocks|
        invariant forall j: nat, a: nat :: j < k ==> !Candidate(slots, blocks[j], size, align, a)
      {
        var b := blocks[k];
        k := k + 1;
        if !b.available {
          continue;
        }
        var addr, maxAddr := b.start, b.start + b.length;
        if align == Align4KB {
          var ok, down := AlignDown(addr, b.start, 4096);
          assert ok <==> IsMultiple(b.start, 4096);
          if !ok {
            continue;
          }
          addr := down;
        }
        while true
          invariant b.start <= addr && (addr == b.start || addr < maxAddr)
          invariant align == Align4KB ==> addr % 4096 == 0 && b.start % 4096 == 0
          invariant forall a: nat :: a < addr ==> !Candidate(slots, b, size, align, a)
          decreases Limit(b) - addr
        {
          var free, end := CheckFree(addr, size);
          if free {
            FirstFitIs(slots, blocks, size, align, 0, k - 1, addr);
            return addr;
          }
          ghost var i :| 0 <= i < |slots| && Clash(slots[i], addr, size) && end == slots[i].addr + slots[i].size;
          ghost var tried := addr;
          if align == Align4KB {
            addr := addr + 4096;
            NothingBetweenPages(slots, b, size, tried, i);
          } else {
            addr := end;
            SkipsNothing(slots, b, size, align, tried, i);
          }
          if addr >= maxAddr {
            break;
          }
        }
      }
      FirstFitNone(slots, blocks, size, align, 0);
      return 0;
    }

    /**
     MemoryAllocated: record a range in the first unused slot. Meeting one of
     the last slots of the final table in use first creates another table
     instead, and asks for the search to be restarted.
     */
    method Allocated(addr: nat, size: nat, tag: Tag) returns (step: Step)
      requires Contiguous(tables, |slots|)
      modifies this
      ensures growing == old(growing)
      ensures growing || !NeedsGrowth(old(tables), old(slots)) ==>
        && tables == old(tables) && bytes == old(bytes)
        && step == (if FirstUnused(old(slots)) < |old(slots)| then Recorded else Stopped)
        && slots == (if step == Recorded then Record(old(slots), Slot(addr, size, true, tag)) else old(slots))
      ensures !growing && NeedsGrowth(old(tables), old(slots)) ==>
        var g := Grow(old(tables), old(slots), blocks);
        && tables == g.tables && slots == g.slots
        && step == (if g.outcome.Granted? then Restart else if g.outcome.Fault? then NullDereference else Stopped)
      ensures Contiguous(tables, |slots|)
      ensures old(tables) <= tables && OnlyWritesNewTable(old(tables), tables, old(bytes), bytes)
      decreases if growing then 0 else 1, 1
    {
      var t := 0;
      while t < |tables|
        invariant 0 <= t <= |tables|
        invariant tables == old(tables) && slots == old(slots) && growing == old(growing) && bytes == old(bytes)
        invariant forall j :: 0 <= j < StartOf(tables, |slots|, t) && j < |slots| ==> slots[j].used
        invariant growing || StartOf(tables, |slots|, t) <= Mark(tables, |slots|)
      {
        var i := tables[t].first;
        TableInRange(tables, |slots|, t);
        while i < tables[t].first + tables[t].count
          invariant tables == old(tables) && slots == old(slots) && growing == old(growing) && bytes == old(bytes)
          invariant tables[t].first <= i <= tables[t].first + tables[t].count <= |slots|
          invariant forall j :: 0 <= j < i ==> slots[j].used
          invariant growing || i <= Mark(tables, |slots|)
        {
          if !slots[i].used {
            assert FirstUnused(slots) == i;
            slots := slots[i := Slot(addr, size, true, tag)];
            return Recorded;
          }
          if t == |tables| - 1 && i >= |slots| - GROWTH_MARK && !growing {
            assert NeedsGrowth(tables, slots);
            growing := true;
            var outcome := CreateTable();
            growing := false;
            return if outcome.Granted? then Restart else if outcome.Fault? then NullDereference else Stopped;
          }
          if !growing { MarkInLastTable(tables, |slots|, t, i); }
          i := i + 1;
        }
        t := t + 1;
      }
      assert FirstUnused(slots) == |slots|;
      return Stopped;
    }

    /** MemoryNewTable: allocate a list node and storage, clear it, link it at the tail. */
    method CreateTable() returns (outcome: Outcome)
      requires growing && Contiguous(tables, |slots|)
      modifies this
      ensures growing
      ensures Grow(old(tables), old(slots), blocks) == Reply(tables, slots, outcome)
      ensures Contiguous(tables, |slots|)
      ensures old(tables) <= tables && OnlyWritesNewTable(old(tables), tables, old(bytes), bytes)
      decreases 0, 5
    {
      outcome := MallocAlign(TABLE_INDEX_SIZE, AlignNone, NODE_TAG);
      if !outcome.Granted? {
        return if outcome.Exhausted? then Fault else outcome;
      }
      outcome := CreateStorage(outcome.addr);
    }

    /** The second half of MemoryNewTable. */
    method CreateStorage(node: nat) returns (outcome: Outcome)
      requires growing && Contiguous(tables, |slots|)
      modifies this
      ensures growing
      ensures LinkStorage(old(tables), old(slots), blocks, node) == Reply(tables, slots, outcome)
      ensures Contiguous(tables, |slots|)
      ensures old(tables) <= tables && OnlyWritesNewTable(old(tables), tables, old(bytes), bytes)
      decreases 0, 4
    {
      outcome := MallocAlign(NEW_TABLE_SIZE, AlignNone, TABLE_TAG);
      if !outcome.Granted? {
        return if outcome.Exhausted? then Fault else outcome;
      }
      var addr := outcome.addr;
      MemSet(addr, 0, NEW_TABLE_SIZE);
      tables := tables + [Table(addr, node, |slots|, NEW_TABLE_ENTRIES)];
      slots := slots + EmptySlots();
      assert forall a: nat :: !(addr <= a < addr + NEW_TABLE_SIZE) ==> ByteAt(bytes, a) == ByteAt(old(bytes), a);
    }

    /** One pass of __malloc_align; `again` when a table was created and the search must restart. */
    method Search(size: nat, align: Align, tag: Tag) returns (outcome: Outcome, again: bool)
      requires Contiguous(tables, |slots|)
      modifies this
      ensures growing == old(growing) && Contiguous(tables, |slots|)
      ensures Try(Reply(tables, slots, outcome), again) == Attempt(old(tables), old(slots), blocks, size, align, tag, growing)
      ensures old(tables) <= tables && OnlyWritesNewTable(old(tables), tables, old(bytes), bytes)
      decreases if growing then 0 else 1, 2
    {
      var addr := FindSpace(size, align);
      outcome, again := Exhausted, false;
      if addr != 0 {
        var step := Allocated(addr, size, tag);
        match step {
          case Recorded => outcome := Granted(addr);
          case NullDereference => outcome := Fault;
          case Stopped => outcome := Halted;
          case Restart => outcome, again := Granted(tables[|tables| - 1].addr), true;
        }
      }
    }

    /** __malloc_align: search, record, and restart once when a table was created in between. */
    method MallocAlign(size: nat, align: Align, tag: Tag) returns (outcome: Outcome)
      requires Contiguous(tables, |slots|)
      modifies this
      ensures growing == old(growing) && Contiguous(tables, |slots|)
      ensures growing ==> Nested(old(tables), old(slots), blocks, size, align, tag) == Reply(tables, slots, outcome)
      ensures !growing ==> Request(old(tables), old(slots), blocks, size, align, tag) == Reply(tables, slots, outcome)
      ensures growing || WellFormed(old(tables), old(slots)) ==> Justified(slots, blocks, size, align, tag, outcome)
      ensures old(tables) <= tables && OnlyWritesNewTable(old(tables), tables, old(bytes), bytes)
      decreases if growing then 0 else 1, 3
    {
      if growing {
        NestedJustified(tables, slots, blocks, size, align, tag);
      } else if WellFormed(tables, slots) {
        RequestJustified(tables, slots, blocks, size, align, tag);
      }
      var restarted := false;
      while true
        invariant growing == old(growing) && Contiguous(tables, |slots|)
        invariant restarted ==> !growing
        invariant restarted ==> Request(old(tables), old(slots), blocks, size, align, tag) == Request(tables, slots, blocks, size, align, tag, true)
        invariant !restarted ==> tables == old(tables) && slots == old(slots)
        invariant old(tables) <= tables && OnlyWritesNewTable(old(tables), tables, old(bytes), bytes)
        decreases !restarted
      {
        ghost var t, b := tables, bytes;
        var result, again := Search(size, align, tag);
        WritesCompose(old(tables), t, tables, old(bytes), b, bytes);
        if !again {
          return result;
        }
        if restarted {
          return Halted;
        }
        restarted := true;
      }
    }

    /**
     malloc and malloc_align outside the allocator: the tables stay well formed,
     the range granted is the first usable one, and nothing is granted only where
     there is no space; no byte of an allocation in use changes.
     */
    method Malloc(size: nat, align: Align, tag: Tag) returns (outcome: Outcome)
      requires Valid()
      modifies this
      ensures !outcome.Halted? && !growing
      ensures Request(old(tables), old(slots), blocks, size, align, tag) == Reply(tables, slots, outcome)
      ensures !outcome.Fault? ==> Valid() && Answers(old(tables), old(slots), size, align, tag, Reply(tables, slots, outcome))
      ensures Justified(slots, blocks, size, align, tag, outcome)
      ensures outcome.Fault? ==> Crowded(old(slots)) && !NoSpace(old(slots), blocks, size, align)
      ensures |tables| > |old(tables)| <==> Crowded(old(slots)) && !NoSpace(old(slots), blocks, size, align) && !outcome.Fault?
      ensures OnlyWritesNewTable(old(tables), tables, old(bytes), bytes)
      ensures !outcome.Fault? ==> LiveKept(old(slots), old(bytes), bytes)
    {
      RequestKeepsWellFormed(tables, slots, blocks, size, align, tag);
      RequestJustified(tables, slots, blocks, size, align, tag);
      outcome := MallocAlign(size, align, tag);
      if !outcome.Fault? {
        forall i, a: nat | 0 <= i < |old(slots)| && InSlot(old(slots)[i], a)
          ensures ByteAt(bytes, a) == ByteAt(old(bytes), a)
        {
          LiveBytesKept(old(tables), old(slots), tables, old(bytes), bytes, i, a);
        }
      }
    }

    /** MemoryFind: the slot in use that starts at an address; the number of slots when there is none. */
    method Find(addr: nat) returns (k: nat)
      requires Contiguous(tables, |slots|)
      ensures k == FindSlot(slots, addr)
    {
      var t := 0;
      while t < |tables|
        invariant 0 <= t <= |tables|
        invariant forall j :: 0 <= j < StartOf(tables, |slots|, t) && j < |slots| ==> !(slots[j].used && slots[j].addr == addr)
      {
        var i := tables[t].first;
        TableInRange(tables, |slots|, t);
        while i < tables[t].first + tables[t].count
          invariant tables[t].first <= i <= tables[t].first + tables[t].count <= |slots|
          invariant forall j :: 0 <= j < i ==> !(slots[j].used && slots[j].addr == addr)
        {
          if slots[i].used && slots[i].addr == addr {
            return i;
          }
          i := i + 1;
        }
        t := t + 1;
      }
      return |slots|;
    }

    /** Kernel free: the slot is marked unused and its labels cleared; an unknown address halts the kernel. */
    method Free(addr: nat) returns (halted: bool)
      requires Contiguous(tables, |slots|)
      modifies this`slots
      ensures halted <==> FindSlot(old(slots), addr) == |old(slots)|
      ensures slots == if halted then old(slots) else Release(old(slots), FindSlot(old(slots), addr))
      ensures old(Valid()) && !IsBookkeeping(tables, addr) ==> Valid()
    {
      var k := Find(addr);
      if k == |slots| {
        return true;
      }
      if Valid() && !IsBookkeeping(tables, addr) { ReleaseKeepsWellFormed(tables, slots, k); }
      slots := slots[k := slots[k].(used := false, tag := UNTAGGED)];
      return false;
    }

    /**
     Kernel realloc: a new block is granted, filled with the old contents and
     zeros, and the old block is released. An unknown address gives NULL; a
     failed request is written through as NULL.
     */
    method Realloc(addr: nat, newSize: nat) returns (outcome: Outcome)
      requires Valid()
      modifies this
      ensures !outcome.Halted? && !growing
      ensures outcome.Exhausted? <==> FindSlot(old(slots), addr) == |old(slots)|
      ensures outcome.Exhausted? ==> tables == old(tables) && slots == old(slots) && bytes == old(bytes)
      ensures !outcome.Exhausted? ==>
        Moves(old(tables), old(slots), blocks, old(bytes), FindSlot(old(slots), addr), newSize, outcome, tables, slots, bytes)
      ensures outcome.Granted? && !IsBookkeeping(tables, addr) ==> Valid()
      ensures outcome.Granted? && !IsBookkeeping(old(tables), addr) && old(slots)[FindSlot(old(slots), addr)].size > 0 ==>
        Valid() && Reallocates(old(tables), old(slots), old(bytes), FindSlot(old(slots), addr), newSize, outcome.addr, tables, slots, bytes)
    {
      var k := Find(addr);
      outcome := Exhausted;
      if k < |slots| {
        outcome := ReallocSlot(k, newSize);
      }
    }

    /** Kernel realloc, once the old block was found. */
    method ReallocSlot(k: nat, newSize: nat) returns (outcome: Outcome)
      requires Valid() && k < |slots| && k == FindSlot(slots, slots[k].addr)
      modifies this
      ensures !outcome.Halted? && !outcome.Exhausted? && !growing
      ensures Moves(old(tables), old(slots), blocks, old(bytes), k, newSize, outcome, tables, slots, bytes)
      ensures outcome.Granted? && !IsBookkeeping(tables, old(slots)[k].addr) ==> Valid()
      ensures outcome.Granted? && !IsBookkeeping(old(tables), old(slots)[k].addr) && old(slots)[k].size > 0 ==>
        Valid() && Reallocates(old(tables), old(slots), old(bytes), k, newSize, outcome.addr, tables, slots, bytes)
    {
      var addr, size, tag := slots[k].addr, slots[k].size, slots[k].tag;
      outcome := Malloc(newSize, AlignNone, tag);
      if outcome.Granted? {
        CarryOver(k, outcome.addr, addr, size, newSize, old(tables), old(slots), old(bytes));
      } else {
        outcome := Fault;
      }
      MovesReplaces(old(tables), old(slots), blocks, old(bytes), k, newSize, outcome, tables, slots, bytes);
    }

    /** Realloc, once the new block was granted: the contents are carried over and the old block is released. */
    method CarryOver(ghost k: nat, dest: nat, addr: nat, size: nat, newSize: nat,
                     ghost tables0: seq<Table>, ghost slots0: seq<Slot>, ghost bytes0: map<nat, byte>)
      requires Valid() && k < |slots0| && slots0[k].used && addr == slots0[k].addr && size == slots0[k].size
      requires Answers(tables0, slots0, newSize, AlignNone, slots0[k].tag, Reply(tables, slots, Granted(dest)))
      requires OnlyWritesNewTable(tables0, tables, bytes0, bytes)
      modifies this`bytes, this`slots
      ensures FindSlot(old(slots), addr) < |old(slots)| && slots == Release(old(slots), FindSlot(old(slots), addr))
      ensures Carries(slots0, k, dest, newSize, bytes0, bytes)
      ensures !IsBookkeeping(tables, addr) ==> Valid()
    {
      ReallocHolds(tables0, slots0, Reply(tables, slots, Granted(dest)), k, newSize, bytes0, bytes);
      MoveBlock(dest, addr, size, newSize);
    }

    /** The last part of realloc: copy, and free the old block. */
    method MoveBlock(dest: nat, addr: nat, size: nat, newSize: nat)
      requires Valid() && FindSlot(slots, addr) < |slots|
      requires dest + newSize <= addr || addr + size <= dest
      modifies this`bytes, this`slots
      ensures Refilled(dest, addr, size, newSize, old(bytes), bytes)
      ensures slots == Release(old(slots), FindSlot(old(slots), addr))
      ensures !IsBookkeeping(tables, addr) ==> Valid()
    {
      Refill(dest, addr, size, newSize);
      var halted := Free(addr);
    }

    /** The copying half of realloc. */
    method Refill(dest: nat, src: nat, size: nat, newSize: nat)
      requires dest + newSize <= src || src + size <= dest
      modifies this`bytes
      ensures Refilled(dest, src, size, newSize, old(bytes), bytes)
    {
      if size > newSize {
        MemCpy(dest, src, newSize);
      } else {
        MemCpy(dest, src, size);
        MemSet(dest + size, 0, newSize - size);
      }
    }

    /** memset. */
    method MemSet(dest: nat, value: byte, n: nat)
      modifies this`bytes
      ensures old(Valid()) ==> Valid()
      ensures forall a: nat {:trigger ByteAt(bytes, a)} :: ByteAt(bytes, a) == if dest <= a < dest + n then value else ByteAt(old(bytes), a)
    {
      var i := 0;
      while i < n
        invariant 0 <= i <= n
        invariant forall a: nat {:trigger ByteAt(bytes, a)} :: ByteAt(bytes, a) == if dest <= a < dest + i then value else ByteAt(old(bytes), a)
      {
        bytes := Poke(bytes, dest + i, value);
        i := i + 1;
      }
    }

    /** memcpy, for ranges that do not overlap. */
    method MemCpy(dest: nat, src: nat, n: nat)
      requires dest + n <= src || src + n <= dest
      modifies this`bytes
      ensures forall a: nat {:trigger ByteAt(bytes, a)} :: ByteAt(bytes, a) == if dest <= a < dest + n then ByteAt(old(bytes), src + (a - dest)) else ByteAt(old(bytes), a)
    {
      var i := 0;
      while i < n
        invariant 0 <= i <= n
        invariant forall a: nat {:trigger ByteAt(bytes, a)} :: ByteAt(bytes, a) == if dest <= a < dest + i then ByteAt(old(bytes), src + (a - dest)) else ByteAt(old(bytes), a)
      {
        bytes := Poke(bytes, dest + i, ByteAt(bytes, src + i));
        i := i + 1;
      }
    }
  }

  /** The range at `dest` holds the first bytes of the range at `src`, then zeros; no other byte changed. */
  ghost predicate Refilled(dest: nat, src: nat, size: nat, newSize: nat, bytes: map<nat, byte>, bytes': map<nat, byte>) {
    forall a: nat {:trigger ByteAt(bytes', a)} :: ByteAt(bytes', a) ==
      if dest <= a < dest + newSize then if a - dest < size then ByteAt(bytes, src + (a - dest)) else 0
      else ByteAt(bytes, a)
  }

  /** Slot `k` is given up for one new slot; nothing else in use is added, removed or moved. */
  ghost predicate Replaces(slots: seq<Slot>, k: nat, s: Slot, extra: set<Slot>, slots': seq<Slot>)
    requires k < |slots|
  {
    && |slots'| >= |slots| && !slots'[k].used
    && (forall i :: 0 <= i < |slots| && i != k && slots[i].used ==> slots'[i] == slots[i])
    && Holds(slots', s.addr, s.size, s.tag) && IsFree(slots, s.addr, s.size)
    && OnlyAdds(slots, slots', {s} + extra)
  }

  /** The new range holds the first bytes of slot `k`, then zeros; no byte of another allocation changed. */
  ghost predicate Carries(slots: seq<Slot>, k: nat, dest: nat, newSize: nat, bytes: map<nat, byte>, bytes': map<nat, byte>)
    requires k < |slots|
  {
    && (forall a: nat {:trigger ByteAt(bytes', a)} :: dest <= a < dest + newSize ==>
          ByteAt(bytes', a) == if a - dest < slots[k].size then ByteAt(bytes, slots[k].addr + (a - dest)) else 0)
    && (forall i, a: nat {:trigger slots[i], ByteAt(bytes', a)} :: 0 <= i < |slots| && i != k && InSlot(slots[i], a)
          ==> ByteAt(bytes', a) == ByteAt(bytes, a))
  }

  predicate InSlot(s: Slot, a: nat) {
    s.used && s.addr <= a < s.addr + s.size
  }

  /** No byte of an allocation in use differs. */
  ghost predicate LiveKept(slots: seq<Slot>, bytes: map<nat, byte>, bytes': map<nat, byte>) {
    forall i, a: nat {:trigger InSlot(slots[i], a)} :: 0 <= i < |slots| && InSlot(slots[i], a) ==> ByteAt(bytes', a) == ByteAt(bytes, a)
  }

  lemma LiveKeptThen(s0: seq<Slot>, b0: map<nat, byte>, s1: seq<Slot>, b1: map<nat, byte>, b2: map<nat, byte>)
    requires LiveKept(s0, b0, b1) && Extends(s0, s1) && LiveKept(s1, b1, b2)
    ensures LiveKept(s0, b0, b2)
  {
    forall i, a: nat | 0 <= i < |s0| && InSlot(s0[i], a) ensures ByteAt(b2, a) == ByteAt(b0, a) {
      assert s1[i] == s0[i] && ByteAt(b1, a) == ByteAt(b0, a);
    }
  }

  /** What realloc promises: the block moved with its contents, and nothing else changed. */
  ghost predicate Reallocates(tables: seq<Table>, slots: seq<Slot>, bytes: map<nat, byte>, k: nat, newSize: nat, dest: nat,
                              tables': seq<Table>, slots': seq<Slot>, bytes': map<nat, byte>)
    requires k < |slots|
  {
    && Replaces(slots, k, Slot(dest, newSize, true, slots[k].tag), Extra(tables, tables'), slots')
    && Carries(slots, k, dest, newSize, bytes, bytes')
  }

  /**
   What realloc does to any block: the request is made, the contents are carried
   over, and the first block in use at the old address, whichever it now is, is
   released.
   */
  ghost predicate Moves(tables: seq<Table>, slots: seq<Slot>, blocks: seq<Block>, bytes: map<nat, byte>, k: nat, newSize: nat,
                        outcome: Outcome, tables': seq<Table>, slots': seq<Slot>, bytes': map<nat, byte>)
    requires k < |slots|
  {
    var r := Request(tables, slots, blocks, newSize, AlignNone, slots[k].tag);
    (outcome.Granted? <==> r.outcome.Granted?) &&
    (outcome.Granted? ==>
      && FindSlot(r.slots, slots[k].addr) < |r.slots|
      && outcome == r.outcome && tables' == r.tables
      && slots' == Release(r.slots, FindSlot(r.slots, slots[k].addr))
      && Carries(slots, k, outcome.addr, newSize, bytes, bytes'))
  }

  /** A block is replaced exactly if the request in between leaves it the first one at its address. */
  lemma ReplacesIff(tables: seq<Table>, slots: seq<Slot>, blocks: seq<Block>, k: nat, newSize: nat)
    requires WellFormed(tables, slots) && k < |slots| && k == FindSlot(slots, slots[k].addr)
    requires Request(tables, slots, blocks, newSize, AlignNone, slots[k].tag).outcome.Granted?
    ensures var r := Request(tables, slots, blocks, newSize, AlignNone, slots[k].tag);
      && FindSlot(r.slots, slots[k].addr) < |r.slots|
      && (Replaces(slots, k, Slot(r.outcome.addr, newSize, true, slots[k].tag), Extra(tables, r.tables),
                   Release(r.slots, FindSlot(r.slots, slots[k].addr)))
          <==> FindSlot(r.slots, slots[k].addr) == k)
  {
    var r := Request(tables, slots, blocks, newSize, AlignNone, slots[k].tag);
    RequestKeepsWellFormed(tables, slots, blocks, newSize, AlignNone, slots[k].tag);
    assert r.slots[k] == slots[k];
    if FindSlot(r.slots, slots[k].addr) == k {
      var n := RequestFills(tables, slots, blocks, newSize, slots[k].tag);
      ReplacesHolds(tables, slots, r, k, newSize, n);
    }
  }

  /**
   The same told before the call, when the tables need not grow. An empty block
   is not in the way of a new one at its own address; recorded in an earlier
   slot, the new block is released in place of the old one.
   */
  lemma EmptyBlockStays(tables: seq<Table>, slots: seq<Slot>, blocks: seq<Block>, k: nat, newSize: nat)
    requires WellFormed(tables, slots) && k < |slots| && k == FindSlot(slots, slots[k].addr)
    requires !NeedsGrowth(tables, slots) && FirstFit(slots, blocks, newSize, AlignNone) != 0
    ensures var s, r := slots[k], Request(tables, slots, blocks, newSize, AlignNone, slots[k].tag);
      && (s.size > 0 ==> FirstFit(slots, blocks, newSize, AlignNone) != s.addr)
      && (FindSlot(r.slots, s.addr) == k <==> FirstFit(slots, blocks, newSize, AlignNone) != s.addr || k < FirstUnused(slots))
      && (FindSlot(r.slots, s.addr) != k ==>
            FindSlot(r.slots, s.addr) < |r.slots| && r.slots[FindSlot(r.slots, s.addr)] == Slot(r.outcome.addr, newSize, true, s.tag) && r.outcome.addr == s.addr)
  {
    var s, addr := slots[k], FirstFit(slots, blocks, newSize, AlignNone);
    var r := Request(tables, slots, blocks, newSize, AlignNone, s.tag);
    PlainRequest(tables, slots, blocks, newSize, AlignNone, s.tag);
    FirstFitFree(slots, blocks, newSize, AlignNone);
    assert !Clash(s, addr, newSize);
    var n := FirstUnused(slots);
    assert r.slots == slots[n := Slot(addr, newSize, true, s.tag)];
    assert r.slots[k] == s;
  }

  /** A concrete case: an empty block in the third slot, the first slot unused. The new block is granted there and lost. */
  lemma EmptyBlockIsLost() returns (tables: seq<Table>, slots: seq<Slot>, blocks: seq<Block>)
    ensures WellFormed(tables, slots) && FindSlot(slots, 26196) == 2 && slots[2].size == 0
    ensures var r := Request(tables, slots, blocks, 8, AlignNone, slots[2].tag);
      r.outcome == Granted(26196) && FindSlot(r.slots, 26196) == 0
  {
    var table, empty := Slot(4096, TABLE_ENTRY_SIZE * INITIAL_ENTRIES, true, UNTAGGED), Slot(26196, 0, true, UNTAGGED);
    tables, blocks := [Table(4096, 0, 0, INITIAL_ENTRIES)], [Block(4096, 1000000, true)];
    slots := seq(INITIAL_ENTRIES, _ => EMPTY_SLOT)[1 := table][2 := empty];
    assert slots[1] == table && slots[2] == empty;
    assert FindSlot(slots, 26196) == 2;
    assert FirstUnused(slots) == 0;
    forall a: nat | a < 26196 ensures !Candidate(slots, blocks[0], 8, AlignNone, a) {
      assert 4096 <= a ==> Clash(slots[1], a, 8);
    }
    assert LeastCandidate(slots, blocks[0], 8, AlignNone, 26196);
    FirstFitIs(slots, blocks, 8, AlignNone, 0, 0, 26196);
    PlainRequest(tables, slots, blocks, 8, AlignNone, UNTAGGED);
    EmptyBlockStays(tables, slots, blocks, 2, 8);
  }

  lemma OldBlockStays(tables: seq<Table>, slots: seq<Slot>, r: Reply, k: nat, newSize: nat)
    requires k < |slots| && k == FindSlot(slots, slots[k].addr) && slots[k].size > 0
    requires !IsBookkeeping(tables, slots[k].addr)
    requires r.outcome.Granted? && IsFree(slots, r.outcome.addr, newSize)
    requires Extends(slots, r.slots) && GrewAtMostOnce(tables, slots, r.tables)
    requires OnlyAdds(slots, r.slots, {Slot(r.outcome.addr, newSize, true, slots[k].tag)} + Extra(tables, r.tables))
    ensures FindSlot(r.slots, slots[k].addr) == k
    ensures !IsBookkeeping(r.tables, slots[k].addr)
  {
    KeepsNotBookkeeping(tables, slots, r.tables, k, newSize);
    assert !Clash(slots[k], r.outcome.addr, newSize);
    var added := {Slot(r.outcome.addr, newSize, true, slots[k].tag)} + Extra(tables, r.tables);
    forall s | s in added ensures s.addr != slots[k].addr {
      if s in Extra(tables, r.tables) {
        var t := |r.tables| - 1;
        assert s.addr == r.tables[t].node || s.addr == r.tables[t].addr;
      }
    }
    FirstStays(slots, r.slots, slots[k].addr, added);
  }

  /** The slot found for an address stays the one found when nothing else is added there. */
  lemma FirstStays(slots: seq<Slot>, after: seq<Slot>, addr: nat, added: set<Slot>)
    requires FindSlot(slots, addr) < |slots|
    requires Extends(slots, after) && OnlyAdds(slots, after, added)
    requires forall s :: s in added ==> s.addr != addr
    ensures FindSlot(after, addr) == FindSlot(slots, addr)
  {
    var j := FindSlot(after, addr);
    assert after[FindSlot(slots, addr)] == slots[FindSlot(slots, addr)];
    assert after[j].used && after[j] !in added;
  }

  /** Creating a table changes no byte of an allocation in use. */
  lemma LiveBytesKept(tables: seq<Table>, slots: seq<Slot>, after: seq<Table>, bytes: map<nat, byte>, bytes': map<nat, byte>, i: nat, a: nat)
    requires GrewAtMostOnce(tables, slots, after) && OnlyWritesNewTable(tables, after, bytes, bytes')
    requires i < |slots| && InSlot(slots[i], a)
    ensures ByteAt(bytes', a) == ByteAt(bytes, a)
  {
    if |after| > |tables| {
      assert !Clash(slots[i], after[|tables|].addr, NEW_TABLE_SIZE);
    }
  }

  /** The slot that a granted request fills was not in use. */
  lemma RequestFills(tables: seq<Table>, slots: seq<Slot>, blocks: seq<Block>, size: nat, tag: Tag) returns (n: nat)
    requires WellFormed(tables, slots) && Request(tables, slots, blocks, size, AlignNone, tag).outcome.Granted?
    ensures var r := Request(tables, slots, blocks, size, AlignNone, tag);
      n < |r.slots| && r.slots[n] == Slot(r.outcome.addr, size, true, tag) && !(n < |slots| && slots[n].used)
  {
    n := FirstUnused(slots);
    if NeedsGrowth(tables, slots) {
      var g := Grow(tables, slots, blocks);
      GrowKeeps(tables, slots, blocks);
      GrownWellFormed(tables, slots, blocks);
      PlainRequest(g.tables, g.slots, blocks, size, AlignNone, tag);
      n := FirstUnused(g.slots);
    }
  }

  lemma ReplacesHolds(tables: seq<Table>, slots: seq<Slot>, r: Reply, k: nat, newSize: nat, n: nat)
    requires k < |slots| && slots[k].used
    requires r.outcome.Granted? && Answers(tables, slots, newSize, AlignNone, slots[k].tag, r)
    requires n < |r.slots| && n != k && r.slots[n] == Slot(r.outcome.addr, newSize, true, slots[k].tag)
    ensures Replaces(slots, k, Slot(r.outcome.addr, newSize, true, slots[k].tag), Extra(tables, r.tables), Release(r.slots, k))
  {
    assert Release(r.slots, k)[n] == r.slots[n];
  }

  /** Why the last steps of realloc carry the contents over: the blocks do not overlap, and a new table left the old bytes alone. */
  lemma ReallocHolds(tables: seq<Table>, slots: seq<Slot>, r: Reply, k: nat, newSize: nat, bytes: map<nat, byte>, bytes1: map<nat, byte>)
    requires k < |slots| && slots[k].used
    requires r.outcome.Granted? && Answers(tables, slots, newSize, AlignNone, slots[k].tag, r)
    requires OnlyWritesNewTable(tables, r.tables, bytes, bytes1)
    ensures var s := slots[k];
      && (r.outcome.addr + newSize <= s.addr || s.addr + s.size <= r.outcome.addr)
      && FindSlot(r.slots, s.addr) < |r.slots|
      && forall bytes2 :: Refilled(r.outcome.addr, s.addr, s.size, newSize, bytes1, bytes2)
           ==> Carries(slots, k, r.outcome.addr, newSize, bytes, bytes2)
  {
    var s := slots[k];
    assert !Clash(s, r.outcome.addr, newSize);
    assert r.slots[k] == s;
    forall bytes2 | Refilled(r.outcome.addr, s.addr, s.size, newSize, bytes1, bytes2)
      ensures Carries(slots, k, r.outcome.addr, newSize, bytes, bytes2)
    {
      CarriesHolds(tables, slots, r.tables, k, r.outcome.addr, newSize, bytes, bytes1, bytes2);
    }
  }

  /** A block of positive size that holds no table is replaced. */
  lemma MovesReplaces(tables: seq<Table>, slots: seq<Slot>, blocks: seq<Block>, bytes: map<nat, byte>, k: nat, newSize: nat,
                      outcome: Outcome, tables': seq<Table>, slots': seq<Slot>, bytes': map<nat, byte>)
    requires WellFormed(tables, slots) && k < |slots| && k == FindSlot(slots, slots[k].addr)
    requires Moves(tables, slots, blocks, bytes, k, newSize, outcome, tables', slots', bytes')
    ensures outcome.Granted? && !IsBookkeeping(tables, slots[k].addr) && slots[k].size > 0 ==>
      && !IsBookkeeping(tables', slots[k].addr)
      && Reallocates(tables, slots, bytes, k, newSize, outcome.addr, tables', slots', bytes')
  {
    if outcome.Granted? && !IsBookkeeping(tables, slots[k].addr) && slots[k].size > 0 {
      var r := Request(tables, slots, blocks, newSize, AlignNone, slots[k].tag);
      RequestKeepsWellFormed(tables, slots, blocks, newSize, AlignNone, slots[k].tag);
      OldBlockStays(tables, slots, r, k, newSize);
      ReplacesIff(tables, slots, blocks, k, newSize);
    }
  }

  lemma CarriesHolds(tables: seq<Table>, slots: seq<Slot>, after: seq<Table>, k: nat, dest: nat, newSize: nat,
                     bytes: map<nat, byte>, bytes1: map<nat, byte>, bytes2: map<nat, byte>)
    requires k < |slots| && slots[k].used
    requires GrewAtMostOnce(tables, slots, after) && IsFree(slots, dest, newSize)
    requires OnlyWritesNewTable(tables, after, bytes, bytes1)
    requires Refilled(dest, slots[k].addr, slots[k].size, newSize, bytes1, bytes2)
    ensures Carries(slots, k, dest, newSize, bytes, bytes2)
  {
    forall a: nat | dest <= a < dest + newSize
      ensures ByteAt(bytes2, a) == if a - dest < slots[k].size then ByteAt(bytes, slots[k].addr + (a - dest)) else 0
    {
      if a - dest < slots[k].size { LiveBytesKept(tables, slots, after, bytes, bytes1, k, slots[k].addr + (a - dest)); }
    }
    forall i, a: nat | 0 <= i < |slots| && i != k && InSlot(slots[i], a)
      ensures ByteAt(bytes2, a) == ByteAt(bytes, a)
    {
      assert !Clash(slots[i], dest, newSize);
      LiveBytesKept(tables, slots, after, bytes, bytes1, i, a);
    }
  }

  datatype Step = Recorded | Restart | NullDereference | Stopped

  function ByteAt(bytes: map<nat, byte>, a: nat): byte {
    if a in bytes then bytes[a] else 0
  }

  function Poke(bytes: map<nat, byte>, k: nat, value: byte): (r: map<nat, byte>)
    ensures forall a: nat {:trigger ByteAt(r, a)} :: ByteAt(r, a) == if a == k then value else ByteAt(bytes, a)
  {
    bytes[k := value]
  }

  /** Bytes changed only inside the storage of tables that were added. */
  ghost predicate OnlyWritesNewTable(before: seq<Table>, after: seq<Table>, bytes: map<nat, byte>, bytes': map<nat, byte>) {
    forall a: nat :: (forall t :: |before| <= t < |after| ==> !(after[t].addr <= a < after[t].addr + NEW_TABLE_SIZE))
      ==> ByteAt(bytes', a) == ByteAt(bytes, a)
  }

  lemma WritesCompose(t0: seq<Table>, t1: seq<Table>, t2: seq<Table>, b0: map<nat, byte>, b1: map<nat, byte>, b2: map<nat, byte>)
    requires t0 <= t1 <= t2 && OnlyWritesNewTable(t0, t1, b0, b1) && OnlyWritesNewTable(t1, t2, b1, b2)
    ensures OnlyWritesNewTable(t0, t2, b0, b2)
  {
    forall a: nat | forall t :: |t0| <= t < |t2| ==> !(t2[t].addr <= a < t2[t].addr + NEW_TABLE_SIZE)
      ensures ByteAt(b2, a) == ByteAt(b0, a)
    {
      assert forall t :: |t0| <= t < |t1| ==> t1[t] == t2[t];
    }
  }

  /** A slot that does not trigger growth lies before the mark. */
  lemma {:induction false} MarkInLastTable(tables: seq<Table>, total: nat, t: nat, i: nat)
    requires Contiguous(tables, total) && t < |tables|
    requires tables[t].first <= i < tables[t].first + tables[t].count
    requires t < |tables| - 1 || i < total - GROWTH_MARK
    ensures i < Mark(tables, total)
  {
    if t < |tables| - 1 { FirstIncreases(tables, total, t + 1); TableInRange(tables, total, t); }
  }

  lemma {:induction false} FirstIncreases(tables: seq<Table>, total: nat, t: nat)
    requires Contiguous(tables, total) && t < |tables|
    ensures tables[t].first <= tables[|tables| - 1].first
    decreases |tables| - t
  {
    if t < |tables| - 1 { FirstIncreases(tables, total, t + 1); }
  }

  /** From an address that clashes up to the end of the clashing allocation every address clashes. */
  lemma SkipsNothing(slots: seq<Slot>, b: Block, size: nat, align: Align, addr: nat, i: nat)
    requires i < |slots| && Clash(slots[i], addr, size)
    ensures forall a: nat :: addr <= a < slots[i].addr + slots[i].size ==> !Candidate(slots, b, size, align, a)
  {
    forall a: nat | addr <= a < slots[i].addr + slots[i].size
      ensures !Candidate(slots, b, size, align, a)
    {
      assert Clash(slots[i], a, size);
    }
  }

  lemma NothingBetweenPages(slots: seq<Slot>, b: Block, size: nat, addr: nat, i: nat)
    requires i < |slots| && Clash(slots[i], addr, size) && addr % 4096 == 0
    ensures forall a: nat :: addr <= a < addr + 4096 ==> !Candidate(slots, b, size, Align4KB, a)
  {
  }

  /** No slot below index `n` clashes. */
  ghost predicate FreeBelow(slots: seq<Slot>, n: nat, addr: nat, size: nat) {
    forall j :: 0 <= j < n && j < |slots| ==> !Clash(slots[j], addr, size)
  }

  /** Index of the first slot after the first `t` tables. */
  function StartOf(tables: seq<Table>, total: nat, t: nat): nat {
    if t < |tables| then tables[t].first else total
  }

  lemma {:induction false} TableInRange(tables: seq<Table>, total: nat, t: nat)
    requires Contiguous(tables, total) && t < |tables|
    ensures tables[t].first + tables[t].count == StartOf(tables, total, t + 1) <= total
    decreases |tables| - t
  {
    if t + 1 < |tables| { TableInRange(tables, total, t + 1); }
  }
}
