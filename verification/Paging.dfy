/**
 Four-level page tables (Intel 64 and IA-32 Architectures Software Developer's
 Manual, volume 3A, section 4.5), kept in physical frames and edited in place.
 */
module PageTree {
  import opened Base

  /** The low twelve bits of an entry. */
  type Flags = bv12

  const PRESENT: Flags := 1
  const RW: Flags := 2
  const USER: Flags := 4
  /** Marks a 2MB or 1GB leaf in the middle two levels. */
  const PAGE_FRAME: Flags := 0x80

  /** A 64-bit table entry, split at bit 12. */
  datatype Entry = Entry(frame: nat, flags: Flags)

  type Tables = map<nat, seq<Entry>>

  const ENTRIES: nat := 512
  const ZERO := Entry(0, 0)
  /** Number of pages below 2^48. */
  const PAGES: nat := 0x10_0000_0000

  function ZeroTable(): seq<Entry> { seq(ENTRIES, _ => ZERO) }

  predicate Present(e: Entry) { e.flags & PRESENT != 0 }

  predicate Large(e: Entry) { e.flags & PAGE_FRAME != 0 }

  /** An entry of a level-`level` table that refers to a table of the level below. */
  predicate IsPointer(e: Entry, level: nat) {
    Present(e) && level > 1 && (level == 4 || !Large(e))
  }

  /** The virtual page number without its lowest `level` table indices. */
  function Prefix(vpn: nat, level: nat): nat {
    if level == 0 then vpn else Prefix(vpn, level - 1) / ENTRIES
  }

  /** The index a page number selects in a table of a level. */
  function Index(vpn: nat, level: nat): (i: nat)
    requires level > 0
    ensures i < ENTRIES
    ensures Prefix(vpn, level - 1) == Prefix(vpn, level) * ENTRIES + i
  {
    Prefix(vpn, level - 1) % ENTRIES
  }

  /** Pages mapped by a leaf in a table of a level. */
  function Span(level: nat): nat {
    match level case 1 => 1 case 2 => 0x200 case _ => 0x4_0000
  }

  datatype Leaf = Leaf(table: nat, index: nat, level: nat)

  datatype Mapping = Mapping(frame: nat, flags: Flags)

  /** The hardware walk from a table: the leaf entry that maps a page, if any. */
  function FindLeaf(tables: Tables, table: nat, level: nat, vpn: nat): Option<Leaf>
    requires forall f :: f in tables ==> |tables[f]| == ENTRIES
    decreases level
  {
    if level == 0 || table !in tables then None else
    var e := tables[table][Index(vpn, level)];
    if !Present(e) then None
    else if IsPointer(e, level) then FindLeaf(tables, e.frame, level - 1, vpn)
    else Some(Leaf(table, Index(vpn, level), level))
  }

  /** The frame and flags the hardware finds for a page. */
  function Translate(tables: Tables, root: nat, vpn: nat): Option<Mapping>
    requires forall f :: f in tables ==> |tables[f]| == ENTRIES
  {
    MappingAt(tables, FindLeaf(tables, root, 4, vpn), vpn)
  }

  function MappingAt(tables: Tables, leaf: Option<Leaf>, vpn: nat): Option<Mapping> {
    if leaf.Some? && leaf.value.table in tables && leaf.value.index < |tables[leaf.value.table]| then
      var e := tables[leaf.value.table][leaf.value.index];
      Some(Mapping(e.frame + vpn % Span(leaf.value.level), e.flags))
    else None
  }

  // --------------------------------------------------------------- the tree

  /** The place of a table: its root, its level, and the page-number prefix it serves. */
  datatype Place = Place(root: nat, level: nat, prefix: nat)

  /** Every pointer leads to the table at the place below it. */
  ghost predicate Placed(tables: Tables, places: map<nat, Place>) {
    && tables.Keys == places.Keys
    && (forall f :: f in tables ==> |tables[f]| == ENTRIES)
    && (forall f :: f in places ==> 1 <= places[f].level <= 4 && (places[f].level == 4 ==> places[f] == Place(f, 4, 0)))
    && (forall f, i :: f in tables && 0 <= i < ENTRIES && IsPointer(tables[f][i], places[f].level) ==>
          tables[f][i].frame in places
          && places[tables[f][i].frame] == Below(places[f], i))
  }

  function Below(p: Place, i: nat): Place {
    Place(p.root, if p.level == 0 then 0 else p.level - 1, p.prefix * ENTRIES + i)
  }

  /** No two tables have the same place: no table is shared. */
  ghost predicate Unshared(places: map<nat, Place>) {
    forall f, g {:trigger SamePlace(places, f, g)} :: SamePlace(places, f, g) ==> f == g
  }

  predicate SamePlace(places: map<nat, Place>, f: nat, g: nat) {
    f in places && g in places && places[f] == places[g]
  }

  /** Every table but a root is the target of a pointer in the table above it. */
  ghost predicate Linked(tables: Tables, places: map<nat, Place>)
    requires Placed(tables, places)
  {
    forall g {:trigger HasParent(tables, places, g)} :: g in places && places[g].level < 4 ==> HasParent(tables, places, g)
  }

  ghost predicate HasParent(tables: Tables, places: map<nat, Place>, g: nat)
    requires Placed(tables, places) && g in places
  {
    exists f :: HasChild(tables, places, f, g)
  }

  ghost predicate HasChild(tables: Tables, places: map<nat, Place>, f: nat, g: nat)
    requires Placed(tables, places) && g in places
  {
    f in places && places[f] == Place(places[g].root, places[g].level + 1, places[g].prefix / ENTRIES)
    && var e := tables[f][places[g].prefix % ENTRIES]; IsPointer(e, places[f].level) && e.frame == g
  }

  ghost predicate Tree(tables: Tables, places: map<nat, Place>) {
    Placed(tables, places) && Unshared(places) && Linked(tables, places)
  }

  /** A table serves a page of a root. */
  predicate Serves(places: map<nat, Place>, f: nat, root: nat, level: nat, vpn: nat) {
    f in places && places[f] == Place(root, level, Prefix(vpn, level))
  }

  lemma PrefixStep(vpn: nat, level: nat)
    requires level > 0
    ensures Prefix(vpn, level - 1) / ENTRIES == Prefix(vpn, level)
    ensures Prefix(vpn, level - 1) % ENTRIES == Index(vpn, level)
  {
  }

  /** A table that serves a page is on the walk for it. */
  lemma {:induction false} WalkReaches(tables: Tables, places: map<nat, Place>, f: nat, root: nat, level: nat, vpn: nat)
    requires Tree(tables, places) && Serves(places, f, root, level, vpn) && Prefix(vpn, 4) == 0
    ensures FindLeaf(tables, root, 4, vpn) == FindLeaf(tables, f, level, vpn)
    ensures Serves(places, root, root, 4, vpn)
    decreases 4 - level
  {
    if level < 4 {
      assert HasParent(tables, places, f);
      var g :| HasChild(tables, places, g, f);
      PrefixStep(vpn, level + 1);
      WalkReaches(tables, places, g, root, level + 1, vpn);
    }
  }

  /** The tables differ at most in one entry, besides tables added. */
  ghost predicate AgreeExcept(tables: Tables, tables': Tables, f: nat, i: nat) {
    && (forall g :: g in tables' ==> |tables'[g]| == ENTRIES)
    && (forall g :: g in tables ==> |tables[g]| == ENTRIES && g in tables')
    && forall g, j :: g in tables && 0 <= j < ENTRIES && (g != f || j != i) ==> tables'[g][j] == tables[g][j]
  }

  /** A walk that does not pass through the changed entry is the same as before. */
  lemma {:induction false} WalkUnchanged(tables: Tables, tables': Tables, places: map<nat, Place>, f: nat, i: nat,
                                         g: nat, root: nat, level: nat, vpn: nat)
    requires Placed(tables, places) && AgreeExcept(tables, tables', f, i)
    requires f in places && i < ENTRIES
    requires Serves(places, g, root, level, vpn)
    requires !(root == places[f].root && Prefix(vpn, places[f].level - 1) == places[f].prefix * ENTRIES + i)
    ensures FindLeaf(tables', g, level, vpn) == FindLeaf(tables, g, level, vpn)
    ensures MappingAt(tables', FindLeaf(tables', g, level, vpn), vpn) == MappingAt(tables, FindLeaf(tables, g, level, vpn), vpn)
    decreases level
  {
    var j := Index(vpn, level);
    assert g != f || j != i;
    var e := tables[g][j];
    assert tables'[g][j] == e;
    if IsPointer(e, level) {
      WalkUnchanged(tables, tables', places, f, i, e.frame, root, level - 1, vpn);
    }
  }

  function SetEntry(tables: Tables, f: nat, i: nat, e: Entry): Tables
    requires f in tables && i < |tables[f]|
  {
    tables[f := tables[f][i := e]]
  }

  const TABLE_FLAGS: Flags := PRESENT | RW | USER

  /** A fresh zeroed table `g` hung below entry `i` of table `f`. */
  function Attach(tables: Tables, f: nat, i: nat, g: nat): Tables
    requires f in tables && i < |tables[f]|
  {
    SetEntry(tables, f, i, Entry(g, TABLE_FLAGS))[g := ZeroTable()]
  }

  lemma TableEntryIsPointer(g: nat, level: nat)
    requires level > 1
    ensures IsPointer(Entry(g, TABLE_FLAGS), level) && !Present(ZERO)
  {
    assert TABLE_FLAGS & PRESENT != 0 && TABLE_FLAGS & PAGE_FRAME == 0;
  }

  lemma InstallKeepsTree(tables: Tables, places: map<nat, Place>, f: nat, i: nat, e: Entry)
    requires Tree(tables, places) && f in tables && i < ENTRIES
    requires !IsPointer(tables[f][i], places[f].level) && !IsPointer(e, places[f].level)
    ensures Tree(SetEntry(tables, f, i, e), places)
  {
    assert Placed(SetEntry(tables, f, i, e), places);
    LinkedLater(tables, places, f, i, SetEntry(tables, f, i, e), places);
  }

  /** Children keep their parents when no pointer is overwritten. */
  lemma LinkedLater(tables: Tables, places: map<nat, Place>, f: nat, i: nat, tables': Tables, places': map<nat, Place>)
    requires Placed(tables, places) && Linked(tables, places)
    requires f in tables && i < ENTRIES && !IsPointer(tables[f][i], places[f].level)
    requires Placed(tables', places') && AgreeExcept(tables, tables', f, i)
    requires forall g :: g in places ==> g in places' && places'[g] == places[g]
    requires forall g :: g in places' && g !in places && places'[g].level < 4 ==> HasParent(tables', places', g)
    ensures Linked(tables', places')
  {
    forall g | g in places' && places'[g].level < 4
      ensures HasParent(tables', places', g)
    {
      if g in places {
        assert HasParent(tables, places, g);
        var h :| HasChild(tables, places, h, g);
        assert HasChild(tables', places', h, g);
      }
    }
  }

  /** Changing one entry to or from a leaf changes the translation of exactly the pages under that entry. */
  lemma InstallTranslates(tables: Tables, places: map<nat, Place>, f: nat, i: nat, e: Entry, root: nat, v: nat)
    requires Tree(tables, places) && f in tables && i < ENTRIES
    requires !IsPointer(tables[f][i], places[f].level) && !IsPointer(e, places[f].level)
    requires Serves(places, root, root, 4, v) && Prefix(v, 4) == 0
    ensures var p := places[f];
      Translate(SetEntry(tables, f, i, e), root, v) ==
      if root == p.root && Prefix(v, p.level - 1) == p.prefix * ENTRIES + i
      then if Present(e) then Some(Mapping(e.frame + v % Span(p.level), e.flags)) else None
      else Translate(tables, root, v)
  {
    var p := places[f];
    if root == p.root && Prefix(v, p.level - 1) == p.prefix * ENTRIES + i {
      InstallKeepsTree(tables, places, f, i, e);
      WalkEndsAt(SetEntry(tables, f, i, e), places, f, i, root, v);
    } else {
      WalkUnchanged(tables, SetEntry(tables, f, i, e), places, f, i, root, root, 4, v);
    }
  }

  /** The walk for a page under an entry that is no pointer ends at that entry. */
  lemma WalkEndsAt(tables: Tables, places: map<nat, Place>, f: nat, i: nat, root: nat, v: nat)
    requires Tree(tables, places) && f in tables && i < ENTRIES && !IsPointer(tables[f][i], places[f].level)
    requires root == places[f].root && Prefix(v, places[f].level - 1) == places[f].prefix * ENTRIES + i && Prefix(v, 4) == 0
    ensures FindLeaf(tables, root, 4, v) == if Present(tables[f][i]) then Some(Leaf(f, i, places[f].level)) else None
  {
    PrefixStep(v, places[f].level);
    assert Index(v, places[f].level) == i;
    WalkReaches(tables, places, f, root, places[f].level, v);
  }

  lemma AttachKeepsTree(tables: Tables, places: map<nat, Place>, f: nat, i: nat, g: nat)
    requires Tree(tables, places) && f in tables && i < ENTRIES && g !in tables
    requires places[f].level > 1 && !Present(tables[f][i])
    ensures Tree(Attach(tables, f, i, g), places[g := Below(places[f], i)])
  {
    var t', places' := Attach(tables, f, i, g), places[g := Below(places[f], i)];
    TableEntryIsPointer(g, places[f].level);
    NoTableThere(tables, places, f, i);
    AttachPlaced(tables, places, f, i, g);
    assert HasChild(t', places', f, g);
    forall x, y | SamePlace(places', x, y) ensures x == y {
      if x != g && y != g { assert SamePlace(places, x, y); }
    }
    LinkedLater(tables, places, f, i, t', places');
  }

  lemma AttachPlaced(tables: Tables, places: map<nat, Place>, f: nat, i: nat, g: nat)
    requires Placed(tables, places) && f in tables && i < ENTRIES && g !in tables
    requires places[f].level > 1
    ensures Placed(Attach(tables, f, i, g), places[g := Below(places[f], i)])
  {
    TableEntryIsPointer(g, places[f].level);
  }

  /** No table has the place below an entry that is not a pointer. */
  lemma NoTableThere(tables: Tables, places: map<nat, Place>, f: nat, i: nat)
    requires Tree(tables, places) && f in tables && i < ENTRIES
    requires places[f].level > 1 && !IsPointer(tables[f][i], places[f].level)
    ensures forall h :: h in places ==> places[h] != Below(places[f], i)
  {
    forall h | h in places ensures places[h] != Below(places[f], i) {
      if places[h].level < 4 && places[h] == Below(places[f], i) {
        assert HasParent(tables, places, h);
        var parent :| HasChild(tables, places, parent, h);
        assert SamePlace(places, parent, f);
      }
    }
  }

  /** A new empty table changes no translation. */
  lemma AttachTranslates(tables: Tables, places: map<nat, Place>, f: nat, i: nat, g: nat, root: nat, v: nat)
    requires Tree(tables, places) && f in tables && i < ENTRIES && g !in tables
    requires places[f].level > 1 && !Present(tables[f][i])
    requires Serves(places, root, root, 4, v) && Prefix(v, 4) == 0
    ensures Translate(Attach(tables, f, i, g), root, v) == Translate(tables, root, v)
  {
    var t', places', p := Attach(tables, f, i, g), places[g := Below(places[f], i)], places[f];
    AttachKeepsTree(tables, places, f, i, g);
    if root == p.root && Prefix(v, p.level - 1) == p.prefix * ENTRIES + i {
      WalkEndsAt(tables, places, f, i, root, v);
      WalkReaches(t', places', g, root, p.level - 1, v);
      TableEntryIsPointer(g, p.level);
    } else {
      WalkUnchanged(tables, t', places, f, i, root, root, 4, v);
    }
  }

  lemma PrefixTop(v: nat)
    requires v < PAGES
    ensures Prefix(v, 1) == v / 0x200 && Prefix(v, 2) == v / 0x4_0000 && Prefix(v, 3) == v / 0x800_0000
    ensures Prefix(v, 4) == 0
  {
    assert Prefix(v, 1) == v / 0x200;
    assert Prefix(v, 2) == Prefix(v, 1) / 0x200;
    assert Prefix(v, 3) == Prefix(v, 2) / 0x200;
    assert Prefix(v, 4) == Prefix(v, 3) / 0x200;
  }

  /** The pages under one leaf are the aligned run it maps. */
  lemma LeafRun(level: nat, vpn: nat, v: nat)
    requires 1 <= level <= 3 && vpn % Span(level) == 0 && vpn < PAGES && v < PAGES
    ensures Prefix(v, level - 1) == Prefix(vpn, level - 1) <==> vpn <= v < vpn + Span(level)
    ensures vpn <= v < vpn + Span(level) ==> v % Span(level) == v - vpn
  {
    PrefixTop(v);
    PrefixTop(vpn);
  }

  // ------------------------------------------------------ installing a mapping

  /**
   The walk for a page is stopped above or at level `size`: a larger leaf is in
   the way, or, for a large page, the entry itself is already present.
   */
  predicate Blocked(tables: Tables, table: nat, level: nat, size: nat, vpn: nat)
    requires forall f :: f in tables ==> |tables[f]| == ENTRIES
    decreases level
  {
    if level == 0 || table !in tables then false else
    var e := tables[table][Index(vpn, level)];
    if !Present(e) then false
    else if level <= size then size > 1
    else if IsPointer(e, level) then Blocked(tables, e.frame, level - 1, size, vpn)
    else true
  }

  /** A 4KB page is refused exactly where a larger page already maps the address. */
  lemma {:induction false} SmallBlockedIff(tables: Tables, places: map<nat, Place>, f: nat, root: nat, level: nat, vpn: nat)
    requires Placed(tables, places) && Serves(places, f, root, level, vpn)
    ensures Blocked(tables, f, level, 1, vpn) <==> FindLeaf(tables, f, level, vpn).Some? && FindLeaf(tables, f, level, vpn).value.level > 1
    decreases level
  {
    var e := tables[f][Index(vpn, level)];
    if level > 1 && IsPointer(e, level) {
      SmallBlockedIff(tables, places, e.frame, root, level - 1, vpn);
    }
  }

  /** Where a large page is accepted, none of its addresses was mapped. */
  lemma {:induction false} LargeNeedsUnmapped(tables: Tables, places: map<nat, Place>, f: nat, root: nat, level: nat, size: nat, vpn: nat, v: nat)
    requires Placed(tables, places) && Serves(places, f, root, level, vpn)
    requires 1 < size <= level && Prefix(v, size - 1) == Prefix(vpn, size - 1)
    requires !Blocked(tables, f, level, size, vpn)
    ensures FindLeaf(tables, f, level, v) == None
    decreases level
  {
    PrefixAbove(vpn, v, size - 1, level - 1);
    var e := tables[f][Index(vpn, level)];
    if level > size && IsPointer(e, level) {
      LargeNeedsUnmapped(tables, places, e.frame, root, level - 1, size, vpn, v);
    }
  }

  lemma {:induction false} PrefixAbove(v: nat, w: nat, low: nat, high: nat)
    requires low <= high && Prefix(v, low) == Prefix(w, low)
    ensures Prefix(v, high) == Prefix(w, high) && Prefix(v, high + 1) == Prefix(w, high + 1)
    decreases high
  {
    if low < high { PrefixAbove(v, w, low, high - 1); }
  }

  lemma {:induction false} BlockedAt(tables: Tables, places: map<nat, Place>, f: nat, root: nat, level: nat, size: nat, vpn: nat)
    requires Tree(tables, places) && Serves(places, f, root, level, vpn) && Prefix(vpn, 4) == 0
    requires 1 <= size <= level
    ensures Blocked(tables, root, 4, size, vpn) == Blocked(tables, f, level, size, vpn)
    decreases 4 - level
  {
    if level < 4 {
      assert HasParent(tables, places, f);
      var g :| HasChild(tables, places, g, f);
      PrefixStep(vpn, level + 1);
      BlockedAt(tables, places, g, root, level + 1, size, vpn);
    }
  }

  // -------------------------------------------------- the tables that pages need

  /** A table of the level serves the page. */
  ghost predicate HasTableAt(places: map<nat, Place>, root: nat, level: nat, vpn: nat) {
    exists f :: Serves(places, f, root, level, vpn)
  }

  /** One of the pages lies below the same table of the level as `v`. */
  predicate Beside(vs: seq<nat>, level: nat, v: nat) {
    exists k :: 0 <= k < |vs| && Prefix(vs[k], level) == Prefix(v, level)
  }

  /**
   How many tables of the levels from `size` to `level` are not there for a page,
   once the pages `vs` have theirs.
   */
  ghost function Missing(places: map<nat, Place>, root: nat, size: nat, level: nat, v: nat, vs: seq<nat> := []): nat {
    (if size <= 1 <= level && Lacks(places, root, 1, v, vs) then 1 else 0)
    + (if size <= 2 <= level && Lacks(places, root, 2, v, vs) then 1 else 0)
    + (if size <= 3 <= level && Lacks(places, root, 3, v, vs) then 1 else 0)
  }

  ghost predicate Lacks(places: map<nat, Place>, root: nat, level: nat, v: nat, vs: seq<nat>) {
    !HasTableAt(places, root, level, v) && !Beside(vs, level, v)
  }

  /** How many tables mapping small pages one after the other takes. */
  ghost function TablesFor(places: map<nat, Place>, root: nat, vs: seq<nat>): nat {
    if vs == [] then 0 else
    var n := |vs| - 1; TablesFor(places, root, vs[..n]) + Missing(places, root, 1, 3, vs[n], vs[..n])
  }

  /** The tables of one address space are those there before and, at the levels from `low` to `high`, those for one page. */
  ghost predicate AddsTables(places: map<nat, Place>, places': map<nat, Place>, root: nat, low: nat, high: nat, vpn: nat) {
    forall r: nat, level: nat, v: nat {:trigger HasTableAt(places', r, level, v)} ::
      HasTableAt(places', r, level, v) <==>
        HasTableAt(places, r, level, v) || (r == root && low <= level <= high && Prefix(v, level) == Prefix(vpn, level))
  }

  /** The tables of one address space are those there before and those for these small pages. */
  ghost predicate TablesAre(places: map<nat, Place>, places': map<nat, Place>, root: nat, vs: seq<nat>) {
    forall level: nat, v: nat {:trigger HasTableAt(places', root, level, v)} :: 1 <= level <= 3 ==>
      (HasTableAt(places', root, level, v) <==> HasTableAt(places, root, level, v) || Beside(vs, level, v))
  }

  lemma BesideMore(vs: seq<nat>, w: nat, level: nat, v: nat)
    ensures Beside(vs + [w], level, v) <==> Beside(vs, level, v) || Prefix(w, level) == Prefix(v, level)
  {
    assert (vs + [w])[|vs|] == w;
    forall k | 0 <= k < |vs| ensures (vs + [w])[k] == vs[k] {}
  }

  lemma TablesAreMore(p0: map<nat, Place>, p1: map<nat, Place>, p2: map<nat, Place>, root: nat, vs: seq<nat>, v: nat)
    requires TablesAre(p0, p1, root, vs) && AddsTables(p1, p2, root, 1, 3, v)
    ensures TablesAre(p0, p2, root, vs + [v])
  {
    forall level, w: nat | 1 <= level <= 3
      ensures HasTableAt(p2, root, level, w) <==> HasTableAt(p0, root, level, w) || Beside(vs + [v], level, w)
    {
      BesideMore(vs, v, level, w);
      assert HasTableAt(p1, root, level, w) <==> HasTableAt(p0, root, level, w) || Beside(vs, level, w);
    }
  }

  /** What is missing for one more page, told from the start. */
  lemma MissingThen(p0: map<nat, Place>, p1: map<nat, Place>, root: nat, vs: seq<nat>, v: nat)
    requires TablesAre(p0, p1, root, vs)
    ensures Missing(p1, root, 1, 3, v) == Missing(p0, root, 1, 3, v, vs)
  {
    forall level: nat | 1 <= level <= 3 ensures Lacks(p1, root, level, v, []) <==> Lacks(p0, root, level, v, vs) {
      assert HasTableAt(p1, root, level, v) <==> HasTableAt(p0, root, level, v) || Beside(vs, level, v);
    }
  }

  lemma TablesForMore(places: map<nat, Place>, root: nat, vs: seq<nat>, v: nat)
    ensures TablesFor(places, root, vs + [v]) == TablesFor(places, root, vs) + Missing(places, root, 1, 3, v, vs)
  {
    assert (vs + [v])[..|vs|] == vs;
  }

  /** A new table of a level leaves what is missing below it. */
  lemma MissingBelow(places: map<nat, Place>, places': map<nat, Place>, root: nat, size: nat, level: nat, vpn: nat)
    requires AddsTables(places, places', root, level, level, vpn) && 0 < size <= level <= 3
    ensures Missing(places', root, size, level - 1, vpn) == Missing(places, root, size, level - 1, vpn)
    ensures Missing(places, root, size, level, vpn) ==
      (if HasTableAt(places, root, level, vpn) then 0 else 1) + Missing(places, root, size, level - 1, vpn)
  {
    forall l: nat | l < level ensures Lacks(places', root, l, vpn, []) <==> Lacks(places, root, l, vpn, []) {
      assert HasTableAt(places', root, l, vpn) <==> HasTableAt(places, root, l, vpn);
    }
    assert !Beside([], level, vpn);
  }

  /** Where the way to a table of the last level is complete, none is missing. */
  lemma AllThere(tables: Tables, places: map<nat, Place>, root: nat, vpn: nat)
    requires Tree(tables, places) && HasTableAt(places, root, 1, vpn)
    ensures Missing(places, root, 1, 3, vpn) == 0
    ensures forall level :: 1 <= level <= 3 ==> HasTableAt(places, root, level, vpn)
  {
    var f :| Serves(places, f, root, 1, vpn);
    var g := ServedAbove(tables, places, f, root, 1, vpn);
    var h := ServedAbove(tables, places, g, root, 2, vpn);
    assert HasTableAt(places, root, 2, vpn) && HasTableAt(places, root, 3, vpn);
  }

  lemma {:induction false} PrefixUp(prefix: nat, level: nat) returns (v: nat)
    ensures Prefix(v, level) == prefix
    decreases level
  {
    v := prefix;
    if level > 0 { v := PrefixUp(prefix * ENTRIES, level - 1); }
  }

  lemma ServedAbove(tables: Tables, places: map<nat, Place>, f: nat, root: nat, level: nat, vpn: nat) returns (g: nat)
    requires Tree(tables, places) && Serves(places, f, root, level, vpn) && level < 4
    ensures Serves(places, g, root, level + 1, vpn) && IsPointer(tables[g][Index(vpn, level + 1)], level + 1) && tables[g][Index(vpn, level + 1)].frame == f
  {
    assert HasParent(tables, places, f);
    g :| HasChild(tables, places, g, f);
    PrefixStep(vpn, level + 1);
  }
}

module Paging {
  import opened Base
  import opened PageTree
  import Memory

  datatype SetResult = Installed | Rejected | NullTable

  const PAGE_SIZE_4KB: nat := 1
  const PAGE_SIZE_2MB: nat := 2
  const PAGE_SIZE_1GB: nat := 3

  const TABLE_TAG := Memory.Tag("MemoryPagingSetPage", 194)

  /** Addresses and page size acceptable to MemoryPagingSetPage. */
  predicate Aligned(va: nat, pa: nat, size: nat) {
    1 <= size <= 3 && va % (4096 * Span(size)) == 0 && pa % (4096 * Span(size)) == 0
  }

  /** The frame shares a byte with this allocation in use. */
  predicate Shares(s: Memory.Slot, f: nat) {
    s.used && s.addr < (f + 1) * 4096 && f * 4096 < s.addr + s.size
  }

  /** The frame shares a byte with some allocation in use, so that no request can be granted it. */
  ghost predicate FrameHeld(slots: seq<Memory.Slot>, f: nat) {
    exists i :: 0 <= i < |slots| && Shares(slots[i], f)
  }

  lemma HeldLater(before: seq<Memory.Slot>, after: seq<Memory.Slot>, f: nat)
    requires Memory.Extends(before, after) && FrameHeld(before, f)
    ensures FrameHeld(after, f)
  {
    var i :| 0 <= i < |before| && Shares(before[i], f);
    assert after[i] == before[i];
  }

  lemma FreeIsNotHeld(slots: seq<Memory.Slot>, f: nat)
    requires Memory.IsFree(slots, f * 4096, 4096)
    ensures !FrameHeld(slots, f)
  {
    if FrameHeld(slots, f) {
      var i :| 0 <= i < |slots| && Shares(slots[i], f);
      assert Memory.Clash(slots[i], f * 4096, 4096);
    }
  }

  lemma Shifts(va: nat)
    ensures va / 0x20_0000 == va / 4096 / 0x200
    ensures va / 0x4000_0000 == va / 4096 / 0x4_0000
    ensures va / 0x80_0000_0000 == va / 4096 / 0x800_0000
  {
  }

  /** An aligned address starts a page of its size. */
  lemma AlignedSpan(va: nat, pa: nat, size: nat)
    requires Aligned(va, pa, size)
    ensures va / 4096 % Span(size) == 0
  {
    if size == PAGE_SIZE_2MB {
      var q := va / 0x20_0000;
      assert va == 0x20_0000 * q && va / 4096 == 0x200 * q;
    } else if size == PAGE_SIZE_1GB {
      var q := va / 0x4000_0000;
      assert va == 0x4000_0000 * q && va / 4096 == 0x4_0000 * q;
    }
  }

  /** What the allocator answers to a request for memory that starts a page. */
  ghost predicate IsReply(r: Memory.Reply, tables: seq<Memory.Table>, slots: seq<Memory.Slot>, blocks: seq<Memory.Block>, n: nat, tag: Memory.Tag) {
    r == Memory.Request(tables, slots, blocks, n, Memory.Align4KB, tag)
  }

  /** A request for memory that starts a page. */
  datatype Ask = Ask(size: nat, tag: Memory.Tag)

  /** The allocator's records: its tables, and the allocations in use. */
  datatype Books = Books(mt: seq<Memory.Table>, slots: seq<Memory.Slot>)

  /** What the allocator answers to requests made one after the other, up to the first that is refused. */
  ghost function AnswerTo(b: Books, blocks: seq<Memory.Block>, asks: seq<Ask>): Memory.Reply
    decreases |asks|
  {
    if asks == [] then Memory.Reply(b.mt, b.slots, Memory.Granted(0)) else
    var r := Memory.Request(b.mt, b.slots, blocks, asks[0].size, Memory.Align4KB, asks[0].tag);
    if r.outcome.Granted? then AnswerTo(Books(r.tables, r.slots), blocks, asks[1..]) else r
  }

  ghost predicate IsAnswer(r: Memory.Reply, b: Books, blocks: seq<Memory.Block>, asks: seq<Ask>) {
    r == AnswerTo(b, blocks, asks)
  }

  /** Exactly these requests were made, up to the first that was refused; `ok` if all were granted. */
  ghost predicate Took(b: Books, blocks: seq<Memory.Block>, asks: seq<Ask>, ok: bool, b': Books) {
    forall r {:trigger IsAnswer(r, b, blocks, asks)} :: IsAnswer(r, b, blocks, asks) ==>
      (ok <==> r.outcome.Granted?) && b' == Books(r.tables, r.slots)
  }

  lemma {:induction false} AnswerSplit(b: Books, blocks: seq<Memory.Block>, asks: seq<Ask>, more: seq<Ask>)
    ensures var r := AnswerTo(b, blocks, asks);
      AnswerTo(b, blocks, asks + more) == if r.outcome.Granted? then AnswerTo(Books(r.tables, r.slots), blocks, more) else r
    decreases |asks|
  {
    if asks == [] {
      assert asks + more == more;
    } else {
      var r := Memory.Request(b.mt, b.slots, blocks, asks[0].size, Memory.Align4KB, asks[0].tag);
      assert (asks + more)[0] == asks[0] && (asks + more)[1..] == asks[1..] + more;
      AnswerSplit(Books(r.tables, r.slots), blocks, asks[1..], more);
    }
  }

  /** Requests and then more of them, which are made only if the first were all granted. */
  lemma TookThen(b: Books, blocks: seq<Memory.Block>, asks: seq<Ask>, ok: bool, b1: Books, more: seq<Ask>, ok': bool, b2: Books)
    requires Took(b, blocks, asks, ok, b1)
    requires if ok then Took(b1, blocks, more, ok', b2) else !ok' && b2 == b1
    ensures Took(b, blocks, asks + more, ok', b2)
  {
    AnswerSplit(b, blocks, asks, more);
    var r := AnswerTo(b, blocks, asks);
    assert IsAnswer(r, b, blocks, asks);
    if ok { assert IsAnswer(AnswerTo(b1, blocks, more), b1, blocks, more); }
  }

  lemma TookNone(b: Books, blocks: seq<Memory.Block>)
    ensures Took(b, blocks, [], true, b)
  {
  }

  /** The same requests of the same records end the same way. */
  lemma TookOnce(b: Books, blocks: seq<Memory.Block>, asks: seq<Ask>, ok: bool, b1: Books, ok': bool, b2: Books)
    requires Took(b, blocks, asks, ok, b1) && Took(b, blocks, asks, ok', b2)
    ensures ok == ok' && b1 == b2
  {
    assert IsAnswer(AnswerTo(b, blocks, asks), b, blocks, asks);
  }

  lemma TookOne(b: Books, blocks: seq<Memory.Block>, n: nat, tag: Memory.Tag, r: Memory.Reply)
    requires r == Memory.Request(b.mt, b.slots, blocks, n, Memory.Align4KB, tag)
    ensures Took(b, blocks, [Ask(n, tag)], r.outcome.Granted?, Books(r.tables, r.slots))
  {
    assert [Ask(n, tag)][1..] == [];
    assert r.outcome.Granted? ==> AnswerTo(Books(r.tables, r.slots), blocks, []) == Memory.Reply(r.tables, r.slots, Memory.Granted(0));
  }

  /** No space is left for a request, or none for the table that it needs first. */
  ghost predicate Full(slots: seq<Memory.Slot>, blocks: seq<Memory.Block>, n: nat) {
    || Memory.NoSpace(slots, blocks, n, Memory.Align4KB)
    || (Memory.Crowded(slots) &&
        (Memory.NoSpace(slots, blocks, Memory.TABLE_INDEX_SIZE, Memory.AlignNone) || Memory.NoSpace(slots, blocks, Memory.NEW_TABLE_SIZE, Memory.AlignNone)))
  }

  lemma OneAsked(b: Books, blocks: seq<Memory.Block>, ask: Ask) returns (ok: bool, next: Books)
    requires Memory.WellFormed(b.mt, b.slots)
    ensures Took(b, blocks, [ask], ok, next) && if ok then Memory.WellFormed(next.mt, next.slots) else Full(next.slots, blocks, ask.size)
  {
    var r := Memory.Request(b.mt, b.slots, blocks, ask.size, Memory.Align4KB, ask.tag);
    Memory.RequestKeepsWellFormed(b.mt, b.slots, blocks, ask.size, Memory.Align4KB, ask.tag);
    Memory.RequestJustified(b.mt, b.slots, blocks, ask.size, Memory.Align4KB, ask.tag);
    TookOne(b, blocks, ask.size, ask.tag, r);
    ok, next := r.outcome.Granted?, Books(r.tables, r.slots);
  }

  /** The first request is granted or refused, and the others follow. */
  lemma TookFirst(b: Books, blocks: seq<Memory.Block>, asks: seq<Ask>, ok: bool, b': Books, granted: bool, next: Books)
    requires asks != [] && Took(b, blocks, asks, ok, b') && Took(b, blocks, [asks[0]], granted, next)
    ensures if granted then Took(next, blocks, asks[1..], ok, b') else !ok && b' == next
  {
    assert asks == [asks[0]] + asks[1..];
    AnswerSplit(b, blocks, [asks[0]], asks[1..]);
    assert IsAnswer(AnswerTo(b, blocks, asks), b, blocks, asks) && IsAnswer(AnswerTo(b, blocks, [asks[0]]), b, blocks, [asks[0]]);
  }

  /**
   Why requests fail: at the first one that is refused, all before it having been
   granted, no space is left for it, or none for the table that it needs first.
   */
  lemma {:induction false} WhyRefused(b: Books, blocks: seq<Memory.Block>, asks: seq<Ask>, b': Books) returns (k: nat, bk: Books)
    requires Memory.WellFormed(b.mt, b.slots) && Took(b, blocks, asks, false, b')
    ensures k < |asks| && Took(b, blocks, asks[..k], true, bk) && Memory.WellFormed(bk.mt, bk.slots)
    ensures Took(bk, blocks, [asks[k]], false, b') && Full(b'.slots, blocks, asks[k].size)
    decreases |asks|
  {
    TookNone(b, blocks);
    if asks == [] { TookOnce(b, blocks, [], true, b, false, b'); }
    var ok, next := OneAsked(b, blocks, asks[0]);
    TookFirst(b, blocks, asks, false, b', ok, next);
    if ok {
      k, bk := WhyRefused(next, blocks, asks[1..], b');
      TookThen(b, blocks, [asks[0]], true, next, asks[1..][..k], true, bk);
      assert [asks[0]] + asks[1..][..k] == asks[..k + 1];
      k := k + 1;
    } else {
      assert asks[..0] == [];
      k, bk := 0, b;
    }
  }

  /** Memory of a size was asked for, and this is what came of it. */
  ghost predicate Ranged(b: Books, blocks: seq<Memory.Block>, n: nat, tag: Memory.Tag, addr: Option<nat>, b': Books) {
    && Took(b, blocks, [Ask(n, tag)], addr.Some?, b')
    && forall r {:trigger IsReply(r, b.mt, b.slots, blocks, n, tag)} :: IsReply(r, b.mt, b.slots, blocks, n, tag) ==>
         (addr.Some? <==> r.outcome.Granted?) && (addr.Some? ==> addr.value == r.outcome.addr) && b' == Books(r.tables, r.slots)
  }

  /** The requests for `n` page tables. */
  function TableAsks(n: nat): seq<Ask> { seq(n, _ => Ask(4096, TABLE_TAG)) }

  lemma TableAsksAdd(m: nat, n: nat)
    ensures TableAsks(0) == [] && TableAsks(1) == [Ask(4096, TABLE_TAG)] && TableAsks(m + n) == TableAsks(m) + TableAsks(n)
  {
  }

  /** Where a table is created, the tables for the page at that level are the only new ones. */
  lemma AttachAdds(tables: Tables, places: map<nat, Place>, f: nat, i: nat, g: nat, root: nat, level: nat, vpn: nat)
    requires Tree(tables, places) && Serves(places, f, root, level, vpn) && level > 1 && i == Index(vpn, level)
    requires !IsPointer(tables[f][i], level) && g !in places
    ensures AddsTables(places, places[g := Below(places[f], i)], root, level - 1, level - 1, vpn)
  {
    var places' := places[g := Below(places[f], i)];
    forall r: nat, l: nat, v: nat
      ensures HasTableAt(places', r, l, v) <==>
        HasTableAt(places, r, l, v) || (r == root && level - 1 <= l <= level - 1 && Prefix(v, l) == Prefix(vpn, l))
    {
      if h :| Serves(places, h, r, l, v) { assert Serves(places', h, r, l, v); }
      if h :| Serves(places', h, r, l, v) { assert h != g ==> Serves(places, h, r, l, v); }
      if r == root && l == level - 1 && Prefix(v, l) == Prefix(vpn, l) { assert Serves(places', g, r, l, v); }
    }
  }

  /** Below an entry that is no pointer there is no table for the page. */
  lemma NotThere(tables: Tables, places: map<nat, Place>, f: nat, i: nat, root: nat, level: nat, vpn: nat)
    requires Tree(tables, places) && Serves(places, f, root, level, vpn) && level > 1 && i == Index(vpn, level)
    requires !IsPointer(tables[f][i], level)
    ensures !HasTableAt(places, root, level - 1, vpn)
  {
    NoTableThere(tables, places, f, i);
  }

  /** A table that is there already adds none. */
  lemma ThereAdds(places: map<nat, Place>, g: nat, root: nat, level: nat, vpn: nat)
    requires Serves(places, g, root, level, vpn)
    ensures AddsTables(places, places, root, level, level, vpn) && HasTableAt(places, root, level, vpn)
  {
    forall v: nat | Prefix(v, level) == Prefix(vpn, level) ensures HasTableAt(places, root, level, v) {
      assert Serves(places, g, root, level, v);
    }
  }

  /** The tables of a level, and then those below. */
  lemma DescendAsks(p0: map<nat, Place>, p1: map<nat, Place>, root: nat, low: nat, level: nat, vpn: nat,
                    b0: Books, b1: Books, blocks: seq<Memory.Block>, ok: bool, b2: Books)
    requires 0 < low <= level <= 3 && AddsTables(p0, p1, root, level, level, vpn)
    requires Took(b0, blocks, TableAsks(if HasTableAt(p0, root, level, vpn) then 0 else 1), true, b1)
    requires Took(b1, blocks, TableAsks(Missing(p1, root, low, level - 1, vpn)), ok, b2)
    ensures Took(b0, blocks, TableAsks(Missing(p0, root, low, level, vpn)), ok, b2)
  {
    MissingBelow(p0, p1, root, low, level, vpn);
    var m, n := if HasTableAt(p0, root, level, vpn) then 0 else 1, Missing(p1, root, low, level - 1, vpn);
    TableAsksAdd(m, n);
    TookThen(b0, blocks, TableAsks(m), true, b1, TableAsks(n), ok, b2);
  }

  lemma DescendAdds(p0: map<nat, Place>, p1: map<nat, Place>, p2: map<nat, Place>, root: nat, low: nat, level: nat, vpn: nat)
    requires 0 < low <= level && AddsTables(p0, p1, root, level, level, vpn) && AddsTables(p1, p2, root, low, level - 1, vpn)
    ensures AddsTables(p0, p2, root, low, level, vpn)
  {
    forall r: nat, l: nat, v: nat
      ensures HasTableAt(p2, r, l, v) <==> HasTableAt(p0, r, l, v) || (r == root && low <= l <= level && Prefix(v, l) == Prefix(vpn, l))
    {
      assert HasTableAt(p1, r, l, v) <==> HasTableAt(p0, r, l, v) || (r == root && level <= l <= level && Prefix(v, l) == Prefix(vpn, l));
    }
  }

  /** The state of the page tables and of the allocator. */
  datatype Shot = Shot(tables: Tables, places: map<nat, Place>, books: Books, bytes: map<nat, byte>)

  /**
   How setting a page went from a table of a level on: refused exactly if the way
   is blocked, with nothing changed; otherwise exactly the missing tables were
   asked for, and if all were granted exactly the pages asked for are remapped.
   */
  ghost predicate SetWent(s: Shot, r: SetResult, s': Shot, f: nat, level: nat, root: nat, size: nat, vpn: nat, e: Entry, blocks: seq<Memory.Block>)
    requires Sized(s.tables) && level > 0
  {
    && (r.Rejected? <==> Blocked(s.tables, f, level, size, vpn))
    && (r.Rejected? ==> s' == s)
    && (!r.Rejected? ==> Took(s.books, blocks, TableAsks(Missing(s.places, root, size, level - 1, vpn)), r.Installed?, s'.books))
    && (r.Installed? ==>
      && Sized(s'.tables) && Remaps(s.tables, s.places, s'.tables, root, vpn, Span(size), e) && BytesKept(s, s')
      && Grows(s.places, s.books.slots, s'.places, s'.books.slots) && AddsTables(s.places, s'.places, root, size, level - 1, vpn))
  }

  /** No byte of an allocation that was in use has changed. */
  ghost predicate BytesKept(s: Shot, s': Shot) {
    Memory.LiveKept(s.books.slots, s.bytes, s'.bytes)
  }

  lemma BytesKeptThen(s0: Shot, s1: Shot, s2: Shot)
    requires BytesKept(s0, s1) && Memory.Extends(s0.books.slots, s1.books.slots) && BytesKept(s1, s2)
    ensures BytesKept(s0, s2)
  {
    Memory.LiveKeptThen(s0.books.slots, s0.bytes, s1.books.slots, s1.bytes, s2.bytes);
  }

  /** The walk went one level down, with a new table if none was there. */
  ghost predicate WentDown(s: Shot, s': Shot, f: nat, next: nat, level: nat, root: nat, size: nat, vpn: nat, blocks: seq<Memory.Block>)
    requires Sized(s.tables) && Sized(s'.tables) && level > 1
  {
    && Placed(s.tables, s.places) && Placed(s'.tables, s'.places) && Serves(s'.places, next, root, level - 1, vpn)
    && Blocked(s'.tables, next, level - 1, size, vpn) == Blocked(s.tables, f, level, size, vpn)
    && (Blocked(s.tables, f, level, size, vpn) ==> s' == s)
    && SameTranslations(s.tables, s.places, s'.tables) && BytesKept(s, s')
    && Grows(s.places, s.books.slots, s'.places, s'.books.slots) && AddsTables(s.places, s'.places, root, level - 1, level - 1, vpn)
    && Took(s.books, blocks, TableAsks(if HasTableAt(s.places, root, level - 1, vpn) then 0 else 1), true, s'.books)
  }

  lemma AlreadyThere(tables: Tables, places: map<nat, Place>, f: nat, i: nat, root: nat, level: nat, size: nat, vpn: nat, s: Shot, blocks: seq<Memory.Block>)
    requires Tree(tables, places) && Serves(places, f, root, level, vpn) && level > size > 0 && i == Index(vpn, level) && IsPointer(tables[f][i], level)
    requires s.tables == tables && s.places == places
    ensures WentDown(s, s, f, tables[f][i].frame, level, root, size, vpn, blocks)
  {
    TableAsksAdd(0, 0);
    TookNone(s.books, blocks);
    ThereAdds(places, tables[f][i].frame, root, level - 1, vpn);
  }

  lemma Attached(s: Shot, s': Shot, f: nat, i: nat, g: nat, root: nat, level: nat, size: nat, vpn: nat, blocks: seq<Memory.Block>)
    requires Tree(s.tables, s.places) && Serves(s.places, f, root, level, vpn) && level > size > 0 && i == Index(vpn, level)
    requires !Present(s.tables[f][i]) && g !in s.tables && s'.tables == Attach(s.tables, f, i, g) && s'.places == s.places[g := Below(s.places[f], i)]
    requires Memory.Extends(s.books.slots, s'.books.slots) && !FrameHeld(s.books.slots, g)
    requires Took(s.books, blocks, TableAsks(1), true, s'.books) && BytesKept(s, s')
    ensures Sized(s'.tables) && WentDown(s, s', f, g, level, root, size, vpn, blocks)
  {
    NotThere(s.tables, s.places, f, i, root, level, vpn);
    AttachAdds(s.tables, s.places, f, i, g, root, level, vpn);
    AttachSame(s.tables, s.places, f, i, g, root, level, vpn);
    assert !Blocked(s.tables, f, level, size, vpn);
  }

  /** One level down and then the rest. */
  lemma Descended(s0: Shot, s1: Shot, r: SetResult, s2: Shot, f: nat, next: nat, level: nat, root: nat, size: nat, vpn: nat, e: Entry, blocks: seq<Memory.Block>)
    requires 0 < size < level <= 4 && Sized(s0.tables) && Sized(s1.tables)
    ensures WentDown(s0, s1, f, next, level, root, size, vpn, blocks) && SetWent(s1, r, s2, next, level - 1, root, size, vpn, e, blocks) ==>
      SetWent(s0, r, s2, f, level, root, size, vpn, e, blocks)
  {
    if !(WentDown(s0, s1, f, next, level, root, size, vpn, blocks) && SetWent(s1, r, s2, next, level - 1, root, size, vpn, e, blocks)) {
      return;
    }
    if !r.Rejected? {
      DescendAsks(s0.places, s1.places, root, size, level - 1, vpn, s0.books, s1.books, blocks, r.Installed?, s2.books);
    }
    if r.Installed? {
      DescendAdds(s0.places, s1.places, s2.places, root, size, level - 1, vpn);
      GrowsTwice(s0.places, s0.books.slots, s1.places, s1.books.slots, s2.places, s2.books.slots);
      BytesKeptThen(s0, s1, s2);
      SameThen(s0.tables, s0.places, s1.tables, s1.places, s2.tables, root, vpn, Span(size), e);
    }
  }

  /** Where the leaf belongs no table is needed. */
  lemma NoTables(places: map<nat, Place>, root: nat, vpn: nat, b: Books, blocks: seq<Memory.Block>, level: nat)
    requires level > 0
    ensures Took(b, blocks, TableAsks(Missing(places, root, level, level - 1, vpn)), true, b)
    ensures AddsTables(places, places, root, level, level - 1, vpn)
  {
    TableAsksAdd(0, 0);
  }

  /** The first table on the way was refused. */
  lemma DescendFails(p0: map<nat, Place>, root: nat, low: nat, level: nat, vpn: nat, b0: Books, b1: Books, blocks: seq<Memory.Block>)
    requires 0 < low <= level <= 3 && !HasTableAt(p0, root, level, vpn) && Took(b0, blocks, TableAsks(1), false, b1)
    ensures Took(b0, blocks, TableAsks(Missing(p0, root, low, level, vpn)), false, b1)
  {
    var n := Missing(p0, root, low, level - 1, vpn);
    assert !Beside([], level, vpn);
    TableAsksAdd(1, n);
    TookThen(b0, blocks, TableAsks(1), false, b1, TableAsks(n), false, b1);
  }

  /** The frame is the one granted, and the allocator went as it must. */
  ghost predicate Answered(r: Memory.Reply, f: Option<nat>, tables: seq<Memory.Table>, slots: seq<Memory.Slot>) {
    && (f.Some? <==> r.outcome.Granted?)
    && (f.Some? ==> f.value * 4096 == r.outcome.addr)
    && tables == r.tables && slots == r.slots
  }

  /** One page was asked for, and this is what came of it. */
  ghost predicate AskedPage(tables: seq<Memory.Table>, slots: seq<Memory.Slot>, blocks: seq<Memory.Block>, tag: Memory.Tag,
                            f: Option<nat>, tables': seq<Memory.Table>, slots': seq<Memory.Slot>) {
    forall r {:trigger IsReply(r, tables, slots, blocks, 4096, tag)} :: IsReply(r, tables, slots, blocks, 4096, tag) ==> Answered(r, f, tables', slots')
  }

  /** The next page granted became the table of the third level for a page. */
  ghost predicate GrantedTo(tables: seq<Memory.Table>, slots: seq<Memory.Slot>, blocks: seq<Memory.Block>, places: map<nat, Place>, root: nat, vpn: nat) {
    forall r {:trigger IsReply(r, tables, slots, blocks, 4096, TABLE_TAG)} :: IsReply(r, tables, slots, blocks, 4096, TABLE_TAG) ==>
      r.outcome.Granted? && exists g :: g * 4096 == r.outcome.addr && Serves(places, g, root, 3, vpn)
  }

  lemma GrantedLater(tables: seq<Memory.Table>, slots: seq<Memory.Slot>, blocks: seq<Memory.Block>, tables': seq<Memory.Table>, slots': seq<Memory.Slot>,
                     g: nat, places: map<nat, Place>, places': map<nat, Place>, root: nat, vpn: nat)
    requires Serves(places, g, root, 3, vpn) && Keeps(places, places')
    ensures AskedPage(tables, slots, blocks, TABLE_TAG, Some(g), tables', slots') ==> GrantedTo(tables, slots, blocks, places', root, vpn)
  {
    assert Serves(places', g, root, 3, vpn);
  }

  /** A table of the last level serves the page, so that mapping it takes no memory. */
  ghost predicate HasTable(places: map<nat, Place>, root: nat, vpn: nat) {
    HasTableAt(places, root, 1, vpn)
  }

  /** Where all tables are there, mapping a page makes no other. */
  lemma NoneAdded(tables: Tables, places: map<nat, Place>, b: Books, blocks: seq<Memory.Block>, tables': Tables, places': map<nat, Place>, b': Books,
                  root: nat, vpn: nat, ok: bool)
    requires Tree(tables, places) && HasTable(places, root, vpn) && Took(b, blocks, TableAsks(Missing(places, root, 1, 3, vpn)), ok, b')
    ensures ok && b' == b
    ensures Tree(tables', places') && Keeps(places, places') && AddsTables(places, places', root, 1, 3, vpn) ==> places' == places
  {
    AllThere(tables, places, root, vpn);
    TableAsksAdd(0, 0);
    TookNone(b, blocks);
    TookOnce(b, blocks, [], true, b, ok, b');
    if Tree(tables', places') && Keeps(places, places') && AddsTables(places, places', root, 1, 3, vpn) {
      forall g | g in places' ensures g in places {
        var p := places'[g];
        var v := PrefixUp(p.prefix, p.level);
        assert Serves(places', g, p.root, p.level, v);
        assert HasTableAt(places', p.root, p.level, v);
        if p.root == root && p.level <= 3 && Prefix(v, p.level) == Prefix(vpn, p.level) {
          assert HasTableAt(places, root, p.level, vpn);
          var f :| Serves(places, f, root, p.level, vpn);
          assert SamePlace(places', f, g);
        } else {
          assert HasTableAt(places, p.root, p.level, v);
          var f :| Serves(places, f, p.root, p.level, v);
          assert SamePlace(places', f, g);
        }
      }
      assert places'.Keys == places.Keys;
    }
  }

  lemma PageAddress(i: nat)
    ensures i * 4096 / 4096 == i && Aligned(i * 4096, i * 4096, PAGE_SIZE_4KB)
  {
  }

  class PageTables {
    const mm: Memory.Allocator
    var tables: Tables
    ghost var places: map<nat, Place>

    ghost predicate Valid()
      reads this, mm
    {
      && mm.Valid()
      && Tree(tables, places)
      && forall f {:trigger FrameHeld(mm.slots, f)} :: f in tables ==> FrameHeld(mm.slots, f)
    }

    /** A zeroed top-level table in memory that is already accounted for. */
    constructor (mm: Memory.Allocator, pml4: nat)
      requires mm.Valid() && FrameHeld(mm.slots, pml4)
      ensures Valid() && this.mm == mm
      ensures tables == map[pml4 := ZeroTable()] && places == map[pml4 := Place(pml4, 4, 0)]
    {
      this.mm := mm;
      tables := map[pml4 := ZeroTable()];
      places := map[pml4 := Place(pml4, 4, 0)];
      new;
      assert !Present(ZERO);
    }

    /** The allocator's records. */
    ghost function Mem(): Books
      reads mm
    {
      Books(mm.tables, mm.slots)
    }

    ghost function Now(): Shot
      reads this, mm
    {
      Shot(tables, places, Mem(), mm.bytes)
    }

    /** Root of an address space. */
    ghost predicate IsRoot(pml4: nat)
      reads this
    {
      pml4 in places && places[pml4].level == 4
    }

    /** The VA_GET macros select the indices of the walk. */
    static method SplitAddress(va: nat) returns (pml4e: nat, pdpte: nat, pde: nat, pte: nat)
      requires va / 4096 < PAGES
      ensures var vpn := va / 4096;
        && Prefix(vpn, 4) == 0
        && pml4e == Index(vpn, 4) && pdpte == Index(vpn, 3) && pde == Index(vpn, 2) && pte == Index(vpn, 1)
    {
      PrefixTop(va / 4096);
      Shifts(va);
      pml4e, pdpte, pde, pte := va / 0x80_0000_0000, va / 0x4000_0000 % 512, va / 0x20_0000 % 512, va / 0x1000 % 512;
    }

    /** MemoryPagingPagePresent: the leaf that maps an address. */
    method PagePresent(pml4: nat, va: nat) returns (leaf: Option<Leaf>)
      requires Tree(tables, places) && IsRoot(pml4) && va / 4096 < PAGES
      ensures leaf == FindLeaf(tables, pml4, 4, va / 4096)
    {
      ghost var vpn := va / 4096;
      var pml4e, pdpte, pde, pte := SplitAddress(va);
      if !Present(tables[pml4][pml4e]) {
        return None;
      }
      var pdpt := tables[pml4][pml4e].frame;
      if Present(tables[pdpt][pdpte]) && Large(tables[pdpt][pdpte]) {
        return Some(Leaf(pdpt, pdpte, 3));
      } else if !Present(tables[pdpt][pdpte]) {
        return None;
      }
      var pd := tables[pdpt][pdpte].frame;
      if Present(tables[pd][pde]) && Large(tables[pd][pde]) {
        return Some(Leaf(pd, pde, 2));
      } else if !Present(tables[pd][pde]) {
        return None;
      }
      var pt := tables[pd][pde].frame;
      if Present(tables[pt][pte]) {
        return Some(Leaf(pt, pte, 1));
      }
      return None;
    }

    /** Allocate, clear and hang a table below an absent entry. */
    method NewTable(f: nat, i: nat) returns (g: Option<nat>)
      requires Valid() && f in tables && i < ENTRIES && places[f].level > 1 && !Present(tables[f][i])
      modifies this, mm
      ensures g.None? ==> tables == old(tables) && places == old(places)
      ensures g.Some? ==>
        && Valid() && g.value !in old(tables)
        && tables == Attach(old(tables), f, i, g.value)
        && places == old(places)[g.value := Below(old(places)[f], i)]
        && Memory.Extends(old(mm.slots), mm.slots)
        && !FrameHeld(old(mm.slots), g.value) && Memory.LiveKept(old(mm.slots), old(mm.bytes), mm.bytes)
      ensures AskedPage(old(mm.tables), old(mm.slots), mm.blocks, TABLE_TAG, g, mm.tables, mm.slots)
      ensures Took(old(Mem()), mm.blocks, TableAsks(1), g.Some?, Mem())
    {
      TableAsksAdd(1, 0);
      g := NewFrame(TABLE_TAG);
      if g.None? {
        return;
      }
      AttachKeepsTree(tables, places, f, i, g.value);
      tables := tables[f := tables[f][i := Entry(g.value, TABLE_FLAGS)]];
      tables := tables[g.value := ZeroTable()];
      places := places[g.value := Below(places[f], i)];
    }

    /** malloc_align of one page: the frame granted was no part of any allocation in use. */
    method NewFrame(tag: Memory.Tag) returns (f: Option<nat>)
      requires mm.Valid()
      modifies mm
      ensures f.Some? ==>
        && mm.Valid() && Memory.Extends(old(mm.slots), mm.slots)
        && FrameHeld(mm.slots, f.value) && !FrameHeld(old(mm.slots), f.value)
        && Memory.Holds(mm.slots, f.value * 4096, 4096, tag)
        && (forall h :: FrameHeld(old(mm.slots), h) ==> FrameHeld(mm.slots, h))
        && Memory.LiveKept(old(mm.slots), old(mm.bytes), mm.bytes)
      ensures AskedPage(old(mm.tables), old(mm.slots), mm.blocks, tag, f, mm.tables, mm.slots)
      ensures Took(old(Mem()), mm.blocks, [Ask(4096, tag)], f.Some?, Mem())
    {
      var outcome := mm.Malloc(4096, Memory.Align4KB, tag);
      TookOne(old(Mem()), mm.blocks, 4096, tag, Memory.Reply(mm.tables, mm.slots, outcome));
      if !outcome.Granted? {
        return None;
      }
      f := Some(outcome.addr / 4096);
      FreeIsNotHeld(old(mm.slots), f.value);
      NewFrameHeld(mm.slots, f.value, tag);
      forall h | FrameHeld(old(mm.slots), h) ensures FrameHeld(mm.slots, h) {
        HeldLater(old(mm.slots), mm.slots, h);
      }
    }

    /** malloc_align of any size: memory that was in no allocation. */
    method NewRange(n: nat, tag: Memory.Tag) returns (addr: Option<nat>)
      requires Valid()
      modifies mm
      ensures addr.Some? ==>
        && Valid() && Memory.Extends(old(mm.slots), mm.slots) && Memory.Holds(mm.slots, addr.value, n, tag)
        && addr.value % 4096 == 0 && Memory.IsFree(old(mm.slots), addr.value, n) && Memory.LiveKept(old(mm.slots), old(mm.bytes), mm.bytes)
      ensures Ranged(old(Mem()), mm.blocks, n, tag, addr, Mem())
    {
      var outcome := mm.Malloc(n, Memory.Align4KB, tag);
      TookOne(old(Mem()), mm.blocks, n, tag, Memory.Reply(mm.tables, mm.slots, outcome));
      addr := None;
      if outcome.Granted? {
        addr := Some(outcome.addr);
        forall f | f in tables ensures FrameHeld(mm.slots, f) { HeldLater(old(mm.slots), mm.slots, f); }
      }
    }

    /** The table below an entry that is no leaf, created when the entry is absent. */
    method NextTable(f: nat, i: nat, ghost root: nat, ghost level: nat, ghost size: nat, ghost vpn: nat) returns (g: Option<nat>)
      requires Valid() && Serves(places, f, root, level, vpn) && level > 1 && i == Index(vpn, level) && Prefix(vpn, 4) == 0
      requires 1 <= size < level && (Present(tables[f][i]) ==> IsPointer(tables[f][i], level))
      modifies this, mm
      ensures g.None? || Valid()
      ensures old(Present(tables[f][i])) ==> g == Some(old(tables[f][i].frame)) && Now() == old(Now())
      ensures !old(Present(tables[f][i])) ==>
        && (g.Some? ==> g.value !in old(tables) && g.value in tables && tables[g.value] == ZeroTable())
        && AskedPage(old(mm.tables), old(mm.slots), mm.blocks, TABLE_TAG, g, mm.tables, mm.slots)
      ensures g.Some? ==> Serves(places, g.value, root, level - 1, vpn) && forall s {:trigger IsNow(s)} :: IsNow(s) ==>
        Sized(s.tables) && WentDown(old(Now()), s, f, g.value, level, root, size, vpn, mm.blocks)
      ensures g.None? ==> !HasTableAt(old(places), root, level - 1, vpn) && Took(old(Mem()), mm.blocks, TableAsks(1), false, Mem())
    {
      if Present(tables[f][i]) {
        AlreadyThere(tables, places, f, i, root, level, size, vpn, Now(), mm.blocks);
        return Some(tables[f][i].frame);
      }
      g := NewTable(f, i);
      NotThere(old(tables), old(places), f, i, root, level, vpn);
      if g.Some? { Attached(old(Now()), Now(), f, i, g.value, root, level, size, vpn, mm.blocks); }
    }

    /** The checks on alignment and page size at the start of MemoryPagingSetPage. */
    static method Acceptable(va: nat, pa: nat, size: nat) returns (ok: bool)
      ensures ok == Aligned(va, pa, size)
    {
      if size == PAGE_SIZE_4KB && (va % 0x1000 != 0 || pa % 0x1000 != 0) {
        return false;
      } else if size == PAGE_SIZE_2MB && (va % 0x20_0000 != 0 || pa % 0x20_0000 != 0) {
        return false;
      } else if size == PAGE_SIZE_1GB && (va % 0x4000_0000 != 0 || pa % 0x4000_0000 != 0) {
        return false;
      }
      if size != PAGE_SIZE_4KB && size != PAGE_SIZE_2MB && size != PAGE_SIZE_1GB {
        return false;
      }
      return true;
    }

    /**
     MemoryPagingSetPage: map one page of 4KB, 2MB or 1GB. It is refused exactly
     when an address is misaligned or the way is blocked, and then nothing at
     all has changed; otherwise exactly the tables missing on the way are asked
     for, and if all are granted exactly the pages asked for are remapped.
     */
    method SetPage(pml4: nat, va: nat, pa: nat, flags: Flags, size: nat) returns (r: SetResult)
      requires Valid() && IsRoot(pml4) && va / 4096 < PAGES
      modifies this, mm
      ensures r.Rejected? <==> !Aligned(va, pa, size) || Blocked(old(tables), pml4, 4, size, va / 4096)
      ensures !r.Rejected? ==> Took(old(Mem()), mm.blocks, TableAsks(Missing(old(places), pml4, size, 3, va / 4096)), r.Installed?, Mem())
      ensures r.Installed? ==> AddsTables(old(places), places, pml4, size, 3, va / 4096) && Memory.LiveKept(old(mm.slots), old(mm.bytes), mm.bytes)
      ensures r.Rejected? ==>
        && tables == old(tables) && places == old(places)
        && mm.tables == old(mm.tables) && mm.slots == old(mm.slots) && mm.bytes == old(mm.bytes)
      ensures !r.NullTable? ==> Valid() && Grows(old(places), old(mm.slots), places, mm.slots)
      ensures r.Installed? ==> Remaps(old(tables), old(places), tables, pml4, va / 4096, Span(size), LeafEntry(pa / 4096, flags, size))
      ensures !r.Rejected? && size == PAGE_SIZE_4KB && HasTable(old(places), pml4, va / 4096) ==>
        r.Installed? && places == old(places) && Mem() == old(Mem())
      ensures r.Installed? && !Present(old(tables)[pml4][Index(va / 4096, 4)]) ==>
        GrantedTo(old(mm.tables), old(mm.slots), mm.blocks, places, pml4, va / 4096)
    {
      r := Rejected;
      var ok := Acceptable(va, pa, size);
      if ok {
        AlignedSpan(va, pa, size);
        var pml4e, pdpte, pde, pte := SplitAddress(va);
        r := SetInRoot(pml4, pml4e, pdpte, pde, pte, pa, flags, size, va / 4096);
        assert IsNow(Now());
        if !r.Rejected? && size == PAGE_SIZE_4KB && HasTable(old(places), pml4, va / 4096) {
          AllThere(old(tables), old(places), pml4, va / 4096);
          NoneAdded(old(tables), old(places), old(Mem()), mm.blocks, tables, places, Mem(), pml4, va / 4096, r.Installed?);
        }
      }
    }

    /** MemoryPagingSetPage, once its checks have passed. */
    method SetInRoot(f: nat, pml4e: nat, pdpte: nat, pde: nat, pte: nat, pa: nat, flags: Flags, size: nat, ghost vpn: nat)
      returns (r: SetResult)
      requires Valid() && IsRoot(f) && Prefix(vpn, 4) == 0 && vpn < PAGES && vpn % Span(size) == 0
      requires 1 <= size <= 3 && pml4e == Index(vpn, 4) && pdpte == Index(vpn, 3) && pde == Index(vpn, 2) && pte == Index(vpn, 1)
      modifies this, mm
      ensures r.NullTable? || Valid()
      ensures forall s {:trigger IsNow(s)} :: IsNow(s) ==> SetWent(old(Now()), r, s, f, 4, f, size, vpn, LeafEntry(pa / 4096, flags, size), mm.blocks)
      ensures r.Installed? && !old(Present(tables[f][pml4e])) ==>
        GrantedTo(old(mm.tables), old(mm.slots), mm.blocks, places, f, vpn)
    {
      r := NullTable;
      ghost var s0 := Now();
      var next := NextTable(f, pml4e, f, 4, size, vpn);
      if next.Some? {
        ghost var s1 := Now();
        assert IsNow(s1);
        r := SetInDirectory(next.value, pdpte, pde, pte, pa, flags, size, 3, f, vpn);
        assert IsNow(Now());
        Descended(s0, s1, r, Now(), f, next.value, 4, f, size, vpn, LeafEntry(pa / 4096, flags, size), mm.blocks);
        if r.Installed? {
          GrantedLater(s0.books.mt, s0.books.slots, mm.blocks, s1.books.mt, s1.books.slots, next.value, s1.places, places, f, vpn);
        }
      } else {
        DescendFails(s0.places, f, size, 3, vpn, s0.books, Mem(), mm.blocks);
      }
    }

    /** MemoryPagingSetPage from the page-directory-pointer table on. */
    method SetInDirectory(f: nat, pdpte: nat, pde: nat, pte: nat, pa: nat, flags: Flags, size: nat, level: nat, ghost root: nat, ghost vpn: nat)
      returns (r: SetResult)
      requires Valid() && level == 3 && Serves(places, f, root, level, vpn) && Prefix(vpn, 4) == 0 && vpn < PAGES && vpn % Span(size) == 0
      requires 1 <= size <= 3 && pdpte == Index(vpn, level) && pde == Index(vpn, level - 1) && pte == Index(vpn, 1)
      modifies this, mm
      ensures r.NullTable? || Valid()
      ensures forall s {:trigger IsNow(s)} :: IsNow(s) ==> SetWent(old(Now()), r, s, f, level, root, size, vpn, LeafEntry(pa / 4096, flags, size), mm.blocks)
    {
      ghost var s0 := Now();
      var done, next := PlaceOrDescend(f, pdpte, pa, flags, size, level, root, vpn);
      if done.Some? {
        return done.value;
      }
      ghost var s1 := Now();
      assert IsNow(s1);
      r := SetInTable(next, pde, pte, pa, flags, size, level - 1, root, vpn);
      assert IsNow(Now());
      Descended(s0, s1, r, Now(), f, next, level, root, size, vpn, LeafEntry(pa / 4096, flags, size), mm.blocks);
    }

    /** MemoryPagingSetPage from the page directory on. */
    method SetInTable(f: nat, pde: nat, pte: nat, pa: nat, flags: Flags, size: nat, level: nat, ghost root: nat, ghost vpn: nat)
      returns (r: SetResult)
      requires Valid() && level == 2 && Serves(places, f, root, level, vpn) && Prefix(vpn, 4) == 0 && vpn < PAGES && vpn % Span(size) == 0
      requires 1 <= size <= 2 && pde == Index(vpn, level) && pte == Index(vpn, 1)
      modifies this, mm
      ensures r.NullTable? || Valid()
      ensures forall s {:trigger IsNow(s)} :: IsNow(s) ==> SetWent(old(Now()), r, s, f, level, root, size, vpn, LeafEntry(pa / 4096, flags, size), mm.blocks)
    {
      ghost var s0 := Now();
      var done, next := PlaceOrDescend(f, pde, pa, flags, size, level, root, vpn);
      if done.Some? {
        return done.value;
      }
      ghost var s1 := Now();
      assert IsNow(s1);
      SetSmall(next, pte, pa, flags, size, level - 1, root, vpn);
      assert IsNow(Now());
      Descended(s0, s1, Installed, Now(), f, next, level, root, size, vpn, LeafEntry(pa / 4096, flags, size), mm.blocks);
      return Installed;
    }

    /** The last level: a 4KB page is written whatever was there. */
    method SetSmall(f: nat, pte: nat, pa: nat, flags: Flags, ghost size: nat, ghost level: nat, ghost root: nat, ghost vpn: nat)
      requires size == level == PAGE_SIZE_4KB && Valid() && Serves(places, f, root, 1, vpn) && Prefix(vpn, 4) == 0 && vpn < PAGES && pte == Index(vpn, 1)
      modifies this`tables
      ensures Valid()
      ensures forall s {:trigger IsNow(s)} :: IsNow(s) ==>
        SetWent(old(Now()), Installed, s, f, level, root, size, vpn, LeafEntry(pa / 4096, flags, size), mm.blocks)
    {
      Install(f, pte, Entry(pa / 4096, flags), 1, root, vpn);
      NoTables(places, root, vpn, Mem(), mm.blocks, 1);
    }

    /** One of the middle levels: the leaf belongs here, or the walk goes on below. */
    method PlaceOrDescend(f: nat, i: nat, pa: nat, flags: Flags, size: nat, level: nat, ghost root: nat, ghost vpn: nat)
      returns (done: Option<SetResult>, next: nat)
      requires Valid() && Serves(places, f, root, level, vpn) && i == Index(vpn, level) && Prefix(vpn, 4) == 0 && vpn < PAGES
      requires 2 <= level <= 3 && 1 <= size <= level && vpn % Span(size) == 0
      modifies this, mm
      ensures done == Some(NullTable) || Valid()
      ensures done.Some? ==> forall s {:trigger IsNow(s)} :: IsNow(s) ==>
        SetWent(old(Now()), done.value, s, f, level, root, size, vpn, LeafEntry(pa / 4096, flags, size), mm.blocks)
      ensures done.None? ==> size < level && forall s {:trigger IsNow(s)} :: IsNow(s) ==>
        Sized(s.tables) && WentDown(old(Now()), s, f, next, level, root, size, vpn, mm.blocks)
      ensures done.None? ==> Serves(places, next, root, level - 1, vpn)
    {
      next := 0;
      if size == level {
        var r := PlaceLarge(f, i, pa, flags, size, root, vpn);
        done := Some(r);
      } else if Present(tables[f][i]) && Large(tables[f][i]) {
        done := Some(Rejected);
      } else {
        var g := NextTable(f, i, root, level, size, vpn);
        if g.None? {
          DescendFails(old(places), root, size, level - 1, vpn, old(Mem()), Mem(), mm.blocks);
          done := Some(NullTable);
        } else {
          done, next := None, g.value;
        }
      }
    }

    /** A large page is written only where its entry is absent. */
    method PlaceLarge(f: nat, i: nat, pa: nat, flags: Flags, size: nat, ghost root: nat, ghost vpn: nat) returns (r: SetResult)
      requires Valid() && Serves(places, f, root, size, vpn) && i == Index(vpn, size) && Prefix(vpn, 4) == 0 && vpn < PAGES
      requires 2 <= size <= 3 && vpn % Span(size) == 0
      modifies this`tables
      ensures Valid() && !r.NullTable?
      ensures forall s {:trigger IsNow(s)} :: IsNow(s) ==> SetWent(old(Now()), r, s, f, size, root, size, vpn, LeafEntry(pa / 4096, flags, size), mm.blocks)
    {
      r := Rejected;
      if !Present(tables[f][i]) {
        LargeIsLeaf(flags);
        Install(f, i, Entry(pa / 4096, flags | PAGE_FRAME), size, root, vpn);
        NoTables(places, root, vpn, Mem(), mm.blocks, size);
        r := Installed;
      }
    }

    /** Write a leaf entry. */
    method Install(f: nat, i: nat, e: Entry, size: nat, ghost root: nat, ghost vpn: nat)
      requires Valid() && Serves(places, f, root, size, vpn) && i == Index(vpn, size) && Prefix(vpn, 4) == 0 && vpn < PAGES
      requires 1 <= size <= 3 && vpn % Span(size) == 0
      requires !IsPointer(tables[f][i], size) && !IsPointer(e, size)
      modifies this`tables
      ensures Valid() && tables == SetEntry(old(tables), f, i, e)
      ensures Remaps(old(tables), places, tables, root, vpn, Span(size), e)
    {
      InstallKeepsTree(tables, places, f, i, e);
      InstallRemaps(tables, places, f, i, e, size, root, vpn);
      tables := tables[f := tables[f][i := e]];
    }

    /** One more call of SetPage in a sequence. */
    method SetOne(a: Asked, ghost t0: Tables, ghost p0: map<nat, Place>, ghost calls: seq<Call>) returns (ok: bool, c: Call)
      requires Valid() && IsRoot(a.root) && a.va / 4096 < PAGES && Sized(t0) && Keeps(p0, places) && IsFlat(tables, t0, p0, calls)
      modifies this, mm
      ensures if ok then Valid() && Keeps(p0, places) && Went(old(Now()), a, c, Now(), mm.blocks) && IsFlat(tables, t0, p0, calls + [c])
              else Stopped(old(Now()), a, mm.blocks, Mem())
    {
      var r := SetPage(a.root, a.va, a.pa, a.flags, a.size);
      ok := !r.NullTable?;
      c := Call(a, r.Installed?);
      if ok { FlatStep(old(tables), old(places), tables, t0, p0, calls, c); }
    }

    /** The first calls of a sequence went as they must; it goes on, or the next call stopped it. */
    ghost predicate Progress(ok: bool, asked: seq<Asked>, calls: seq<Call>, ss: seq<Shot>, s0: Shot)
      reads this, mm
    {
      && |calls| <= |asked| && Sized(s0.tables) && AllWent(ss, s0.tables, s0.places, asked[..|calls|], calls, mm.blocks) && ss[0] == s0
      && if ok then Valid() && Keeps(s0.places, places) && ss[|calls|] == Now() && IsFlat(tables, s0.tables, s0.places, calls)
         else |calls| < |asked| && Stopped(ss[|calls|], asked[|calls|], mm.blocks, Mem())
    }

    method SetNext(asked: seq<Asked>, calls: seq<Call>, ghost ss: seq<Shot>, ghost s0: Shot) returns (ok: bool, calls': seq<Call>, ghost ss': seq<Shot>)
      requires Progress(true, asked, calls, ss, s0) && |calls| < |asked|
      requires IsRoot(asked[|calls|].root) && asked[|calls|].va / 4096 < PAGES
      modifies this, mm
      ensures Progress(ok, asked, calls', ss', s0) && |calls'| == if ok then |calls| + 1 else |calls|
    {
      calls', ss' := calls, ss;
      var c;
      ok, c := SetOne(asked[|calls|], s0.tables, s0.places, calls);
      if ok {
        WentMore(ss, s0.tables, s0.places, asked, calls, c, Now(), mm.blocks);
        calls', ss' := calls + [c], ss + [Now()];
      }
    }

    /**
     Any sequence of calls of MemoryPagingSetPage, on any address spaces: every
     walk is what the accepted ones make of the walk before them, and each was
     accepted exactly if aligned and not blocked at its time. `ss` are the states
     before each call and after the last. The sequence ends early exactly when a
     table that a call needs is not granted.
     */
    method SetPages(asked: seq<Asked>) returns (calls: seq<Call>, ghost ss: seq<Shot>)
      requires Valid() && forall k :: 0 <= k < |asked| ==> IsRoot(asked[k].root) && asked[k].va / 4096 < PAGES
      modifies this, mm
      ensures |calls| <= |asked| && AllWent(ss, old(tables), old(places), asked[..|calls|], calls, mm.blocks) && ss[0] == old(Now())
      ensures |calls| == |asked| ==> Valid() && ss[|calls|] == Now() && IsFlat(tables, old(tables), old(places), calls)
      ensures |calls| < |asked| ==> Stopped(ss[|calls|], asked[|calls|], mm.blocks, Mem())
    {
      calls, ss := [], [Now()];
      var ok := true;
      while |calls| < |asked| && ok
        invariant Progress(ok, asked, calls, ss, old(Now()))
        decreases |asked| - |calls|, ok
      {
        ok, calls, ss := SetNext(asked, calls, ss, old(Now()));
      }
    }

    /**
     MemoryPagingPageChangeFlags: rewrite the flags of the leaf that maps an
     address. Provided the leaf stays a leaf, exactly the pages under it get
     the new flags, and every page keeps its frame.
     */
    method ChangeFlags(pml4: nat, va: nat, unset: Flags, set_: Flags) returns (done: bool)
      requires Valid() && IsRoot(pml4) && va / 4096 < PAGES
      modifies this`tables
      ensures done <==> FindLeaf(old(tables), pml4, 4, va / 4096).Some?
      ensures !done ==> tables == old(tables)
      ensures done ==>
        var leaf := FindLeaf(old(tables), pml4, 4, va / 4096).value;
        && leaf.table in old(tables) && leaf.index < ENTRIES
        && var e := old(tables)[leaf.table][leaf.index]; var e' := Entry(e.frame, NewFlags(e.flags, unset, set_));
        && tables == SetEntry(old(tables), leaf.table, leaf.index, e')
        && (StaysLeaf(leaf.level, e') <==> Tree(tables, places))
        && (StaysLeaf(leaf.level, e') ==> Valid() && Reflags(old(tables), places, tables, leaf, e'))
    {
      var found := PagePresent(pml4, va);
      if found.None? {
        return false;
      }
      var leaf := found.value;
      PrefixTop(va / 4096);
      LeafOnWalk(tables, places, pml4, pml4, 4, va / 4096);
      var e := tables[leaf.table][leaf.index];
      var current := e.flags;
      var flags := current & !unset;
      flags := flags | set_;
      FlagsChanged(tables, places, leaf, Entry(e.frame, flags));
      tables := tables[leaf.table := tables[leaf.table][leaf.index := Entry(e.frame, flags)]];
      return true;
    }

    /** Allocate and clear a top-level table. */
    method NewRoot() returns (root: Option<nat>)
      requires Valid()
      modifies this, mm
      ensures root.None? ==> tables == old(tables) && places == old(places)
      ensures root.Some? ==>
        && Valid() && IsRoot(root.value) && root.value !in old(tables)
        && Grows(old(places), old(mm.slots), places, mm.slots)
        && !FrameHeld(old(mm.slots), root.value)
        && SameTranslations(old(tables), old(places), tables) && Memory.LiveKept(old(mm.slots), old(mm.bytes), mm.bytes)
        && (forall v: nat :: v < PAGES ==> Translate(tables, root.value, v) == None)
        && NoneBelow(places, root.value)
      ensures Took(old(Mem()), mm.blocks, TableAsks(1), root.Some?, Mem())
    {
      TableAsksAdd(1, 0);
      root := NewFrame(TABLE_TAG);
      if root.None? {
        return;
      }
      NewRootKeepsTree(tables, places, root.value);
      NewRootAlone(tables, places, root.value);
      tables := tables[root.value := ZeroTable()];
      places := places[root.value := Place(root.value, 4, 0)];
    }

    /** MemoryPagingSetPageImitate of one small page; it is never refused. */
    method ImitatePage(root: nat, i: nat, flags: Flags) returns (ok: bool)
      requires Valid() && IsRoot(root) && i < PAGES && SmallPages(tables, root)
      modifies this, mm
      ensures ok ==>
        && Valid() && Grows(old(places), old(mm.slots), places, mm.slots)
        && Remaps(old(tables), old(places), tables, root, i, 1, Entry(i, flags))
        && AddsTables(old(places), places, root, 1, 3, i) && Memory.LiveKept(old(mm.slots), old(mm.bytes), mm.bytes)
      ensures Took(old(Mem()), mm.blocks, TableAsks(Missing(old(places), root, 1, 3, i)), ok, Mem())
    {
      SmallNeverBlocked(tables, places, root, i);
      PageAddress(i);
      var r := SetPage(root, i * 4096, i * 4096, flags, PAGE_SIZE_4KB);
      ok := !r.NullTable?;
    }

    /**
     Since `b` the pages from `start` to `end` were mapped to themselves; the pages
     mapped since `s0` are `vs` and these.
     */
    ghost predicate RangeGrown(b: Shot, s0: Shot, root: nat, vs: seq<nat>, start: nat, end: nat, textStart: nat, textEnd: nat)
      reads this, mm
    {
      !mm.growing && forall s {:trigger IsNow(s)} :: IsNow(s) ==> RangeGrew(b, s, s0, root, vs, start, end, textStart, textEnd, mm.blocks)
    }

    ghost predicate IsNow(s: Shot)
      reads this, mm
    {
      s == Now()
    }

    /** A loop of MemoryPagingNewPD: map a run of pages to themselves, read-only inside the text. */
    method ImitateRange(root: nat, start: nat, end: nat, textStart: nat, textEnd: nat, ghost s0: Shot, ghost vs: seq<nat>) returns (ok: bool)
      requires Valid() && IsRoot(root) && end <= PAGES && SmallPages(tables, root) && PagesTook(s0.places, s0.books, places, Mem(), root, vs, mm.blocks)
      modifies this, mm
      ensures !ok || RangeGrown(old(Now()), s0, root, vs, start, end, textStart, textEnd)
      ensures ok || TookTables(s0.places, s0.books, Mem(), root, vs + RunPages(start, end), mm.blocks, false)
    {
      assert vs + RunPages(start, start) == vs;
      assert RangeGrew(Now(), Now(), s0, root, vs, start, start, textStart, textEnd, mm.blocks);
      ok := true;
      var i := start;
      while i < end && ok
        invariant start <= i && (i <= end || i == start)
        invariant !ok || RangeGrown(old(Now()), s0, root, vs, start, i, textStart, textEnd)
        invariant ok || TookTables(s0.places, s0.books, Mem(), root, vs + RunPages(start, end), mm.blocks, false)
        decreases end - i
      {
        ok, i := ImitateTurn(root, start, i, end, textStart, textEnd, old(Now()), s0, vs);
      }
      assert ok ==> RunPages(start, i) == RunPages(start, end);
    }

    /** One turn of that loop, with its step. */
    method ImitateTurn(root: nat, ghost start: nat, i: nat, ghost end: nat, textStart: nat, textEnd: nat, ghost b: Shot, ghost s0: Shot, ghost vs: seq<nat>)
      returns (ok: bool, next: nat)
      requires start <= i < end <= PAGES && Placed(b.tables, b.places) && root in b.places && b.places[root] == Place(root, 4, 0)
      requires RangeGrown(b, s0, root, vs, start, i, textStart, textEnd)
      modifies this, mm
      ensures next == i + 1 && (!ok || RangeGrown(b, s0, root, vs, start, next, textStart, textEnd))
      ensures ok || TookTables(s0.places, s0.books, Mem(), root, vs + RunPages(start, end), mm.blocks, false)
    {
      next := i + 1;
      assert IsNow(Now());
      var rw := RW;
      if i >= textStart && i <= textEnd {
        rw := 0;
      }
      ghost var was := Now();
      ok := ImitatePage(root, i, PRESENT | rw);
      PageTook(s0.places, s0.books, was.places, was.books, places, Mem(), root, vs, start, i, end, mm.blocks, ok);
      if ok {
        RangeMore(b, was, Now(), s0, root, vs, start, i, next, textStart, textEnd, mm.blocks);
      }
    }

    /** MemoryPagingNewPD: a new address space that maps only the kernel and the task segments, to themselves. */
    method NewSpace(start: nat, end: nat, textStart: nat, textEnd: nat, tasks: seq<Run>) returns (root: Option<nat>)
      requires Valid() && end <= PAGES && forall k :: 0 <= k < |tasks| ==> tasks[k].end <= PAGES
      modifies this, mm
      ensures root.Some? ==>
        && Valid() && IsRoot(root.value) && root.value !in old(tables)
        && Grows(old(places), old(mm.slots), places, mm.slots)
        && SmallPages(tables, root.value)
        && SameTranslations(old(tables), old(places), tables) && Memory.LiveKept(old(mm.slots), old(mm.bytes), mm.bytes)
        && (forall v: nat :: v < PAGES ==> Translate(tables, root.value, v) == KernelMapping(start, end, textStart, textEnd, tasks, v))
        && OnlyBelow(places, root.value, KernelPages(start, end, tasks))
      ensures Took(old(Mem()), mm.blocks, TableAsks(SpaceTables(start, end, tasks)), root.Some?, Mem())
    {
      root := NewRoot();
      ghost var s1, pages := Now(), KernelPages(start, end, tasks);
      if root.None? {
        SpaceTook(old(Mem()), s1, Mem(), 0, start, end, tasks, mm.blocks, false, false);
        return;
      }
      PagesTookNone(s1.places, s1.books, root.value, mm.blocks);
      assert [] + RunPages(start, end) == RunPages(start, end);
      var ok := ImitateRange(root.value, start, end, textStart, textEnd, s1, []);
      ghost var s2 := Now();
      assert IsNow(s2);
      if !ok {
        PagesFailedLater(s1.places, s1.books, Mem(), root.value, RunPages(start, end), pages, mm.blocks);
        SpaceTook(old(Mem()), s1, Mem(), root.value, start, end, tasks, mm.blocks, true, false);
        return None;
      }
      GrowsTwice(old(places), old(mm.slots), s1.places, s1.books.slots, s2.places, s2.books.slots);
      ok := ImitateTasks(root.value, tasks, s1, RunPages(start, end));
      assert IsNow(Now());
      SpaceTook(old(Mem()), s1, Mem(), root.value, start, end, tasks, mm.blocks, true, ok);
      if !ok {
        return None;
      }
      OnlyBelowThen(s1.places, places, root.value, pages);
      GrowsTwice(old(places), old(mm.slots), s2.places, s2.books.slots, places, mm.slots);
      BytesKeptThen(old(Now()), s1, s2);
      BytesKeptThen(old(Now()), s2, Now());
      SpaceMapping(old(tables), old(places), s1.tables, s1.places, s2.tables, s2.places, tables, root.value, start, end, textStart, textEnd, tasks);
    }

    /** Since `b` the first `n` task segments were mapped; the pages mapped since `s0` are `vs` and theirs. */
    ghost predicate TasksGrown(b: Shot, s0: Shot, root: nat, vs: seq<nat>, tasks: seq<Run>, n: nat)
      reads this, mm
    {
      !mm.growing && forall s {:trigger IsNow(s)} :: IsNow(s) ==> TasksGrew(b, s, s0, root, vs, tasks, n, mm.blocks)
    }

    /** The task segments and stacks, for every processor. */
    method ImitateTasks(root: nat, tasks: seq<Run>, ghost s0: Shot, ghost vs: seq<nat>) returns (ok: bool)
      requires Valid() && IsRoot(root) && SmallPages(tables, root) && forall k :: 0 <= k < |tasks| ==> tasks[k].end <= PAGES
      requires PagesTook(s0.places, s0.books, places, Mem(), root, vs, mm.blocks)
      modifies this, mm
      ensures if ok then TasksGrown(old(Now()), s0, root, vs, tasks, |tasks|)
              else TookTables(s0.places, s0.books, Mem(), root, vs + TaskPages(tasks, |tasks|), mm.blocks, false)
    {
      assert vs + TaskPages(tasks, 0) == vs;
      assert TasksGrew(Now(), Now(), s0, root, vs, tasks, 0, mm.blocks);
      ok := true;
      var i := 0;
      while i < |tasks| && ok
        invariant 0 <= i <= |tasks|
        invariant if ok then TasksGrown(old(Now()), s0, root, vs, tasks, i)
                  else TookTables(s0.places, s0.books, Mem(), root, vs + TaskPages(tasks, |tasks|), mm.blocks, false)
        decreases |tasks| - i
      {
        ok := ImitateTask(root, tasks, i, old(Now()), s0, vs);
        i := i + 1;
      }
    }

    /** One turn of that loop. */
    method ImitateTask(root: nat, tasks: seq<Run>, i: nat, ghost b: Shot, ghost s0: Shot, ghost vs: seq<nat>) returns (ok: bool)
      requires i < |tasks| && tasks[i].end <= PAGES && Placed(b.tables, b.places) && TasksGrown(b, s0, root, vs, tasks, i)
      modifies this, mm
      ensures if ok then TasksGrown(b, s0, root, vs, tasks, i + 1)
              else TookTables(s0.places, s0.books, Mem(), root, vs + TaskPages(tasks, |tasks|), mm.blocks, false)
    {
      ghost var was := Now();
      assert IsNow(was);
      TaskPagesMore(vs, tasks, i);
      ok := ImitateRange(root, tasks[i].start, tasks[i].end, 1, 0, s0, vs + TaskPages(tasks, i));
      if ok {
        assert IsNow(Now());
        GrowsTwice(b.places, b.books.slots, was.places, was.books.slots, places, mm.slots);
        BytesKeptThen(b, was, Now());
        MapsMoreTasks(b.tables, b.places, was.tables, was.places, tables, root, tasks, i);
        assert TasksGrew(b, Now(), s0, root, vs, tasks, i + 1, mm.blocks);
      } else {
        PagesFailedLater(s0.places, s0.books, Mem(), root, vs + TaskPages(tasks, i + 1), vs + TaskPages(tasks, |tasks|), mm.blocks);
      }
    }
  }

  // -------------------------------------------------- the memory of a new space

  function RunPages(start: nat, end: nat): seq<nat> {
    seq(if end <= start then 0 else end - start, k => start + k)
  }

  function TaskPages(tasks: seq<Run>, n: nat): seq<nat> {
    if n == 0 || n > |tasks| then [] else TaskPages(tasks, n - 1) + RunPages(tasks[n - 1].start, tasks[n - 1].end)
  }

  /** The pages that a new space maps, in turn. */
  function KernelPages(start: nat, end: nat, tasks: seq<Run>): seq<nat> {
    RunPages(start, end) + TaskPages(tasks, |tasks|)
  }

  /** How many tables a new space needs, its root included. */
  ghost function SpaceTables(start: nat, end: nat, tasks: seq<Run>): nat {
    1 + TablesFor(map[], 0, KernelPages(start, end, tasks))
  }

  /** No table below the root is there yet. */
  ghost predicate NoneBelow(places: map<nat, Place>, root: nat) {
    forall level: nat, v: nat {:trigger HasTableAt(places, root, level, v)} :: 1 <= level <= 3 && v < PAGES ==> !HasTableAt(places, root, level, v)
  }

  /** The tables below the root are those for these pages. */
  ghost predicate OnlyBelow(places: map<nat, Place>, root: nat, vs: seq<nat>) {
    forall level: nat, v: nat {:trigger HasTableAt(places, root, level, v)} :: 1 <= level <= 3 && v < PAGES ==>
      (HasTableAt(places, root, level, v) <==> Beside(vs, level, v))
  }

  ghost predicate IsTablesFor(n: nat, places: map<nat, Place>, root: nat, vs: seq<nat>) {
    n == TablesFor(places, root, vs)
  }

  /** Exactly the tables that these small pages need were asked for; `ok` if all were granted. */
  ghost predicate TookTables(p0: map<nat, Place>, b0: Books, b: Books, root: nat, vs: seq<nat>, blocks: seq<Memory.Block>, ok: bool) {
    forall n {:trigger IsTablesFor(n, p0, root, vs)} :: IsTablesFor(n, p0, root, vs) ==> Took(b0, blocks, TableAsks(n), ok, b)
  }

  /** The page tables are a tree of frames that are held, and the allocator's tables are well formed. */
  ghost predicate ShotOk(s: Shot) {
    && Memory.WellFormed(s.books.mt, s.books.slots) && Tree(s.tables, s.places)
    && forall f {:trigger FrameHeld(s.books.slots, f)} :: f in s.tables ==> FrameHeld(s.books.slots, f)
  }

  /** From `b` to `s` a run of pages was mapped to itself; the pages mapped since `s0` are `vs` and these. */
  ghost predicate RangeGrew(b: Shot, s: Shot, s0: Shot, root: nat, vs: seq<nat>, start: nat, end: nat, textStart: nat, textEnd: nat, blocks: seq<Memory.Block>) {
    && ShotOk(s) && root in s.places && s.places[root].level == 4 && Sized(b.tables)
    && Grows(b.places, b.books.slots, s.places, s.books.slots) && BytesKept(b, s)
    && SmallPages(s.tables, root) && Imitates(b.tables, b.places, s.tables, root, start, end, textStart, textEnd)
    && PagesTook(s0.places, s0.books, s.places, s.books, root, vs + RunPages(start, end), blocks)
  }

  lemma RangeMore(b: Shot, was: Shot, now: Shot, s0: Shot, root: nat, vs: seq<nat>, start: nat, i: nat, next: nat, textStart: nat, textEnd: nat, blocks: seq<Memory.Block>)
    requires RangeGrew(b, was, s0, root, vs, start, i, textStart, textEnd, blocks) && start <= i < PAGES && next == i + 1
    requires Placed(b.tables, b.places) && root in b.places && b.places[root] == Place(root, 4, 0)
    requires ShotOk(now) && Grows(was.places, was.books.slots, now.places, now.books.slots) && BytesKept(was, now)
    requires Remaps(was.tables, was.places, now.tables, root, i, 1, Entry(i, ImitatedFlags(i, textStart, textEnd)))
    requires PagesTook(s0.places, s0.books, now.places, now.books, root, vs + RunPages(start, i + 1), blocks)
    ensures RangeGrew(b, now, s0, root, vs, start, next, textStart, textEnd, blocks)
  {
    GrowsTwice(b.places, b.books.slots, was.places, was.books.slots, now.places, now.books.slots);
    BytesKeptThen(b, was, now);
    ImitatesMore(b.tables, b.places, was.tables, was.places, now.tables, root, start, i, textStart, textEnd);
  }

  /** The same for the first `n` task segments. */
  ghost predicate TasksGrew(b: Shot, s: Shot, s0: Shot, root: nat, vs: seq<nat>, tasks: seq<Run>, n: nat, blocks: seq<Memory.Block>) {
    && ShotOk(s) && root in s.places && s.places[root].level == 4 && Sized(b.tables)
    && Grows(b.places, b.books.slots, s.places, s.books.slots) && BytesKept(b, s)
    && SmallPages(s.tables, root) && MapsTasks(b.tables, b.places, s.tables, root, tasks, n)
    && PagesTook(s0.places, s0.books, s.places, s.books, root, vs + TaskPages(tasks, n), blocks)
  }

  /** These small pages were given the tables they needed, and no more was asked for. */
  ghost predicate PagesTook(p0: map<nat, Place>, b0: Books, p: map<nat, Place>, b: Books, root: nat, vs: seq<nat>, blocks: seq<Memory.Block>) {
    TablesAre(p0, p, root, vs) && TookTables(p0, b0, b, root, vs, blocks, true)
  }

  lemma PagesTookNone(p: map<nat, Place>, b: Books, root: nat, blocks: seq<Memory.Block>)
    ensures PagesTook(p, b, p, b, root, [], blocks)
  {
    TableAsksAdd(0, 0);
  }

  lemma PagesTookMore(p0: map<nat, Place>, b0: Books, p: map<nat, Place>, b: Books, p': map<nat, Place>, b': Books,
                      root: nat, vs: seq<nat>, v: nat, blocks: seq<Memory.Block>, ok: bool)
    requires PagesTook(p0, b0, p, b, root, vs, blocks) && Took(b, blocks, TableAsks(Missing(p, root, 1, 3, v)), ok, b')
    ensures TookTables(p0, b0, b', root, vs + [v], blocks, ok)
    ensures AddsTables(p, p', root, 1, 3, v) ==> TablesAre(p0, p', root, vs + [v])
  {
    assert IsTablesFor(TablesFor(p0, root, vs), p0, root, vs);
    var m, n := TablesFor(p0, root, vs), Missing(p, root, 1, 3, v);
    MissingThen(p0, p, root, vs, v);
    TablesForMore(p0, root, vs, v);
    TableAsksAdd(m, n);
    TookThen(b0, blocks, TableAsks(m), true, b, TableAsks(n), ok, b');
    if AddsTables(p, p', root, 1, 3, v) { TablesAreMore(p0, p, p', root, vs, v); }
  }

  lemma {:induction false} TablesForGrows(places: map<nat, Place>, root: nat, vs: seq<nat>, all: seq<nat>)
    requires vs <= all
    ensures TablesFor(places, root, vs) <= TablesFor(places, root, all)
    decreases |all|
  {
    if |vs| < |all| { TablesForGrows(places, root, vs, all[..|all| - 1]); } else { assert vs == all; }
  }

  /** What failed for the first of some pages fails for all of them. */
  lemma PagesFailedLater(p0: map<nat, Place>, b0: Books, b: Books, root: nat, vs: seq<nat>, all: seq<nat>, blocks: seq<Memory.Block>)
    requires TookTables(p0, b0, b, root, vs, blocks, false) && vs <= all
    ensures TookTables(p0, b0, b, root, all, blocks, false)
  {
    assert IsTablesFor(TablesFor(p0, root, vs), p0, root, vs);
    TablesForGrows(p0, root, vs, all);
    var m, n := TablesFor(p0, root, vs), TablesFor(p0, root, all);
    TableAsksAdd(m, n - m);
    TookThen(b0, blocks, TableAsks(m), false, b, TableAsks(n - m), false, b);
  }

  /** One page of a run. */
  lemma PageTook(p0: map<nat, Place>, b0: Books, p: map<nat, Place>, b: Books, p': map<nat, Place>, b': Books,
                 root: nat, vs: seq<nat>, start: nat, i: nat, end: nat, blocks: seq<Memory.Block>, ok: bool)
    requires start <= i < end && PagesTook(p0, b0, p, b, root, vs + RunPages(start, i), blocks)
    requires Took(b, blocks, TableAsks(Missing(p, root, 1, 3, i)), ok, b')
    ensures ok && AddsTables(p, p', root, 1, 3, i) ==> PagesTook(p0, b0, p', b', root, vs + RunPages(start, i + 1), blocks)
    ensures !ok ==> TookTables(p0, b0, b', root, vs + RunPages(start, end), blocks, false)
  {
    assert vs + RunPages(start, i) + [i] == vs + RunPages(start, i + 1);
    PagesTookMore(p0, b0, p, b, p', b', root, vs + RunPages(start, i), i, blocks, ok);
    assert vs + RunPages(start, i + 1) <= vs + RunPages(start, end);
    if !ok { PagesFailedLater(p0, b0, b', root, vs + RunPages(start, i + 1), vs + RunPages(start, end), blocks); }
  }

  lemma TaskPagesMore(vs: seq<nat>, tasks: seq<Run>, i: nat)
    requires i < |tasks|
    ensures vs + TaskPages(tasks, i) + RunPages(tasks[i].start, tasks[i].end) == vs + TaskPages(tasks, i + 1) <= vs + TaskPages(tasks, |tasks|)
  {
    TaskPagesPrefix(tasks, i + 1, |tasks|);
  }

  lemma {:induction false} TaskPagesPrefix(tasks: seq<Run>, i: nat, n: nat)
    requires i <= n <= |tasks|
    ensures TaskPages(tasks, i) <= TaskPages(tasks, n)
    decreases n
  {
    if i < n { TaskPagesPrefix(tasks, i, n - 1); }
  }

  /** In a space with no tables yet, what is missing does not depend on the other spaces. */
  lemma MissingAlone(places: map<nat, Place>, root: nat, v: nat, vs: seq<nat>)
    requires NoneBelow(places, root) && v < PAGES
    ensures Missing(places, root, 1, 3, v, vs) == Missing(map[], 0, 1, 3, v, vs)
  {
    forall level: nat | 1 <= level <= 3 ensures Lacks(places, root, level, v, vs) <==> Lacks(map[], 0, level, v, vs) {
      assert !HasTableAt(places, root, level, v) && !HasTableAt(map[], 0, level, v);
    }
  }

  lemma {:induction false} TablesAlone(places: map<nat, Place>, root: nat, vs: seq<nat>)
    requires NoneBelow(places, root) && forall k :: 0 <= k < |vs| ==> vs[k] < PAGES
    ensures TablesFor(places, root, vs) == TablesFor(map[], 0, vs)
    decreases |vs|
  {
    if vs != [] {
      var n := |vs| - 1;
      TablesAlone(places, root, vs[..n]);
      MissingAlone(places, root, vs[n], vs[..n]);
    }
  }

  lemma {:induction false} TaskPagesBelow(tasks: seq<Run>, n: nat)
    requires n <= |tasks| && forall k :: 0 <= k < |tasks| ==> tasks[k].end <= PAGES
    ensures forall k :: 0 <= k < |TaskPages(tasks, n)| ==> TaskPages(tasks, n)[k] < PAGES
    decreases n
  {
    if n > 0 {
      TaskPagesBelow(tasks, n - 1);
    }
  }

  /** A new space as a whole: its root, and then the tables of its pages. */
  lemma SpaceTook(b: Books, s1: Shot, b2: Books, root: nat, start: nat, end: nat, tasks: seq<Run>, blocks: seq<Memory.Block>, rooted: bool, ok: bool)
    requires end <= PAGES && forall k :: 0 <= k < |tasks| ==> tasks[k].end <= PAGES
    requires Took(b, blocks, TableAsks(1), rooted, s1.books)
    requires if rooted then NoneBelow(s1.places, root) && TookTables(s1.places, s1.books, b2, root, KernelPages(start, end, tasks), blocks, ok)
             else !ok && b2 == s1.books
    ensures Took(b, blocks, TableAsks(SpaceTables(start, end, tasks)), ok, b2)
  {
    var pages := KernelPages(start, end, tasks);
    TaskPagesBelow(tasks, |tasks|);
    if rooted {
      TablesAlone(s1.places, root, pages);
      assert IsTablesFor(TablesFor(s1.places, root, pages), s1.places, root, pages);
    }
    var n := TablesFor(map[], 0, pages);
    TableAsksAdd(1, n);
    TookThen(b, blocks, TableAsks(1), rooted, s1.books, TableAsks(n), ok, b2);
  }

  lemma OnlyBelowThen(p1: map<nat, Place>, p2: map<nat, Place>, root: nat, vs: seq<nat>)
    requires NoneBelow(p1, root) && TablesAre(p1, p2, root, vs)
    ensures OnlyBelow(p2, root, vs)
  {
    forall level: nat, v: nat | 1 <= level <= 3 && v < PAGES ensures HasTableAt(p2, root, level, v) <==> Beside(vs, level, v) {
      assert !HasTableAt(p1, root, level, v);
    }
  }

  /** A root that is no table yet has no tables below it. */
  lemma NewRootAlone(tables: Tables, places: map<nat, Place>, root: nat)
    requires Tree(tables, places) && root !in tables
    ensures NoneBelow(places[root := Place(root, 4, 0)], root)
  {
    var places' := places[root := Place(root, 4, 0)];
    forall level: nat, v: nat | 1 <= level <= 3 && v < PAGES ensures !HasTableAt(places', root, level, v) {
      if f :| Serves(places', f, root, level, v) {
        PrefixTop(v);
        WalkReaches(tables, places, f, root, level, v);
      }
    }
  }

  /** The page lies in one of the first `n` task segments. */
  predicate InTasks(tasks: seq<Run>, n: nat, v: nat) {
    exists k :: 0 <= k < n && k < |tasks| && tasks[k].start <= v < tasks[k].end
  }

  /** Exactly the pages of the task segments are mapped to themselves, in one address space. */
  ghost predicate MapsTasks(tables: Tables, places: map<nat, Place>, tables': Tables, root: nat, tasks: seq<Run>, n: nat)
    requires forall f :: f in tables ==> |tables[f]| == ENTRIES
    requires forall f :: f in tables' ==> |tables'[f]| == ENTRIES
  {
    forall r, v: nat {:trigger Translate(tables', r, v)} :: Serves(places, r, r, 4, v) && v < PAGES ==>
      Translate(tables', r, v) == if r == root && InTasks(tasks, n, v) then Some(Mapping(v, PRESENT | RW)) else Translate(tables, r, v)
  }

  lemma SpaceMapping(t0: Tables, p0: map<nat, Place>, t1: Tables, p1: map<nat, Place>, t2: Tables, p2: map<nat, Place>, t3: Tables,
                     root: nat, start: nat, end: nat, textStart: nat, textEnd: nat, tasks: seq<Run>)
    requires Placed(t0, p0) && Placed(t1, p1) && Placed(t2, p2) && Keeps(p0, p1) && Keeps(p1, p2)
    requires forall f :: f in t3 ==> |t3[f]| == ENTRIES
    requires root in p1 && p1[root] == Place(root, 4, 0) && root !in p0
    requires SameTranslations(t0, p0, t1) && forall v: nat :: v < PAGES ==> Translate(t1, root, v) == None
    requires Imitates(t1, p1, t2, root, start, end, textStart, textEnd) && MapsTasks(t2, p2, t3, root, tasks, |tasks|)
    ensures SameTranslations(t0, p0, t3)
    ensures forall v: nat :: v < PAGES ==> Translate(t3, root, v) == KernelMapping(start, end, textStart, textEnd, tasks, v)
  {
    forall r: nat, v: nat | Serves(p0, r, r, 4, v) && v < PAGES
      ensures Translate(t3, r, v) == Translate(t0, r, v)
    {
      assert Serves(p1, r, r, 4, v) && Serves(p2, r, r, 4, v);
      assert Translate(t3, r, v) == Translate(t2, r, v) == Translate(t1, r, v);
    }
    forall v: nat | v < PAGES
      ensures Translate(t3, root, v) == KernelMapping(start, end, textStart, textEnd, tasks, v)
    {
      PrefixTop(v);
      assert Serves(p1, root, root, 4, v) && Serves(p2, root, root, 4, v);
      assert Translate(t2, root, v) == if start <= v < end then Some(Mapping(v, ImitatedFlags(v, textStart, textEnd))) else Translate(t1, root, v);
    }
  }

  lemma MapsMoreTasks(t0: Tables, p0: map<nat, Place>, t: Tables, p: map<nat, Place>, t': Tables, root: nat, tasks: seq<Run>, i: nat)
    requires Placed(t0, p0) && Placed(t, p) && Keeps(p0, p) && i < |tasks|
    requires forall f :: f in t' ==> |t'[f]| == ENTRIES
    requires MapsTasks(t0, p0, t, root, tasks, i)
    requires Imitates(t, p, t', root, tasks[i].start, tasks[i].end, 1, 0)
    ensures MapsTasks(t0, p0, t', root, tasks, i + 1)
  {
    forall r: nat, v: nat | Serves(p0, r, r, 4, v) && v < PAGES
      ensures Translate(t', r, v) == if r == root && InTasks(tasks, i + 1, v) then Some(Mapping(v, PRESENT | RW)) else Translate(t0, r, v)
    {
      assert Serves(p, r, r, 4, v);
      assert InTasks(tasks, i + 1, v) <==> InTasks(tasks, i, v) || tasks[i].start <= v < tasks[i].end;
    }
  }

  // ------------------------------------------------------------ results about runs

  /** Two pointers to the same table are the same entry: the tables form trees with no shared child. */
  lemma NoSharedChild(tables: Tables, places: map<nat, Place>, f: nat, i: nat, g: nat, j: nat)
    requires Tree(tables, places) && f in tables && g in tables && i < ENTRIES && j < ENTRIES
    requires IsPointer(tables[f][i], places[f].level) && IsPointer(tables[g][j], places[g].level)
    requires tables[f][i].frame == tables[g][j].frame
    ensures f == g && i == j
  {
    var p, q := places[f], places[g];
    assert Below(p, i) == Below(q, j);
    assert p.prefix * ENTRIES + i == q.prefix * ENTRIES + j;
    assert SamePlace(places, f, g);
  }

  /** A 2MB or 1GB page is accepted only where no address of its run is mapped. */
  lemma LargeRunWasUnmapped(tables: Tables, places: map<nat, Place>, root: nat, size: nat, vpn: nat, v: nat)
    requires Tree(tables, places) && root in places && places[root].level == 4
    requires 2 <= size <= 3 && vpn % Span(size) == 0 && vpn < PAGES && vpn <= v < vpn + Span(size) && v < PAGES
    requires !Blocked(tables, root, 4, size, vpn)
    ensures Translate(tables, root, v) == None
  {
    PrefixTop(vpn);
    LeafRun(size, vpn, v);
    LargeNeedsUnmapped(tables, places, root, root, 4, size, vpn, v);
  }

  /** A 4KB page is refused exactly at the addresses that a 2MB or 1GB leaf maps. */
  lemma SmallRefusedIffLarge(tables: Tables, places: map<nat, Place>, root: nat, v: nat)
    requires Tree(tables, places) && root in places && places[root].level == 4 && v < PAGES
    ensures Blocked(tables, root, 4, 1, v) <==> exists leaf :: FindLeaf(tables, root, 4, v) == Some(leaf) && leaf.level > 1
  {
    PrefixTop(v);
    SmallBlockedIff(tables, places, root, root, 4, v);
    if FindLeaf(tables, root, 4, v).Some? {
      assert FindLeaf(tables, root, 4, v) == Some(FindLeaf(tables, root, 4, v).value);
    }
  }

  /** What a call of SetPage asks for. */
  datatype Asked = Asked(root: nat, va: nat, pa: nat, flags: Flags, size: nat)

  /** A call of SetPage, with its outcome. */
  datatype Call = Call(asked: Asked, accepted: bool)

  ghost predicate Sized(t: Tables) { forall f :: f in t ==> |t[f]| == ENTRIES }

  /** The page belongs to the run that a call asks for. */
  predicate Covers(a: Asked, root: nat, v: nat) {
    a.root == root && a.va / 4096 <= v < a.va / 4096 + Span(a.size)
  }

  /** The flat map: the last accepted call that covers a page decides it, and without one it is mapped as at the start. */
  ghost function Flat(t0: Tables, calls: seq<Call>, root: nat, v: nat): Option<Mapping>
    requires Sized(t0)
  {
    if calls == [] then Translate(t0, root, v) else
    var c := calls[|calls| - 1];
    if c.accepted && Covers(c.asked, root, v) then
      var e := LeafEntry(c.asked.pa / 4096, c.asked.flags, c.asked.size);
      if Present(e) then Some(Mapping(e.frame + (v - c.asked.va / 4096), e.flags)) else None
    else Flat(t0, calls[..|calls| - 1], root, v)
  }

  /** A call went as it must on a tree of tables, and made this one of it with just the tables that were missing. */
  ghost predicate Went(s: Shot, a: Asked, c: Call, s': Shot, blocks: seq<Memory.Block>) {
    && Tree(s.tables, s.places) && Tree(s'.tables, s'.places) && Keeps(s.places, s'.places) && c.asked == a
    && (c.accepted <==> Aligned(a.va, a.pa, a.size) && !Blocked(s.tables, a.root, 4, a.size, a.va / 4096))
    && if c.accepted then
      && Remaps(s.tables, s.places, s'.tables, a.root, a.va / 4096, Span(a.size), LeafEntry(a.pa / 4096, a.flags, a.size))
      && Took(s.books, blocks, TableAsks(Missing(s.places, a.root, a.size, 3, a.va / 4096)), true, s'.books)
    else s' == s
  }

  /** A call that would be accepted needs a table that is not granted. */
  ghost predicate Stopped(s: Shot, a: Asked, blocks: seq<Memory.Block>, b: Books) {
    && Sized(s.tables) && Aligned(a.va, a.pa, a.size) && !Blocked(s.tables, a.root, 4, a.size, a.va / 4096)
    && Took(s.books, blocks, TableAsks(Missing(s.places, a.root, a.size, 3, a.va / 4096)), false, b)
  }

  /** Every address space that was there at the start is the flat map of the calls. */
  ghost predicate IsFlat(t: Tables, t0: Tables, p0: map<nat, Place>, calls: seq<Call>)
    requires Sized(t) && Sized(t0)
  {
    forall r, v: nat {:trigger Translate(t, r, v)} :: Serves(p0, r, r, 4, v) && v < PAGES ==> Translate(t, r, v) == Flat(t0, calls, r, v)
  }

  /** Call `k` of a sequence went as it must, on the flat map of the calls before it. */
  ghost predicate WentAt(ss: seq<Shot>, t0: Tables, p0: map<nat, Place>, asked: seq<Asked>, calls: seq<Call>, blocks: seq<Memory.Block>, k: nat)
    requires Sized(t0) && k < |calls| && k < |asked| && k + 1 < |ss|
  {
    Went(ss[k], asked[k], calls[k], ss[k + 1], blocks) && IsFlat(ss[k].tables, t0, p0, calls[..k])
  }

  ghost predicate AllWent(ss: seq<Shot>, t0: Tables, p0: map<nat, Place>, asked: seq<Asked>, calls: seq<Call>, blocks: seq<Memory.Block>)
    requires Sized(t0)
  {
    |calls| == |asked| && |ss| == |asked| + 1 && forall k :: 0 <= k < |asked| ==> WentAt(ss, t0, p0, asked, calls, blocks, k)
  }

  lemma WentMore(ss: seq<Shot>, t0: Tables, p0: map<nat, Place>, asked: seq<Asked>, calls: seq<Call>, c: Call, s: Shot, blocks: seq<Memory.Block>)
    requires Sized(t0) && |calls| < |asked| && AllWent(ss, t0, p0, asked[..|calls|], calls, blocks)
    requires Went(ss[|calls|], asked[|calls|], c, s, blocks) && IsFlat(ss[|calls|].tables, t0, p0, calls)
    ensures AllWent(ss + [s], t0, p0, asked[..|calls + [c]|], calls + [c], blocks)
  {
    var n := |calls|;
    var ss', asked', calls' := ss + [s], asked[..n + 1], calls + [c];
    forall k | 0 <= k < n + 1 ensures WentAt(ss', t0, p0, asked', calls', blocks, k) {
      if k < n { assert WentAt(ss, t0, p0, asked[..n], calls, blocks, k); }
      assert calls'[..k] == calls[..k];
      assert calls[..n] == calls;
    }
  }

  lemma FlatStep(t: Tables, p: map<nat, Place>, t': Tables, t0: Tables, p0: map<nat, Place>, calls: seq<Call>, c: Call)
    requires Placed(t, p) && Sized(t') && Sized(t0) && Keeps(p0, p) && IsFlat(t, t0, p0, calls)
    requires var a := c.asked;
      if c.accepted then Remaps(t, p, t', a.root, a.va / 4096, Span(a.size), LeafEntry(a.pa / 4096, a.flags, a.size)) else t' == t
    ensures IsFlat(t', t0, p0, calls + [c])
  {
    assert (calls + [c])[..|calls|] == calls;
    forall r, v: nat | Serves(p0, r, r, 4, v) && v < PAGES ensures Translate(t', r, v) == Flat(t0, calls + [c], r, v) {
      assert Serves(p, r, r, 4, v);
      assert Translate(t, r, v) == Flat(t0, calls, r, v);
    }
  }

  /** A half-open run of pages. */
  datatype Run = Run(start: nat, end: nat)

  function ImitatedFlags(v: nat, textStart: nat, textEnd: nat): Flags {
    PRESENT | if textStart <= v <= textEnd then 0 else RW
  }

  /** What a new address space maps: the task segments, the kernel, and nothing else. */
  ghost function KernelMapping(start: nat, end: nat, textStart: nat, textEnd: nat, tasks: seq<Run>, v: nat): Option<Mapping> {
    if InTasks(tasks, |tasks|, v) then Some(Mapping(v, PRESENT | RW))
    else if start <= v < end then Some(Mapping(v, ImitatedFlags(v, textStart, textEnd)))
    else None
  }

  /** No mapping of the address space is a large page. */
  ghost predicate SmallPages(tables: Tables, root: nat)
    requires forall f :: f in tables ==> |tables[f]| == ENTRIES
  {
    forall v: nat {:trigger Translate(tables, root, v)} :: v < PAGES && Translate(tables, root, v).Some? ==>
      Translate(tables, root, v).value.flags & PAGE_FRAME == 0
  }

  lemma SmallNeverBlocked(tables: Tables, places: map<nat, Place>, root: nat, v: nat)
    requires Tree(tables, places) && root in places && places[root].level == 4 && v < PAGES && SmallPages(tables, root)
    ensures !Blocked(tables, root, 4, 1, v)
  {
    PrefixTop(v);
    SmallBlockedIff(tables, places, root, root, 4, v);
    LeafOnWalk(tables, places, root, root, 4, v);
    assert Translate(tables, root, v).Some? ==> Translate(tables, root, v).value.flags & PAGE_FRAME == 0;
  }

  /** Exactly the run `start..end` of one address space is mapped to itself. */
  ghost predicate Imitates(tables: Tables, places: map<nat, Place>, tables': Tables, root: nat, start: nat, end: nat, textStart: nat, textEnd: nat)
    requires forall f :: f in tables ==> |tables[f]| == ENTRIES
    requires forall f :: f in tables' ==> |tables'[f]| == ENTRIES
  {
    forall r, v: nat {:trigger Translate(tables', r, v)} :: Serves(places, r, r, 4, v) && v < PAGES ==>
      Translate(tables', r, v) ==
        if r == root && start <= v < end then Some(Mapping(v, ImitatedFlags(v, textStart, textEnd))) else Translate(tables, r, v)
  }

  lemma ImitatesMore(t0: Tables, p0: map<nat, Place>, t: Tables, p: map<nat, Place>, t': Tables, root: nat, start: nat, i: nat, textStart: nat, textEnd: nat)
    requires Placed(t0, p0) && Placed(t, p) && Keeps(p0, p) && start <= i < PAGES
    requires root in p0 && p0[root] == Place(root, 4, 0)
    requires forall f :: f in t' ==> |t'[f]| == ENTRIES
    requires SmallPages(t, root) && Imitates(t0, p0, t, root, start, i, textStart, textEnd)
    requires Remaps(t, p, t', root, i, 1, Entry(i, ImitatedFlags(i, textStart, textEnd)))
    ensures SmallPages(t', root) && Imitates(t0, p0, t', root, start, i + 1, textStart, textEnd)
  {
    assert (PRESENT | RW) & PAGE_FRAME == 0 && (PRESENT | 0) & PAGE_FRAME == 0;
    assert (PRESENT | RW) & PRESENT != 0 && (PRESENT | 0) & PRESENT != 0;
    forall v: nat | v < PAGES && Translate(t', root, v).Some?
      ensures Translate(t', root, v).value.flags & PAGE_FRAME == 0
    {
      PrefixTop(v);
      assert Serves(p, root, root, 4, v);
      assert v != i ==> Translate(t', root, v) == Translate(t, root, v);
    }
    forall r: nat, v: nat | Serves(p0, r, r, 4, v) && v < PAGES
      ensures Translate(t', r, v) ==
        if r == root && start <= v < i + 1 then Some(Mapping(v, ImitatedFlags(v, textStart, textEnd))) else Translate(t0, r, v)
    {
      assert Serves(p, r, r, 4, v);
      assert !(r == root && v == i) ==> Translate(t', r, v) == Translate(t, r, v);
    }
  }

  lemma NewRootKeepsTree(tables: Tables, places: map<nat, Place>, root: nat)
    requires Tree(tables, places) && root !in tables
    ensures var t', p' := tables[root := ZeroTable()], places[root := Place(root, 4, 0)];
      && Tree(t', p') && Keeps(places, p') && SameTranslations(tables, places, t')
      && forall v: nat :: v < PAGES ==> Translate(t', root, v) == None
  {
    var t', p' := tables[root := ZeroTable()], places[root := Place(root, 4, 0)];
    assert !Present(ZERO);
    forall x, y | SamePlace(p', x, y) ensures x == y {
      if x != root && y != root { assert SamePlace(places, x, y); }
    }
    forall g | g in p' && p'[g].level < 4
      ensures HasParent(t', p', g)
    {
      assert HasParent(tables, places, g);
      var h :| HasChild(tables, places, h, g);
      assert HasChild(t', p', h, g);
    }
    forall r: nat, v: nat | Serves(places, r, r, 4, v) && v < PAGES
      ensures Translate(t', r, v) == Translate(tables, r, v)
    {
      WalkSame(tables, t', places, r, r, 4, v);
    }
  }

  /** A walk does not notice tables it cannot reach. */
  lemma {:induction false} WalkSame(tables: Tables, tables': Tables, places: map<nat, Place>, f: nat, root: nat, level: nat, vpn: nat)
    requires Placed(tables, places) && Serves(places, f, root, level, vpn)
    requires forall g :: g in tables' ==> |tables'[g]| == ENTRIES
    requires forall g :: g in tables ==> g in tables' && tables'[g] == tables[g]
    ensures FindLeaf(tables', f, level, vpn) == FindLeaf(tables, f, level, vpn)
    ensures MappingAt(tables', FindLeaf(tables', f, level, vpn), vpn) == MappingAt(tables, FindLeaf(tables, f, level, vpn), vpn)
    decreases level
  {
    var e := tables[f][Index(vpn, level)];
    if IsPointer(e, level) { WalkSame(tables, tables', places, e.frame, root, level - 1, vpn); }
  }

  function NewFlags(flags: Flags, unset: Flags, set_: Flags): Flags {
    (flags & !unset) | set_
  }

  /** A large leaf that stays present keeps the bit that marks it as a leaf. */
  predicate StaysLeaf(level: nat, e: Entry) {
    level > 1 && Present(e) ==> Large(e)
  }

  /** The page changes only if `leaf` maps it, and only in its flags; it is unmapped when PRESENT is cleared. */
  ghost predicate ReflagsAt(tables: Tables, tables': Tables, leaf: Leaf, e: Entry, r: nat, v: nat)
    requires Sized(tables) && Sized(tables')
  {
    Translate(tables', r, v) ==
      if FindLeaf(tables, r, 4, v) == Some(leaf) then
        if Present(e) && Translate(tables, r, v).Some? then Some(Translate(tables, r, v).value.(flags := e.flags)) else None
      else Translate(tables, r, v)
  }

  /** Exactly the pages mapped by `leaf` change, and only in their flags. */
  ghost predicate Reflags(tables: Tables, places: map<nat, Place>, tables': Tables, leaf: Leaf, e: Entry)
    requires forall f :: f in tables ==> |tables[f]| == ENTRIES
    requires forall f :: f in tables' ==> |tables'[f]| == ENTRIES
  {
    forall r, v: nat {:trigger Translate(tables', r, v)} :: Serves(places, r, r, 4, v) && v < PAGES ==>
      ReflagsAt(tables, tables', leaf, e, r, v)
  }

  /** The leaf found for a page is an entry of a table that serves the page. */
  lemma {:induction false} LeafOnWalk(tables: Tables, places: map<nat, Place>, f: nat, root: nat, level: nat, vpn: nat)
    requires Placed(tables, places) && Serves(places, f, root, level, vpn)
    ensures FindLeaf(tables, f, level, vpn).Some? ==>
      var leaf := FindLeaf(tables, f, level, vpn).value;
      && Serves(places, leaf.table, root, leaf.level, vpn) && 1 <= leaf.level <= level && leaf.index == Index(vpn, leaf.level)
      && var e := tables[leaf.table][leaf.index]; Present(e) && !IsPointer(e, leaf.level)
    decreases level
  {
    var e := tables[f][Index(vpn, level)];
    if IsPointer(e, level) { LeafOnWalk(tables, places, e.frame, root, level - 1, vpn); }
  }

  /** A leaf that stays one: its pages change in their flags only, and no other page does. */
  lemma LeafReflagged(tables: Tables, places: map<nat, Place>, leaf: Leaf, e: Entry, r: nat, v: nat)
    requires Tree(tables, places) && leaf.table in places && leaf.index < ENTRIES && leaf.level == places[leaf.table].level < 4
    requires var old' := tables[leaf.table][leaf.index]; Present(old') && !IsPointer(old', leaf.level) && e.frame == old'.frame
    requires StaysLeaf(leaf.level, e) && Serves(places, r, r, 4, v) && v < PAGES
    ensures ReflagsAt(tables, SetEntry(tables, leaf.table, leaf.index, e), leaf, e, r, v)
  {
    var n := v % Span(leaf.level);
    PrefixTop(v);
    UnderLeaf(tables, places, leaf, r, v);
    if FindLeaf(tables, r, 4, v) == Some(leaf) {
      assert Translate(tables, r, v) == Some(Mapping(e.frame + n, tables[leaf.table][leaf.index].flags));
    }
    InstallTranslates(tables, places, leaf.table, leaf.index, e, r, v);
  }

  lemma FlagsChanged(tables: Tables, places: map<nat, Place>, leaf: Leaf, e: Entry)
    requires Tree(tables, places) && leaf.table in places && leaf.index < ENTRIES && leaf.level == places[leaf.table].level < 4
    requires var old' := tables[leaf.table][leaf.index]; Present(old') && !IsPointer(old', leaf.level) && e.frame == old'.frame
    ensures var t' := SetEntry(tables, leaf.table, leaf.index, e);
      && (StaysLeaf(leaf.level, e) <==> Tree(t', places))
      && (StaysLeaf(leaf.level, e) ==> Reflags(tables, places, t', leaf, e))
  {
    var f, i, t' := leaf.table, leaf.index, SetEntry(tables, leaf.table, leaf.index, e);
    if StaysLeaf(leaf.level, e) {
      InstallKeepsTree(tables, places, f, i, e);
      forall r, v: nat | Serves(places, r, r, 4, v) && v < PAGES ensures ReflagsAt(tables, t', leaf, e, r, v) {
        LeafReflagged(tables, places, leaf, e, r, v);
      }
    } else {
      NoTableThere(tables, places, f, i);
      assert t'[f][i] == e;
    }
  }

  /** A page that the leaf maps is found, at the same frame with the new flags, when the walk goes on into the mapped memory. */
  ghost predicate GoesOnAt(tables: Tables, tables': Tables, leaf: Leaf, e: Entry, r: nat, v: nat)
    requires Sized(tables) && Sized(tables') && leaf.level > 0
  {
    FindLeaf(tables, r, 4, v) == Some(leaf) && Translate(tables, r, v).Some? ==>
      MappingAt(tables', FindLeaf(tables', e.frame, leaf.level - 1, v), v) == Some(Translate(tables, r, v).value.(flags := e.flags))
  }

  ghost predicate GoesOn(tables: Tables, places: map<nat, Place>, tables': Tables, leaf: Leaf, e: Entry)
    requires Sized(tables) && Sized(tables') && leaf.level > 0
  {
    forall r, v: nat {:trigger GoesOnAt(tables, tables', leaf, e, r, v)} :: Serves(places, r, r, 4, v) && v < PAGES ==> GoesOnAt(tables, tables', leaf, e, r, v)
  }

  /**
   Exactly when editing a leaf's flags is what it should be for every page: a
   large leaf that stays present keeps its mark. Otherwise the walk goes on into
   the mapped memory; that does only by chance what it should, when this memory is
   itself a table that maps the same pages.
   */
  lemma ReflagsIff(tables: Tables, places: map<nat, Place>, leaf: Leaf, e: Entry, r: nat, v: nat)
    requires Tree(tables, places) && leaf.table in places && leaf.index < ENTRIES && leaf.level == places[leaf.table].level < 4
    requires var old' := tables[leaf.table][leaf.index]; Present(old') && !IsPointer(old', leaf.level) && e.frame == old'.frame
    requires Serves(places, r, r, 4, v) && v < PAGES && FindLeaf(tables, r, 4, v) == Some(leaf)
    ensures var t' := SetEntry(tables, leaf.table, leaf.index, e);
      && (Reflags(tables, places, t', leaf, e) <==> StaysLeaf(leaf.level, e) || GoesOn(tables, places, t', leaf, e))
      && (e.frame !in tables ==> (Reflags(tables, places, t', leaf, e) <==> StaysLeaf(leaf.level, e)))
  {
    var t' := SetEntry(tables, leaf.table, leaf.index, e);
    FlagsChanged(tables, places, leaf, e);
    if !StaysLeaf(leaf.level, e) {
      forall q, w: nat | Serves(places, q, q, 4, w) && w < PAGES
        ensures ReflagsAt(tables, t', leaf, e, q, w) <==> GoesOnAt(tables, t', leaf, e, q, w)
      {
        LeafUnmarked(tables, places, t', leaf, e, q, w);
      }
      if Reflags(tables, places, t', leaf, e) {
        forall q, w: nat | Serves(places, q, q, 4, w) && w < PAGES ensures GoesOnAt(tables, t', leaf, e, q, w) {
          assert Translate(t', q, w) == Translate(t', q, w);
          assert ReflagsAt(tables, t', leaf, e, q, w);
        }
      }
      assert ReflagsAt(tables, t', leaf, e, r, v) <==> GoesOnAt(tables, t', leaf, e, r, v);
    }
  }

  /** A leaf that lost its mark: its pages are looked up further on, and no other page changes. */
  lemma LeafUnmarked(tables: Tables, places: map<nat, Place>, t': Tables, leaf: Leaf, e: Entry, r: nat, v: nat)
    requires Tree(tables, places) && leaf.table in places && leaf.index < ENTRIES && leaf.level == places[leaf.table].level < 4
    requires var old' := tables[leaf.table][leaf.index]; Present(old') && !IsPointer(old', leaf.level) && e.frame == old'.frame
    requires t' == SetEntry(tables, leaf.table, leaf.index, e) && !StaysLeaf(leaf.level, e) && Serves(places, r, r, 4, v) && v < PAGES
    ensures ReflagsAt(tables, t', leaf, e, r, v) <==> GoesOnAt(tables, t', leaf, e, r, v)
  {
    PrefixTop(v);
    if FindLeaf(tables, r, 4, v) == Some(leaf) {
      WalkTo(tables, places, t', leaf, e, r, r, 4, v);
    } else {
      UnderLeaf(tables, places, leaf, r, v);
      WalkUnchanged(tables, t', places, leaf.table, leaf.index, r, r, 4, v);
    }
  }

  /** The walk that ended at the leaf goes on from it when the edited entry is a pointer. */
  lemma {:induction false} WalkTo(tables: Tables, places: map<nat, Place>, t': Tables, leaf: Leaf, e: Entry, f: nat, root: nat, level: nat, vpn: nat)
    requires Placed(tables, places) && Serves(places, f, root, level, vpn) && FindLeaf(tables, f, level, vpn) == Some(leaf)
    requires leaf.table in tables && leaf.index < ENTRIES && t' == SetEntry(tables, leaf.table, leaf.index, e)
    requires Present(e) && leaf.level > 1 && !Large(e) && leaf.level == places[leaf.table].level < 4
    ensures FindLeaf(t', f, level, vpn) == FindLeaf(t', e.frame, leaf.level - 1, vpn)
    decreases level
  {
    var next := tables[f][Index(vpn, level)];
    if IsPointer(next, level) {
      LeafOnWalk(tables, places, next.frame, root, level - 1, vpn);
      WalkTo(tables, places, t', leaf, e, next.frame, root, level - 1, vpn);
    }
  }

  /** A concrete case: a 2MB page mapped at address 0 is unmapped when its mark is cleared, although it stays present. */
  lemma ClearingTheMarkUnmaps() returns (tables: Tables, places: map<nat, Place>, leaf: Leaf, e: Entry)
    ensures Tree(tables, places) && leaf.table in places && leaf.index < ENTRIES
    ensures Translate(tables, 1, 0) == Some(Mapping(512, PRESENT | PAGE_FRAME)) && FindLeaf(tables, 1, 4, 0) == Some(leaf)
    ensures e == Entry(512, NewFlags(PRESENT | PAGE_FRAME, PAGE_FRAME, 0)) && Present(e)
    ensures var t' := SetEntry(tables, leaf.table, leaf.index, e); !Tree(t', places) && Translate(t', 1, 0).None?
  {
    var t0, p0 := map[1 := ZeroTable()], map[1 := Place(1, 4, 0)];
    assert Tree(t0, p0);
    assert !Present(ZERO);
    AttachKeepsTree(t0, p0, 1, 0, 2);
    var t1, p1 := Attach(t0, 1, 0, 2), p0[2 := Below(p0[1], 0)];
    AttachKeepsTree(t1, p1, 2, 0, 3);
    var t2 := Attach(t1, 2, 0, 3);
    places := p1[3 := Below(p1[2], 0)];
    var large := Entry(512, PRESENT | PAGE_FRAME);
    assert Large(large) && Present(large);
    InstallKeepsTree(t2, places, 3, 0, large);
    tables := SetEntry(t2, 3, 0, large);
    leaf := Leaf(3, 0, 2);
    e := Entry(512, NewFlags(PRESENT | PAGE_FRAME, PAGE_FRAME, 0));
    assert e.flags == PRESENT;
    PrefixTop(0);
    TableEntryIsPointer(2, 4);
    TableEntryIsPointer(3, 3);
    assert FindLeaf(tables, 3, 2, 0) == Some(leaf);
    assert FindLeaf(tables, 2, 3, 0) == Some(leaf);
    FlagsChanged(tables, places, leaf, e);
    WalkTo(tables, places, SetEntry(tables, 3, 0, e), leaf, e, 1, 1, 4, 0);
  }

  /** The pages mapped by a leaf are those whose prefix selects its entry. */
  lemma UnderLeaf(tables: Tables, places: map<nat, Place>, leaf: Leaf, r: nat, v: nat)
    requires Tree(tables, places) && leaf.table in places && leaf.index < ENTRIES && leaf.level == places[leaf.table].level
    requires var e := tables[leaf.table][leaf.index]; Present(e) && !IsPointer(e, leaf.level)
    requires Serves(places, r, r, 4, v) && Prefix(v, 4) == 0
    ensures var p := places[leaf.table];
      FindLeaf(tables, r, 4, v) == Some(leaf) <==> r == p.root && Prefix(v, p.level - 1) == p.prefix * ENTRIES + leaf.index
  {
    var p := places[leaf.table];
    if r == p.root && Prefix(v, p.level - 1) == p.prefix * ENTRIES + leaf.index {
      WalkEndsAt(tables, places, leaf.table, leaf.index, r, v);
    }
    LeafOnWalk(tables, places, r, r, 4, v);
  }

  lemma LargeIsLeaf(flags: Flags)
    ensures (flags | PAGE_FRAME) & PAGE_FRAME != 0
    ensures (flags | PAGE_FRAME) & PRESENT == flags & PRESENT
  {
  }

  lemma InstallRemaps(tables: Tables, places: map<nat, Place>, f: nat, i: nat, e: Entry, size: nat, root: nat, vpn: nat)
    requires Tree(tables, places) && Serves(places, f, root, size, vpn) && i == Index(vpn, size)
    requires 1 <= size <= 3 && vpn % Span(size) == 0 && vpn < PAGES
    requires !IsPointer(tables[f][i], size) && !IsPointer(e, size)
    ensures Remaps(tables, places, SetEntry(tables, f, i, e), root, vpn, Span(size), e)
  {
    forall r, v: nat | Serves(places, r, r, 4, v) && v < PAGES
      ensures Translate(SetEntry(tables, f, i, e), r, v) ==
        if r == root && vpn <= v < vpn + Span(size) then if Present(e) then Some(Mapping(e.frame + (v - vpn), e.flags)) else None
        else Translate(tables, r, v)
    {
      PrefixTop(v);
      InstallTranslates(tables, places, f, i, e, r, v);
      LeafRun(size, vpn, v);
    }
  }

  /** A step that changes no translation, followed by one more step. */
  lemma SameThen(t0: Tables, p0: map<nat, Place>, t1: Tables, p1: map<nat, Place>, t2: Tables, root: nat, vpn: nat, n: nat, e: Entry)
    requires Placed(t0, p0) && Placed(t1, p1) && Keeps(p0, p1) && SameTranslations(t0, p0, t1)
    requires forall f :: f in t2 ==> |t2[f]| == ENTRIES
    ensures SameTranslations(t1, p1, t2) ==> SameTranslations(t0, p0, t2)
    ensures Remaps(t1, p1, t2, root, vpn, n, e) ==> Remaps(t0, p0, t2, root, vpn, n, e)
  {
    forall r: nat, v: nat | Serves(p0, r, r, 4, v) && v < PAGES
      ensures Serves(p1, r, r, 4, v) && Translate(t1, r, v) == Translate(t0, r, v)
    {
    }
  }

  /** Tables keep their places, allocations stay, and every new table lies in memory that was in no allocation. */
  ghost predicate Grows(places: map<nat, Place>, slots: seq<Memory.Slot>, places': map<nat, Place>, slots': seq<Memory.Slot>) {
    && Keeps(places, places') && Memory.Extends(slots, slots')
    && forall f {:trigger FrameHeld(slots, f)} :: f in places' && f !in places ==> !FrameHeld(slots, f)
  }

  lemma GrowsTwice(p0: map<nat, Place>, s0: seq<Memory.Slot>, p1: map<nat, Place>, s1: seq<Memory.Slot>, p2: map<nat, Place>, s2: seq<Memory.Slot>)
    requires Grows(p0, s0, p1, s1) && Grows(p1, s1, p2, s2)
    ensures Grows(p0, s0, p2, s2)
  {
    forall f | f in p2 && f !in p0 ensures !FrameHeld(s0, f) {
      if FrameHeld(s0, f) { HeldLater(s0, s1, f); }
    }
  }

  /** Tables keep their places. */
  ghost predicate Keeps(places: map<nat, Place>, places': map<nat, Place>) {
    forall f :: f in places ==> f in places' && places'[f] == places[f]
  }

  /** Every page of every address space translates as before. */
  ghost predicate SameTranslations(tables: Tables, places: map<nat, Place>, tables': Tables)
    requires forall f :: f in tables ==> |tables[f]| == ENTRIES
    requires forall f :: f in tables' ==> |tables'[f]| == ENTRIES
  {
    forall r, v: nat {:trigger Translate(tables', r, v)} :: Serves(places, r, r, 4, v) && v < PAGES ==>
      Translate(tables', r, v) == Translate(tables, r, v)
  }

  /** The entry written for a page. */
  function LeafEntry(frame: nat, flags: Flags, size: nat): Entry {
    Entry(frame, if size == PAGE_SIZE_4KB then flags else flags | PAGE_FRAME)
  }

  /** Exactly the run of `n` pages from `vpn` is remapped, to the frames from `e.frame` on with its flags. */
  ghost predicate Remaps(tables: Tables, places: map<nat, Place>, tables': Tables, root: nat, vpn: nat, n: nat, e: Entry)
    requires forall f :: f in tables ==> |tables[f]| == ENTRIES
    requires forall f :: f in tables' ==> |tables'[f]| == ENTRIES
  {
    forall r, v: nat {:trigger Translate(tables', r, v)} :: Serves(places, r, r, 4, v) && v < PAGES ==>
      Translate(tables', r, v) ==
        if r == root && vpn <= v < vpn + n then if Present(e) then Some(Mapping(e.frame + (v - vpn), e.flags)) else None
        else Translate(tables, r, v)
  }

  lemma AttachSame(tables: Tables, places: map<nat, Place>, f: nat, i: nat, g: nat, root: nat, level: nat, vpn: nat)
    requires Tree(tables, places) && Serves(places, f, root, level, vpn) && level > 1 && i == Index(vpn, level)
    requires !Present(tables[f][i]) && g !in tables
    ensures var places' := places[g := Below(places[f], i)];
      && Placed(Attach(tables, f, i, g), places') && Keeps(places, places')
      && Serves(places', g, root, level - 1, vpn)
      && SameTranslations(tables, places, Attach(tables, f, i, g))
      && forall size :: 1 <= size < level ==> Blocked(Attach(tables, f, i, g), g, level - 1, size, vpn) == Blocked(tables, f, level, size, vpn)
  {
    AttachPlaced(tables, places, f, i, g);
    TableEntryIsPointer(g, level);
    forall r, v: nat | Serves(places, r, r, 4, v) && v < PAGES
      ensures Translate(Attach(tables, f, i, g), r, v) == Translate(tables, r, v)
    {
      PrefixTop(v);
      AttachTranslates(tables, places, f, i, g, r, v);
    }
  }

  lemma NewFrameHeld(slots: seq<Memory.Slot>, f: nat, tag: Memory.Tag)
    requires Memory.Holds(slots, f * 4096, 4096, tag)
    ensures FrameHeld(slots, f)
  {
    var i :| 0 <= i < |slots| && slots[i] == Memory.Slot(f * 4096, 4096, true, tag);
    assert Shares(slots[i], f);
  }
}
