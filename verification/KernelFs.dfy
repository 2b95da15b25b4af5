/** The kernel's side of HypnoticFS: finding, reading and listing what the host tools wrote. */
module KernelFs {
  import opened Base
  import opened Format
  import opened Catalog
  import opened Image
  import Path

  datatype IndexType = TypeFile | TypeDirectory

  /** An entry as the kernel hands it out. */
  datatype Item = Item(size: nat, kind: IndexType, name: Bytes)

  // ------------------------------------------------------------ specification

  /** The bytes that FsRead reads from the start of a file; none where it returns 0. */
  function FileRead(disk: Bytes, path: Bytes, size: nat): Bytes
  {
    if Path.Consolidated(path, true).None? then [] else
    var k := FindPath(Entries(disk), Path.Names(path));
    if k.None? then [] else ExtentRead(disk, Entries(disk)[k.value], size)
  }

  function ExtentRead(disk: Bytes, e: Entry, size: nat): Bytes {
    var n := Least(size, e.size);
    if e.offset + n > |disk| then [] else disk[e.offset..e.offset + n]
  }

  function Least(a: nat, b: nat): nat { if a > b then b else a }

  /** The name up to the first zero. */
  function Unpad(name: Bytes): Bytes {
    if name == [] || name[0] == 0 then [] else [name[0]] + Unpad(name[1..])
  }

  /** Fs_HypnoticFS_GenerateFsIndex; None for an entry of no known type. */
  function FsIndex(e: Entry): Option<Item> {
    if e.kind == FILE then Some(Item(e.size, TypeFile, Unpad(e.name)))
    else if e.kind == DIRECTORY then Some(Item(e.size, TypeDirectory, Unpad(e.name)))
    else None
  }

  /** The loop of FsList from slot `k`: it ends early at an entry of no known type. */
  function ListFrom(es: seq<Entry>, parent: nat, k: nat): seq<Item>
    requires k <= |es|
    decreases |es| - k
  {
    if k == |es| then []
    else if es[k].parent != parent then ListFrom(es, parent, k + 1)
    else if FsIndex(es[k]).None? then []
    else [FsIndex(es[k]).value] + ListFrom(es, parent, k + 1)
  }

  lemma ListStep(es: seq<Entry>, parent: nat, k: nat)
    requires k < |es|
    ensures ListFrom(es, parent, k) ==
      if es[k].parent != parent then ListFrom(es, parent, k + 1)
      else if FsIndex(es[k]).None? then []
      else [FsIndex(es[k]).value] + ListFrom(es, parent, k + 1)
  {
  }

  /** FsList; None where it returns NULL. */
  function Listing(disk: Bytes, names: Names): Option<seq<Item>>
  {
    var es := Entries(disk);
    if IndexSize(disk) < INDEX_START then None
    else if names == [] then Some(ListFrom(es, 0, 0))
    else
      var k := FindPath(es, names);
      if k.None? || es[k.value].kind != DIRECTORY then None else Some(ListFrom(es, Off(k.value), 0))
  }

  // ----------------------------------------------------------------- properties

  /** Reading a file that is in the tree gives its first bytes; what is not in the tree is not found. */
  lemma ReadGivesContents(disk: Bytes, tree: Tree, path: Bytes, size: nat)
    requires Represents(disk, tree) && path != [] && 0 !in path && Path.Consolidated(path, true).Some?
    ensures var names := Path.Names(path);
      FileRead(disk, path, size) ==
        if names in tree && tree[names].File? then tree[names].data[..Least(size, |tree[names].data|)] else []
  {
    var es, names := Entries(disk), Path.Names(path);
    NamesLegal(path);
    TreeKind(disk, es, tree, names);
    if names in tree {
      var k := FindPath(es, names).value;
      FoundKind(es, names);
      NodeRead(disk, es, k, tree[names], size);
    }
  }

  lemma FoundKind(es: seq<Entry>, names: Names)
    requires Sound(es) && FindPath(es, names).Some?
    ensures SlotOk(es, FindPath(es, names).value)
  {
    assert Used(es[FindPath(es, names).value]);
  }

  lemma NodeRead(disk: Bytes, es: seq<Entry>, k: nat, node: Node, size: nat)
    requires k < |es| && Shows(disk, es, k, node) && (node == Dir ==> es[k].size == 0)
    ensures ExtentRead(disk, es[k], size) == if node.File? then node.data[..Least(size, |node.data|)] else []
  {
    if node.File? && node.data != [] {
      var n := Least(size, |node.data|);
      assert disk[es[k].offset..es[k].offset + n] == disk[es[k].offset..es[k].offset + |node.data|][..n];
    }
  }

  // -------------------------------------------------------------------- listing

  /** Items for the entries of a directory among the first `n` slots, in slot order. */
  function Children(es: seq<Entry>, parent: nat, n: nat): seq<Item>
    requires n <= |es|
  {
    if n == 0 then [] else
    Children(es, parent, n - 1) + if es[n - 1].parent == parent && FsIndex(es[n - 1]).Some? then [FsIndex(es[n - 1]).value] else []
  }

  /** The loop lists all entries of the directory: it can end early only behind the last used slot. */
  lemma {:induction false} ListIsChildren(es: seq<Entry>, parent: nat, k: nat)
    requires Sound(es) && k <= FirstEmpty(es)
    ensures Children(es, parent, k) + ListFrom(es, parent, k) == Children(es, parent, FirstEmpty(es))
    decreases |es| - k
  {
    if k < FirstEmpty(es) {
      assert SlotOk(es, k);
      ListIsChildren(es, parent, k + 1);
    } else {
      NothingListed(es, parent, k);
    }
  }

  lemma {:induction false} NothingListed(es: seq<Entry>, parent: nat, k: nat)
    requires k <= |es| && forall j :: k <= j < |es| ==> es[j] == EMPTY_ENTRY
    ensures ListFrom(es, parent, k) == []
    decreases |es| - k
  {
    if k < |es| { NothingListed(es, parent, k + 1); }
  }

  /** The names are shorter than their field. */
  ghost predicate ShortNames(es: seq<Entry>) {
    forall k :: 0 <= k < |es| ==> es[k].name != [] && es[k].name[|es[k].name| - 1] == 0
  }

  lemma {:induction false} UnpadOf(s: Bytes, rest: Bytes)
    requires 0 !in s
    ensures Unpad(s + [0] + rest) == s
  {
    if s == [] {
      assert ([] + [0] + rest)[0] == 0;
    } else {
      assert (s + [0] + rest)[1..] == s[1..] + [0] + rest;
      UnpadOf(s[1..], rest);
    }
  }

  lemma UnpadPad(s: Bytes)
    requires 0 !in s && |s| < NAME_SIZE
    ensures Unpad(Pad(s)) == s
  {
    UnpadOf(s, Zeros(NAME_SIZE - |s| - 1));
    assert Pad(s) == s + [0] + Zeros(NAME_SIZE - |s| - 1);
  }

  /** The name a used slot shows. */
  lemma SlotName(es: seq<Entry>, k: nat) returns (s: Bytes)
    requires Sound(es) && ShortNames(es) && k < FirstEmpty(es)
    ensures s != [] && 0 !in s && |s| < NAME_SIZE && es[k].name == Pad(s) && Unpad(es[k].name) == s
  {
    assert SlotOk(es, k);
    s :| PadsTo(s, es[k].name);
    PadAt(s, NAME_SIZE - 1);
    UnpadPad(s);
  }

  /** Slot `k` is the entry of this name in this directory, and the item describes it. */
  ghost predicate ItemOf(es: seq<Entry>, parent: nat, k: nat, item: Item)
    requires k < |es|
  {
    Used(es[k]) && es[k].parent == parent && FsIndex(es[k]) == Some(item)
  }

  /** Every item comes from a slot of its own, in slot order, and every slot of the directory gives an item. */
  ghost predicate FromSlots(es: seq<Entry>, parent: nat, n: nat, items: seq<Item>, slots: seq<nat>)
    requires n <= |es|
  {
    && |slots| == |items|
    && (forall i :: 0 <= i < |slots| ==> slots[i] < n && ItemOf(es, parent, slots[i], items[i]))
    && (forall i, j :: 0 <= i < j < |slots| ==> slots[i] < slots[j])
    && (forall k {:trigger es[k]} :: 0 <= k < n && es[k].parent == parent ==> k in slots)
  }

  lemma {:induction false} ChildrenExact(es: seq<Entry>, parent: nat, n: nat) returns (slots: seq<nat>)
    requires n <= FirstEmpty(es)
    requires forall k :: 0 <= k < n ==> FsIndex(es[k]).Some?
    ensures FromSlots(es, parent, n, Children(es, parent, n), slots)
  {
    slots := [];
    if n > 0 {
      slots := ChildrenExact(es, parent, n - 1);
      if es[n - 1].parent == parent {
        OneMore(es, parent, n - 1, Children(es, parent, n - 1), slots);
        slots := slots + [n - 1];
      } else {
        NoMore(es, parent, n - 1, Children(es, parent, n - 1), slots);
        assert Children(es, parent, n) == Children(es, parent, n - 1);
      }
    }
  }

  lemma NoMore(es: seq<Entry>, parent: nat, k: nat, items: seq<Item>, slots: seq<nat>)
    requires k < |es| && FromSlots(es, parent, k, items, slots) && es[k].parent != parent
    ensures FromSlots(es, parent, k + 1, items, slots)
  {
  }

  lemma OneMore(es: seq<Entry>, parent: nat, k: nat, items: seq<Item>, slots: seq<nat>)
    requires k < |es| && FromSlots(es, parent, k, items, slots)
    requires Used(es[k]) && es[k].parent == parent && FsIndex(es[k]).Some?
    ensures FromSlots(es, parent, k + 1, items + [FsIndex(es[k]).value], slots + [k])
  {
    var slots' := slots + [k];
    forall j {:trigger es[j]} | 0 <= j < k + 1 && es[j].parent == parent ensures j in slots' {
      if j == k { assert slots'[|slots|] == k; }
    }
  }

  /** The kernel finds a name in a directory exactly at the slot of the directory that shows it. */
  lemma ChildFound(es: seq<Entry>, dir: Names, name: Bytes, parent: nat)
    requires Sound(es) && DirOffset(es, dir, |dir|) == Some(parent) && |name| <= NAME_SIZE
    ensures FindPath(es, dir + [name]) ==
      if FirstMatch(es, parent, Pad(name), false) < |es| then Some(FirstMatch(es, parent, Pad(name), false)) else None
  {
    var names := dir + [name];
    assert names[..|dir|] == dir[..|dir|];
    DirPrefix(es, names, |dir|, dir, |dir|);
  }

  /** The item describes the node. */
  predicate ItemFits(item: Item, node: Node) {
    match node
    case Dir => item.kind == TypeDirectory && item.size == 0
    case File(data) => item.kind == TypeFile && item.size == |data|
  }

  /** What the kernel lists is the directory: one item for each of its names, describing what is there. */
  ghost predicate ListsDirectory(items: seq<Item>, tree: Tree, dir: Names) {
    && (forall i :: 0 <= i < |items| ==> dir + [items[i].name] in tree && ItemFits(items[i], tree[dir + [items[i].name]]))
    && (forall i, j :: 0 <= i < j < |items| ==> items[i].name != items[j].name)
    && (forall name: Bytes {:trigger dir + [name]} :: dir + [name] in tree ==> exists i :: 0 <= i < |items| && items[i].name == name)
  }

  lemma ItemDescribes(disk: Bytes, es: seq<Entry>, tree: Tree, dir: Names, parent: nat, k: nat, item: Item)
    requires Sound(es) && Holds(disk, es, tree) && ShortNames(es) && Legal(dir) && DirOffset(es, dir, |dir|) == Some(parent)
    requires k < FirstEmpty(es) && ItemOf(es, parent, k, item)
    ensures dir + [item.name] in tree && ItemFits(item, tree[dir + [item.name]])
    ensures |item.name| < NAME_SIZE && es[k].name == Pad(item.name)
  {
    var s := SlotName(es, k);
    var names := dir + [s];
    OnlyMatch(es, k);
    ChildFound(es, dir, s, parent);
    assert FindPath(es, names) == Some(k) && Legal(names);
    TreeKind(disk, es, tree, names);
    assert SlotOk(es, k) && Shows(disk, es, k, tree[names]);
  }

  /** The slot of a name of the tree lies in the directory and shows the name. */
  lemma EntryIsListed(disk: Bytes, es: seq<Entry>, tree: Tree, dir: Names, parent: nat, name: Bytes) returns (k: nat)
    requires Sound(es) && Holds(disk, es, tree) && ShortNames(es) && Legal(dir) && DirOffset(es, dir, |dir|) == Some(parent)
    requires dir + [name] in tree
    ensures k < FirstEmpty(es) && es[k].parent == parent && Unpad(es[k].name) == name
  {
    var names := dir + [name];
    TreeKind(disk, es, tree, names);
    k := FindPath(es, names).value;
    assert names[|names| - 1] == name && |name| <= NAME_SIZE;
    ChildFound(es, dir, name, parent);
    assert Used(es[k]);
    var s := SlotName(es, k);
    PadInjective(s, name);
  }

  lemma ItemsDescribe(disk: Bytes, es: seq<Entry>, tree: Tree, dir: Names, parent: nat, items: seq<Item>, slots: seq<nat>)
    requires Sound(es) && Holds(disk, es, tree) && ShortNames(es) && Legal(dir) && DirOffset(es, dir, |dir|) == Some(parent)
    requires FromSlots(es, parent, FirstEmpty(es), items, slots)
    ensures forall i :: 0 <= i < |items| ==> dir + [items[i].name] in tree && ItemFits(items[i], tree[dir + [items[i].name]])
    ensures forall i, j :: 0 <= i < j < |items| ==> items[i].name != items[j].name
  {
    forall i | 0 <= i < |items|
      ensures dir + [items[i].name] in tree && ItemFits(items[i], tree[dir + [items[i].name]])
      ensures |items[i].name| < NAME_SIZE && es[slots[i]].name == Pad(items[i].name)
    {
      ItemDescribes(disk, es, tree, dir, parent, slots[i], items[i]);
    }
    forall i, j | 0 <= i < j < |items| ensures items[i].name != items[j].name {
      assert ItemOf(es, parent, slots[i], items[i]) && ItemOf(es, parent, slots[j], items[j]);
    }
  }

  lemma NamesListed(disk: Bytes, es: seq<Entry>, tree: Tree, dir: Names, parent: nat, items: seq<Item>, slots: seq<nat>, name: Bytes)
    requires Sound(es) && Holds(disk, es, tree) && ShortNames(es) && Legal(dir) && DirOffset(es, dir, |dir|) == Some(parent)
    requires FromSlots(es, parent, FirstEmpty(es), items, slots) && dir + [name] in tree
    ensures exists i :: 0 <= i < |items| && items[i].name == name
  {
    var k := EntryIsListed(disk, es, tree, dir, parent, name);
    var i :| 0 <= i < |slots| && slots[i] == k;
    assert ItemOf(es, parent, k, items[i]);
  }

  lemma ChildrenListed(disk: Bytes, es: seq<Entry>, tree: Tree, dir: Names, parent: nat)
    requires Sound(es) && Holds(disk, es, tree) && ShortNames(es) && Legal(dir) && DirOffset(es, dir, |dir|) == Some(parent)
    ensures ListsDirectory(Children(es, parent, FirstEmpty(es)), tree, dir)
  {
    var n := FirstEmpty(es);
    var items := Children(es, parent, n);
    forall k | 0 <= k < n ensures FsIndex(es[k]).Some? { assert SlotOk(es, k); }
    var slots := ChildrenExact(es, parent, n);
    ItemsDescribe(disk, es, tree, dir, parent, items, slots);
    forall name: Bytes | dir + [name] in tree ensures exists i :: 0 <= i < |items| && items[i].name == name {
      NamesListed(disk, es, tree, dir, parent, items, slots, name);
    }
  }

  predicate IsDirectory(tree: Tree, dir: Names) {
    dir == [] || (dir in tree && tree[dir] == Dir)
  }

  /** A directory of the tree is one that lookup finds. */
  lemma DirectoryFound(disk: Bytes, es: seq<Entry>, tree: Tree, dir: Names)
    requires Sound(es) && Holds(disk, es, tree) && Legal(dir)
    ensures IsDirectory(tree, dir) <==> DirOffset(es, dir, |dir|).Some?
  {
    if dir != [] {
      TreeKind(disk, es, tree, dir);
      DirIsFound(es, dir);
    }
  }

  /** What is listed is the directory that lookup finds. */
  lemma ListingOfFound(disk: Bytes, names: Names)
    requires Sound(Entries(disk)) && IndexSize(disk) >= INDEX_START
    ensures var es := Entries(disk);
      var parent := DirOffset(es, names, |names|);
      Listing(disk, names) == if parent.None? then None else Some(ListFrom(es, parent.value, 0))
  {
    if names != [] { DirIsFound(Entries(disk), names); }
  }

  /** The items of a directory, whose entries are listed under this offset. */
  lemma ItemsListed(disk: Bytes, es: seq<Entry>, tree: Tree, dir: Names, parent: nat)
    requires Sound(es) && Holds(disk, es, tree) && ShortNames(es) && Legal(dir) && DirOffset(es, dir, |dir|) == Some(parent)
    ensures ListFrom(es, parent, 0) == Children(es, parent, FirstEmpty(es)) && ListsDirectory(ListFrom(es, parent, 0), tree, dir)
  {
    ListIsChildren(es, parent, 0);
    ChildrenListed(disk, es, tree, dir, parent);
    assert [] + ListFrom(es, parent, 0) == ListFrom(es, parent, 0);
  }

  /**
   Listing a directory of a well-formed image gives exactly its names, each
   once and in slot order; anything else is not listed.
   */
  lemma ListingExact(disk: Bytes, tree: Tree, dir: Names)
    requires Represents(disk, tree) && ShortNames(Entries(disk)) && Legal(dir) && IndexSize(disk) >= INDEX_START
    ensures Listing(disk, dir).Some? <==> IsDirectory(tree, dir)
    ensures IsDirectory(tree, dir) ==> DirOffset(Entries(disk), dir, |dir|).Some?
    ensures IsDirectory(tree, dir) ==>
      && Listing(disk, dir).value == Children(Entries(disk), DirOffset(Entries(disk), dir, |dir|).value, FirstEmpty(Entries(disk)))
      && ListsDirectory(Listing(disk, dir).value, tree, dir)
  {
    var es := Entries(disk);
    DirectoryFound(disk, es, tree, dir);
    ListingOfFound(disk, dir);
    if IsDirectory(tree, dir) { ItemsListed(disk, es, tree, dir, DirOffset(es, dir, |dir|).value); }
  }
}
