/** What the host tools make of an image, as a tree of directories and files. */
module Image {
  import opened Base
  import opened Format
  import opened Catalog
  import Path

  datatype Error = BadSource | BadImage | BadPath | NoDirectory | NameTooLong | Exists | NoSlot | TooLarge | NoSpace

  /** Where a new entry goes: its name, its directory and its slot. */
  datatype Located = Located(name: Bytes, parent: nat, slot: nat) | Refused(error: Error)

  datatype Outcome = Done(image: Bytes) | Failed(error: Error)

  datatype Node = Dir | File(data: Bytes)

  type Tree = map<Names, Node>

  // --------------------------------------------------------------- the tools

  /** The part that mkdir and add share: read the header, follow the path, look for the name and for an empty slot. */
  function Locate(img: Bytes, path: Bytes): (r: Located)
    ensures r.Located? ==> |r.name| <= NAME_SIZE
  {
    if !HasHeader(img) then Refused(BadImage)
    else if Path.Consolidated(path, false).None? || Path.Names(path) == [] then Refused(BadPath)
    else LocateNames(Entries(img), Path.Names(path))
  }

  function LocateNames(es: seq<Entry>, names: Names): (r: Located)
    requires names != []
    ensures r.Located? ==> |r.name| <= NAME_SIZE
  {
    var n := |names| - 1;
    var parent := DirOffset(es, names, n);
    if parent.None? then Refused(NoDirectory)
    else if |names[n]| > NAME_SIZE then Refused(NameTooLong)
    else if FirstMatch(es, parent.value, Pad(names[n]), false) < |es| then Refused(Exists)
    else if FirstEmpty(es) == |es| then Refused(NoSlot)
    else Located(names[n], parent.value, FirstEmpty(es))
  }

  function NewEntry(kind: byte, place: Located, size: nat, offset: nat): (e: Entry)
    requires place.Located? && |place.name| <= NAME_SIZE
    ensures |e.name| == NAME_SIZE
  {
    Entry(kind, place.parent, size, offset, Pad(place.name))
  }

  /** hypnoticfs-mkdir. */
  function WithDirectory(img: Bytes, path: Bytes): Outcome {
    var place := Locate(img, path);
    if place.Refused? then Failed(place.error)
    else Done(WriteAt(img, Off(place.slot), Encode(NewEntry(DIRECTORY, place, 0, 0))))
  }

  /** hypnoticfs-add; `hostName` is the length of the source file's name. */
  function WithFile(img: Bytes, path: Bytes, data: Bytes, hostName: nat): Outcome {
    if hostName > NAME_SIZE then Failed(BadSource) else
    var place := Locate(img, path);
    if place.Refused? then Failed(place.error)
    else if |data| >= |img| - IndexSize(img) then Failed(TooLarge)
    else
      var pos := PickOffset(Entries(img), IndexSize(img), |data|);
      if pos.None? then Failed(NoSpace)
      else Done(WriteAt(WriteAt(img, pos.value, data), Off(place.slot), Encode(NewEntry(FILE, place, |data|, pos.value))))
  }

  /** hypnoticfs-new, for a size in bytes and the size of the index. */
  function NewImage(size: nat, indexSize: nat): (img: Bytes)
    ensures |img| == if size < INDEX_START then INDEX_START else size
    ensures forall i :: INDEX_START <= i < |img| ==> img[i] == 0
  {
    MAGIC + Little(indexSize, 8) + Zeros(if size < INDEX_START then 0 else size - INDEX_START)
  }

  // -------------------------------------------------------------- what it means

  /** Slot `k` holds this node. */
  predicate Shows(img: Bytes, es: seq<Entry>, k: nat, node: Node)
    requires k < |es|
  {
    match node
    case Dir => es[k].kind == DIRECTORY
    case File(data) =>
      && es[k].kind == FILE && es[k].size == |data|
      && (data != [] ==> es[k].offset + |data| <= |img| && img[es[k].offset..es[k].offset + |data|] == data)
  }

  ghost predicate Holds(img: Bytes, es: seq<Entry>, tree: Tree) {
    && (forall names :: names in tree ==> Legal(names) && FindPath(es, names).Some? && Shows(img, es, FindPath(es, names).value, tree[names]))
    && (forall names {:trigger FindPath(es, names)} :: Legal(names) && FindPath(es, names).Some? ==> names in tree)
  }

  /** The image is well formed, and the paths in it lead to exactly the nodes of the tree. */
  ghost predicate Represents(img: Bytes, tree: Tree) {
    && HasHeader(img)
    && Sound(Entries(img)) && Extents(Entries(img), IndexSize(img), |img|)
    && Holds(img, Entries(img), tree)
  }

  /** Images far below the 64-bit limit. */
  const LIMIT: nat := 0x4000_0000_0000_0000

  lemma NamesLegal(path: Bytes)
    requires path != [] && 0 !in path
    ensures Legal(Path.Names(path))
  {
    Path.NamesPlain(path);
    SplitLegal(path[1..]);
    SurvivorsLegal(Path.Split(path[1..]), |Path.Split(path[1..])|);
  }

  lemma {:induction false} SplitLegal(s: Bytes)
    requires 0 !in s
    ensures forall i :: 0 <= i < |Path.Split(s)| ==> 0 !in Path.Split(s)[i]
  {
    if s != [] { SplitLegal(s[..|s| - 1]); }
  }

  lemma {:induction false} SurvivorsLegal(segs: seq<Bytes>, n: nat)
    requires n <= |segs| && forall i :: 0 <= i < |segs| ==> 0 !in segs[i]
    ensures forall i :: 0 <= i < |Path.Survivors(segs, n)| ==> 0 !in Path.Survivors(segs, n)[i]
  {
    if n > 0 { SurvivorsLegal(segs, n - 1); }
  }

  /** A place that was found is fit for a new entry. */
  lemma LocatedAddable(img: Bytes, path: Bytes, kind: byte, size: nat, offset: nat)
    requires Locate(img, path).Located? && 0 !in path
    requires kind == FILE || (kind == DIRECTORY && size == 0 && offset == 0)
    ensures Addable(Entries(img), Path.Names(path), NewEntry(kind, Locate(img, path), size, offset))
    ensures Locate(img, path).slot == FirstEmpty(Entries(img)) < |Entries(img)| && IndexSize(img) > INDEX_START + ENTRY_SIZE
  {
    NamesLegal(path);
  }

  lemma SlotsBelow(img: Bytes, k: nat)
    requires HasHeader(img) && k <= |Entries(img)|
    ensures Off(k) <= |img| + INDEX_START
  {
    if k > 0 { assert Off(k - 1) + ENTRY_SIZE < IndexSize(img); }
  }

  /** Every parent offset lies in the index. */
  lemma ParentBound(img: Bytes, names: Names, n: nat)
    requires HasHeader(img) && n <= |names| && DirOffset(Entries(img), names, n).Some?
    ensures DirOffset(Entries(img), names, n).value < |img|
  {
    if n > 0 { var j := DirStep(Entries(img), names, n); }
  }

  /** The bytes of every file are the same in both images. */
  ghost predicate FilesKept(img: Bytes, img': Bytes, es: seq<Entry>) {
    |img| <= |img'| && forall k :: 0 <= k < |es| ==> FileKept(img, img', es[k])
  }

  predicate FileKept(img: Bytes, img': Bytes, e: Entry)
    requires |img| <= |img'|
  {
    e.kind == FILE && e.offset + e.size <= |img| ==> img'[e.offset..e.offset + e.size] == img[e.offset..e.offset + e.size]
  }

  /** Nodes of other slots are shown as before when their bytes are. */
  lemma ShowsLater(img: Bytes, img': Bytes, es: seq<Entry>, es': seq<Entry>, k: nat, node: Node)
    requires k < |es| && k < |es'| && es'[k] == es[k] && Shows(img, es, k, node) && FilesKept(img, img', es)
    ensures Shows(img', es', k, node)
  {
    assert FileKept(img, img', es[k]);
  }

  /** Writing an entry keeps the bytes of files, which lie behind the index. */
  lemma FilesKeptThen(img: Bytes, img1: Bytes, img2: Bytes, es: seq<Entry>, indexSize: nat)
    requires FilesKept(img, img1, es) && |img1| == |img2| && indexSize <= |img1| && img2[indexSize..] == img1[indexSize..]
    requires forall k :: 0 <= k < |es| && es[k].kind == FILE ==> es[k].offset >= indexSize
    ensures FilesKept(img, img2, es)
  {
    forall k | 0 <= k < |es| ensures FileKept(img, img2, es[k]) {
      var e := es[k];
      assert FileKept(img, img1, e);
      if e.kind == FILE && e.offset + e.size <= |img| { SameBehind(img1, img2, indexSize, e.offset, e.offset + e.size); }
    }
  }

  lemma SameBehind(img1: Bytes, img2: Bytes, indexSize: nat, a: nat, b: nat)
    requires indexSize <= a <= b <= |img1| == |img2| && img2[indexSize..] == img1[indexSize..]
    ensures img2[a..b] == img1[a..b]
  {
    assert forall i :: a <= i < b ==> img2[i] == img2[indexSize..][i - indexSize] && img1[i] == img1[indexSize..][i - indexSize];
  }

  lemma FoundAfter(img: Bytes, img': Bytes, es: seq<Entry>, tree: Tree, names: Names, e: Entry, other: Names)
    requires Sound(es) && Addable(es, names, e) && Holds(img, es, tree) && FilesKept(img, img', es)
    requires other in tree
    ensures other != names && Legal(other) && FindPath(Added(es, e), other).Some?
    ensures Shows(img', Added(es, e), FindPath(Added(es, e), other).value, tree[other])
  {
    var k := FindPath(es, other).value;
    assert Used(es[k]);
    FindPathAfter(es, names, e, other);
    ShowsLater(img, img', es, Added(es, e), k, tree[other]);
  }

  /** The tree gains the new node at its names and nothing else changes. */
  lemma HoldsAfter(img: Bytes, img': Bytes, es: seq<Entry>, tree: Tree, names: Names, e: Entry, node: Node)
    requires Sound(es) && Addable(es, names, e) && Holds(img, es, tree) && FilesKept(img, img', es)
    requires Shows(img', Added(es, e), FirstEmpty(es), node)
    ensures Holds(img', Added(es, e), tree[names := node]) && names !in tree
  {
    var es', tree' := Added(es, e), tree[names := node];
    FindPathAfter(es, names, e, names);
    forall other | other in tree'
      ensures Legal(other) && FindPath(es', other).Some? && Shows(img', es', FindPath(es', other).value, tree'[other])
    {
      if other != names { FoundAfter(img, img', es, tree, names, e, other); }
    }
    forall other | Legal(other) && FindPath(es', other).Some? ensures other in tree' {
      FindPathAfter(es, names, e, other);
    }
  }

  /** The new entry describes the node, whose bytes are in the image already. */
  predicate Describes(e: Entry, node: Node, img: Bytes, indexSize: nat) {
    match node
    case Dir => e.kind == DIRECTORY
    case File(data) =>
      && e.kind == FILE && e.size == |data| && e.offset >= indexSize
      && (data != [] ==> e.offset + |data| <= |img| && img[e.offset..e.offset + |data|] == data)
  }

  ghost predicate ExtentFits(es: seq<Entry>, e: Entry, indexSize: nat, length: nat) {
    e.kind == FILE ==>
      && e.offset >= indexSize && !Overlaps(es, e.offset, e.size)
      && e.offset + e.size <= length + FirstEmpty(es) + 1 && (e.size > 0 ==> e.offset + e.size <= length)
  }

  lemma FilesBehindIndex(es: seq<Entry>, indexSize: nat, length: nat)
    requires Extents(es, indexSize, length)
    ensures forall k :: 0 <= k < |es| && es[k].kind == FILE ==> es[k].offset >= indexSize
  {
    forall k | 0 <= k < |es| && es[k].kind == FILE ensures es[k].offset >= indexSize {
      assert ExtentOk(es[k], k, indexSize, length);
    }
  }

  lemma HoldsWritten(img: Bytes, img1: Bytes, img2: Bytes, es: seq<Entry>, indexSize: nat, tree: Tree, names: Names, e: Entry, node: Node)
    requires Sound(es) && Extents(es, indexSize, |img|) && Holds(img, es, tree) && Addable(es, names, e)
    requires FilesKept(img, img1, es) && indexSize <= |img1| == |img2| && img2[indexSize..] == img1[indexSize..]
    requires Describes(e, node, img1, indexSize)
    ensures names !in tree && Holds(img2, Added(es, e), tree[names := node])
  {
    FilesBehindIndex(es, indexSize, |img|);
    FilesKeptThen(img, img1, img2, es, indexSize);
    if node.File? && node.data != [] { SameBehind(img1, img2, indexSize, e.offset, e.offset + e.size); }
    HoldsAfter(img, img2, es, tree, names, e, node);
  }

  /** Writing the entry of a node completes it. */
  lemma EntryWritten(img: Bytes, img1: Bytes, tree: Tree, names: Names, e: Entry, node: Node)
    requires Represents(img, tree) && Addable(Entries(img), names, e) && Format.Fits(e) && IndexSize(img) > 0
    requires HasHeader(img1) && Entries(img1) == Entries(img) && IndexSize(img1) == IndexSize(img) && FilesKept(img, img1, Entries(img))
    requires ExtentFits(Entries(img), e, IndexSize(img), |img1|) && Describes(e, node, img1, IndexSize(img))
    ensures names !in tree && Represents(WriteAt(img1, Off(FirstEmpty(Entries(img))), Encode(e)), tree[names := node])
  {
    var es, k := Entries(img), FirstEmpty(Entries(img));
    WriteEntryChangesSlot(img1, k, e);
    AddedSound(es, names, e);
    ExtentsAdded(es, IndexSize(img), |img|, e, |img1|);
    HoldsWritten(img, img1, WriteAt(img1, Off(k), Encode(e)), es, IndexSize(img), tree, names, e, node);
  }

  /** A successful mkdir adds exactly that directory to the tree. */
  lemma WithDirectoryRepresents(img: Bytes, path: Bytes, tree: Tree)
    requires Represents(img, tree) && 0 !in path && |img| < LIMIT && WithDirectory(img, path).Done?
    ensures path != [] && Path.Names(path) !in tree
    ensures Represents(WithDirectory(img, path).image, tree[Path.Names(path) := Dir])
    ensures |WithDirectory(img, path).image| == |img|
  {
    var names := Path.Names(path);
    LocatedAddable(img, path, DIRECTORY, 0, 0);
    ParentBound(img, names, |names| - 1);
    EntryWritten(img, img, tree, names, NewEntry(DIRECTORY, Locate(img, path), 0, 0), Dir);
    WriteEntryChangesSlot(img, Locate(img, path).slot, NewEntry(DIRECTORY, Locate(img, path), 0, 0));
  }

  /** The bytes of a new file touch those of no other. */
  lemma DataWritten(img: Bytes, tree: Tree, pos: nat, data: Bytes)
    requires Represents(img, tree) && IndexSize(img) > INDEX_START && pos >= IndexSize(img) && !Overlaps(Entries(img), pos, |data|)
    ensures var img1 := WriteAt(img, pos, data);
      && HasHeader(img1) && Entries(img1) == Entries(img) && IndexSize(img1) == IndexSize(img)
      && FilesKept(img, img1, Entries(img))
      && (data != [] ==> pos + |data| <= |img1| && img1[pos..pos + |data|] == data)
  {
    var img1, es := WriteAt(img, pos, data), Entries(img);
    WriteDataKeepsEntries(img, pos, data);
    WriteAtReads(img, pos, data, 0, 0);
    forall k | 0 <= k < |es| ensures FileKept(img, img1, es[k]) {
      assert !Conflict(es[k], pos, |data|);
      WriteKeepsFile(img, pos, data, es[k]);
    }
  }

  lemma WriteKeepsFile(img: Bytes, pos: nat, data: Bytes, e: Entry)
    requires !Conflict(e, pos, |data|)
    ensures |img| <= |WriteAt(img, pos, data)| && FileKept(img, WriteAt(img, pos, data), e)
  {
    if e.kind == FILE && e.offset + e.size <= |img| { WriteAtReads(img, pos, data, e.offset, e.offset + e.size); }
  }

  /** The offset chosen for a new file is not far behind the end of the image. */
  lemma OffsetBound(img: Bytes, tree: Tree, size: nat)
    requires Represents(img, tree) && FirstEmpty(Entries(img)) < |Entries(img)|
    ensures PickOffset(Entries(img), IndexSize(img), size).Some?
    ensures PickOffset(Entries(img), IndexSize(img), size).value <= |img| + FirstEmpty(Entries(img)) + 1
  {
    var es := Entries(img);
    PickOffsetApart(es, IndexSize(img), size);
    if PickOffset(es, IndexSize(img), size).value != IndexSize(img) {
      var k :| 0 <= k < |es| && Used(es[k]) && PickOffset(es, IndexSize(img), size).value == es[k].offset + es[k].size + 1;
      assert k < FirstEmpty(es) && SlotOk(es, k);
      if es[k].kind == FILE { assert ExtentOk(es[k], k, IndexSize(img), |img|); }
    }
  }

  /** The entry of a new file touches no other extent. */
  lemma FileExtentFits(img: Bytes, tree: Tree, e: Entry, length: nat)
    requires Represents(img, tree) && FirstEmpty(Entries(img)) < |Entries(img)|
    requires PickOffset(Entries(img), IndexSize(img), e.size) == Some(e.offset)
    requires length >= |img| && (e.size > 0 ==> length >= e.offset + e.size)
    ensures e.offset >= IndexSize(img) && !Overlaps(Entries(img), e.offset, e.size)
    ensures ExtentFits(Entries(img), e, IndexSize(img), length)
  {
    PickOffsetApart(Entries(img), IndexSize(img), e.size);
    OffsetBound(img, tree, e.size);
  }

  /** The numbers in the entry of a new file fit their fields. */
  lemma FileEntryFits(img: Bytes, path: Bytes, size: nat, tree: Tree)
    requires Represents(img, tree) && 0 !in path && |img| < LIMIT && Locate(img, path).Located? && size < |img|
    requires PickOffset(Entries(img), IndexSize(img), size).Some?
    ensures Format.Fits(NewEntry(FILE, Locate(img, path), size, PickOffset(Entries(img), IndexSize(img), size).value))
  {
    LocatedAddable(img, path, FILE, 0, 0);
    OffsetBound(img, tree, size);
    SlotsBelow(img, FirstEmpty(Entries(img)));
    ParentBound(img, Path.Names(path), |Path.Names(path)| - 1);
  }

  /** A successful add adds exactly that file, with its contents, to the tree. */
  lemma WithFileRepresents(img: Bytes, path: Bytes, data: Bytes, hostName: nat, tree: Tree)
    requires Represents(img, tree) && 0 !in path && |img| < LIMIT && WithFile(img, path, data, hostName).Done?
    ensures path != [] && Path.Names(path) !in tree
    ensures Represents(WithFile(img, path, data, hostName).image, tree[Path.Names(path) := File(data)])
    ensures |WithFile(img, path, data, hostName).image| >= |img|
  {
    var place := Locate(img, path);
    var pos := PickOffset(Entries(img), IndexSize(img), |data|).value;
    var e, img1 := NewEntry(FILE, place, |data|, pos), WriteAt(img, pos, data);
    LocatedAddable(img, path, FILE, |data|, pos);
    FileEntryFits(img, path, |data|, tree);
    PickOffsetApart(Entries(img), IndexSize(img), |data|);
    DataWritten(img, tree, pos, data);
    FileExtentFits(img, tree, e, |img1|);
    EntryWritten(img, img1, tree, Path.Names(path), e, File(data));
  }

  // ------------------------------------------------------- when the tools succeed

  /** The directory of the last name exists. */
  predicate ParentIn(tree: Tree, names: Names)
    requires names != []
  {
    var up := names[..|names| - 1]; up == [] || (up in tree && tree[up] == Dir)
  }

  lemma TreeKind(img: Bytes, es: seq<Entry>, tree: Tree, names: Names)
    requires Holds(img, es, tree) && Legal(names)
    ensures names in tree <==> FindPath(es, names).Some?
    ensures names in tree ==> (tree[names] == Dir <==> es[FindPath(es, names).value].kind == DIRECTORY)
  {
    if names in tree { assert Shows(img, es, FindPath(es, names).value, tree[names]); }
  }

  lemma ParentFound(img: Bytes, tree: Tree, names: Names)
    requires Represents(img, tree) && names != [] && Legal(names)
    ensures DirOffset(Entries(img), names, |names| - 1).Some? <==> ParentIn(tree, names)
  {
    var up := names[..|names| - 1];
    DirPrefix(Entries(img), names, |names| - 1, up, |up|);
    if up != [] {
      DirIsFound(Entries(img), up);
      TreeKind(img, Entries(img), tree, up);
    }
  }

  /**
   A place is found exactly if the directory is there, the name is new and not
   too long, and a slot is left; of several reasons to refuse the first is told.
   */
  lemma LocateExactly(img: Bytes, path: Bytes, tree: Tree)
    requires Represents(img, tree) && 0 !in path
    ensures Locate(img, path).Located? <==>
      && Path.Consolidated(path, false).Some? && Path.Names(path) != []
      && var names := Path.Names(path);
      && ParentIn(tree, names) && |names[|names| - 1]| <= NAME_SIZE && names !in tree && FirstEmpty(Entries(img)) < |Entries(img)|
    ensures Locate(img, path).Refused? ==>
      Locate(img, path).error ==
      if Path.Consolidated(path, false).None? || Path.Names(path) == [] then BadPath else
      var names := Path.Names(path);
      if !ParentIn(tree, names) then NoDirectory
      else if |names[|names| - 1]| > NAME_SIZE then NameTooLong
      else if names in tree then Exists
      else NoSlot
  {
    if Path.Consolidated(path, false).Some? && Path.Names(path) != [] {
      NamesLegal(path);
      ParentFound(img, tree, Path.Names(path));
      TreeKind(img, Entries(img), tree, Path.Names(path));
    }
  }

  /**
   Exactly when add succeeds on a well-formed image: a place is found and the
   data is smaller than the part of the image behind the index. It never fails
   for want of an extent.
   */
  lemma AddSucceedsExactly(img: Bytes, path: Bytes, data: Bytes, hostName: nat, tree: Tree)
    requires Represents(img, tree)
    ensures WithFile(img, path, data, hostName).Done? <==>
      hostName <= NAME_SIZE && Locate(img, path).Located? && |data| < |img| - IndexSize(img)
    ensures WithFile(img, path, data, hostName).Failed? ==>
      WithFile(img, path, data, hostName).error ==
      if hostName > NAME_SIZE then BadSource else if Locate(img, path).Refused? then Locate(img, path).error else TooLarge
  {
    PickOffsetNeverFails(Entries(img), IndexSize(img), |data|);
  }

  /** A new image represents the empty tree. */
  lemma NewRepresents(size: nat, indexSize: nat)
    requires indexSize <= size && size < LIMIT
    ensures var img := NewImage(size, indexSize);
      && Represents(img, map[]) && IndexSize(img) == indexSize && FirstEmpty(Entries(img)) == 0
      && |img| == if size < INDEX_START then INDEX_START else size
  {
    var img := NewImage(size, indexSize);
    PowerOf8();
    LittleThenNumber(indexSize, 8);
    assert img[MAGIC_SIZE..INDEX_START] == Little(indexSize, 8);
    assert img[..MAGIC_SIZE] == MAGIC;
    var es := Entries(img);
    SlotMet(img, 0);
    forall k | 0 <= k < |es| ensures es[k] == EMPTY_ENTRY {
      DecodeZeros(img[Off(k)..Off(k) + ENTRY_SIZE]);
    }
    forall names | Legal(names) && FindPath(es, names).Some? ensures false {
      FoundIsUsed(es, names);
    }
  }

  /**
   Exactly which files a new image takes: those at the root whose name fits, when
   the index has a slot and the data is smaller than what lies behind it.
   */
  lemma NewTakesExactly(size: nat, indexSize: nat, path: Bytes, data: Bytes, hostName: nat)
    requires INDEX_START <= size && indexSize <= size < LIMIT && 0 !in path
    ensures WithFile(NewImage(size, indexSize), path, data, hostName).Done? <==>
      && hostName <= NAME_SIZE && Path.Consolidated(path, false).Some?
      && |Path.Names(path)| == 1 && |Path.Names(path)[0]| <= NAME_SIZE
      && INDEX_START + ENTRY_SIZE < indexSize && |data| < size - indexSize
  {
    var img := NewImage(size, indexSize);
    NewRepresents(size, indexSize);
    SlotMet(img, 0);
    LocateExactly(img, path, map[]);
    AddSucceedsExactly(img, path, data, hostName, map[]);
  }

  /** A new image takes "/a", and then holds that file and nothing else. */
  lemma NewTakesAFile(size: nat, indexSize: nat, a: Path.Name, data: Bytes)
    requires INDEX_START + ENTRY_SIZE < indexSize && |data| < size - indexSize && size < LIMIT
    ensures WithFile(NewImage(size, indexSize), [Path.SLASH, a], data, 1).Done?
    ensures Represents(WithFile(NewImage(size, indexSize), [Path.SLASH, a], data, 1).image, map[[[a]] := File(data)])
  {
    Path.OneName(a);
    NewRepresents(size, indexSize);
    NewTakesExactly(size, indexSize, [Path.SLASH, a], data, 1);
    WithFileRepresents(NewImage(size, indexSize), [Path.SLASH, a], data, 1, map[]);
  }

  lemma FoundIsUsed(es: seq<Entry>, names: Names)
    requires FindPath(es, names).Some?
    ensures Used(es[FindPath(es, names).value])
  {
  }

  lemma {:induction false} NumberOfZeros(b: Bytes)
    requires forall i :: 0 <= i < |b| ==> b[i] == 0
    ensures Number(b) == 0
  {
    if b != [] { NumberOfZeros(b[1..]); }
  }

  lemma DecodeZeros(b: Bytes)
    requires |b| == ENTRY_SIZE && forall i :: 0 <= i < |b| ==> b[i] == 0
    ensures Decode(b) == EMPTY_ENTRY
  {
    NumberOfZeros(b[1..9]);
    NumberOfZeros(b[9..17]);
    NumberOfZeros(b[17..25]);
  }
}
