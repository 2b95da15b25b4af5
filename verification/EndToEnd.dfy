/** From the host tools to the kernel: what was added is what is read, whatever was added later. */
module EndToEnd {
  import opened Base
  import opened Format
  import opened Catalog
  import opened Image
  import opened KernelFs
  import Path

  datatype Op = Mkdir(path: Bytes) | Add(path: Bytes, data: Bytes, hostName: nat)

  function Apply(img: Bytes, op: Op): Outcome {
    match op
    case Mkdir(path) => WithDirectory(img, path)
    case Add(path, data, hostName) => WithFile(img, path, data, hostName)
  }

  function NodeOf(op: Op): Node {
    match op
    case Mkdir(_) => Dir
    case Add(_, data, _) => File(data)
  }

  /** One run of a tool; one that fails leaves the image as it is. */
  predicate Ran(img: Bytes, op: Op, img': Bytes, ok: bool) {
    var outcome := Apply(img, op);
    ok == outcome.Done? && img' == if ok then outcome.image else img
  }

  /**
   The images between runs of the tools, and which runs succeeded. Paths are
   strings, and the images stay far below the 64-bit limit.
   */
  ghost predicate History(imgs: seq<Bytes>, ops: seq<Op>, ok: seq<bool>) {
    && |imgs| == |ops| + 1 && |ok| == |ops|
    && forall i {:trigger RanAt(imgs, ops, ok, i)} :: 0 <= i < |ops| ==> RanAt(imgs, ops, ok, i)
  }

  predicate RanAt(imgs: seq<Bytes>, ops: seq<Op>, ok: seq<bool>, i: nat)
    requires i < |ops| == |ok| < |imgs|
  {
    Ran(imgs[i], ops[i], imgs[i + 1], ok[i]) && 0 !in ops[i].path && |imgs[i]| < LIMIT
  }

  function Gain(tree: Tree, op: Op, ok: bool): Tree {
    if ok && op.path != [] then tree[Path.Names(op.path) := NodeOf(op)] else tree
  }

  /** The tree that the first `n` runs make. */
  function Grown(tree: Tree, ops: seq<Op>, ok: seq<bool>, n: nat): Tree
    requires n <= |ops| == |ok|
  {
    if n == 0 then tree else Gain(Grown(tree, ops, ok, n - 1), ops[n - 1], ok[n - 1])
  }

  /** One run adds exactly what it was asked to, or nothing; what was there stays. */
  lemma RunRepresents(img: Bytes, tree: Tree, op: Op, img': Bytes, ok: bool)
    requires Represents(img, tree) && 0 !in op.path && |img| < LIMIT && Ran(img, op, img', ok)
    ensures Represents(img', Gain(tree, op, ok))
    ensures ok ==> op.path != [] && Path.Names(op.path) !in tree
  {
    if ok {
      match op
      case Mkdir(path) => WithDirectoryRepresents(img, path, tree);
      case Add(path, data, hostName) => WithFileRepresents(img, path, data, hostName, tree);
    }
  }

  /** After any runs of the tools the image is well formed and holds exactly what was added. */
  lemma {:induction false} HistoryRepresents(imgs: seq<Bytes>, tree: Tree, ops: seq<Op>, ok: seq<bool>, n: nat)
    requires History(imgs, ops, ok) && Represents(imgs[0], tree) && n <= |ops|
    ensures Represents(imgs[n], Grown(tree, ops, ok, n))
  {
    if n > 0 {
      HistoryRepresents(imgs, tree, ops, ok, n - 1);
      assert RanAt(imgs, ops, ok, n - 1);
      RunRepresents(imgs[n - 1], Grown(tree, ops, ok, n - 1), ops[n - 1], imgs[n], ok[n - 1]);
    }
  }

  /** A run that succeeds adds names that were not there. */
  ghost predicate AddsNew(tree: Tree, ops: seq<Op>, ok: seq<bool>, i: nat)
    requires i < |ops| == |ok|
  {
    ok[i] ==> ops[i].path != [] && Path.Names(ops[i].path) !in Grown(tree, ops, ok, i)
  }

  lemma AddsNewNames(imgs: seq<Bytes>, tree: Tree, ops: seq<Op>, ok: seq<bool>, i: nat)
    requires History(imgs, ops, ok) && Represents(imgs[0], tree) && i < |ops|
    ensures AddsNew(tree, ops, ok, i)
  {
    HistoryRepresents(imgs, tree, ops, ok, i);
    assert RanAt(imgs, ops, ok, i);
    RunRepresents(imgs[i], Grown(tree, ops, ok, i), ops[i], imgs[i + 1], ok[i]);
  }

  predicate Kept(tree: Tree, tree': Tree, names: Names) {
    names in tree ==> names in tree' && tree'[names] == tree[names]
  }

  /** Nothing that is in the tree is ever replaced or lost. */
  lemma {:induction false} GrownKeeps(tree: Tree, ops: seq<Op>, ok: seq<bool>, m: nat, n: nat, names: Names)
    requires m <= n <= |ops| == |ok| && forall i {:trigger AddsNew(tree, ops, ok, i)} :: 0 <= i < |ops| ==> AddsNew(tree, ops, ok, i)
    ensures Kept(Grown(tree, ops, ok, m), Grown(tree, ops, ok, n), names)
  {
    if m < n {
      GrownKeeps(tree, ops, ok, m, n - 1, names);
      assert AddsNew(tree, ops, ok, n - 1);
    }
  }

  /** A path that the tools accept; the kernel accepts it exactly if it does not find it too long. */
  lemma AcceptedPath(img: Bytes, op: Op, img': Bytes)
    requires Ran(img, op, img', true)
    ensures op.path != [] && Path.Consolidated(op.path, false).Some?
    ensures Path.Consolidated(op.path, true).Some? <==> |op.path| <= Path.MAX_PATH
  {
  }

  lemma {:induction false} JoinKeepsStrings(names: Names)
    requires Legal(names)
    ensures 0 !in Path.Join(names)
  {
    if names != [] { JoinKeepsStrings(names[..|names| - 1]); }
  }

  /** The consolidated path leads where the path does, and the kernel accepts it. */
  lemma ConsolidatedLeads(path: Bytes)
    requires 0 !in path && Path.Consolidated(path, false).Some?
    ensures var c := Path.Consolidated(path, false).value;
      c != [] && 0 !in c && Path.Consolidated(c, true).Some? && Path.Names(c) == Path.Names(path)
  {
    Path.ConsolidateIdempotent(path, false, true);
    NamesLegal(path);
    JoinKeepsStrings(Path.Names(path));
  }

  /** A file of the tree is read by the kernel. */
  lemma TreeIsRead(img: Bytes, tree: Tree, op: Op, path: Bytes)
    requires Represents(img, tree) && op.Add? && path != [] && 0 !in path && Path.Consolidated(path, true).Some?
    requires Path.Names(path) in tree && tree[Path.Names(path)] == NodeOf(op)
    ensures FileRead(img, path, |op.data|) == op.data
  {
    ReadGivesContents(img, tree, path, |op.data|);
    assert op.data[..|op.data|] == op.data;
  }

  /**
   End to end. Starting from a new image, a file that was added is read back by
   the kernel with exactly its bytes, whatever the tools did before and after:
   always by its consolidated path; and by the path it was added with exactly if
   that has at most 1000 characters, which the tools do not ask for, or the file is
   empty.
   */
  lemma AddedIsRead(size: nat, indexSize: nat, imgs: seq<Bytes>, ops: seq<Op>, ok: seq<bool>, i: nat)
    requires indexSize <= size < LIMIT && History(imgs, ops, ok) && imgs[0] == NewImage(size, indexSize)
    requires i < |ops| && ops[i].Add? && ok[i]
    ensures HasHeader(imgs[|ops|]) && Path.Consolidated(ops[i].path, false).Some?
    ensures FileRead(imgs[|ops|], Path.Consolidated(ops[i].path, false).value, |ops[i].data|) == ops[i].data
    ensures FileRead(imgs[|ops|], ops[i].path, |ops[i].data|) == ops[i].data <==> |ops[i].path| <= Path.MAX_PATH || ops[i].data == []
  {
    NewRepresents(size, indexSize);
    HistoryRepresents(imgs, map[], ops, ok, |ops|);
    assert RanAt(imgs, ops, ok, i);
    AcceptedPath(imgs[i], ops[i], imgs[i + 1]);
    StillThere(imgs, ops, ok, i);
    ConsolidatedLeads(ops[i].path);
    var tree := Grown(map[], ops, ok, |ops|);
    TreeIsRead(imgs[|ops|], tree, ops[i], Path.Consolidated(ops[i].path, false).value);
    if |ops[i].path| <= Path.MAX_PATH { TreeIsRead(imgs[|ops|], tree, ops[i], ops[i].path); }
  }

  lemma StillThere(imgs: seq<Bytes>, ops: seq<Op>, ok: seq<bool>, i: nat)
    requires History(imgs, ops, ok) && Represents(imgs[0], map[]) && i < |ops| && ok[i]
    ensures ops[i].path != [] && Path.Names(ops[i].path) in Grown(map[], ops, ok, |ops|)
    ensures Grown(map[], ops, ok, |ops|)[Path.Names(ops[i].path)] == NodeOf(ops[i])
  {
    forall k | 0 <= k < |ops| ensures AddsNew(map[], ops, ok, k) { AddsNewNames(imgs, map[], ops, ok, k); }
    assert AddsNew(map[], ops, ok, i);
    GrownHas(ops, ok, i);
    GrownKeeps(map[], ops, ok, i + 1, |ops|, Path.Names(ops[i].path));
  }

  lemma GrownHas(ops: seq<Op>, ok: seq<bool>, i: nat)
    requires i < |ops| == |ok| && ok[i] && ops[i].path != []
    ensures Path.Names(ops[i].path) in Grown(map[], ops, ok, i + 1) && Grown(map[], ops, ok, i + 1)[Path.Names(ops[i].path)] == NodeOf(ops[i])
  {
  }

  /** Run `i` added these names. */
  predicate AddedBy(ops: seq<Op>, ok: seq<bool>, i: nat, names: Names)
    requires i < |ops| == |ok|
  {
    ok[i] && ops[i].path != [] && Path.Names(ops[i].path) == names
  }

  lemma {:induction false} GrownFrom(ops: seq<Op>, ok: seq<bool>, n: nat, names: Names)
    requires n <= |ops| == |ok|
    ensures names in Grown(map[], ops, ok, n) <==> exists i :: 0 <= i < n && AddedBy(ops, ok, i, names)
  {
    if n > 0 {
      GrownFrom(ops, ok, n - 1, names);
      assert AddedBy(ops, ok, n - 1, names) || !AddedBy(ops, ok, n - 1, names);
    }
  }

  /** The kernel finds exactly the paths that were added. */
  lemma FoundIffAdded(size: nat, indexSize: nat, imgs: seq<Bytes>, ops: seq<Op>, ok: seq<bool>, names: Names)
    requires indexSize <= size < LIMIT && History(imgs, ops, ok) && imgs[0] == NewImage(size, indexSize) && Legal(names)
    ensures HasHeader(imgs[|ops|])
    ensures FindPath(Entries(imgs[|ops|]), names).Some? <==> exists i :: 0 <= i < |ops| && AddedBy(ops, ok, i, names)
  {
    NewRepresents(size, indexSize);
    HistoryRepresents(imgs, map[], ops, ok, |ops|);
    FoundIffInTree(imgs[|ops|], Grown(map[], ops, ok, |ops|), names);
    GrownFrom(ops, ok, |ops|, names);
  }

  lemma FoundIffInTree(img: Bytes, tree: Tree, names: Names)
    requires Represents(img, tree) && Legal(names)
    ensures FindPath(Entries(img), names).Some? <==> names in tree
  {
    TreeKind(img, Entries(img), tree, names);
  }
}
