/** File system paths: splitting, dropping "." and "..", and joining again. */
module Path {
  import opened Base

  const SLASH: byte := 47
  const DOT: byte := 46
  const MAX_PATH: nat := 1000

  // ------------------------------------------------------------ specification

  /** The pieces between slashes; always at least one. */
  function Split(s: Bytes): (segs: seq<Bytes>)
    ensures |segs| > 0
  {
    if s == [] then [[]] else Push(Split(s[..|s| - 1]), s[|s| - 1])
  }

  /** One more character: a slash starts a new piece. */
  function Push(segs: seq<Bytes>, c: byte): (r: seq<Bytes>)
    requires |segs| > 0
    ensures |r| > 0
  {
    if c == SLASH then segs + [[]] else segs[..|segs| - 1] + [segs[|segs| - 1] + [c]]
  }

  lemma SplitStep(s: Bytes, c: byte)
    ensures Split(s + [c]) == Push(Split(s), c)
  {
    assert (s + [c])[..|s|] == s;
  }

  /** Reading one more character of a text whose pieces so far are `done` and `buffer`. */
  lemma SplitScan(s: Bytes, i: nat, done: seq<Bytes>, buffer: Bytes)
    requires i < |s| && Split(s[..i]) == done + [buffer]
    ensures Split(s[..i + 1]) == if s[i] == SLASH then done + [buffer] + [[]] else done + [buffer + [s[i]]]
  {
    SplitStep(s[..i], s[i]);
    PushLater(done, [buffer], s[i]);
    assert s[..i] + [s[i]] == s[..i + 1];
  }

  lemma PushLater(first: seq<Bytes>, segs: seq<Bytes>, c: byte)
    requires |segs| > 0
    ensures Push(first + segs, c) == first + Push(segs, c)
  {
    assert (first + segs)[..|first| + |segs| - 1] == first + segs[..|segs| - 1];
  }

  predicate IsUp(seg: Bytes) { seg == [DOT, DOT] }

  predicate IsName(seg: Bytes) { seg != [] && seg != [DOT] && !IsUp(seg) }

  /** A segment is kept exactly if it is a name and the next segment is not "..". */
  predicate Survives(segs: seq<Bytes>, i: nat)
    requires i < |segs|
  {
    IsName(segs[i]) && !(i + 1 < |segs| && IsUp(segs[i + 1]))
  }

  /** The surviving ones among the first `n` segments. */
  function Survivors(segs: seq<Bytes>, n: nat): seq<Bytes>
    requires n <= |segs|
  {
    if n == 0 then [] else Survivors(segs, n - 1) + if Survives(segs, n - 1) then [segs[n - 1]] else []
  }

  function Join(segs: seq<Bytes>): Bytes {
    if segs == [] then [] else Join(segs[..|segs| - 1]) + [SLASH] + segs[|segs| - 1]
  }

  /** The names a path leads through. */
  function Names(path: Bytes): seq<Bytes>
    requires path != []
  {
    var segs := Split(path[1..]); Survivors(segs, |segs|)
  }

  function RootOr(joined: Bytes): Bytes { if joined == [] then [SLASH] else joined }

  /**
   PathConsolidate; None where it fails. The kernel's copy also refuses every
   path of more than 1000 characters, the copy in the image tools does not.
   */
  function Consolidated(path: Bytes, kernel: bool): Option<Bytes> {
    if path == [] || path[0] != SLASH || (kernel && |path| > MAX_PATH) || |Join(Names(path))| + 1 > MAX_PATH then None
    else Some(RootOr(Join(Names(path))))
  }

  function NonEmpty(segs: seq<Bytes>): seq<Bytes> {
    if segs == [] then [] else NonEmpty(segs[..|segs| - 1]) + if segs[|segs| - 1] == [] then [] else [segs[|segs| - 1]]
  }

  // ------------------------------------------------------------- its properties

  predicate Plain(seg: Bytes) { SLASH !in seg }

  ghost predicate PlainNames(segs: seq<Bytes>) {
    forall i :: 0 <= i < |segs| ==> Plain(segs[i]) && IsName(segs[i])
  }

  lemma {:induction false} SplitPlain(s: Bytes)
    ensures forall i :: 0 <= i < |Split(s)| ==> Plain(Split(s)[i])
  {
    if s != [] { SplitPlain(s[..|s| - 1]); }
  }

  lemma {:induction false} SurvivorsPlain(segs: seq<Bytes>, n: nat)
    requires n <= |segs| && forall i :: 0 <= i < |segs| ==> Plain(segs[i])
    ensures PlainNames(Survivors(segs, n))
  {
    if n > 0 { SurvivorsPlain(segs, n - 1); }
  }

  lemma NamesPlain(path: Bytes)
    requires path != []
    ensures PlainNames(Names(path))
  {
    SplitPlain(path[1..]);
    SurvivorsPlain(Split(path[1..]), |Split(path[1..])|);
  }

  /** Adding a name after a slash adds one piece. */
  lemma {:induction false} SplitAppend(s: Bytes, name: Bytes)
    requires Plain(name)
    ensures Split(s + [SLASH] + name) == Split(s) + [name]
  {
    if name == [] {
      SplitStep(s, SLASH);
      assert s + [SLASH] + name == s + [SLASH];
    } else {
      var n := |name| - 1;
      SplitAppend(s, name[..n]);
      SplitStep(s + [SLASH] + name[..n], name[n]);
      PushLater(Split(s), [name[..n]], name[n]);
      assert s + [SLASH] + name == s + [SLASH] + name[..n] + [name[n]];
      assert name == name[..n] + [name[n]];
      assert Push([name[..n]], name[n]) == [name];
    }
  }

  /** Joining and splitting are inverse: the first piece is what stands before the first slash. */
  lemma {:induction false} SplitJoin(segs: seq<Bytes>)
    requires forall i :: 0 <= i < |segs| ==> Plain(segs[i])
    ensures Split(Join(segs)) == [[]] + segs
  {
    if segs != [] {
      var n := |segs| - 1;
      SplitJoin(segs[..n]);
      SplitAppend(Join(segs[..n]), segs[n]);
      assert [[]] + segs == [[]] + segs[..n] + [segs[n]];
    }
  }

  /** And the other way round: a rooted text is the join of its pieces. */
  lemma {:induction false} JoinSplit(s: Bytes)
    ensures Join(Split(s)) == [SLASH] + s
  {
    if s == [] {
      JoinStep([], []);
    } else {
      var n := |s| - 1;
      var segs := Split(s[..n]);
      var m := |segs| - 1;
      JoinSplit(s[..n]);
      JoinStep(segs, []);
      JoinStep(segs[..m], segs[m]);
      JoinStep(segs[..m], segs[m] + [s[n]]);
      assert segs == segs[..m] + [segs[m]] && [SLASH] + s == [SLASH] + s[..n] + [s[n]];
      assert Join(segs[..m] + [segs[m] + [s[n]]]) == Join(segs[..m] + [segs[m]]) + [s[n]];
    }
  }

  /** Dropping segments makes a path no longer. */
  lemma {:induction false} SurvivorsShorter(segs: seq<Bytes>, n: nat)
    requires n <= |segs|
    ensures |Join(Survivors(segs, n))| <= |Join(segs[..n])|
  {
    if n > 0 {
      SurvivorsShorter(segs, n - 1);
      JoinSurvivors(segs, n - 1);
      JoinStep(segs[..n - 1], segs[n - 1]);
      assert segs[..n] == segs[..n - 1] + [segs[n - 1]];
    }
  }

  /**
   Which paths are accepted. Every rooted path of fewer than 1000 characters is;
   one that is longer is accepted by the tools exactly if what it consolidates to
   has fewer than 1000, and by the kernel if it has no more than 1000 itself.
   Consolidating makes no path longer.
   */
  lemma AcceptedIff(path: Bytes, kernel: bool)
    ensures path == [] || path[0] != SLASH ==> Consolidated(path, kernel).None?
    ensures path != [] && path[0] == SLASH ==>
      && (|path| < MAX_PATH ==> Consolidated(path, kernel).Some?)
      && (Consolidated(path, kernel).Some? <==> |RootOr(Join(Names(path)))| < MAX_PATH && !(kernel && |path| > MAX_PATH))
      && |RootOr(Join(Names(path)))| <= |path|
  {
    if path != [] && path[0] == SLASH {
      var segs := Split(path[1..]);
      JoinSplit(path[1..]);
      SurvivorsShorter(segs, |segs|);
      assert segs[..|segs|] == segs;
    }
  }

  /** A character that is a name on its own. */
  type Name = c: byte | c != 0 && c != SLASH && c != DOT witness 97

  lemma OneName(a: Name)
    ensures Names([SLASH, a]) == [[a]] && Consolidated([SLASH, a], false).Some?
  {
    var none: seq<Bytes> := [];
    JoinStep(none, [a]);
    assert none + [[a]] == [[a]] && Join([[a]]) == [SLASH, a];
    NamesOfJoined([[a]]);
    AcceptedIff([SLASH, a], false);
  }

  /** A path that is consolidated already is accepted exactly if it has fewer than 1000 characters, and stays as it is. */
  lemma ConsolidatedStays(names: seq<Bytes>, kernel: bool)
    requires PlainNames(names)
    ensures var path := RootOr(Join(names));
      Consolidated(path, kernel) == if |path| < MAX_PATH then Some(path) else None
  {
    NamesOfJoined(names);
    if names != [] { JoinStarts(names); }
  }

  lemma {:induction false} JoinStarts(segs: seq<Bytes>)
    requires segs != []
    ensures Join(segs) != [] && Join(segs)[0] == SLASH
  {
    if |segs| > 1 { JoinStarts(segs[..|segs| - 1]); }
  }

  lemma {:induction false} SplitAfterSlash(s: Bytes)
    ensures Split([SLASH] + s) == [[]] + Split(s)
  {
    if s == [] {
      SplitStep([], SLASH);
      assert [SLASH] + s == [] + [SLASH];
      assert Push([[]], SLASH) == [[]] + [[]];
    } else {
      var n := |s| - 1;
      SplitAfterSlash(s[..n]);
      SplitStep([SLASH] + s[..n], s[n]);
      PushLater([[]], Split(s[..n]), s[n]);
      assert [SLASH] + s == [SLASH] + s[..n] + [s[n]];
    }
  }

  /** Every piece of a joined list of names is one of the names again. */
  lemma SplitJoined(names: seq<Bytes>)
    requires PlainNames(names) && names != []
    ensures Split(Join(names)[1..]) == names
  {
    JoinStarts(names);
    SplitJoin(names);
    SplitAfterSlash(Join(names)[1..]);
    assert Join(names) == [SLASH] + Join(names)[1..];
    assert ([[]] + names)[1..] == names;
    assert ([[]] + Split(Join(names)[1..]))[1..] == Split(Join(names)[1..]);
  }

  lemma {:induction false} AllSurvive(names: seq<Bytes>, n: nat)
    requires PlainNames(names) && n <= |names|
    ensures Survivors(names, n) == names[..n]
  {
    if n > 0 {
      AllSurvive(names, n - 1);
      assert names[..n] == names[..n - 1] + [names[n - 1]];
    }
  }

  /** The names of a joined path are the names it was joined from. */
  lemma NamesOfJoined(names: seq<Bytes>)
    requires PlainNames(names)
    ensures Names(RootOr(Join(names))) == names
  {
    if names == [] {
      assert Split([]) == [[]] && [SLASH][1..] == [];
      assert Survivors([[]], 1) == Survivors([[]], 0);
    } else {
      JoinStarts(names);
      SplitJoined(names);
      AllSurvive(names, |names|);
      assert names[..|names|] == names;
    }
  }

  /** Consolidation is idempotent, and keeps the names. */
  lemma ConsolidateIdempotent(path: Bytes, kernel: bool, again: bool)
    requires Consolidated(path, kernel).Some?
    ensures Consolidated(Consolidated(path, kernel).value, again) == Consolidated(path, kernel)
    ensures Consolidated(path, kernel).value != [] && Names(Consolidated(path, kernel).value) == Names(path)
  {
    NamesPlain(path);
    NamesOfJoined(Names(path));
    if Names(path) != [] { JoinStarts(Names(path)); }
  }

  lemma NonEmptyStep(segs: seq<Bytes>, seg: Bytes)
    ensures NonEmpty(segs + [seg]) == NonEmpty(segs) + if seg == [] then [] else [seg]
  {
    assert (segs + [seg])[..|segs|] == segs;
  }

  lemma {:induction false} NonEmptyNames(names: seq<Bytes>)
    requires forall i :: 0 <= i < |names| ==> names[i] != []
    ensures NonEmpty([[]] + names) == names
  {
    var all := [[]] + names;
    if names == [] {
      assert all[..0] == [];
    } else {
      NonEmptyNames(names[..|names| - 1]);
      assert all[..|all| - 1] == [[]] + names[..|names| - 1];
    }
  }

  /** Taking the consolidated path apart gives its names. */
  lemma BreakdownIsNames(path: Bytes, kernel: bool)
    requires Consolidated(path, kernel).Some?
    ensures NonEmpty(Split(Consolidated(path, kernel).value)) == Names(path)
    ensures RootOr(Join(Names(path))) == Consolidated(path, kernel).value
  {
    var names := Names(path);
    NamesPlain(path);
    if names == [] {
      assert Split([SLASH]) == [[], []] by { assert [SLASH][..0] == []; }
      var one: seq<Bytes>, two: seq<Bytes> := [[]], [[], []];
      assert two[..1] == one && one[..0] == [];
      assert NonEmpty(one) == NonEmpty(two) == [];
    } else {
      SplitJoin(names);
      NonEmptyNames(names);
    }
  }

  // ---------------------------------------------- ".." against its usual meaning

  /** What the first `n` segments mean: each ".." takes back the last name that is left. */
  function Resolved(segs: seq<Bytes>, n: nat): seq<Bytes>
    requires n <= |segs|
  {
    if n == 0 then [] else
    var names := Resolved(segs, n - 1);
    if IsUp(segs[n - 1]) then if names == [] then [] else names[..|names| - 1]
    else if IsName(segs[n - 1]) then names + [segs[n - 1]]
    else names
  }

  /** Every ".." follows a name, or stands where no name is left. */
  ghost predicate UpsFollowNames(segs: seq<Bytes>, n: nat)
    requires n <= |segs|
  {
    forall i {:trigger segs[i]} :: 0 <= i < n && IsUp(segs[i]) ==> (i > 0 && IsName(segs[i - 1])) || Resolved(segs, i) == []
  }

  /** Names not yet taken back when only the first `n` segments were read. */
  function Kept(segs: seq<Bytes>, n: nat): seq<Bytes>
    requires n <= |segs|
  {
    Survivors(segs[..n], n)
  }

  lemma {:induction false} SurvivorsPrefix(segs: seq<Bytes>, m: nat, n: nat)
    requires n < m <= |segs|
    ensures Survivors(segs[..m], n) == Survivors(segs, n)
  {
    if n > 0 {
      SurvivorsPrefix(segs, m, n - 1);
      assert Survives(segs[..m], n - 1) <==> Survives(segs, n - 1);
    }
  }

  /** What is kept of the first `n` segments when the first `m` are read, and no more than one beyond. */
  lemma KeptBefore(segs: seq<Bytes>, n: nat, m: nat)
    requires 0 < n <= m <= |segs| && m <= n + 1
    ensures Survivors(segs[..m], n) == Survivors(segs, n - 1) + if IsName(segs[n - 1]) && !(m > n && IsUp(segs[n])) then [segs[n - 1]] else []
  {
    SurvivorsPrefix(segs, m, n - 1);
    assert segs[..m][n - 1] == segs[n - 1];
    assert Survives(segs[..m], n - 1) <==> IsName(segs[n - 1]) && !(m > n && IsUp(segs[n]));
  }

  /** Reading one more segment adds a name, or takes back the name just before a "..". */
  lemma KeptStep(segs: seq<Bytes>, n: nat)
    requires n < |segs|
    ensures var kept := Kept(segs, n);
      Kept(segs, n + 1) ==
        if IsUp(segs[n]) && n > 0 && IsName(segs[n - 1]) then kept[..|kept| - 1]
        else if IsName(segs[n]) then kept + [segs[n]]
        else kept
    ensures n > 0 && IsName(segs[n - 1]) ==> Kept(segs, n) != [] && Kept(segs, n)[|Kept(segs, n)| - 1] == segs[n - 1]
  {
    var more := segs[..n + 1];
    assert Kept(segs, n + 1) == Survivors(more, n) + if IsName(segs[n]) then [segs[n]] else [];
    if n > 0 {
      KeptBefore(segs, n, n);
      KeptBefore(segs, n, n + 1);
    }
  }

  /** While every ".." so far was regular both readings agree; after the first other one more is kept than is meant. */
  lemma {:induction false} KeptAgainstResolved(segs: seq<Bytes>, n: nat)
    requires n <= |segs|
    ensures if UpsFollowNames(segs, n) then Kept(segs, n) == Resolved(segs, n) else |Kept(segs, n)| > |Resolved(segs, n)|
  {
    if n > 0 {
      KeptAgainstResolved(segs, n - 1);
      KeptStep(segs, n - 1);
      UpsStep(segs, n - 1);
    }
  }

  lemma UpsStep(segs: seq<Bytes>, n: nat)
    requires n < |segs|
    ensures UpsFollowNames(segs, n + 1) <==>
      UpsFollowNames(segs, n) && (IsUp(segs[n]) ==> (n > 0 && IsName(segs[n - 1])) || Resolved(segs, n) == [])
  {
    assert segs[n] == segs[n];
  }

  /** PathConsolidate keeps the names a path means exactly if each of its ".." follows a name or has nothing to take back. */
  lemma ConsolidateResolvesIff(path: Bytes)
    requires path != []
    ensures var segs := Split(path[1..]);
      Names(path) == Resolved(segs, |segs|) <==> UpsFollowNames(segs, |segs|)
  {
    var segs := Split(path[1..]);
    KeptAgainstResolved(segs, |segs|);
    assert segs[..|segs|] == segs;
  }

  /** Where it does not: the second of two ".." in "/a/b/../.." takes nothing back. */
  lemma TwoUpsKeepAName(a: byte, b: byte)
    requires a != SLASH && a != DOT && b != SLASH && b != DOT
    ensures Names([SLASH, a, SLASH, b, SLASH, DOT, DOT, SLASH, DOT, DOT]) == [[a]]
    ensures Resolved([[a], [b], [DOT, DOT], [DOT, DOT]], 4) == []
  {
    var up := [DOT, DOT];
    var segs := [[a], [b], up, up];
    var path := [SLASH, a, SLASH, b, SLASH, DOT, DOT, SLASH, DOT, DOT];
    JoinStep([], [a]);
    JoinStep([[a]], [b]);
    JoinStep([[a], [b]], up);
    JoinStep([[a], [b], up], up);
    assert [[a]] + [[b]] == [[a], [b]] && [[a], [b]] + [up] == [[a], [b], up] && [[a], [b], up] + [up] == segs;
    assert Join([[a]]) == [SLASH, a];
    assert Join(segs) == path;
    SplitJoin(segs);
    SplitAfterSlash(path[1..]);
    assert path == [SLASH] + path[1..];
    assert ([[]] + segs)[1..] == segs && ([[]] + Split(path[1..]))[1..] == Split(path[1..]);
    TwoUps(segs, [a], [b]);
  }

  lemma TwoUps(segs: seq<Bytes>, a: Bytes, b: Bytes)
    requires |segs| == 4 && segs[0] == a && segs[1] == b && IsUp(segs[2]) && IsUp(segs[3]) && IsName(a) && IsName(b)
    ensures Survivors(segs, 4) == [a] && Resolved(segs, 4) == []
  {
    assert Survivors(segs, 1) == [a];
    assert Survivors(segs, 2) == Survivors(segs, 3) == [a];
    assert Resolved(segs, 1) == [a];
    assert Resolved(segs, 2) == [a, b];
    assert Resolved(segs, 3) == [a];
  }

  lemma JoinStep(segs: seq<Bytes>, seg: Bytes)
    ensures Join(segs + [seg]) == Join(segs) + [SLASH] + seg
  {
    assert (segs + [seg])[..|segs|] == segs;
  }

  // --------------------------------------------------------------- the programs

  /** The first loop of PathConsolidate. */
  method Segments(path: Bytes) returns (segments: seq<Bytes>)
    requires |path| > 1
    ensures segments == Split(path[1..])
  {
    ghost var text := path[1..];
    segments := [];
    var buffer := [];
    var i := 1;
    while i <= |path|
      invariant 1 <= i <= |path| + 1
      invariant i <= |path| ==> Split(text[..i - 1]) == segments + [buffer]
      invariant i > |path| ==> segments == Split(text)
    {
      if i < |path| {
        SplitScan(text, i - 1, segments, buffer);
      } else {
        assert text[..i - 1] == text;
      }
      if i == |path| || path[i] == SLASH {
        segments := segments + [buffer];
        buffer := [];
      } else {
        buffer := buffer + [path[i]];
      }
      i := i + 1;
    }
  }

  /** What is left of segment `j` when the loop reached `i`. */
  function Struck(segments: seq<Bytes>, i: nat, j: nat): Option<Bytes>
    requires i <= |segments| && j < |segments|
  {
    if j >= i || (IsName(segments[j]) && !(j + 1 < i && IsUp(segments[j + 1]))) then Some(segments[j]) else None
  }

  /** The second loop: "", "." and ".." are struck out, and ".." strikes out the segment before it. */
  method StrikeOut(segments: seq<Bytes>) returns (left: seq<Option<Bytes>>)
    ensures |left| == |segments|
    ensures forall j :: 0 <= j < |segments| ==> left[j] == if Survives(segments, j) then Some(segments[j]) else None
  {
    left := seq(|segments|, j requires 0 <= j < |segments| => Some(segments[j]));
    var i := 0;
    while i < |segments|
      invariant 0 <= i <= |segments| == |left|
      invariant forall j :: 0 <= j < |segments| ==> left[j] == Struck(segments, i, j)
    {
      if segments[i] == [DOT] || segments[i] == [] {
        assert !IsUp(segments[i]) && !IsName(segments[i]);
        left := left[i := None];
      } else if segments[i] == [DOT, DOT] {
        left := left[i := None];
        if i != 0 && left[i - 1] != None {
          left := left[i - 1 := None];
        }
      }
      i := i + 1;
    }
    assert forall j :: 0 <= j < |segments| ==> Struck(segments, |segments|, j) == if Survives(segments, j) then Some(segments[j]) else None;
  }

  lemma {:induction false} JoinLength(segs: seq<Bytes>, a: nat, b: nat)
    requires a <= b <= |segs|
    ensures |Join(Survivors(segs, a))| <= |Join(Survivors(segs, b))|
  {
    if a < b {
      JoinLength(segs, a, b - 1);
      JoinSurvivors(segs, b - 1);
    }
  }

  lemma JoinSurvivors(segs: seq<Bytes>, i: nat)
    requires i < |segs|
    ensures Join(Survivors(segs, i + 1)) == Join(Survivors(segs, i)) + if Survives(segs, i) then [SLASH] + segs[i] else []
  {
    var before := Survivors(segs, i);
    if Survives(segs, i) {
      JoinStep(before, segs[i]);
      assert Survivors(segs, i + 1) == before + [segs[i]];
    } else {
      assert Survivors(segs, i + 1) == before;
    }
  }

  /** PathConsolidate: it fails exactly where `Consolidated` does. */
  method Consolidate(path: Bytes, kernel: bool) returns (dest: Option<Bytes>)
    ensures dest == Consolidated(path, kernel)
  {
    if path == [] || path[0] != SLASH {
      return None;
    } else if |path| == 1 {
      assert path == RootOr(Join([]));
      NamesOfJoined([]);
      return Some([SLASH]);
    } else if kernel && |path| > MAX_PATH {
      return None;
    }
    var segments := Segments(path);
    var left := StrikeOut(segments);
    var joined := JoinLeft(segments, left);
    if joined.None? {
      return None;
    }
    return Some(if joined.value == [] then [SLASH] else joined.value);
  }

  /** The last loop of PathConsolidate, which fails when the path gets too long. */
  method JoinLeft(ghost segments: seq<Bytes>, left: seq<Option<Bytes>>) returns (dest: Option<Bytes>)
    requires |left| == |segments|
    requires forall j :: 0 <= j < |segments| ==> left[j] == if Survives(segments, j) then Some(segments[j]) else None
    ensures var all := Join(Survivors(segments, |segments|)); dest == if |all| + 1 > MAX_PATH then None else Some(all)
  {
    var joined: Bytes := [];
    var i := 0;
    while i < |left|
      invariant 0 <= i <= |left|
      invariant joined == Join(Survivors(segments, i))
      invariant |joined| + 1 <= MAX_PATH
    {
      JoinSurvivors(segments, i);
      if left[i].Some? {
        if |joined| + 1 + |left[i].value| + 1 > MAX_PATH {
          JoinLength(segments, i + 1, |segments|);
          return None;
        }
        joined := joined + [SLASH] + left[i].value;
      }
      i := i + 1;
    }
    return Some(joined);
  }

  /** The loop of PathBreakdown: the pieces between slashes that are not empty. */
  method Pieces(text: Bytes) returns (r: seq<Bytes>)
    ensures r == NonEmpty(Split(text))
  {
    r := [];
    var buffer: Bytes := [];
    ghost var done: seq<Bytes> := [];
    var i := 0;
    while i < |text|
      invariant 0 <= i <= |text|
      invariant Split(text[..i]) == done + [buffer]
      invariant r == NonEmpty(done)
    {
      SplitScan(text, i, done, buffer);
      if text[i] == SLASH {
        NonEmptyStep(done, buffer);
        done := done + [buffer];
        if buffer != [] {
          r := r + [buffer];
          buffer := [];
        }
        assert Split(text[..i + 1]) == done + [[]];
      } else {
        buffer := buffer + [text[i]];
      }
      i := i + 1;
    }
    assert text[..|text|] == text;
    NonEmptyStep(done, buffer);
    if buffer != [] {
      r := r + [buffer];
    }
  }

  /** PathBreakdown: the names of the path, or NULL. */
  method Breakdown(path: Bytes, kernel: bool) returns (names: Option<seq<Bytes>>)
    ensures names == if Consolidated(path, kernel).Some? then Some(Names(path)) else None
  {
    var consolidated := Consolidate(path, kernel);
    if consolidated.None? {
      return None;
    }
    var r := Pieces(consolidated.value);
    BreakdownIsNames(path, kernel);
    return Some(r);
  }
}
