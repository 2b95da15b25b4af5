/** The index of an image as a tree of names. */
module Catalog {
  import opened Base
  import opened Format

  type Names = seq<Bytes>

  const EMPTY_ENTRY := Entry(EMPTY, 0, 0, 0, Zeros(NAME_SIZE))

  // ------------------------------------------------------------------- lookup

  /** A name in the fixed width of an entry. */
  function Pad(name: Bytes): (r: Bytes)
    requires |name| <= NAME_SIZE
    ensures |r| == NAME_SIZE
  {
    name + Zeros(NAME_SIZE - |name|)
  }

  predicate Used(e: Entry) { e.kind != EMPTY }

  predicate Matches(e: Entry, parent: nat, name: Bytes, dirOnly: bool) {
    (if dirOnly then e.kind == DIRECTORY else Used(e)) && e.parent == parent && e.name == name
  }

  /** First slot that holds the name in the directory, or the number of slots. */
  function FirstMatch(es: seq<Entry>, parent: nat, name: Bytes, dirOnly: bool): (k: nat)
    ensures k <= |es|
    ensures forall j :: 0 <= j < k ==> !Matches(es[j], parent, name, dirOnly)
    ensures k < |es| ==> Matches(es[k], parent, name, dirOnly)
  {
    if es == [] || Matches(es[0], parent, name, dirOnly) then 0 else 1 + FirstMatch(es[1..], parent, name, dirOnly)
  }

  function FirstEmpty(es: seq<Entry>): (k: nat)
    ensures k <= |es|
    ensures forall j :: 0 <= j < k ==> Used(es[j])
    ensures k < |es| ==> !Used(es[k])
  {
    if es == [] || !Used(es[0]) then 0 else 1 + FirstEmpty(es[1..])
  }

  /** Slot of the entry that the first `n` names lead to. */
  function Slot(es: seq<Entry>, names: Names, n: nat, dirOnly: bool): (r: Option<nat>)
    requires 0 < n <= |names|
    ensures r.Some? ==> r.value < |es|
    decreases n, 0
  {
    var parent := DirOffset(es, names, n - 1);
    if parent.None? || |names[n - 1]| > NAME_SIZE then None else
    var k := FirstMatch(es, parent.value, Pad(names[n - 1]), dirOnly);
    if k == |es| then None else Some(k)
  }

  /** Offset of the entry of the directory that the first `n` names lead to; 0 for the root. */
  function DirOffset(es: seq<Entry>, names: Names, n: nat): Option<nat>
    requires n <= |names|
    decreases n, 1
  {
    if n == 0 then Some(0) else
    var k := Slot(es, names, n, true);
    if k.None? then None else Some(Off(k.value))
  }

  /** Slot of the entry that the names lead to. */
  function FindPath(es: seq<Entry>, names: Names): (r: Option<nat>)
    ensures r.Some? ==> r.value < |es|
  {
    if names == [] then None else Slot(es, names, |names|, false)
  }

  // ---------------------------------------------------------------- invariant

  /** Names as they come from a path: not empty, and without the character that ends a string. */
  predicate Legal(names: Names) {
    forall i :: 0 <= i < |names| ==> names[i] != [] && 0 !in names[i]
  }

  /** The name field holds a legal name. */
  ghost predicate NameOk(name: Bytes) {
    exists s: Bytes :: PadsTo(s, name)
  }

  predicate PadsTo(s: Bytes, name: Bytes) {
    s != [] && 0 !in s && |s| <= NAME_SIZE && name == Pad(s)
  }

  /** The entry lies in the root, or in the directory of an earlier slot. */
  ghost predicate ParentOk(es: seq<Entry>, k: nat)
    requires k < |es|
  {
    es[k].parent == 0 || exists j :: 0 <= j < k && IsParent(es, j, k)
  }

  predicate IsParent(es: seq<Entry>, j: nat, k: nat)
    requires j < |es| && k < |es|
  {
    es[k].parent == Off(j) && es[j].kind == DIRECTORY
  }

  ghost predicate SlotOk(es: seq<Entry>, k: nat)
    requires k < |es|
  {
    && (es[k].kind == FILE || (es[k].kind == DIRECTORY && es[k].size == 0 && es[k].offset == 0))
    && NameOk(es[k].name) && ParentOk(es, k)
  }

  ghost predicate Unique(es: seq<Entry>) {
    forall j, k :: 0 <= j < k < |es| && Used(es[j]) && Used(es[k]) ==> es[j].parent != es[k].parent || es[j].name != es[k].name
  }

  /** Used slots come first and the rest are zero; names are unique in their directory; parents are earlier directories. */
  ghost predicate Sound(es: seq<Entry>) {
    && (forall k :: 0 <= k < FirstEmpty(es) ==> SlotOk(es, k))
    && (forall k :: FirstEmpty(es) <= k < |es| ==> es[k] == EMPTY_ENTRY)
    && Unique(es)
  }

  // ------------------------------------------------------ what names lead where

  lemma PadInjective(a: Bytes, b: Bytes)
    requires 0 !in a && 0 !in b && |a| <= NAME_SIZE && |b| <= NAME_SIZE && Pad(a) == Pad(b)
    ensures a == b
  {
    if |a| != |b| {
      var i: nat := if |a| < |b| then |a| else |b|;
      PadAt(a, i);
      PadAt(b, i);
    }
    assert a == Pad(a)[..|a|] && b == Pad(b)[..|b|];
  }

  lemma PadAt(a: Bytes, i: nat)
    requires |a| <= NAME_SIZE && i < NAME_SIZE
    ensures Pad(a)[i] == if i < |a| then a[i] else 0
  {
  }

  /** A directory offset tells the last step that led to it. */
  lemma DirStep(es: seq<Entry>, names: Names, n: nat) returns (j: nat)
    requires 0 < n <= |names| && DirOffset(es, names, n).Some?
    ensures j < |es| && DirOffset(es, names, n) == Some(Off(j)) && es[j].kind == DIRECTORY
    ensures |names[n - 1]| <= NAME_SIZE && es[j].name == Pad(names[n - 1]) && DirOffset(es, names, n - 1) == Some(es[j].parent)
  {
    j := FirstMatch(es, DirOffset(es, names, n - 1).value, Pad(names[n - 1]), true);
  }

  /** Different names lead to different directories. */
  lemma {:induction false} DirInjective(es: seq<Entry>, a: Names, m: nat, b: Names, n: nat)
    requires Legal(a) && Legal(b) && m <= |a| && n <= |b|
    requires DirOffset(es, a, m).Some? && DirOffset(es, a, m) == DirOffset(es, b, n)
    ensures a[..m] == b[..n]
  {
    if m > 0 && n > 0 {
      var i := DirStep(es, a, m);
      var j := DirStep(es, b, n);
      assert i == j;
      PadInjective(a[m - 1], b[n - 1]);
      DirInjective(es, a, m - 1, b, n - 1);
      assert a[..m] == a[..m - 1] + [a[m - 1]] && b[..n] == b[..n - 1] + [b[n - 1]];
    } else if m > 0 {
      var i := DirStep(es, a, m);
    } else if n > 0 {
      var j := DirStep(es, b, n);
    }
  }

  /** In a sound index the only match for a name is the first. */
  lemma OnlyMatch(es: seq<Entry>, k: nat)
    requires Sound(es) && k < |es| && Used(es[k])
    ensures FirstMatch(es, es[k].parent, es[k].name, false) == k
    ensures es[k].kind == DIRECTORY ==> FirstMatch(es, es[k].parent, es[k].name, true) == k
  {
  }

  /** A name leads to a directory exactly if its entry is found and is a directory. */
  lemma DirIsFound(es: seq<Entry>, names: Names)
    requires Sound(es) && names != []
    ensures DirOffset(es, names, |names|) ==
      if FindPath(es, names).Some? && es[FindPath(es, names).value].kind == DIRECTORY then Some(Off(FindPath(es, names).value)) else None
  {
    var n := |names| - 1;
    if DirOffset(es, names, n).Some? && |names[n]| <= NAME_SIZE {
      SameMatch(es, DirOffset(es, names, n).value, Pad(names[n]));
    }
  }

  lemma SameMatch(es: seq<Entry>, parent: nat, name: Bytes)
    requires Sound(es)
    ensures var j, k := FirstMatch(es, parent, name, true), FirstMatch(es, parent, name, false);
      if k < |es| && es[k].kind == DIRECTORY then j == k else j == |es|
  {
    var j, k := FirstMatch(es, parent, name, true), FirstMatch(es, parent, name, false);
    if j < |es| { OnlyMatch(es, j); }
    if k < |es| { OnlyMatch(es, k); }
  }

  /** Behind a name that leads nowhere nothing is found. */
  lemma {:induction false} NoDirOffset(es: seq<Entry>, names: Names, m: nat, n: nat)
    requires m <= n <= |names| && DirOffset(es, names, m).None?
    ensures DirOffset(es, names, n).None?
  {
    if m < n { NoDirOffset(es, names, m, n - 1); }
  }

  /** Offset of the directory of this name, in a directory. */
  function ChildOffset(es: seq<Entry>, parent: nat, name: Bytes): Option<nat> {
    if |name| > NAME_SIZE then None else
    var k := FirstMatch(es, parent, Pad(name), true);
    if k == |es| then None else Some(Off(k))
  }

  /** One more name: an entry that is found leads on, and otherwise nothing behind it does. */
  lemma NextName(es: seq<Entry>, names: Names, i: nat, offset: nat, n: nat)
    requires i < n <= |names| && DirOffset(es, names, i) == Some(offset)
    ensures DirOffset(es, names, i + 1) == ChildOffset(es, offset, names[i])
    ensures ChildOffset(es, offset, names[i]).None? ==> DirOffset(es, names, n).None?
  {
    var k := Slot(es, names, i + 1, true);
    assert DirOffset(es, names, i + 1) == if k.None? then None else Some(Off(k.value));
    if k.None? { NoDirOffset(es, names, i + 1, n); }
  }

  /** The last name: found in its directory, or not at all. */
  lemma LastName(es: seq<Entry>, names: Names)
    requires names != []
    ensures var parent, name := DirOffset(es, names, |names| - 1), names[|names| - 1];
      FindPath(es, names) ==
        if parent.None? || |name| > NAME_SIZE || FirstMatch(es, parent.value, Pad(name), false) == |es| then None
        else Some(FirstMatch(es, parent.value, Pad(name), false))
  {
  }

  /** None of the first `k` slots matches. */
  ghost predicate Unmatched(es: seq<Entry>, k: nat, parent: nat, name: Bytes, dirOnly: bool) {
    forall j :: 0 <= j < k && j < |es| ==> !Matches(es[j], parent, name, dirOnly)
  }

  lemma MatchStep(es: seq<Entry>, k: nat, parent: nat, name: Bytes, dirOnly: bool)
    requires k < |es| && Unmatched(es, k, parent, name, dirOnly)
    ensures if Matches(es[k], parent, name, dirOnly) then FirstMatch(es, parent, name, dirOnly) == k else Unmatched(es, k + 1, parent, name, dirOnly)
  {
  }

  /** The first `k` slots are in use. */
  ghost predicate UsedBelow(es: seq<Entry>, k: nat) {
    forall j :: 0 <= j < k && j < |es| ==> Used(es[j])
  }

  lemma UsedStep(es: seq<Entry>, k: nat)
    requires k <= |es| && UsedBelow(es, k)
    ensures k == |es| || !Used(es[k]) ==> FirstEmpty(es) == k
    ensures k < |es| && Used(es[k]) ==> UsedBelow(es, k + 1)
  {
  }

  lemma MatchEnd(es: seq<Entry>, parent: nat, name: Bytes, dirOnly: bool)
    requires Unmatched(es, |es|, parent, name, dirOnly)
    ensures FirstMatch(es, parent, name, dirOnly) == |es|
  {
  }

  // ------------------------------------------------------------ adding an entry

  /** `e` can be added: its directory exists and does not hold its name, and a slot is empty. */
  ghost predicate Addable(es: seq<Entry>, names: Names, e: Entry) {
    && names != [] && Legal(names) && |names[|names| - 1]| <= NAME_SIZE
    && FirstEmpty(es) < |es|
    && (e.kind == FILE || (e.kind == DIRECTORY && e.size == 0 && e.offset == 0))
    && DirOffset(es, names, |names| - 1) == Some(e.parent) && e.name == Pad(names[|names| - 1])
    && FirstMatch(es, e.parent, e.name, false) == |es|
  }

  function Added(es: seq<Entry>, e: Entry): seq<Entry>
    requires FirstEmpty(es) < |es|
  {
    es[FirstEmpty(es) := e]
  }

  lemma FirstEmptyAfter(es: seq<Entry>, e: Entry)
    requires FirstEmpty(es) < |es| && Used(e) && forall k :: FirstEmpty(es) <= k < |es| ==> !Used(es[k])
    ensures FirstEmpty(Added(es, e)) == FirstEmpty(es) + 1
  {
    var es', k := Added(es, e), FirstEmpty(es);
    assert forall j :: 0 <= j < k + 1 ==> Used(es'[j]);
    assert k + 1 < |es| ==> !Used(es'[k + 1]);
  }

  /** Adding an entry keeps the index sound. */
  lemma AddedSound(es: seq<Entry>, names: Names, e: Entry)
    requires Sound(es) && Addable(es, names, e)
    ensures Sound(Added(es, e)) && FirstEmpty(Added(es, e)) == FirstEmpty(es) + 1
  {
    var es', k := Added(es, e), FirstEmpty(es);
    FirstEmptyAfter(es, e);
    forall i | 0 <= i < k + 1 ensures SlotOk(es', i) {
      if i < k {
        assert SlotOk(es, i);
        if es[i].parent != 0 {
          var j :| 0 <= j < i && IsParent(es, j, i);
          assert IsParent(es', j, i);
        }
      } else {
        assert PadsTo(names[|names| - 1], e.name);
        if |names| > 1 {
          var j := DirStep(es, names, |names| - 1);
          assert IsParent(es', j, k);
        }
      }
    }
  }

  /** A search after adding finds what it found before, or else the new entry. */
  lemma FirstMatchAfter(es: seq<Entry>, e: Entry, parent: nat, name: Bytes, dirOnly: bool)
    requires FirstEmpty(es) < |es| && forall k :: FirstEmpty(es) <= k < |es| ==> !Used(es[k])
    requires Matches(e, parent, name, dirOnly) ==> FirstMatch(es, parent, name, dirOnly) == |es|
    ensures FirstMatch(Added(es, e), parent, name, dirOnly) ==
      if Matches(e, parent, name, dirOnly) then FirstEmpty(es) else FirstMatch(es, parent, name, dirOnly)
  {
    var es', k := Added(es, e), FirstEmpty(es);
    var i, j := FirstMatch(es, parent, name, dirOnly), FirstMatch(es', parent, name, dirOnly);
    assert i < |es| ==> i < k;
    assert i < |es| && i != k ==> Matches(es'[i], parent, name, dirOnly);
    assert j < |es| && j != k ==> Matches(es[j], parent, name, dirOnly);
    assert es'[k] == e;
  }

  /** Nothing lies in a directory whose entry is only now added. */
  lemma NothingBelow(es: seq<Entry>, names: Names, e: Entry, name: Bytes, dirOnly: bool)
    requires Sound(es) && Addable(es, names, e)
    ensures FirstMatch(Added(es, e), Off(FirstEmpty(es)), name, dirOnly) == |es|
  {
    var es', k := Added(es, e), FirstEmpty(es);
    AddedSound(es, names, e);
    forall i | 0 <= i < |es'| ensures !Matches(es'[i], Off(k), name, dirOnly) {
      if i < k + 1 {
        assert SlotOk(es', i);
        if es'[i].parent != 0 {
          var j :| 0 <= j < i && IsParent(es', j, i);
        }
      }
    }
  }

  /** Reading names one by one, the new entry is met exactly at the end of its own names. */
  lemma SameNames(es: seq<Entry>, names: Names, e: Entry, other: Names, m: nat)
    requires Addable(es, names, e) && Legal(other) && 0 < m <= |other|
    ensures other[..m] == names <==>
      DirOffset(es, other, m - 1) == Some(e.parent) && |other[m - 1]| <= NAME_SIZE && Pad(other[m - 1]) == e.name
  {
    var n := |names| - 1;
    if other[..m] == names {
      assert other[..m - 1] == other[..m][..m - 1] == names[..n] && other[m - 1] == other[..m][m - 1];
      DirPrefix(es, other, m - 1, names, n);
    } else if DirOffset(es, other, m - 1) == Some(e.parent) && |other[m - 1]| <= NAME_SIZE && Pad(other[m - 1]) == e.name {
      NamesFromEntry(es, names, e, other, m);
    }
  }

  lemma NamesFromEntry(es: seq<Entry>, names: Names, e: Entry, other: Names, m: nat)
    requires Addable(es, names, e) && Legal(other) && 0 < m <= |other|
    requires DirOffset(es, other, m - 1) == Some(e.parent) && |other[m - 1]| <= NAME_SIZE && Pad(other[m - 1]) == e.name
    ensures other[..m] == names
  {
    var n := |names| - 1;
    DirInjective(es, other, m - 1, names, n);
    PadInjective(other[m - 1], names[n]);
    assert names == names[..n] + [names[n]] && other[..m] == other[..m - 1] + [other[m - 1]];
  }

  lemma {:induction false} DirPrefix(es: seq<Entry>, a: Names, m: nat, b: Names, n: nat)
    requires m <= |a| && n <= |b| && a[..m] == b[..n]
    ensures DirOffset(es, a, m) == DirOffset(es, b, n)
  {
    assert m == n;
    if m > 0 {
      assert a[..m][..m - 1] == a[..m - 1] && b[..n][..n - 1] == b[..n - 1] && a[m - 1] == a[..m][m - 1] == b[n - 1];
      DirPrefix(es, a, m - 1, b, n - 1);
    }
  }

  /** What adding an entry does to the directory that the first `m` names lead to. */
  ghost predicate DirsAfter(es: seq<Entry>, names: Names, e: Entry, other: Names, m: nat)
    requires FirstEmpty(es) < |es| && m <= |other|
  {
    && DirOffset(Added(es, e), other, m) ==
       (if other[..m] == names && e.kind == DIRECTORY then Some(Off(FirstEmpty(es))) else DirOffset(es, other, m))
    && (other[..m] == names ==> DirOffset(es, other, m).None?)
  }

  /** What it does to the slot that they lead to: the new entry is found at its own names only. */
  ghost predicate SlotAfter(es: seq<Entry>, names: Names, e: Entry, other: Names, m: nat, dirOnly: bool)
    requires FirstEmpty(es) < |es| && 0 < m <= |other|
  {
    && Slot(Added(es, e), other, m, dirOnly) ==
       (if other[..m] == names && (dirOnly ==> e.kind == DIRECTORY) then Some(FirstEmpty(es)) else Slot(es, other, m, dirOnly))
    && (other[..m] == names ==> Slot(es, other, m, dirOnly).None?)
  }

  lemma OwnSlot(es: seq<Entry>, names: Names, e: Entry, other: Names, m: nat, dirOnly: bool)
    requires Sound(es) && Addable(es, names, e) && 0 < m <= |other| && other[..m] == names
    requires DirOffset(es, other, m - 1) == Some(e.parent) && |other[m - 1]| <= NAME_SIZE && Pad(other[m - 1]) == e.name
    requires DirOffset(Added(es, e), other, m - 1) == Some(e.parent)
    ensures SlotAfter(es, names, e, other, m, dirOnly)
  {
    NoDirMatch(es, e.parent, e.name, dirOnly);
    FirstMatchAfter(es, e, e.parent, e.name, dirOnly);
  }

  lemma OtherSlot(es: seq<Entry>, names: Names, e: Entry, other: Names, m: nat, dirOnly: bool)
    requires Sound(es) && Addable(es, names, e) && 0 < m <= |other| && other[..m] != names && other[..m - 1] != names
    requires DirOffset(Added(es, e), other, m - 1) == DirOffset(es, other, m - 1)
    requires !(DirOffset(es, other, m - 1) == Some(e.parent) && |other[m - 1]| <= NAME_SIZE && Pad(other[m - 1]) == e.name)
    ensures SlotAfter(es, names, e, other, m, dirOnly)
  {
    if DirOffset(es, other, m - 1).Some? && |other[m - 1]| <= NAME_SIZE {
      FirstMatchAfter(es, e, DirOffset(es, other, m - 1).value, Pad(other[m - 1]), dirOnly);
    }
  }

  lemma SlotBelow(es: seq<Entry>, names: Names, e: Entry, other: Names, m: nat, dirOnly: bool)
    requires Sound(es) && Addable(es, names, e) && 0 < m <= |other| && other[..m - 1] == names
    requires DirsAfter(es, names, e, other, m - 1)
    ensures SlotAfter(es, names, e, other, m, dirOnly)
  {
    assert |other[..m]| != |names|;
    if e.kind == DIRECTORY && |other[m - 1]| <= NAME_SIZE { NothingBelow(es, names, e, Pad(other[m - 1]), dirOnly); }
  }

  lemma SlotStep(es: seq<Entry>, names: Names, e: Entry, other: Names, m: nat, dirOnly: bool)
    requires Sound(es) && Addable(es, names, e) && Legal(other) && 0 < m <= |other|
    requires DirsAfter(es, names, e, other, m - 1)
    ensures SlotAfter(es, names, e, other, m, dirOnly)
  {
    SameNames(es, names, e, other, m);
    if other[..m - 1] == names {
      SlotBelow(es, names, e, other, m, dirOnly);
    } else if other[..m] == names {
      OwnSlot(es, names, e, other, m, dirOnly);
    } else {
      OtherSlot(es, names, e, other, m, dirOnly);
    }
  }

  lemma NoDirMatch(es: seq<Entry>, parent: nat, name: Bytes, dirOnly: bool)
    requires FirstMatch(es, parent, name, false) == |es|
    ensures FirstMatch(es, parent, name, dirOnly) == |es|
  {
  }

  /** Adding an entry gives a new directory exactly at its own names. */
  lemma {:induction false} DirOffsetAfter(es: seq<Entry>, names: Names, e: Entry, other: Names, m: nat)
    requires Sound(es) && Addable(es, names, e) && Legal(other) && m <= |other|
    ensures DirsAfter(es, names, e, other, m)
  {
    if m > 0 {
      DirOffsetAfter(es, names, e, other, m - 1);
      SlotStep(es, names, e, other, m, true);
    }
  }

  /** An added entry is found at its own names, and what all other names lead to is unchanged. */
  lemma FindPathAfter(es: seq<Entry>, names: Names, e: Entry, other: Names)
    requires Sound(es) && Addable(es, names, e) && Legal(other)
    ensures FindPath(Added(es, e), other) == if other == names then Some(FirstEmpty(es)) else FindPath(es, other)
    ensures FindPath(es, names).None?
  {
    if other != [] {
      DirOffsetAfter(es, names, e, other, |other| - 1);
      SlotStep(es, names, e, other, |other|, false);
      assert other[..|other|] == other;
    }
  }

  // ------------------------------------------------------------------- extents

  /** CheckOverlap's test of one entry: extents that touch count as overlapping. */
  predicate Conflict(e: Entry, pos: nat, size: nat) {
    Used(e) && !(e.offset + e.size < pos) && !(e.offset > pos + size)
  }

  predicate Overlaps(es: seq<Entry>, pos: nat, size: nat) {
    exists k :: 0 <= k < |es| && Conflict(es[k], pos, size)
  }

  /** No extent of the first `k` slots overlaps. */
  ghost predicate ClearBelow(es: seq<Entry>, k: nat, pos: nat, size: nat) {
    forall j :: 0 <= j < k && j < |es| ==> !Conflict(es[j], pos, size)
  }

  lemma ClearStep(es: seq<Entry>, k: nat, pos: nat, size: nat)
    requires k <= |es| && ClearBelow(es, k, pos, size)
    ensures k == |es| ==> !Overlaps(es, pos, size)
    ensures k < |es| ==> if Conflict(es[k], pos, size) then Overlaps(es, pos, size) else ClearBelow(es, k + 1, pos, size)
  {
  }

  /** Just behind the entry, unless that lies in the index. */
  predicate FitsBehind(es: seq<Entry>, k: nat, indexSize: nat, size: nat)
    requires k < |es|
  {
    Used(es[k]) && es[k].offset + es[k].size + 1 >= indexSize && !Overlaps(es, es[k].offset + es[k].size + 1, size)
  }

  function NextOffset(es: seq<Entry>, indexSize: nat, size: nat, k: nat): Option<nat>
    requires k <= |es|
    decreases |es| - k
  {
    if k == |es| then None
    else if FitsBehind(es, k, indexSize, size) then Some(es[k].offset + es[k].size + 1)
    else NextOffset(es, indexSize, size, k + 1)
  }

  lemma NextOffsetStep(es: seq<Entry>, indexSize: nat, size: nat, k: nat)
    requires k < |es|
    ensures NextOffset(es, indexSize, size, k) ==
      if FitsBehind(es, k, indexSize, size) then Some(es[k].offset + es[k].size + 1) else NextOffset(es, indexSize, size, k + 1)
  {
  }

  /** Where a new file goes: at the start of the data, or behind the first entry that leaves room. */
  function PickOffset(es: seq<Entry>, indexSize: nat, size: nat): Option<nat> {
    if !Overlaps(es, indexSize, size) then Some(indexSize) else NextOffset(es, indexSize, size, 0)
  }

  predicate Apart(a: Entry, b: Entry) {
    a.offset + a.size < b.offset || b.offset + b.size < a.offset
  }

  /** The extents of files are apart and behind the index, and their bytes lie in the image. */
  ghost predicate Extents(es: seq<Entry>, indexSize: nat, length: nat) {
    && (forall k :: 0 <= k < |es| && es[k].kind == FILE ==> ExtentOk(es[k], k, indexSize, length))
    && (forall j, k :: 0 <= j < k < |es| && es[j].kind == FILE && es[k].kind == FILE ==> Apart(es[j], es[k]))
  }

  predicate ExtentOk(e: Entry, k: nat, indexSize: nat, length: nat) {
    e.offset >= indexSize && e.offset + e.size <= length + k + 1 && (e.size > 0 ==> e.offset + e.size <= length)
  }

  lemma {:induction false} NextOffsetIs(es: seq<Entry>, indexSize: nat, size: nat, k: nat)
    requires k <= |es|
    ensures match NextOffset(es, indexSize, size, k)
      case Some(pos) => exists j :: k <= j < |es| && FitsBehind(es, j, indexSize, size) && pos == es[j].offset + es[j].size + 1
      case None => forall j :: k <= j < |es| ==> !FitsBehind(es, j, indexSize, size)
    decreases |es| - k
  {
    if k < |es| { NextOffsetIs(es, indexSize, size, k + 1); }
  }

  lemma {:induction false} LastEnd(es: seq<Entry>, n: nat) returns (k: nat)
    requires n <= |es| && exists j :: 0 <= j < n && Used(es[j])
    ensures k < n && Used(es[k])
    ensures forall j :: 0 <= j < n && Used(es[j]) ==> es[j].offset + es[j].size <= es[k].offset + es[k].size
  {
    k := n - 1;
    if exists j :: 0 <= j < n - 1 && Used(es[j]) {
      var i := LastEnd(es, n - 1);
      if !Used(es[k]) || es[k].offset + es[k].size < es[i].offset + es[i].size { k := i; }
    }
  }

  /** There is always room: behind the extent that ends last nothing overlaps. */
  lemma PickOffsetNeverFails(es: seq<Entry>, indexSize: nat, size: nat)
    ensures PickOffset(es, indexSize, size).Some?
  {
    if Overlaps(es, indexSize, size) {
      var k := LastEnd(es, |es|);
      assert FitsBehind(es, k, indexSize, size);
      NextOffsetIs(es, indexSize, size, 0);
    }
  }

  /** The extent chosen for a new file starts behind the index and touches no other extent. */
  lemma PickOffsetApart(es: seq<Entry>, indexSize: nat, size: nat)
    ensures PickOffset(es, indexSize, size).Some?
    ensures var pos := PickOffset(es, indexSize, size).value;
      && pos >= indexSize && !Overlaps(es, pos, size)
      && (pos == indexSize || exists k :: 0 <= k < |es| && Used(es[k]) && pos == es[k].offset + es[k].size + 1)
  {
    PickOffsetNeverFails(es, indexSize, size);
    NextOffsetIs(es, indexSize, size, 0);
  }

  lemma ExtentsAdded(es: seq<Entry>, indexSize: nat, length: nat, e: Entry, length': nat)
    requires Sound(es) && Extents(es, indexSize, length) && FirstEmpty(es) < |es| && indexSize > 0
    requires e.kind == FILE ==> e.offset >= indexSize && !Overlaps(es, e.offset, e.size)
    requires e.kind == FILE ==> e.offset + e.size <= length' + FirstEmpty(es) + 1 && (e.size > 0 ==> e.offset + e.size <= length')
    requires length <= length'
    ensures Extents(Added(es, e), indexSize, length')
  {
    var es', n := Added(es, e), FirstEmpty(es);
    forall k | 0 <= k < |es'| && es'[k].kind == FILE ensures ExtentOk(es'[k], k, indexSize, length') {
      if k != n { assert ExtentOk(es[k], k, indexSize, length); }
    }
    assert forall k :: n < k < |es| ==> es[k] == EMPTY_ENTRY;
    forall j, k | 0 <= j < k < |es'| && es'[j].kind == FILE && es'[k].kind == FILE ensures Apart(es'[j], es'[k]) {
      if k == n { assert !Conflict(es[j], e.offset, e.size); }
    }
  }
}
