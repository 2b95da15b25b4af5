/** The kernel's loops over an image in memory. */
module KernelReader {
  import opened Base
  import opened Format
  import opened Catalog
  import opened KernelFs
  import Path

  /** StorageRead, for a memory disk. */
  method StorageRead(disk: Bytes, offset: nat, size: nat) returns (r: Option<Bytes>)
    ensures r.None? <==> offset + size > |disk|
    ensures r.Some? ==> |r.value| == size && forall k :: 0 <= k < size ==> r.value[k] == disk[offset + k]
  {
    if offset + size > |disk| {
      return None;
    }
    return Some(disk[offset..offset + size]);
  }

  /** StorageRead of the entry in slot `k`; it fails exactly behind the last entry that lies on the disk. */
  method ReadEntry(disk: Bytes, offset: nat, ghost k: nat) returns (e: Option<Entry>)
    requires offset == Off(k) && offset + ENTRY_SIZE < IndexSize(disk) && k <= |Entries(disk)|
    ensures e == if k < |Entries(disk)| then Some(Entries(disk)[k]) else None
  {
    SlotMet(disk, k);
    var bytes := StorageRead(disk, offset, ENTRY_SIZE);
    assert bytes.Some? ==> bytes.value == disk[offset..offset + ENTRY_SIZE];
    e := if bytes.None? then None else Some(Decode(bytes.value));
  }

  /** Fs_HypnoticFS_GetIndexSize; 0 on error. */
  method GetIndexSize(disk: Bytes) returns (size: nat)
    ensures size == IndexSize(disk)
  {
    var r := StorageRead(disk, MAGIC_SIZE, 8);
    assert r.Some? ==> r.value == disk[MAGIC_SIZE..INDEX_START];
    return if r.None? then 0 else Number(r.value);
  }

  /** The loops of Fs_HypnoticFS_GetIndex that look for a name in a directory. */
  method FindName(disk: Bytes, indexSize: nat, parent: nat, name: Bytes, dirOnly: bool) returns (found: Option<nat>, entry: Entry)
    requires indexSize == IndexSize(disk)
    ensures var k := FirstMatch(Entries(disk), parent, name, dirOnly);
      found == if k == |Entries(disk)| then None else Some(Off(k))
    ensures found.Some? ==> entry == Entries(disk)[FirstMatch(Entries(disk), parent, name, dirOnly)]
  {
    ghost var es, k := Entries(disk), 0;
    entry := EMPTY_ENTRY;
    var entryOffset := INDEX_START;
    SlotMet(disk, k);
    while entryOffset + ENTRY_SIZE < indexSize
      invariant 0 <= k <= |es| && entryOffset == Off(k) && (entryOffset + ENTRY_SIZE >= indexSize ==> k == |es|)
      invariant Unmatched(es, k, parent, name, dirOnly)
      decreases |es| - k, if entryOffset + ENTRY_SIZE < indexSize then 1 else 0
    {
      var read := ReadEntry(disk, entryOffset, k);
      if read.None? {
        break;
      }
      entry := read.value;
      MatchStep(es, k, parent, name, dirOnly);
      if (if dirOnly then entry.kind == DIRECTORY else entry.kind != EMPTY) && entry.name == name && entry.parent == parent {
        return Some(entryOffset), entry;
      }
      entryOffset := entryOffset + ENTRY_SIZE;
      k := k + 1;
      SlotMet(disk, k);
    }
    MatchEnd(es, parent, name, dirOnly);
    return None, entry;
  }

  /** A directory by its name, in a directory. */
  method FindDirectory(disk: Bytes, indexSize: nat, parent: nat, name: Bytes) returns (found: Option<nat>, entry: Entry)
    requires indexSize == IndexSize(disk)
    ensures found == ChildOffset(Entries(disk), parent, name)
  {
    if |name| > NAME_SIZE {
      return None, EMPTY_ENTRY;
    }
    found, entry := FindName(disk, indexSize, parent, Pad(name), true);
  }

  /** Fs_HypnoticFS_GetIndex: the entry that the names lead to, and its offset. */
  method GetIndex(disk: Bytes, names: Names) returns (found: Option<nat>, entry: Entry)
    ensures var k := FindPath(Entries(disk), names); found == if k.None? then None else Some(Off(k.value))
    ensures found.Some? ==> entry == Entries(disk)[FindPath(Entries(disk), names).value]
  {
    entry := EMPTY_ENTRY;
    if names == [] {
      return None, entry;
    }
    var indexSize := GetIndexSize(disk);
    if indexSize < INDEX_START {
      NothingIndexed(disk, names);
      return None, entry;
    }
    var n := |names| - 1;
    ghost var es := Entries(disk);
    ghost var last, target := DirOffset(es, names, n), FindPath(es, names);
    LastName(es, names);
    var parent, i := 0, 0;
    while i < n
      invariant 0 <= i <= n
      invariant DirOffset(es, names, i) == Some(parent)
    {
      NextName(es, names, i, parent, n);
      found, entry := FindDirectory(disk, indexSize, parent, names[i]);
      if found.None? {
        return None, entry;
      }
      parent := found.value;
      i := i + 1;
    }
    if |names[n]| > NAME_SIZE {
      return None, entry;
    }
    found, entry := FindName(disk, indexSize, parent, Pad(names[n]), false);
  }

  /**
   FsRead at offset 0: the bytes go to the start of `dest`. When the data lies
   past the end of the disk the destination is cleared.
   */
  method Read(disk: Bytes, path: Bytes, size: nat, dest: array<byte>) returns (count: nat)
    requires size <= dest.Length
    modifies dest
    ensures count == |FileRead(disk, path, size)| <= size
    ensures dest[..count] == FileRead(disk, path, size)
    ensures count > 0 ==> forall i :: count <= i < dest.Length ==> dest[i] == old(dest[i])
    ensures forall i :: size <= i < dest.Length ==> dest[i] == old(dest[i])
  {
    var names := Path.Breakdown(path, true);
    if names.None? {
      return 0;
    }
    var found, entry := GetIndex(disk, names.value);
    if found.None? {
      return 0;
    }
    count := ReadExtent(disk, entry, size, dest);
  }

  /** The last part of FsRead. */
  method ReadExtent(disk: Bytes, entry: Entry, size: nat, dest: array<byte>) returns (count: nat)
    requires size <= dest.Length
    modifies dest
    ensures count == |ExtentRead(disk, entry, size)| <= size
    ensures dest[..count] == ExtentRead(disk, entry, size)
    ensures count > 0 ==> forall i :: count <= i < dest.Length ==> dest[i] == old(dest[i])
    ensures forall i :: size <= i < dest.Length ==> dest[i] == old(dest[i])
  {
    var readSize := if size > entry.size then entry.size else size;
    var r := StorageRead(disk, entry.offset, readSize);
    assert r.Some? ==> r.value == disk[entry.offset..entry.offset + readSize];
    if r.None? {
      Fill(dest, Zeros(size));
      return 0;
    }
    Fill(dest, r.value);
    return readSize;
  }

  /** memcpy to the start of a buffer. */
  method Fill(dest: array<byte>, data: Bytes)
    requires |data| <= dest.Length
    modifies dest
    ensures dest[..|data|] == data
    ensures forall i :: |data| <= i < dest.Length ==> dest[i] == old(dest[i])
  {
    forall i | 0 <= i < |data| { dest[i] := data[i]; }
  }

  /** FsList: NULL for anything but a directory, else its entries. */
  method List(disk: Bytes, names: Names) returns (items: Option<seq<Item>>)
    ensures items == Listing(disk, names)
  {
    var directory := 0;
    if names != [] {
      var found, entry := GetIndex(disk, names);
      if found.None? || entry.kind != DIRECTORY {
        return None;
      }
      directory := found.value;
    }
    var indexSize := GetIndexSize(disk);
    if indexSize < INDEX_START {
      return None;
    }
    var listed := ListLoop(disk, indexSize, directory);
    return Some(listed);
  }

  /** The loop of FsList. */
  method ListLoop(disk: Bytes, indexSize: nat, directory: nat) returns (items: seq<Item>)
    requires indexSize == IndexSize(disk)
    ensures items == ListFrom(Entries(disk), directory, 0)
  {
    ghost var es, k := Entries(disk), 0;
    ghost var all := ListFrom(es, directory, 0);
    items := [];
    var i := INDEX_START;
    SlotMet(disk, k);
    while i + ENTRY_SIZE < indexSize
      invariant 0 <= k <= |es| && i == Off(k) && (i + ENTRY_SIZE >= indexSize ==> k == |es|)
      invariant items + ListFrom(es, directory, k) == all
      decreases |es| - k, if i + ENTRY_SIZE < indexSize then 1 else 0
    {
      var read := ReadEntry(disk, i, k);
      if read.None? {
        break;
      }
      ListStep(es, directory, k);
      if read.value.parent == directory {
        var item := FsIndex(read.value);
        if item.None? {
          return items;
        }
        items := items + [item.value];
      }
      i := i + ENTRY_SIZE;
      k := k + 1;
      SlotMet(disk, k);
    }
  }

  /** An index too small for one entry holds nothing. */
  lemma NothingIndexed(disk: Bytes, names: Names)
    requires IndexSize(disk) < INDEX_START && names != []
    ensures FindPath(Entries(disk), names).None?
  {
    SlotMet(disk, 0);
  }
}
