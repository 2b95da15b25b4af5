/** The programs that build an image: hypnoticfs-new, hypnoticfs-mkdir and hypnoticfs-add. */
module HostTools {
  import opened Base
  import opened Format
  import opened Catalog
  import opened Image
  import Path

  const BUFFER_SIZE: nat := 1024

  lemma SlotOfOff(k: nat)
    ensures (Off(k) - INDEX_START) / ENTRY_SIZE == k
  {
  }

  /** Where the buffer that starts at byte `i` ends. */
  function ChunkEnd(data: Bytes, i: nat): nat {
    if |data| - i < BUFFER_SIZE then |data| else i + BUFFER_SIZE
  }

  /** What copying the data from byte `i` on makes of the image, one buffer after the other. */
  function Copied(img: Bytes, pos: nat, data: Bytes, i: nat): Bytes
    requires i <= |data|
    decreases |data| - i
  {
    if i == |data| then img else
    var j := ChunkEnd(data, i);
    Copied(WriteAt(img, pos + i, data[i..j]), pos, data, j)
  }

  lemma CopyStep(img: Bytes, pos: nat, data: Bytes, i: nat)
    requires i < |data|
    ensures i < ChunkEnd(data, i) <= |data|
    ensures Copied(img, pos, data, i) == Copied(WriteAt(img, pos + i, data[i..ChunkEnd(data, i)]), pos, data, ChunkEnd(data, i))
  {
  }

  /** Copying buffer after buffer writes the whole data. */
  lemma {:induction false} CopiedIsWritten(img: Bytes, pos: nat, data: Bytes, i: nat)
    requires i <= |data|
    ensures Copied(img, pos, data, i) == WriteAt(img, pos + i, data[i..])
    decreases |data| - i
  {
    if i < |data| {
      var j := ChunkEnd(data, i);
      CopyStep(img, pos, data, i);
      CopiedIsWritten(WriteAt(img, pos + i, data[i..j]), pos, data, j);
      WriteAtTwice(img, pos + i, data[i..j], data[j..]);
      assert data[i..j] + data[j..] == data[i..];
    } else {
      assert data[i..] == [];
    }
  }

  class ImageFile {
    var bytes: Bytes

    /** hypnoticfs-new. */
    constructor (size: nat, indexSize: nat)
      ensures bytes == NewImage(size, indexSize)
      ensures |bytes| == if size < INDEX_START then INDEX_START else size
      ensures bytes[..INDEX_START] == MAGIC + Little(indexSize, 8) && forall i :: INDEX_START <= i < |bytes| ==> bytes[i] == 0
    {
      var written := MAGIC + Little(indexSize, 8);
      var offset := INDEX_START;
      while offset < size
        invariant INDEX_START <= offset && (offset <= size || offset == INDEX_START)
        invariant written == MAGIC + Little(indexSize, 8) + Zeros(offset - INDEX_START)
      {
        written := written + [0];
        offset := offset + 1;
      }
      bytes := written;
    }

    /** The magic number and the index size, which every tool reads first. */
    method ReadHeader() returns (ok: bool, indexSize: nat)
      ensures ok <==> HasHeader(bytes)
      ensures ok ==> indexSize == IndexSize(bytes)
    {
      if |bytes| < MAGIC_SIZE || bytes[..MAGIC_SIZE] != MAGIC {
        return false, 0;
      }
      if |bytes| < INDEX_START {
        return false, 0;
      }
      indexSize := Number(bytes[MAGIC_SIZE..INDEX_START]);
      return indexSize <= |bytes|, indexSize;
    }

    /** fread of the entry in slot `k`. */
    method ReadEntry(offset: nat, ghost k: nat) returns (e: Entry)
      requires HasHeader(bytes) && k < |Entries(bytes)| && offset == Off(k)
      ensures e == Entries(bytes)[k]
    {
      e := Decode(bytes[offset..offset + ENTRY_SIZE]);
    }

    /** The loops that look for a name in a directory. */
    method FindName(indexSize: nat, parent: nat, name: Bytes, dirOnly: bool) returns (found: Option<nat>)
      requires HasHeader(bytes) && indexSize == IndexSize(bytes)
      ensures var k := FirstMatch(Entries(bytes), parent, name, dirOnly);
        found == if k == |Entries(bytes)| then None else Some(Off(k))
    {
      ghost var es, k := Entries(bytes), 0;
      var entryOffset := INDEX_START;
      SlotMet(bytes, k);
      while entryOffset + ENTRY_SIZE < indexSize
        invariant 0 <= k <= |es| && entryOffset == Off(k) && (k < |es| <==> entryOffset + ENTRY_SIZE < indexSize)
        invariant Unmatched(es, k, parent, name, dirOnly)
        decreases |es| - k
      {
        var entry := ReadEntry(entryOffset, k);
        MatchStep(es, k, parent, name, dirOnly);
        if (if dirOnly then entry.kind == DIRECTORY else entry.kind != EMPTY) && entry.name == name && entry.parent == parent {
          return Some(entryOffset);
        }
        entryOffset := entryOffset + ENTRY_SIZE;
        k := k + 1;
        SlotMet(bytes, k);
      }
      MatchEnd(es, parent, name, dirOnly);
      return None;
    }

    /** The loop that looks for an empty entry. */
    method FindEmpty(indexSize: nat) returns (found: Option<nat>)
      requires HasHeader(bytes) && indexSize == IndexSize(bytes)
      ensures var k := FirstEmpty(Entries(bytes)); found == if k == |Entries(bytes)| then None else Some(Off(k))
    {
      ghost var es, k := Entries(bytes), 0;
      found := None;
      var entryOffset := INDEX_START;
      SlotMet(bytes, k);
      while entryOffset + ENTRY_SIZE < indexSize && found.None?
        invariant 0 <= k <= |es| && entryOffset == Off(k) && (k < |es| <==> entryOffset + ENTRY_SIZE < indexSize)
        invariant UsedBelow(es, k)
        invariant found.Some? ==> k < |es| && FirstEmpty(es) == k && found == Some(Off(k))
        decreases |es| - k, found.None?
      {
        var entry := ReadEntry(entryOffset, k);
        UsedStep(es, k);
        if entry.kind == EMPTY {
          found := Some(entryOffset);
        } else {
          entryOffset := entryOffset + ENTRY_SIZE;
          k := k + 1;
          SlotMet(bytes, k);
        }
      }
      UsedStep(es, k);
    }

    /** CheckOverlap. */
    method CheckOverlap(indexSize: nat, pos: nat, size: nat) returns (overlap: bool)
      requires HasHeader(bytes) && indexSize == IndexSize(bytes)
      ensures overlap == Overlaps(Entries(bytes), pos, size)
    {
      ghost var es, k := Entries(bytes), 0;
      overlap := false;
      var entryOffset := INDEX_START;
      SlotMet(bytes, k);
      while entryOffset + ENTRY_SIZE < indexSize && !overlap
        invariant 0 <= k <= |es| && entryOffset == Off(k) && (k < |es| <==> entryOffset + ENTRY_SIZE < indexSize)
        invariant ClearBelow(es, k, pos, size)
        invariant overlap ==> Overlaps(es, pos, size)
        decreases |es| - k, !overlap
      {
        var entry := ReadEntry(entryOffset, k);
        ClearStep(es, k, pos, size);
        if entry.kind != EMPTY && !(entry.offset + entry.size < pos) && !(entry.offset > pos + size) {
          overlap := true;
        } else {
          entryOffset := entryOffset + ENTRY_SIZE;
          k := k + 1;
          SlotMet(bytes, k);
        }
      }
      ClearStep(es, k, pos, size);
    }

    /** The offset just behind the extent of an entry, if the data fits there. */
    method OffsetBehind(indexSize: nat, size: nat, entryOffset: nat, ghost k: nat) returns (pos: Option<nat>)
      requires HasHeader(bytes) && indexSize == IndexSize(bytes) && k < |Entries(bytes)| && entryOffset == Off(k)
      ensures var e := Entries(bytes)[k];
        pos == if FitsBehind(Entries(bytes), k, indexSize, size) then Some(e.offset + e.size + 1) else None
    {
      var entry := ReadEntry(entryOffset, k);
      if entry.kind == EMPTY {
        return None;
      }
      var behind := entry.offset + entry.size + 1;
      if behind < indexSize {
        return None;
      }
      var overlap := CheckOverlap(indexSize, behind, size);
      return if overlap then None else Some(behind);
    }

    /** The search behind the extents of all entries. */
    method FindBehind(indexSize: nat, size: nat) returns (pos: Option<nat>)
      requires HasHeader(bytes) && indexSize == IndexSize(bytes)
      ensures pos == NextOffset(Entries(bytes), indexSize, size, 0)
    {
      ghost var es, k := Entries(bytes), 0;
      ghost var next := NextOffset(es, indexSize, size, 0);
      var entryOffset := INDEX_START;
      SlotMet(bytes, k);
      while entryOffset + ENTRY_SIZE < indexSize
        invariant 0 <= k <= |es| && entryOffset == Off(k) && (k < |es| <==> entryOffset + ENTRY_SIZE < indexSize)
        invariant NextOffset(es, indexSize, size, k) == next
        decreases |es| - k
      {
        pos := OffsetBehind(indexSize, size, entryOffset, k);
        NextOffsetStep(es, indexSize, size, k);
        if pos.Some? {
          return pos;
        }
        entryOffset := entryOffset + ENTRY_SIZE;
        k := k + 1;
        SlotMet(bytes, k);
      }
      return None;
    }

    /** The search of hypnoticfs-add for a place for the data. */
    method FindOffset(indexSize: nat, size: nat) returns (pos: Option<nat>)
      requires HasHeader(bytes) && indexSize == IndexSize(bytes)
      ensures pos == PickOffset(Entries(bytes), indexSize, size)
    {
      var overlap := CheckOverlap(indexSize, indexSize, size);
      if !overlap {
        return Some(indexSize);
      }
      pos := FindBehind(indexSize, size);
    }

    /** A directory by its name, in a directory. */
    method FindDirectory(indexSize: nat, parent: nat, name: Bytes) returns (found: Option<nat>)
      requires HasHeader(bytes) && indexSize == IndexSize(bytes)
      ensures found == ChildOffset(Entries(bytes), parent, name)
    {
      if |name| > NAME_SIZE {
        return None;
      }
      found := FindName(indexSize, parent, Pad(name), true);
    }

    /** Follow the first `n` names, each a directory in the one before. */
    method FollowNames(indexSize: nat, names: Names, n: nat) returns (parent: Option<nat>)
      requires HasHeader(bytes) && indexSize == IndexSize(bytes) && n <= |names|
      ensures parent == DirOffset(Entries(bytes), names, n)
    {
      ghost var es := Entries(bytes);
      parent := Some(0);
      var i := 0;
      while i < n && parent.Some?
        invariant 0 <= i <= n
        invariant parent.Some? ==> DirOffset(es, names, i) == parent
        invariant parent.None? ==> DirOffset(es, names, n).None?
      {
        NextName(es, names, i, parent.value, n);
        parent := FindDirectory(indexSize, parent.value, names[i]);
        i := i + 1;
      }
    }

    /** The part that mkdir and add share. */
    method FindPlace(path: Bytes) returns (place: Located)
      ensures place == Locate(bytes, path)
    {
      var ok, indexSize := ReadHeader();
      if !ok {
        return Refused(BadImage);
      }
      var names := Path.Breakdown(path, false);
      if names.None? || names.value == [] {
        return Refused(BadPath);
      }
      place := FindPlaceFor(indexSize, names.value);
    }

    method FindPlaceFor(indexSize: nat, names: Names) returns (place: Located)
      requires HasHeader(bytes) && indexSize == IndexSize(bytes) && names != []
      ensures place == LocateNames(Entries(bytes), names)
    {
      var parent := FollowNames(indexSize, names, |names| - 1);
      if parent.None? {
        return Refused(NoDirectory);
      }
      var name := names[|names| - 1];
      if |name| > NAME_SIZE {
        return Refused(NameTooLong);
      }
      var found := FindName(indexSize, parent.value, Pad(name), false);
      if found.Some? {
        return Refused(Exists);
      }
      var empty := FindEmpty(indexSize);
      if empty.None? {
        return Refused(NoSlot);
      }
      SlotOfOff(FirstEmpty(Entries(bytes)));
      return Located(name, parent.value, (empty.value - INDEX_START) / ENTRY_SIZE);
    }

    /** fwrite at a position of the image. */
    method Write(pos: nat, data: Bytes)
      modifies this
      ensures bytes == WriteAt(old(bytes), pos, data)
    {
      bytes := WriteAt(bytes, pos, data);
    }

    /** Copy a file into the image, 1024 bytes at a time. */
    method CopyBuffers(pos: nat, data: Bytes)
      modifies this
      ensures bytes == Copied(old(bytes), pos, data, 0)
    {
      ghost var all := Copied(bytes, pos, data, 0);
      var i := 0;
      while i < |data|
        invariant 0 <= i <= |data|
        invariant Copied(bytes, pos, data, i) == all
      {
        var j := ChunkEnd(data, i);
        CopyStep(bytes, pos, data, i);
        Write(pos + i, data[i..j]);
        i := j;
      }
    }

    /** The whole copy. */
    method CopyData(pos: nat, data: Bytes)
      modifies this
      ensures bytes == WriteAt(old(bytes), pos, data)
    {
      CopiedIsWritten(bytes, pos, data, 0);
      assert data[0..] == data;
      CopyBuffers(pos, data);
    }

    /** hypnoticfs-mkdir: it either writes one directory entry or leaves the image as it is. */
    method MakeDirectory(path: Bytes) returns (error: Option<Error>)
      modifies this
      ensures WithDirectory(old(bytes), path) == if error.Some? then Failed(error.value) else Done(bytes)
      ensures error.Some? ==> bytes == old(bytes)
    {
      var place := FindPlace(path);
      if place.Refused? {
        return Some(place.error);
      }
      Write(Off(place.slot), Encode(Entry(DIRECTORY, place.parent, 0, 0, Pad(place.name))));
      return None;
    }

    /** hypnoticfs-add: it either writes the data and one entry or leaves the image as it is. */
    method AddFile(path: Bytes, data: Bytes, hostName: nat) returns (error: Option<Error>)
      modifies this
      ensures WithFile(old(bytes), path, data, hostName) == if error.Some? then Failed(error.value) else Done(bytes)
      ensures error.Some? ==> bytes == old(bytes)
    {
      if hostName > NAME_SIZE {
        return Some(BadSource);
      }
      var place := FindPlace(path);
      if place.Refused? {
        return Some(place.error);
      }
      var ok, indexSize := ReadHeader();
      if |data| >= |bytes| - indexSize {
        return Some(TooLarge);
      }
      var pos := FindOffset(indexSize, |data|);
      if pos.None? {
        return Some(NoSpace);
      }
      CopyData(pos.value, data);
      Write(Off(place.slot), Encode(Entry(FILE, place.parent, |data|, pos.value, Pad(place.name))));
      return None;
    }
  }
}
