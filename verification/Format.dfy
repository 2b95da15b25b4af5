/** The bytes of a HypnoticFS image, as the host tools write them and the kernel reads them. */
module Format {
  import opened Base

  const EMPTY: byte := 0
  const FILE: byte := 1
  const DIRECTORY: byte := 2

  const NAME_SIZE: nat := 32
  const ENTRY_SIZE: nat := 57
  const MAGIC_SIZE: nat := 11
  const INDEX_START: nat := 19
  /** 0xFF and "HypnoticFS". */
  const MAGIC: Bytes := [0xFF, 72, 121, 112, 110, 111, 116, 105, 99, 70, 83]
  const TWO_64: nat := 0x1_0000_0000_0000_0000

  /** An index entry. The name is padded with zeros; `parent` is the offset of a directory's entry, or 0. */
  datatype Entry = Entry(kind: byte, parent: nat, size: nat, offset: nat, name: Bytes)

  // ------------------------------------------------------------------ numbers

  function Power(width: nat): nat { if width == 0 then 1 else 256 * Power(width - 1) }

  /** Little-endian bytes of a number. */
  function Little(n: nat, width: nat): (r: Bytes)
    ensures |r| == width
  {
    if width == 0 then [] else [n % 256] + Little(n / 256, width - 1)
  }

  function Number(b: Bytes): (n: nat)
    ensures n < Power(|b|)
  {
    if b == [] then 0 else b[0] + 256 * Number(b[1..])
  }

  lemma {:induction false} LittleThenNumber(n: nat, width: nat)
    requires n < Power(width)
    ensures Number(Little(n, width)) == n
  {
    if width > 0 {
      LittleThenNumber(n / 256, width - 1);
      assert Little(n, width)[1..] == Little(n / 256, width - 1);
    }
  }

  lemma {:induction false} NumberThenLittle(b: Bytes)
    ensures Little(Number(b), |b|) == b
  {
    if b != [] {
      NumberThenLittle(b[1..]);
      var n := Number(b);
      assert n % 256 == b[0] && n / 256 == Number(b[1..]);
    }
  }

  lemma PowerOf8()
    ensures Power(8) == TWO_64
  {
    assert Power(2) == 0x1_0000;
    assert Power(4) == 0x1_0000_0000;
    assert Power(6) == 0x1_0000_0000_0000;
  }

  // ------------------------------------------------------------------ entries

  /** Fits the fields of an entry. */
  predicate Fits(e: Entry) {
    e.parent < TWO_64 && e.size < TWO_64 && e.offset < TWO_64 && |e.name| == NAME_SIZE
  }

  function Encode(e: Entry): (r: Bytes)
    requires |e.name| == NAME_SIZE
    ensures |r| == ENTRY_SIZE
  {
    [e.kind] + Little(e.parent, 8) + Little(e.size, 8) + Little(e.offset, 8) + e.name
  }

  function Decode(b: Bytes): (e: Entry)
    requires |b| == ENTRY_SIZE
    ensures |e.name| == NAME_SIZE
  {
    Entry(b[0], Number(b[1..9]), Number(b[9..17]), Number(b[17..25]), b[25..57])
  }

  /** What the tools write the kernel reads. */
  lemma DecodeEncode(e: Entry)
    requires Fits(e)
    ensures Decode(Encode(e)) == e
  {
    PowerOf8();
    LittleThenNumber(e.parent, 8);
    LittleThenNumber(e.size, 8);
    LittleThenNumber(e.offset, 8);
    Fields(e.kind, Little(e.parent, 8), Little(e.size, 8), Little(e.offset, 8), e.name);
  }

  lemma Fields(kind: byte, parent: Bytes, size: Bytes, offset: Bytes, name: Bytes)
    requires |parent| == |size| == |offset| == 8 && |name| == NAME_SIZE
    ensures var b := [kind] + parent + size + offset + name;
      b[0] == kind && b[1..9] == parent && b[9..17] == size && b[17..25] == offset && b[25..57] == name
  {
  }

  /** Every 57 bytes are the one encoding of one entry. */
  lemma EncodeDecode(b: Bytes)
    requires |b| == ENTRY_SIZE
    ensures Fits(Decode(b)) && Encode(Decode(b)) == b
  {
    PowerOf8();
    NumberThenLittle(b[1..9]);
    NumberThenLittle(b[9..17]);
    NumberThenLittle(b[17..25]);
    assert b == [b[0]] + b[1..9] + b[9..17] + b[17..25] + b[25..57];
  }

  // ------------------------------------------------------------------- images

  /** How many slots there are: each ends before the last byte of the index. */
  function SlotCount(indexSize: nat): nat {
    if indexSize <= INDEX_START + ENTRY_SIZE then 0 else (indexSize - INDEX_START - ENTRY_SIZE - 1) / ENTRY_SIZE + 1
  }

  function Off(k: nat): nat { INDEX_START + ENTRY_SIZE * k }

  lemma SlotCountExact(indexSize: nat, k: nat)
    ensures k < SlotCount(indexSize) <==> Off(k) + ENTRY_SIZE < indexSize
  {
  }

  /** The size of the index; 0 for an image too short to hold it. */
  function IndexSize(img: Bytes): nat {
    if |img| < INDEX_START then 0 else Number(img[MAGIC_SIZE..INDEX_START])
  }

  /** The tests the tools make before anything else. */
  predicate HasHeader(img: Bytes) {
    |img| >= INDEX_START && img[..MAGIC_SIZE] == MAGIC && IndexSize(img) <= |img|
  }

  function EntryAt(img: Bytes, k: nat): (e: Entry)
    requires Off(k) + ENTRY_SIZE <= |img|
    ensures |e.name| == NAME_SIZE
  {
    Decode(img[Off(k)..Off(k) + ENTRY_SIZE])
  }

  /** How many slots end before the end of the index and lie in the image. */
  function SlotsIn(img: Bytes): nat {
    SlotCount(if IndexSize(img) <= |img| then IndexSize(img) else |img| + 1)
  }

  /** A reader that goes from slot to slot and stops at the end of the index or of the image meets exactly these. */
  lemma SlotMet(img: Bytes, k: nat)
    ensures k < SlotsIn(img) <==> Off(k) + ENTRY_SIZE < IndexSize(img) && Off(k) + ENTRY_SIZE <= |img|
  {
    SlotCountExact(if IndexSize(img) <= |img| then IndexSize(img) else |img| + 1, k);
  }

  /** All slots of the index, as far as they lie in the image. */
  function Entries(img: Bytes): (es: seq<Entry>)
    ensures |es| == SlotsIn(img)
    ensures forall k :: 0 <= k < |es| ==> Off(k) + ENTRY_SIZE < IndexSize(img) && Off(k) + ENTRY_SIZE <= |img| && es[k] == EntryAt(img, k)
  {
    var n := SlotsIn(img);
    assert forall k: nat :: k < n ==> Off(k) + ENTRY_SIZE < IndexSize(img) && Off(k) + ENTRY_SIZE <= |img| by {
      forall k: nat | k < n ensures Off(k) + ENTRY_SIZE < IndexSize(img) && Off(k) + ENTRY_SIZE <= |img| { SlotMet(img, k); }
    }
    seq(n, k requires 0 <= k < n => EntryAt(img, k))
  }

  function Zeros(n: nat): Bytes { seq(n, _ => 0) }

  /** Write into a file at a position; a gap before it is filled with zeros. */
  function WriteAt(img: Bytes, pos: nat, data: Bytes): (r: Bytes)
    ensures |r| == if data == [] || pos + |data| < |img| then |img| else pos + |data|
  {
    if data == [] then img else Before(img, pos) + data + Behind(img, pos + |data|)
  }

  function Before(img: Bytes, pos: nat): (r: Bytes)
    ensures |r| == pos
  {
    if pos <= |img| then img[..pos] else img + Zeros(pos - |img|)
  }

  function Behind(img: Bytes, pos: nat): Bytes {
    if pos <= |img| then img[pos..] else []
  }

  /** The written range holds the data, and every range beside it is as before. */
  lemma WriteAtReads(img: Bytes, pos: nat, data: Bytes, a: nat, b: nat)
    requires a <= b <= |img| && (b <= pos || pos + |data| <= a)
    ensures |WriteAt(img, pos, data)| >= |img| && WriteAt(img, pos, data)[a..b] == img[a..b]
    ensures data != [] ==> pos + |data| <= |WriteAt(img, pos, data)| && WriteAt(img, pos, data)[pos..pos + |data|] == data
  {
    var r := WriteAt(img, pos, data);
    forall i | a <= i < b ensures r[i] == img[i] { WriteAtByte(img, pos, data, i); }
  }

  lemma WriteAtByte(img: Bytes, pos: nat, data: Bytes, i: nat)
    requires i < |img| && (i < pos || pos + |data| <= i)
    ensures i < |WriteAt(img, pos, data)| && WriteAt(img, pos, data)[i] == img[i]
  {
    if i < pos {
      assert Before(img, pos)[i] == img[i];
    } else {
      assert Behind(img, pos + |data|)[i - pos - |data|] == img[i];
    }
  }

  /** Writing piece after piece is writing the whole. */
  lemma WriteAtTwice(img: Bytes, pos: nat, d1: Bytes, d2: Bytes)
    ensures WriteAt(WriteAt(img, pos, d1), pos + |d1|, d2) == WriteAt(img, pos, d1 + d2)
  {
    if d1 == [] {
      assert d1 + d2 == d2;
    } else if d2 == [] {
      assert d1 + d2 == d1;
    } else {
      WriteAtSides(img, pos, d1, |d2|);
      Regroup(Before(img, pos), d1, d2, Behind(img, pos + |d1| + |d2|));
    }
  }

  lemma Regroup(a: Bytes, b: Bytes, c: Bytes, d: Bytes)
    ensures (a + b) + c + d == a + (b + c) + d
  {
  }

  lemma WriteAtSides(img: Bytes, pos: nat, data: Bytes, n: nat)
    requires data != []
    ensures Before(WriteAt(img, pos, data), pos + |data|) == Before(img, pos) + data
    ensures Behind(WriteAt(img, pos, data), pos + |data| + n) == Behind(img, pos + |data| + n)
  {
    var r := WriteAt(img, pos, data);
    assert r[..pos + |data|] == Before(img, pos) + data;
    assert r[pos + |data|..] == Behind(img, pos + |data|);
  }

  lemma EntriesSame(img: Bytes, img': Bytes)
    requires |img| >= INDEX_START && IndexSize(img) <= |img| <= |img'|
    requires img'[..IndexSize(img)] == img[..IndexSize(img)] && img'[..INDEX_START] == img[..INDEX_START]
    ensures IndexSize(img') == IndexSize(img) && Entries(img') == Entries(img) && (HasHeader(img) ==> HasHeader(img'))
  {
    assert img'[MAGIC_SIZE..INDEX_START] == img'[..INDEX_START][MAGIC_SIZE..] == img[..INDEX_START][MAGIC_SIZE..] == img[MAGIC_SIZE..INDEX_START];
    assert img'[..MAGIC_SIZE] == img'[..INDEX_START][..MAGIC_SIZE] == img[..MAGIC_SIZE];
    forall k | 0 <= k < |Entries(img)| ensures EntryAt(img', k) == EntryAt(img, k) {
      SamePart(img, img', IndexSize(img), Off(k), Off(k) + ENTRY_SIZE);
    }
  }

  lemma SamePart(img: Bytes, img': Bytes, n: nat, a: nat, b: nat)
    requires a <= b <= n <= |img| && n <= |img'| && img'[..n] == img[..n]
    ensures img'[a..b] == img[a..b]
  {
    assert img'[a..b] == img'[..n][a..b] && img[a..b] == img[..n][a..b];
  }

  /** Writing file data behind the index leaves every entry as it was. */
  lemma WriteDataKeepsEntries(img: Bytes, pos: nat, data: Bytes)
    requires HasHeader(img) && IndexSize(img) <= pos && INDEX_START <= pos
    ensures var img' := WriteAt(img, pos, data); HasHeader(img') && IndexSize(img') == IndexSize(img) && Entries(img') == Entries(img)
  {
    WriteAtReads(img, pos, data, 0, IndexSize(img));
    WriteAtReads(img, pos, data, 0, INDEX_START);
    EntriesSame(img, WriteAt(img, pos, data));
  }

  /** Writing an entry changes that slot and no other, and no byte behind the index. */
  lemma WriteEntryChangesSlot(img: Bytes, k: nat, e: Entry)
    requires HasHeader(img) && k < |Entries(img)| && Fits(e)
    ensures var img' := WriteAt(img, Off(k), Encode(e));
      && |img'| == |img| && HasHeader(img') && IndexSize(img') == IndexSize(img)
      && Entries(img') == Entries(img)[k := e] && img'[IndexSize(img)..] == img[IndexSize(img)..]
  {
    var img' := WriteAt(img, Off(k), Encode(e));
    WriteAtReads(img, Off(k), Encode(e), 0, INDEX_START);
    assert img'[MAGIC_SIZE..INDEX_START] == img'[0..INDEX_START][MAGIC_SIZE..] == img[MAGIC_SIZE..INDEX_START];
    assert img'[..MAGIC_SIZE] == img'[0..INDEX_START][..MAGIC_SIZE] == img[..MAGIC_SIZE];
    WriteAtReads(img, Off(k), Encode(e), IndexSize(img), |img|);
    forall j | 0 <= j < |Entries(img)| ensures EntryAt(img', j) == Entries(img)[k := e][j] {
      SlotWritten(img, k, e, j);
    }
  }

  lemma SlotWritten(img: Bytes, k: nat, e: Entry, j: nat)
    requires Off(k) + ENTRY_SIZE <= |img| && Off(j) + ENTRY_SIZE <= |img| && Fits(e)
    ensures EntryAt(WriteAt(img, Off(k), Encode(e)), j) == if j == k then e else EntryAt(img, j)
  {
    if j == k {
      WriteAtReads(img, Off(k), Encode(e), 0, 0);
      DecodeEncode(e);
    } else {
      WriteAtReads(img, Off(k), Encode(e), Off(j), Off(j) + ENTRY_SIZE);
    }
  }
}
