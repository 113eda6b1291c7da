/**
 What the EXIF reader makes of any bytes at all (src/exif.rs): exactly which blobs parse, and that a
 directory is every descriptor that can be read, in order. A descriptor that is cut off, of an unknown type
 or out of bounds takes no other with it.
 */
module ExifReading {
  import opened Words
  import opened Bytes
  import opened ExifEntries
  import opened ExifLayout
  import opened ExifModel
  import opened ExifFixpoint

  // ----- numbers in the blob -----

  /** Two bytes at `at`, and four, in the order of the blob. */
  function Word(b: seq<Byte>, at: nat, order: ByteOrder): int
    requires at + 2 <= |b|
  {
    if order.Big? then 0x100 * b[at] as int + b[at + 1] as int else 0x100 * b[at + 1] as int + b[at] as int
  }

  function Long(b: seq<Byte>, at: nat, order: ByteOrder): int
    requires at + 4 <= |b|
  {
    if order.Big? then 0x1_0000 * Word(b, at, order) + Word(b, at + 2, order)
    else 0x1_0000 * Word(b, at + 2, order) + Word(b, at, order)
  }

  lemma Rd16IsWord(b: seq<Byte>, at: nat, order: ByteOrder)
    ensures Rd16(b, at, order) == if at + 2 <= |b| then Some(Word(b, at, order)) else None
  {
  }

  lemma Rd32IsLong(b: seq<Byte>, at: nat, order: ByteOrder)
    ensures Rd32(b, at, order) == if at + 4 <= |b| then Some(Long(b, at, order)) else None
  {
    if at + 4 <= |b| {
      var four := b[at..at + 4];
      assert four[0] == b[at] && four[1] == b[at + 1] && four[2] == b[at + 2] && four[3] == b[at + 3];
    }
  }

  // ----- one descriptor -----

  /** TIFF 6.0, section 2, with the IFD type 13 and the UTF-8 type 129: bytes for each element. */
  predicate Sized(kind: int, size: nat) {
    || (size == 1 && kind in {1, 2, 6, 7, 129})
    || (size == 2 && kind in {3, 8})
    || (size == 4 && kind in {4, 9, 11, 13})
    || (size == 8 && kind in {5, 10, 12})
  }

  /** Where the value of the descriptor at `at` is, when it has `len` bytes. */
  function ValueAt(b: seq<Byte>, at: nat, order: ByteOrder, len: nat): nat
    requires at + 12 <= |b|
  {
    if len <= 4 then at + 8 else Long(b, at + 8, order)
  }

  /** The entry that the twelve bytes at `at` describe. */
  ghost predicate Describes(b: seq<Byte>, at: nat, order: ByteOrder, e: Entry) {
    && at + 12 <= |b|
    && e.tag == Word(b, at, order) && e.kind == Word(b, at + 2, order) && e.count == Long(b, at + 4, order)
    && exists size {:trigger Sized(e.kind, size)} ::
         && Sized(e.kind, size)
         && ValueAt(b, at, order, e.count * size) + e.count * size <= |b|
         && e.origin == Source(ValueAt(b, at, order, e.count * size))
         && e.value == b[e.origin.offset..e.origin.offset + e.count * size]
  }

  lemma SizedIsTypeSize(kind: U16, size: nat)
    ensures Sized(kind, size) <==> TypeSize(kind) == Some(size)
  {
  }

  /** A whole descriptor resolves to the entry it describes, and to none exactly when it describes none. */
  lemma ResolvesIff(b: seq<Byte>, at: nat, order: ByteOrder)
    requires at + 12 <= |b|
    ensures forall e :: ResolveEntry(b, at, order) == Some(e) <==> Describes(b, at, order, e)
  {
    hide Rd16, Rd32, Sized, TypeSize, Word, Long;
    Rd16IsWord(b, at, order);
    Rd16IsWord(b, at + 2, order);
    Rd32IsLong(b, at + 4, order);
    Rd32IsLong(b, at + 8, order);
    var kind: U16 := Rd16(b, at + 2, order).value;
    forall size: nat {:trigger Sized(kind, size)}
      ensures Sized(kind, size) <==> TypeSize(kind) == Some(size)
    {
      SizedIsTypeSize(kind, size);
    }
    forall e
      ensures ResolveEntry(b, at, order) == Some(e) <==> Describes(b, at, order, e)
    {
      if ResolveEntry(b, at, order) == Some(e) {
        assert Sized(e.kind, TypeSize(kind).value);
      }
    }
  }

  // ----- a directory -----

  /** Descriptor k of the table at `start`. */
  ghost predicate DescribesAt(b: seq<Byte>, start: nat, k: nat, order: ByteOrder, e: Entry) {
    Describes(b, start + 12 * k, order, e)
  }

  /** The entries are those of the descriptors `ks` among the first n from `start`, in order, and no other describes one. */
  ghost predicate SalvagedFrom(b: seq<Byte>, start: nat, n: nat, order: ByteOrder, d: Dir, ks: seq<nat>) {
    && |d| == |ks|
    && (forall j :: 0 <= j < |ks| ==> ks[j] < n && DescribesAt(b, start, ks[j], order, d[j]))
    && (forall i, j :: 0 <= i < j < |ks| ==> ks[i] < ks[j])
    && (forall k: nat, e :: k < n && DescribesAt(b, start, k, order, e) ==> k in ks)
  }

  ghost predicate Salvaged(b: seq<Byte>, start: nat, n: nat, order: ByteOrder, d: Dir) {
    exists ks :: SalvagedFrom(b, start, n, order, d, ks)
  }

  lemma {:induction false} EntriesSalvaged(b: seq<Byte>, start: nat, n: nat, order: ByteOrder)
    ensures Salvaged(b, start, n, order, ParsedEntries(b, start, n, order))
  {
    hide *;
    if n == 0 {
      NoEntries(b, start, order);
    } else {
      EntriesSalvaged(b, start, n - 1, order);
      SalvageNext(b, start, n - 1, n, order);
    }
  }

  lemma NoEntries(b: seq<Byte>, start: nat, order: ByteOrder)
    ensures Salvaged(b, start, 0, order, ParsedEntries(b, start, 0, order))
  {
    assert SalvagedFrom(b, start, 0, order, [], []);
  }

  lemma SalvageNext(b: seq<Byte>, start: nat, m: nat, n: nat, order: ByteOrder)
    requires n == m + 1 && Salvaged(b, start, m, order, ParsedEntries(b, start, m, order))
    ensures Salvaged(b, start, n, order, ParsedEntries(b, start, n, order))
  {
    hide ParsedEntries, DescribesAt;
    var init, whole := ParsedEntries(b, start, m, order), ParsedEntries(b, start, n, order);
    var ks :| SalvagedFrom(b, start, m, order, init, ks);
    NextEntry(b, start, m, order);
    if e :| whole == init + [e] && DescribesAt(b, start, m, order, e) {
      assert SalvagedFrom(b, start, n, order, whole, ks + [m]);
    } else {
      assert SalvagedFrom(b, start, n, order, whole, ks);
    }
  }

  /** One more descriptor: its entry at the end, or nothing when it describes none. */
  lemma NextEntry(b: seq<Byte>, start: nat, m: nat, order: ByteOrder)
    ensures var init, whole := ParsedEntries(b, start, m, order), ParsedEntries(b, start, m + 1, order);
            || (exists e :: whole == init + [e] && DescribesAt(b, start, m, order, e))
            || (whole == init && forall e :: !DescribesAt(b, start, m, order, e))
  {
    hide ResolveEntry, Describes;
    var at := start + 12 * m;
    CutOff(b, at, order);
    if at + 12 <= |b| {
      ResolvesIff(b, at, order);
      if ResolveEntry(b, at, order).Some? {
        assert DescribesAt(b, start, m, order, ResolveEntry(b, at, order).value);
      }
    }
  }

  lemma CutOff(b: seq<Byte>, at: nat, order: ByteOrder)
    ensures forall e :: Describes(b, at, order, e) ==> at + 12 <= |b|
  {
  }

  /**
   A directory is refused only for a count that is not there or above 1000. Otherwise it holds exactly the
   entries that descriptors below the count describe, in their order, however the table is cut off.
   */
  ghost predicate ReadsDirectory(b: seq<Byte>, off: nat, order: ByteOrder, r: Option<(Dir, U32)>) {
    && (r.Some? <==> off + 2 <= |b| && Word(b, off, order) <= 1000)
    && (r.Some? ==>
          var count := Word(b, off, order);
          && Salvaged(b, off + 2, count, order, r.value.0)
          && r.value.1 == if off + 2 + 12 * count + 4 <= |b| then Long(b, off + 2 + 12 * count, order) else 0)
  }

  lemma IfdSalvages(b: seq<Byte>, off: nat, order: ByteOrder)
    ensures ReadsDirectory(b, off, order, ParseIfd(b, off, order))
  {
    hide ParsedEntries, Rd16, Rd32, Salvaged;
    Rd16IsWord(b, off, order);
    if off + 2 <= |b| && Word(b, off, order) <= 1000 {
      Rd32IsLong(b, off + 2 + 12 * Word(b, off, order), order);
      EntriesSalvaged(b, off + 2, Word(b, off, order), order);
    }
  }

  // ----- the blob -----

  /** "II" and 42, or "MM" and 42, in the order that the mark names. */
  predicate Marked(b: seq<Byte>, order: ByteOrder) {
    |b| >= 8 && b[..4] == if order.Little? then [73, 73, 42, 0] else [77, 77, 0, 42]
  }

  lemma HeaderIff(b: seq<Byte>)
    ensures forall order: ByteOrder, off: U32 ::
              ParseHeader(b) == Some((order, off)) <==> Marked(b, order) && off == Long(b, 4, order)
  {
    hide Rd32, Long;
    if |b| >= 8 {
      Rd32IsLong(b, 4, Little);
      Rd32IsLong(b, 4, Big);
      Rd16IsWord(b, 2, Little);
      Rd16IsWord(b, 2, Big);
      assert b[..4][0] == b[0] && b[..4][1] == b[1] && b[..4][2] == b[2] && b[..4][3] == b[3];
      assert b[..2] == [b[0], b[1]] && b[..4] == [b[0], b[1], b[2], b[3]];
    }
  }

  /** "Exif" and two NULs in front, or nothing. */
  function Bare(data: seq<Byte>): seq<Byte> {
    if |data| >= 6 && data[..6] == [69, 120, 105, 102, 0, 0] then data[6..] else data
  }

  /**
   A blob parses exactly when its header is sound and the count of its first directory is there and at most
   1000. Nothing in the table, in a sub-directory or in the thumbnail makes the whole fail.
   */
  lemma ParsesIff(data: seq<Byte>)
    ensures Parse(data).Some? <==>
              exists order :: Marked(Bare(data), order)
                && Long(Bare(data), 4, order) + 2 <= |Bare(data)|
                && Word(Bare(data), Long(Bare(data), 4, order), order) <= 1000
  {
    hide ParseIfd, ParseHeader, TreeOf, Word, Long, Marked;
    var b := Bare(data);
    HeaderIff(b);
    MarkedLong(b);
    forall order | Marked(b, order)
      ensures ParseHeader(b) == Some((order, Long(b, 4, order)))
    {
      LongIsU32(b, 4, order);
    }
    if ParseHeader(b).Some? {
      var (order, off) := ParseHeader(b).value;
      IfdSalvages(b, off, order);
      assert Marked(b, order);
    }
  }

  lemma MarkedLong(b: seq<Byte>)
    ensures forall order :: Marked(b, order) ==> |b| >= 8
    ensures Marked(b, Little) ==> !Marked(b, Big)
  {
    if Marked(b, Little) {
      assert b[..4][0] == 73;
    }
  }

  lemma LongIsU32(b: seq<Byte>, at: nat, order: ByteOrder)
    requires at + 4 <= |b|
    ensures 0 <= Long(b, at, order) <= U32_MAX
  {
  }

  // ----- integers and the thumbnail -----

  /** The entry is a SHORT or a LONG whose first element is v. */
  predicate Holds(e: Entry, order: ByteOrder, v: int) {
    || (e.kind == 3 && |e.value| >= 2 && Word(e.value, 0, order) == v)
    || (e.kind == 4 && |e.value| >= 4 && Long(e.value, 0, order) == v)
  }

  lemma ReadsIffHolds(e: Entry, order: ByteOrder)
    ensures forall v: U32 :: ReadUint(e, order) == Some(v) <==> Holds(e, order, v)
  {
    hide Rd16, Rd32, Word, Long;
    Rd16IsWord(e.value, 0, order);
    Rd32IsLong(e.value, 0, order);
  }

  /** The orientation is the number of the first orientation entry of IFD0, when that is 1 to 8. */
  lemma OrientationIff(x: Tree)
    ensures forall o: Orientation :: OrientationOf(x) == Some(o) <==>
              First(x.ifd0, 0x0112).Some? && Holds(First(x.ifd0, 0x0112).value, x.order, o)
  {
    hide First, ReadUint, Holds;
    if First(x.ifd0, TAG_ORIENTATION).Some? {
      ReadsIffHolds(First(x.ifd0, TAG_ORIENTATION).value, x.order);
    }
  }

  /**
   There is a thumbnail exactly when the first offset and the first length entry of IFD1 are SHORT or LONG and
   name bytes of the blob: those bytes.
   */
  lemma ThumbnailIff(b: seq<Byte>, entries: Dir, order: ByteOrder, t: seq<Byte>)
    ensures Thumbnail(b, entries, order) == Some(t) <==>
              && First(entries, 0x0201).Some? && First(entries, 0x0202).Some?
              && exists off: U32, len: U32 ::
                   && Holds(First(entries, 0x0201).value, order, off) && Holds(First(entries, 0x0202).value, order, len)
                   && off + len <= |b| && t == b[off..off + len]
  {
    hide First, ReadUint, Holds;
    if First(entries, TAG_THUMB_OFFSET).Some? && First(entries, TAG_THUMB_LENGTH).Some? {
      ReadsIffHolds(First(entries, TAG_THUMB_OFFSET).value, order);
      ReadsIffHolds(First(entries, TAG_THUMB_LENGTH).value, order);
    }
  }

  // ----- the tree -----

  /** The offset that the first entry with the tag holds: none when there is none or its value is short. */
  function PointerOf(d: Dir, tag: U16, order: ByteOrder): Option<int> {
    if First(d, tag).Some? && |First(d, tag).value.value| >= 4 then Some(Long(First(d, tag).value.value, 0, order)) else None
  }

  /** A directory whose usable pointer with the tag has become a branch of the tree. */
  function Unpointed(d: Dir, tag: U16, order: ByteOrder): Dir {
    if PointerOf(d, tag, order).Some? then WithoutTag(d, tag) else d
  }

  /** The directory at an offset, if there is an offset and a directory. */
  function DirectoryAt(b: seq<Byte>, at: Option<int>, order: ByteOrder): Option<Dir> {
    if at.None? || at.value < 0 || ParseIfd(b, at.value, order).None? then None
    else Some(ParseIfd(b, at.value, order).value.0)
  }

  /** The tree over a first directory `raw` with next link `next`. */
  ghost predicate ReadFrom(b: seq<Byte>, order: ByteOrder, raw: Dir, next: U32, x: Tree) {
    && x.order == order && x.textEncoding == Ascii
    && x.ifd0 == Unpointed(Unpointed(raw, 0x8769, order), 0x8825, order)
    && x.gps == DirectoryAt(b, PointerOf(raw, 0x8825, order), order)
    && (match DirectoryAt(b, PointerOf(raw, 0x8769, order), order)
        case None => x.exif.None? && x.interop.None?
        case Some(exif) => && x.exif == Some(Unpointed(exif, 0xA005, order))
                           && x.interop == DirectoryAt(b, PointerOf(exif, 0xA005, order), order))
    && (match DirectoryAt(b, if next == 0 then None else Some(next), order)
        case None => x.ifd1.None? && x.thumbnail.None?
        case Some(ifd1) => && x.ifd1 == Some(WithoutTag(WithoutTag(ifd1, 0x0201), 0x0202))
                           && x.thumbnail == Thumbnail(b, ifd1, order))
  }

  lemma TakenPointer(d: Dir, tag: U16, order: ByteOrder)
    ensures TakeAll(d, tag, order) == (PointerOf(d, tag, order), Unpointed(d, tag, order))
  {
    hide TakeAll, First, Filter, Rd32, Long;
    TakeAllMeans(d, tag, order);
    if First(d, tag).Some? {
      var v := First(d, tag).value.value;
      Rd32IsLong(v, 0, order);
      FourBytes(v, order);
    }
  }

  lemma FourBytes(v: seq<Byte>, order: ByteOrder)
    ensures |v| >= 4 ==> Rd32(v, 0, order) == Some(Dec32(v[..4], order))
  {
    if |v| >= 4 {
      assert v[0..4] == v[..4];
    }
  }

  lemma SubIfdIsAt(b: seq<Byte>, at: Option<U32>, order: ByteOrder)
    ensures SubIfd(b, at, order) == DirectoryAt(b, at, order)
  {
    hide ParseIfd;
  }

  /** Where each branch of a parsed tree comes from; a branch that cannot be read is left out, its pointer too. */
  lemma TreeIsRead(data: seq<Byte>)
    requires Parse(data).Some?
    ensures exists order, raw, next ::
              && Marked(Bare(data), order)
              && ParseIfd(Bare(data), Long(Bare(data), 4, order), order) == Some((raw, next))
              && ReadFrom(Bare(data), order, raw, next, Parse(data).value)
              && (Parse(data).value.hadPrefix <==> |Bare(data)| < |data|)
  {
    hide ParseIfd, ParseHeader, Word, Long, Marked, TakeAll, PointerOf, Unpointed, DirectoryAt, SubIfd, Thumbnail, Filter;
    var b := Bare(data);
    HeaderIff(b);
    MarkedLong(b);
    var (order, off) := ParseHeader(b).value;
    var (raw, next) := ParseIfd(b, off, order).value;
    TreeBranches(b, HasPrefix(data), order, raw, next);
    assert Marked(b, order) && ReadFrom(b, order, raw, next, Parse(data).value);
  }

  lemma TreeBranches(b: seq<Byte>, hadPrefix: bool, order: ByteOrder, raw: Dir, next: U32)
    ensures ReadFrom(b, order, raw, next, TreeOf(b, hadPrefix, order, raw, next))
  {
    hide ParseIfd, TakeAll, PointerOf, SubIfd, Thumbnail, Filter;
    TakenPointer(raw, TAG_EXIF_IFD, order);
    TakenPointer(Unpointed(raw, TAG_EXIF_IFD, order), TAG_GPS_IFD, order);
    OtherPointer(raw, TAG_EXIF_IFD, TAG_GPS_IFD, order);
    SubIfdIsAt(b, PointerOf(raw, TAG_EXIF_IFD, order), order);
    SubIfdIsAt(b, PointerOf(raw, TAG_GPS_IFD, order), order);
    var exif := SubIfd(b, PointerOf(raw, TAG_EXIF_IFD, order), order);
    if exif.Some? {
      TakenPointer(exif.value, TAG_INTEROP_IFD, order);
      SubIfdIsAt(b, PointerOf(exif.value, TAG_INTEROP_IFD, order), order);
    }
  }

  lemma OtherPointer(d: Dir, taken: U16, tag: U16, order: ByteOrder)
    requires taken != tag
    ensures PointerOf(Unpointed(d, taken, order), tag, order) == PointerOf(d, tag, order)
  {
    hide First, Filter, Long;
    FirstWithout(d, taken, tag);
  }
}
