/**
 Every parsed tree is canonical (src/exif.rs): its directories leave room for the pointers that
 writing adds, its aliases are true slices of the blob, and no structural tag is left to be mistaken
 for a pointer later. Hence whatever parses, rewrites to a fixpoint.
 */
module ExifCanonical {
  import opened Words
  import opened Bytes
  import opened ExifEntries
  import opened ExifLayout
  import opened ExifModel
  import opened ExifReparse
  import opened ExifRoundTrip
  import opened ExifFixpoint

  /** The value is the slice of the blob that the entry's origin names. */
  predicate Slice(tiff: seq<Byte>, e: Entry) {
    e.origin.Source? && At(tiff, e.origin.offset, e.value)
  }

  lemma ResolvedOk(tiff: seq<Byte>, at: nat, order: ByteOrder)
    requires ResolveEntry(tiff, at, order).Some?
    ensures EntryOk(tiff, ResolveEntry(tiff, at, order).value)
  {
  }

  ghost predicate EntryOk(tiff: seq<Byte>, e: Entry) {
    WellFormed(e) && Slice(tiff, e)
  }

  lemma {:induction false} EntriesOk(tiff: seq<Byte>, start: nat, n: nat, order: ByteOrder)
    ensures forall e :: e in ParsedEntries(tiff, start, n, order) ==> EntryOk(tiff, e)
  {
    if n > 0 {
      hide ResolveEntry, EntryOk;
      EntriesOk(tiff, start, n - 1, order);
      var at: nat := start + 12 * (n - 1);
      if at + 12 <= |tiff| && ResolveEntry(tiff, at, order).Some? {
        ResolvedOk(tiff, at, order);
      }
    }
  }

  lemma SlicesConsistent(tiff: seq<Byte>, s: Dir)
    requires forall e :: e in s ==> Slice(tiff, e)
    ensures Consistent(s)
  {
  }

  lemma MembersWellFormed(s: Dir)
    requires forall e :: e in s ==> WellFormed(e)
    ensures AllWellFormed(s)
  {
    assert forall i :: 0 <= i < |s| ==> s[i] in s;
  }

  lemma ParsedOk(tiff: seq<Byte>, off: nat, order: ByteOrder)
    requires ParseIfd(tiff, off, order).Some?
    ensures DirOk(ParseIfd(tiff, off, order).value.0, 0)
  {
    hide ParsedEntries, WellFormed, Slice, Rd16, Rd32, Consistent, AllWellFormed;
    var entries := ParseIfd(tiff, off, order).value.0;
    EntriesOk(tiff, off + 2, Rd16(tiff, off, order).value, order);
    SlicesConsistent(tiff, entries);
    MembersWellFormed(entries);
  }

  /** Keeping part of a directory keeps it sound, with room for as many pointers as were dropped. */
  lemma PartOk(s: Dir, p: Entry -> bool, pointers: nat, extra: nat)
    requires DirOk(s, pointers) && |Filter(p, s)| + extra <= |s|
    ensures DirOk(Filter(p, s), pointers + extra)
  {
    hide Filter, WellFormed;
    var t := Filter(p, s);
    forall e | e in t
      ensures WellFormed(e)
    {
      assert e in s;
    }
    MembersWellFormed(t);
    ConsistentPart(s, t);
  }

  lemma TakeAllOk(entries: Dir, tag: U16, order: ByteOrder, pointers: nat)
    requires DirOk(entries, pointers)
    ensures var (at, rest) := TakeAll(entries, tag, order);
            && DirOk(rest, pointers + Count(at))
            && (at.Some? ==> !HasTag(rest, tag))
            && (at.None? ==> rest == entries && Swept(rest, tag, false))
  {
    hide TakeAll, DirOk, Filter;
    TakeAllMeans(entries, tag, order);
    var (at, rest) := TakeAll(entries, tag, order);
    if at.Some? {
      FilterShorter(NotTag(tag), entries, First(entries, tag).value);
      PartOk(entries, NotTag(tag), pointers, 1);
    }
  }

  lemma FewerPointers(s: Dir, n: nat, m: nat)
    requires DirOk(s, n) && m <= n
    ensures DirOk(s, m)
  {
  }

  lemma SweptStays(s: Dir, dropped: U16, tag: U16, present: bool)
    requires dropped != tag && Swept(s, tag, present)
    ensures Swept(WithoutTag(s, dropped), tag, present)
  {
    hide Filter, First;
    FirstWithout(s, dropped, tag);
    NoFirst(s, tag);
    NoFirst(WithoutTag(s, dropped), tag);
  }

  lemma AbsentIsSwept(s: Dir, tag: U16, present: bool)
    requires !HasTag(s, tag)
    ensures Swept(s, tag, present)
  {
    NoFirst(s, tag);
  }

  lemma SubIfdOk(tiff: seq<Byte>, at: Option<U32>, order: ByteOrder)
    requires SubIfd(tiff, at, order).Some?
    ensures at.Some? && DirOk(SubIfd(tiff, at, order).value, 0)
  {
    hide ParseIfd, DirOk;
    ParsedOk(tiff, at.value, order);
  }

  lemma ExifDirsOk(tiff: seq<Byte>, at: Option<U32>, order: ByteOrder, x: Tree)
    requires (x.exif, x.interop) == ExifDirs(tiff, at, order)
    ensures ExifOk(x) && (x.exif.Some? ==> at.Some?)
  {
    hide SubIfd, TakeAll, DirOk, Swept;
    if SubIfd(tiff, at, order).Some? {
      var entries := SubIfd(tiff, at, order).value;
      SubIfdOk(tiff, at, order);
      var (interopAt, rest) := TakeAll(entries, TAG_INTEROP_IFD, order);
      TakeAllOk(entries, TAG_INTEROP_IFD, order, 0);
      if interopAt.Some? {
        AbsentIsSwept(rest, TAG_INTEROP_IFD, x.interop.Some?);
        FewerPointers(rest, 1, Count(x.interop));
      }
      if x.interop.Some? {
        SubIfdOk(tiff, interopAt, order);
      }
    }
  }

  lemma Ifd0TakenOk(raw: Dir, order: ByteOrder, x: Tree)
    requires DirOk(raw, 0)
    requires var (exifAt, rest) := TakeAll(raw, TAG_EXIF_IFD, order);
             var (gpsAt, ifd0) := TakeAll(rest, TAG_GPS_IFD, order);
             x.ifd0 == ifd0 && (x.exif.Some? ==> exifAt.Some?) && (x.gps.Some? ==> gpsAt.Some?)
    ensures Ifd0Ok(x)
  {
    hide TakeAll, DirOk, Swept, Filter;
    var (exifAt, rest) := TakeAll(raw, TAG_EXIF_IFD, order);
    var (gpsAt, ifd0) := TakeAll(rest, TAG_GPS_IFD, order);
    TakeAllOk(raw, TAG_EXIF_IFD, order, 0);
    TakeAllOk(rest, TAG_GPS_IFD, order, Count(exifAt));
    TakeAllMeans(rest, TAG_GPS_IFD, order);
    if exifAt.Some? {
      AbsentIsSwept(rest, TAG_EXIF_IFD, x.exif.Some?);
    }
    if gpsAt.Some? {
      SweptStays(rest, TAG_GPS_IFD, TAG_EXIF_IFD, x.exif.Some?);
      AbsentIsSwept(ifd0, TAG_GPS_IFD, x.gps.Some?);
    }
    FewerPointers(ifd0, Count(exifAt) + Count(gpsAt), Count(x.exif) + Count(x.gps));
  }

  lemma WithoutHasNone(s: Dir, tag: U16)
    ensures !HasTag(WithoutTag(s, tag), tag)
    ensures forall t: U16 :: !HasTag(s, t) ==> !HasTag(WithoutTag(s, tag), t)
  {
  }

  lemma ThumbDirOk(tiff: seq<Byte>, next: U32, order: ByteOrder, x: Tree)
    requires (x.ifd1, x.thumbnail) == ThumbDir(tiff, next, order)
    ensures Ifd1Ok(x)
  {
    hide ParseIfd, DirOk, Filter, First, ReadUint;
    if x.ifd1.Some? {
      var entries := ParseIfd(tiff, next, order).value.0;
      ParsedOk(tiff, next, order);
      var once := WithoutTag(entries, TAG_THUMB_OFFSET);
      WithoutHasNone(entries, TAG_THUMB_OFFSET);
      WithoutHasNone(once, TAG_THUMB_LENGTH);
      var n := if x.thumbnail.Some? then 1 else 0;
      if x.thumbnail.Some? {
        var off, len := First(entries, TAG_THUMB_OFFSET).value, First(entries, TAG_THUMB_LENGTH).value;
        FilterShorter(NotTag(TAG_THUMB_OFFSET), entries, off);
        assert len in once;
        FilterShorter(NotTag(TAG_THUMB_LENGTH), once, len);
      }
      PartOk(entries, NotTag(TAG_THUMB_OFFSET), 0, n);
      PartOk(once, NotTag(TAG_THUMB_LENGTH), n, n);
    }
  }

  lemma TreeOfCanonical(tiff: seq<Byte>, hadPrefix: bool, order: ByteOrder, raw: Dir, next: U32)
    requires DirOk(raw, 0)
    ensures Canonical(TreeOf(tiff, hadPrefix, order, raw, next))
  {
    hide SubIfd, ExifDirs, TakeAll, DirOk, ThumbDir, ExifOk, Ifd0Ok, Ifd1Ok;
    var x := TreeOf(tiff, hadPrefix, order, raw, next);
    var (exifAt, rest) := TakeAll(raw, TAG_EXIF_IFD, order);
    var (gpsAt, ifd0) := TakeAll(rest, TAG_GPS_IFD, order);
    ExifDirsOk(tiff, exifAt, order, x);
    if x.gps.Some? {
      SubIfdOk(tiff, gpsAt, order);
    }
    ThumbDirOk(tiff, next, order, x);
    Ifd0TakenOk(raw, order, x);
  }

  /** Every blob that parses, parses to a canonical tree. */
  lemma ParseIsCanonical(data: seq<Byte>)
    requires Parse(data).Some?
    ensures Canonical(Parse(data).value)
  {
    hide ParseIfd, TreeOf, Canonical, DirOk, ParseHeader;
    var tiff := TiffOf(data);
    var (order, off) := ParseHeader(tiff).value;
    ParsedOk(tiff, off, order);
    var (raw, next) := ParseIfd(tiff, off, order).value;
    TreeOfCanonical(tiff, HasPrefix(data), order, raw, next);
  }

  /**
   For every blob that parses and whose projected length fits 32 bits: the rewritten blob parses, to
   the same tree with sorted directories, and rewriting that gives the same bytes.
   */
  lemma RewriteIsFixpoint(data: seq<Byte>)
    requires Parse(data).Some? && SerializedLen(Parse(data).value) <= U32_MAX
    ensures var x := Parse(data).value;
            && Parse(ToBytes(x)).Some?
            && SameTree(x, Parse(ToBytes(x)).value)
            && ToBytes(Parse(ToBytes(x)).value) == ToBytes(x)
  {
    hide Parse, ToBytes, Canonical, SameTree, PlanOf;
    ParseIsCanonical(data);
    RoundTrip(Parse(data).value);
    CanonicalFixpoint(Parse(data).value);
  }
}
