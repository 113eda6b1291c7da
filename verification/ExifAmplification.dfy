/**
 The amplification guard of retain (src/exif.rs) never refuses an honest blob. When the header, the
 entry tables, the out-of-line values (one per alias group of a directory) and the thumbnail of a blob
 occupy disjoint ranges, a prune grows by no more than the padding of odd values and, where a table
 has no room for a next link behind it, the four bytes of that link.
 */
module ExifAmplification {
  import opened Words
  import opened Bytes
  import opened Ranges
  import opened ExifEntries
  import opened ExifLayout
  import opened ExifModel
  import opened ExifReparse
  import opened ExifRoundTrip
  import opened ExifFixpoint
  import opened ExifCanonical
  import opened ExifPolicy
  import opened ExifPruning
  import opened ExifRetention

  // ----- what a blob is made of -----

  /** How many descriptors of the table at `off` lie in the blob. */
  function TableCount(tiff: seq<Byte>, off: nat, order: ByteOrder): nat {
    if Rd16(tiff, off, order).None? then 0
    else
      var room: nat := (|tiff| - off - 2) / 12;
      if Rd16(tiff, off, order).value <= room then Rd16(tiff, off, order).value else room
  }

  /** How many bytes behind each table count as its own: none, or those of the next link. */
  type LinkLen = n: nat | n <= LINK_SIZE

  const LINK_SIZE := 4

  /** The count, the descriptors that were read, and `link` bytes behind them. */
  function TableRange(tiff: seq<Byte>, off: nat, order: ByteOrder, link: LinkLen): Range {
    Range(off, off + 2 + 12 * TableCount(tiff, off, order) + link)
  }

  function ValueRange(e: Entry): Range {
    if e.origin.Source? then Range(e.origin.offset, e.origin.offset + |e.value|) else Range(0, |e.value|)
  }

  /** The out-of-line values of a directory, exact aliases once. */
  function Values(s: Dir): seq<Range> {
    if s == [] then []
    else
      var init, last := s[..|s| - 1], s[|s| - 1];
      Values(init) + (if StartsGroup(init, last) then [ValueRange(last)] else [])
  }

  /** How many of them have an odd length: each is written with a byte of padding. */
  function OddGroups(s: Dir): nat {
    if s == [] then 0
    else
      var init, last := s[..|s| - 1], s[|s| - 1];
      OddGroups(init) + (if StartsGroup(init, last) then |last.value| % 2 else 0)
  }

  function OptOdd(d: Option<Dir>): nat {
    if d.Some? then OddGroups(d.value) else 0
  }

  /** The padding a rewrite of the whole tree needs. */
  function Padding(x: Tree): nat {
    OddGroups(x.ifd0) + OptOdd(x.exif) + OptOdd(x.interop) + OptOdd(x.gps) + OptOdd(x.ifd1)
  }

  function Directories(x: Tree): nat {
    1 + Count(x.exif) + Count(x.interop) + Count(x.gps) + Count(x.ifd1)
  }

  function DirRegions(tiff: seq<Byte>, off: nat, d: Dir, order: ByteOrder, link: LinkLen): seq<Range> {
    [TableRange(tiff, off, order, link)] + Values(d)
  }

  function OptRegions(tiff: seq<Byte>, at: Option<U32>, d: Option<Dir>, order: ByteOrder, link: LinkLen): seq<Range> {
    if at.Some? && d.Some? then DirRegions(tiff, at.value, d.value, order, link) else []
  }

  /** Where the directories of a parsed blob were read from. */
  datatype Sources = Sources(ifd0: U32, exif: Option<U32>, interop: Option<U32>, gps: Option<U32>, ifd1: Option<U32>,
                             thumb: Option<Range>)

  function SourcesOf(tiff: seq<Byte>, order: ByteOrder, off: U32, raw: Dir, next: U32): Sources {
    var (exifAt, rest) := TakeAll(raw, TAG_EXIF_IFD, order);
    var inner := SubIfd(tiff, exifAt, order);
    Sources(off, exifAt,
            if inner.Some? then TakeAll(inner.value, TAG_INTEROP_IFD, order).0 else None,
            TakeAll(rest, TAG_GPS_IFD, order).0,
            if next == 0 then None else Some(next),
            ThumbSource(tiff, next, order))
  }

  function ThumbSource(tiff: seq<Byte>, next: U32, order: ByteOrder): Option<Range> {
    if next == 0 || ParseIfd(tiff, next, order).None? then None
    else
      var entries := ParseIfd(tiff, next, order).value.0;
      var off :- ReadFirstUint(entries, TAG_THUMB_OFFSET, order);
      var len :- ReadFirstUint(entries, TAG_THUMB_LENGTH, order);
      if off + len <= |tiff| then Some(Range(off, off + len)) else None
  }

  /** Every range of the blob that the tree was read from. */
  function Regions(tiff: seq<Byte>, x: Tree, s: Sources, link: LinkLen): seq<Range> {
    [Range(0, HEADER_SIZE)]
    + (DirRegions(tiff, s.ifd0, x.ifd0, x.order, link)
       + (OptRegions(tiff, s.exif, x.exif, x.order, link)
          + (OptRegions(tiff, s.interop, x.interop, x.order, link)
             + (OptRegions(tiff, s.gps, x.gps, x.order, link)
                + (OptRegions(tiff, s.ifd1, x.ifd1, x.order, link)
                   + (if s.thumb.Some? then [s.thumb.value] else []))))))
  }

  function RegionsOf(data: seq<Byte>, link: LinkLen): seq<Range>
    requires Parse(data).Some?
  {
    var tiff := TiffOf(data);
    var (order, off) := ParseHeader(tiff).value;
    var (raw, next) := ParseIfd(tiff, off, order).value;
    Regions(tiff, Parse(data).value, SourcesOf(tiff, order, off, raw, next), link)
  }

  /** The blob parses, and what it was read from does not overlap. */
  ghost predicate Faithful(data: seq<Byte>) {
    Parse(data).Some? && PairwiseDisjoint(RegionsOf(data, 0))
  }

  ghost predicate InBlob(tiff: seq<Byte>, rs: seq<Range>) {
    forall k :: 0 <= k < |rs| ==> rs[k].end <= |tiff|
  }

  /** The same, with `link` bytes behind every table that are the table's own. */
  ghost predicate Spread(data: seq<Byte>, link: LinkLen) {
    Parse(data).Some? && PairwiseDisjoint(RegionsOf(data, link)) && InBlob(TiffOf(data), RegionsOf(data, link))
  }

  // ----- counting -----

  lemma {:induction false} TotalLenConcat(a: seq<Range>, b: seq<Range>)
    ensures TotalLen(a + b) == TotalLen(a) + TotalLen(b)
  {
    if a == [] {
      assert a + b == b;
    } else {
      TotalLenConcat(a[1..], b);
      assert (a + b)[1..] == a[1..] + b;
    }
  }

  lemma OneLen(r: Range)
    ensures TotalLen([r]) == r.Len()
  {
  }

  /** Out-of-line values are at least five bytes, and only those of an odd length are padded. */
  lemma {:induction false} ValuesCount(s: Dir)
    ensures OddGroups(s) <= |s| && 5 * OddGroups(s) <= TotalLen(Values(s))
    ensures ExtSize(s) == TotalLen(Values(s)) + OddGroups(s)
  {
    if s != [] {
      hide Aliases;
      var init, last := s[..|s| - 1], s[|s| - 1];
      ValuesCount(init);
      TotalLenConcat(Values(init), if StartsGroup(init, last) then [ValueRange(last)] else []);
      OneLen(ValueRange(last));
    }
  }

  /** A directory written from part of one that was read, against the ranges it was read from. */
  lemma DirBound(tiff: seq<Byte>, off: nat, order: ByteOrder, link: LinkLen, d: Dir, part: Dir, pointers: nat)
    requires |part| + pointers <= TableCount(tiff, off, order) && Aliases(part) <= Aliases(d)
    ensures BlockLen(part, pointers) <= TotalLen(DirRegions(tiff, off, d, order, link)) + OddGroups(d) + LINK_SIZE - link
  {
    hide TableCount, Aliases, Values, ExtSize, TotalLen;
    ValuesCount(d);
    ExtSizeMonotone(part, d);
    TotalLenConcat([TableRange(tiff, off, order, link)], Values(d));
    OneLen(TableRange(tiff, off, order, link));
  }

  /** A value of odd length stands for seventeen bytes: its descriptor and at least five of its own. */
  lemma OddBound(tiff: seq<Byte>, off: nat, order: ByteOrder, link: LinkLen, d: Dir)
    requires |d| <= TableCount(tiff, off, order)
    ensures 17 * OddGroups(d) <= TotalLen(DirRegions(tiff, off, d, order, link))
  {
    hide TableCount, Values, ExtSize, TotalLen, OddGroups;
    ValuesCount(d);
    TotalLenConcat([TableRange(tiff, off, order, link)], Values(d));
    OneLen(TableRange(tiff, off, order, link));
  }

  /** A written directory comes from one that was read, at `at`. */
  ghost predicate Covered(tiff: seq<Byte>, at: Option<U32>, order: ByteOrder, d: Option<Dir>, part: Option<Dir>, pointers: nat) {
    part.Some? ==>
      && d.Some? && at.Some?
      && |part.value| + pointers <= TableCount(tiff, at.value, order)
      && Aliases(part.value) <= Aliases(d.value)
  }

  lemma OptBound(tiff: seq<Byte>, at: Option<U32>, order: ByteOrder, link: LinkLen, d: Option<Dir>, part: Option<Dir>,
                 pointers: nat)
    requires Covered(tiff, at, order, d, part, pointers)
    ensures OptLen(part, pointers) <= TotalLen(OptRegions(tiff, at, d, order, link)) + OptOdd(d) + (LINK_SIZE - link) * Count(d)
  {
    hide DirRegions, BlockLen, TotalLen, Aliases, TableCount, OddGroups;
    if part.Some? {
      DirBound(tiff, at.value, order, link, d.value, part.value, pointers);
    }
  }

  lemma OptOddBound(tiff: seq<Byte>, at: Option<U32>, order: ByteOrder, link: LinkLen, d: Option<Dir>, pointers: nat)
    requires ReadAt(tiff, at, order, d, pointers)
    ensures 17 * OptOdd(d) <= TotalLen(OptRegions(tiff, at, d, order, link))
  {
    hide DirRegions, TotalLen, TableCount, TableRange, OddGroups, Sliced;
    if d.Some? {
      OddBound(tiff, at.value, order, link, d.value);
    }
  }

  lemma RegionsTotal(tiff: seq<Byte>, x: Tree, s: Sources, link: LinkLen)
    ensures TotalLen(Regions(tiff, x, s, link))
         == HEADER_SIZE + TotalLen(DirRegions(tiff, s.ifd0, x.ifd0, x.order, link))
            + TotalLen(OptRegions(tiff, s.exif, x.exif, x.order, link))
            + TotalLen(OptRegions(tiff, s.interop, x.interop, x.order, link))
            + TotalLen(OptRegions(tiff, s.gps, x.gps, x.order, link))
            + TotalLen(OptRegions(tiff, s.ifd1, x.ifd1, x.order, link))
            + (if s.thumb.Some? then s.thumb.value.Len() else 0)
  {
    hide DirRegions, OptRegions, TotalLen;
    var a := DirRegions(tiff, s.ifd0, x.ifd0, x.order, link);
    var b := OptRegions(tiff, s.exif, x.exif, x.order, link);
    var c := OptRegions(tiff, s.interop, x.interop, x.order, link);
    var d := OptRegions(tiff, s.gps, x.gps, x.order, link);
    var e := OptRegions(tiff, s.ifd1, x.ifd1, x.order, link);
    var f := if s.thumb.Some? then [s.thumb.value] else [];
    TotalLenConcat([Range(0, HEADER_SIZE)], a + (b + (c + (d + (e + f)))));
    TotalLenConcat(a, b + (c + (d + (e + f))));
    TotalLenConcat(b, c + (d + (e + f)));
    TotalLenConcat(c, d + (e + f));
    TotalLenConcat(d, e + f);
    TotalLenConcat(e, f);
    OneLen(Range(0, HEADER_SIZE));
    if s.thumb.Some? {
      OneLen(s.thumb.value);
    } else {
      NoLen();
    }
  }

  lemma NoLen()
    ensures TotalLen([]) == 0
  {
  }

  // ----- what was read lies in the blob -----

  lemma {:induction false} ParsedCount(tiff: seq<Byte>, start: nat, n: nat, room: nat, order: ByteOrder)
    requires start + 12 * room <= |tiff| < start + 12 * room + 12
    ensures |ParsedEntries(tiff, start, n, order)| <= if n <= room then n else room
  {
    if n > 0 {
      hide ResolveEntry;
      ParsedCount(tiff, start, n - 1, room, order);
    }
  }

  lemma TableHolds(tiff: seq<Byte>, off: nat, order: ByteOrder)
    requires ParseIfd(tiff, off, order).Some?
    ensures |ParseIfd(tiff, off, order).value.0| <= TableCount(tiff, off, order)
    ensures TableRange(tiff, off, order, 0).end <= |tiff|
  {
    hide ParsedEntries;
    var room: nat := (|tiff| - off - 2) / 12;
    ParsedCount(tiff, off + 2, Rd16(tiff, off, order).value, room, order);
  }

  ghost predicate Sliced(tiff: seq<Byte>, d: Dir) {
    forall e :: e in d ==> Slice(tiff, e)
  }

  lemma {:induction false} ValuesInBlob(tiff: seq<Byte>, d: Dir)
    requires Sliced(tiff, d)
    ensures InBlob(tiff, Values(d))
  {
    if d != [] {
      hide Aliases;
      var init, last := d[..|d| - 1], d[|d| - 1];
      assert d == init + [last];
      ValuesInBlob(tiff, init);
      assert Slice(tiff, last);
    }
  }

  lemma InBlobConcat(tiff: seq<Byte>, a: seq<Range>, b: seq<Range>)
    requires InBlob(tiff, a) && InBlob(tiff, b)
    ensures InBlob(tiff, a + b)
  {
  }

  lemma OptInBlob(tiff: seq<Byte>, at: Option<U32>, d: Option<Dir>, order: ByteOrder)
    requires at.Some? && d.Some? ==> Sliced(tiff, d.value) && TableRange(tiff, at.value, order, 0).end <= |tiff|
    ensures InBlob(tiff, OptRegions(tiff, at, d, order, 0))
  {
    hide Values, TableRange, Slice;
    if at.Some? && d.Some? {
      ValuesInBlob(tiff, d.value);
      InBlobConcat(tiff, [TableRange(tiff, at.value, order, 0)], Values(d.value));
    }
  }

  /** A directory read at `at`: slices of the blob, no more of them than descriptors. */
  ghost predicate ReadAt(tiff: seq<Byte>, at: Option<U32>, order: ByteOrder, d: Option<Dir>, pointers: nat) {
    d.Some? ==>
      && at.Some? && Sliced(tiff, d.value)
      && |d.value| + pointers <= TableCount(tiff, at.value, order)
      && TableRange(tiff, at.value, order, 0).end <= |tiff|
  }

  ghost predicate TreeReadAt(tiff: seq<Byte>, x: Tree, s: Sources) {
    && ReadAt(tiff, Some(s.ifd0), x.order, Some(x.ifd0), Count(x.exif) + Count(x.gps))
    && ReadAt(tiff, s.exif, x.order, x.exif, Count(x.interop))
    && ReadAt(tiff, s.interop, x.order, x.interop, 0)
    && ReadAt(tiff, s.gps, x.order, x.gps, 0)
    && ReadAt(tiff, s.ifd1, x.order, x.ifd1, 2 * Count(x.thumbnail))
    && (x.thumbnail.Some? <==> s.thumb.Some?)
    && (x.thumbnail.Some? ==> s.thumb.value.Len() == |x.thumbnail.value| && s.thumb.value.end <= |tiff|)
  }

  lemma IfdSliced(tiff: seq<Byte>, off: nat, order: ByteOrder)
    requires ParseIfd(tiff, off, order).Some?
    ensures Sliced(tiff, ParseIfd(tiff, off, order).value.0)
  {
    hide ParsedEntries, Slice, WellFormed;
    EntriesOk(tiff, off + 2, Rd16(tiff, off, order).value, order);
  }

  lemma SubIfdReadAt(tiff: seq<Byte>, at: Option<U32>, order: ByteOrder)
    ensures ReadAt(tiff, at, order, SubIfd(tiff, at, order), 0)
  {
    hide ParseIfd, Sliced, TableCount, TableRange;
    if SubIfd(tiff, at, order).Some? {
      IfdSliced(tiff, at.value, order);
      TableHolds(tiff, at.value, order);
    }
  }

  lemma FilterSliced(tiff: seq<Byte>, d: Dir, p: Entry -> bool)
    requires Sliced(tiff, d)
    ensures Sliced(tiff, Filter(p, d))
  {
    hide Filter, Slice;
  }

  lemma TakeAllShrinks(tiff: seq<Byte>, d: Dir, tag: U16, order: ByteOrder)
    requires Sliced(tiff, d)
    ensures var (at, rest) := TakeAll(d, tag, order);
            Sliced(tiff, rest) && |rest| + Count(at) <= |d|
  {
    hide TakeAll, Sliced, Filter;
    TakeAllMeans(d, tag, order);
    if TakeAll(d, tag, order).0.Some? {
      FilterShorter(NotTag(tag), d, First(d, tag).value);
      FilterSliced(tiff, d, NotTag(tag));
    }
  }

  lemma ExifReadAt(tiff: seq<Byte>, exifAt: Option<U32>, order: ByteOrder)
    ensures var (exif, interop) := ExifDirs(tiff, exifAt, order);
            var inner := SubIfd(tiff, exifAt, order);
            var interopAt := if inner.Some? then TakeAll(inner.value, TAG_INTEROP_IFD, order).0 else None;
            ReadAt(tiff, exifAt, order, exif, Count(interop)) && ReadAt(tiff, interopAt, order, interop, 0)
  {
    hide SubIfd, TakeAll, Sliced, TableCount, TableRange;
    var inner := SubIfd(tiff, exifAt, order);
    SubIfdReadAt(tiff, exifAt, order);
    if inner.Some? {
      TakeAllShrinks(tiff, inner.value, TAG_INTEROP_IFD, order);
      var interopAt := TakeAll(inner.value, TAG_INTEROP_IFD, order).0;
      SubIfdReadAt(tiff, interopAt, order);
      if interopAt.None? {
        NoSubIfd(tiff, order);
      }
    }
  }

  lemma ThumbReadAt(tiff: seq<Byte>, next: U32, order: ByteOrder)
    ensures var (ifd1, thumbnail) := ThumbDir(tiff, next, order);
            var source := ThumbSource(tiff, next, order);
            && ReadAt(tiff, if next == 0 then None else Some(next), order, ifd1, 2 * Count(thumbnail))
            && (thumbnail.Some? <==> source.Some?)
            && (thumbnail.Some? ==> source.value.Len() == |thumbnail.value| && source.value.end <= |tiff|)
  {
    hide ParseIfd, Sliced, TableCount, TableRange, Filter, First, ReadUint;
    if next != 0 && ParseIfd(tiff, next, order).Some? {
      var entries := ParseIfd(tiff, next, order).value.0;
      IfdSliced(tiff, next, order);
      TableHolds(tiff, next, order);
      var once := WithoutTag(entries, TAG_THUMB_OFFSET);
      FilterSliced(tiff, entries, NotTag(TAG_THUMB_OFFSET));
      FilterSliced(tiff, once, NotTag(TAG_THUMB_LENGTH));
      if Thumbnail(tiff, entries, order).Some? {
        FilterShorter(NotTag(TAG_THUMB_OFFSET), entries, First(entries, TAG_THUMB_OFFSET).value);
        assert First(entries, TAG_THUMB_LENGTH).value in once;
        FilterShorter(NotTag(TAG_THUMB_LENGTH), once, First(entries, TAG_THUMB_LENGTH).value);
      }
    }
  }

  lemma Ifd0ReadAt(tiff: seq<Byte>, off: U32, order: ByteOrder, raw: Dir)
    requires ParseIfd(tiff, off, order).Some? && ParseIfd(tiff, off, order).value.0 == raw
    ensures var (exifAt, rest) := TakeAll(raw, TAG_EXIF_IFD, order);
            var (gpsAt, ifd0) := TakeAll(rest, TAG_GPS_IFD, order);
            ReadAt(tiff, Some(off), order, Some(ifd0), Count(exifAt) + Count(gpsAt))
  {
    hide ParseIfd, TakeAll, Sliced, TableCount, TableRange;
    IfdSliced(tiff, off, order);
    TableHolds(tiff, off, order);
    TakeAllShrinks(tiff, raw, TAG_EXIF_IFD, order);
    TakeAllShrinks(tiff, TakeAll(raw, TAG_EXIF_IFD, order).1, TAG_GPS_IFD, order);
  }

  lemma SubIfdNeedsOffset(tiff: seq<Byte>, at: Option<U32>, order: ByteOrder)
    ensures SubIfd(tiff, at, order).Some? ==> at.Some?
    ensures ExifDirs(tiff, at, order).0.Some? ==> at.Some?
  {
  }

  lemma TreeOfReadAt(tiff: seq<Byte>, hadPrefix: bool, order: ByteOrder, off: U32, raw: Dir, next: U32)
    requires ParseIfd(tiff, off, order) == Some((raw, next))
    ensures TreeReadAt(tiff, TreeOf(tiff, hadPrefix, order, raw, next), SourcesOf(tiff, order, off, raw, next))
  {
    hide ParseIfd, TakeAll, Sliced, TableCount, TableRange, SubIfd, ExifDirs, ThumbDir, ThumbSource;
    var (exifAt, rest) := TakeAll(raw, TAG_EXIF_IFD, order);
    var (gpsAt, ifd0) := TakeAll(rest, TAG_GPS_IFD, order);
    Ifd0ReadAt(tiff, off, order, raw);
    ExifReadAt(tiff, exifAt, order);
    SubIfdReadAt(tiff, gpsAt, order);
    SubIfdNeedsOffset(tiff, exifAt, order);
    SubIfdNeedsOffset(tiff, gpsAt, order);
    ThumbReadAt(tiff, next, order);
  }

  // ----- a prune is part of what was read -----

  ghost predicate PartOpt(d: Option<Dir>, part: Option<Dir>) {
    part.Some? ==> d.Some? && |part.value| <= |d.value| && Aliases(part.value) <= Aliases(d.value)
  }

  ghost predicate PartTree(x: Tree, y: Tree) {
    && x.order == y.order && x.hadPrefix == y.hadPrefix
    && |y.ifd0| <= |x.ifd0| && Aliases(y.ifd0) <= Aliases(x.ifd0)
    && PartOpt(x.exif, y.exif) && PartOpt(x.interop, y.interop) && PartOpt(x.gps, y.gps) && PartOpt(x.ifd1, y.ifd1)
    && (y.thumbnail.Some? ==> y.thumbnail == x.thumbnail)
  }

  lemma FilterPart(p: Entry -> bool, s: Dir)
    ensures |Filter(p, s)| <= |s| && Aliases(Filter(p, s)) <= Aliases(s)
  {
    hide Filter;
  }

  lemma FilteredIsPart(x: Tree, policy: Policy)
    ensures PartTree(x, Filtered(x, policy))
  {
    hide Filter, Keeper, InteropKeeper, Aliases;
    var plain, inner := Keeper(policy, x.order, false), Keeper(policy, x.order, true);
    FilterPart(plain, x.ifd0);
    if x.exif.Some? {
      FilterPart(inner, x.exif.value);
    }
    if x.interop.Some? {
      FilterPart(InteropKeeper(), x.interop.value);
    }
    if x.ifd1.Some? {
      FilterPart(plain, x.ifd1.value);
    }
  }

  lemma ReplacePart(s: Dir, r: Entry)
    requires HasTag(s, r.tag) && !r.External()
    ensures |Replace(s, r)| == |s| && Aliases(Replace(s, r)) <= Aliases(s)
  {
    hide FirstIndex;
    ReplaceMembers(s, r);
  }

  lemma EditedIsPart(x: Tree, y: Tree, o: Orientation)
    requires PartTree(x, y)
    ensures PartTree(x, SetOrientationTag(y, o))
  {
    hide Aliases, Replace, Reauthored, First;
    var first := First(y.ifd0, TAG_ORIENTATION);
    if first.Some? && Reauthored(first.value, o, y.order).Some? {
      FirstMember(y.ifd0, TAG_ORIENTATION);
      ReauthoredMeans(first.value, o, y.order);
      ReplacePart(y.ifd0, Reauthored(first.value, o, y.order).value);
    }
  }

  lemma PrunedIsPart(x: Tree, policy: Policy, want: Option<Orientation>)
    ensures PartTree(x, Pruned(x, policy, want))
  {
    hide PartTree, Filtered, SetOrientationTag;
    FilteredIsPart(x, policy);
    if want.Some? {
      EditedIsPart(x, Filtered(x, policy), want.value);
    }
  }

  lemma CoveredPart(tiff: seq<Byte>, at: Option<U32>, order: ByteOrder, d: Option<Dir>, part: Option<Dir>,
                    n: nat, pointers: nat)
    requires ReadAt(tiff, at, order, d, n) && PartOpt(d, part) && pointers <= n
    ensures Covered(tiff, at, order, d, part, pointers)
  {
    hide TableCount, Aliases, Sliced;
  }

  ghost predicate CoveredTree(tiff: seq<Byte>, x: Tree, y: Tree, s: Sources) {
    && Covered(tiff, Some(s.ifd0), x.order, Some(x.ifd0), Some(y.ifd0), Count(y.exif) + Count(y.gps))
    && Covered(tiff, s.exif, x.order, x.exif, y.exif, Count(WrittenInterop(y)))
    && Covered(tiff, s.interop, x.order, x.interop, WrittenInterop(y), 0)
    && Covered(tiff, s.gps, x.order, x.gps, y.gps, 0)
    && Covered(tiff, s.ifd1, x.order, x.ifd1, y.ifd1, 2 * Count(y.thumbnail))
    && |ThumbBytes(y)| <= if s.thumb.Some? then s.thumb.value.Len() else 0
  }

  lemma PartCovered(tiff: seq<Byte>, x: Tree, y: Tree, s: Sources)
    requires TreeReadAt(tiff, x, s) && PartTree(x, y)
    ensures CoveredTree(tiff, x, y, s)
  {
    hide ReadAt, PartOpt, Covered, Aliases;
    CountsShrink(x, y);
    CoveredPart(tiff, Some(s.ifd0), x.order, Some(x.ifd0), Some(y.ifd0), Count(x.exif) + Count(x.gps), Count(y.exif) + Count(y.gps));
    CoveredPart(tiff, s.exif, x.order, x.exif, y.exif, Count(x.interop), Count(WrittenInterop(y)));
    CoveredPart(tiff, s.interop, x.order, x.interop, WrittenInterop(y), 0, 0);
    CoveredPart(tiff, s.gps, x.order, x.gps, y.gps, 0, 0);
    CoveredPart(tiff, s.ifd1, x.order, x.ifd1, y.ifd1, 2 * Count(x.thumbnail), 2 * Count(y.thumbnail));
  }

  /** What a part of a parsed tree serializes to, against the ranges the tree was read from. */
  lemma PartBound(tiff: seq<Byte>, x: Tree, y: Tree, s: Sources, link: LinkLen)
    requires CoveredTree(tiff, x, y, s)
    ensures PlanOf(y).end <= TotalLen(Regions(tiff, x, s, link)) + Padding(x) + (LINK_SIZE - link) * Directories(x)
  {
    hide Covered, BlockLen, DirRegions, OptRegions, Regions, TotalLen, OptOdd, Count, ThumbBytes, OptLen;
    OptBound(tiff, Some(s.ifd0), x.order, link, Some(x.ifd0), Some(y.ifd0), Count(y.exif) + Count(y.gps));
    OptBound(tiff, s.exif, x.order, link, x.exif, y.exif, Count(WrittenInterop(y)));
    OptBound(tiff, s.interop, x.order, link, x.interop, WrittenInterop(y), 0);
    OptBound(tiff, s.gps, x.order, link, x.gps, y.gps, 0);
    OptBound(tiff, s.ifd1, x.order, link, x.ifd1, y.ifd1, 2 * Count(y.thumbnail));
    RegionsTotal(tiff, x, s, link);
    Ifd0IsOpt(tiff, s.ifd0, x.ifd0, x.order, link, y.ifd0, Count(y.exif) + Count(y.gps));
    Distribute(LINK_SIZE - link, Count(x.exif), Count(x.interop), Count(x.gps), Count(x.ifd1));
  }

  lemma Ifd0IsOpt(tiff: seq<Byte>, at: U32, d: Dir, order: ByteOrder, link: LinkLen, part: Dir, pointers: nat)
    ensures OptRegions(tiff, Some(at), Some(d), order, link) == DirRegions(tiff, at, d, order, link)
    ensures OptLen(Some(part), pointers) == BlockLen(part, pointers)
    ensures OptOdd(Some(d)) == OddGroups(d) && Count(Some(d)) == 1
  {
    hide DirRegions, BlockLen, OddGroups;
  }

  lemma Distribute(n: nat, a: nat, b: nat, c: nat, d: nat)
    ensures n * (1 + a + b + c + d) == n + n * a + n * b + n * c + n * d
  {
  }

  lemma PaddingBound(tiff: seq<Byte>, x: Tree, s: Sources, link: LinkLen)
    requires TreeReadAt(tiff, x, s)
    ensures 17 * Padding(x) <= TotalLen(Regions(tiff, x, s, link))
  {
    hide ReadAt, DirRegions, Regions, TotalLen, OddGroups;
    OptOddBound(tiff, Some(s.ifd0), x.order, link, Some(x.ifd0), Count(x.exif) + Count(x.gps));
    OptOddBound(tiff, s.exif, x.order, link, x.exif, Count(x.interop));
    OptOddBound(tiff, s.interop, x.order, link, x.interop, 0);
    OptOddBound(tiff, s.gps, x.order, link, x.gps, 0);
    OptOddBound(tiff, s.ifd1, x.order, link, x.ifd1, 2 * Count(x.thumbnail));
    RegionsTotal(tiff, x, s, link);
  }

  lemma CountsShrink(x: Tree, y: Tree)
    requires PartTree(x, y)
    ensures Count(y.exif) <= Count(x.exif) && Count(y.gps) <= Count(x.gps)
    ensures Count(WrittenInterop(y)) <= Count(x.interop) && Count(y.thumbnail) <= Count(x.thumbnail)
    ensures PartOpt(x.interop, WrittenInterop(y)) && PartOpt(Some(x.ifd0), Some(y.ifd0))
  {
    hide Aliases;
  }

  // ----- the guard -----

  lemma RegionsInBlob(tiff: seq<Byte>, x: Tree, s: Sources)
    requires TreeReadAt(tiff, x, s) && |tiff| >= HEADER_SIZE
    ensures InBlob(tiff, Regions(tiff, x, s, 0))
  {
    hide DirRegions, Sliced, TableCount, TableRange, InBlob;
    OptInBlob(tiff, Some(s.ifd0), Some(x.ifd0), x.order);
    OptInBlob(tiff, s.exif, x.exif, x.order);
    OptInBlob(tiff, s.interop, x.interop, x.order);
    OptInBlob(tiff, s.gps, x.gps, x.order);
    OptInBlob(tiff, s.ifd1, x.ifd1, x.order);
    var f := if s.thumb.Some? then [s.thumb.value] else [];
    OneInBlob(tiff, Range(0, HEADER_SIZE));
    if s.thumb.Some? {
      OneInBlob(tiff, s.thumb.value);
    } else {
      NoneInBlob(tiff);
    }
    var e := OptRegions(tiff, s.ifd1, x.ifd1, x.order, 0);
    InBlobConcat(tiff, e, f);
    var d := OptRegions(tiff, s.gps, x.gps, x.order, 0);
    InBlobConcat(tiff, d, e + f);
    var c := OptRegions(tiff, s.interop, x.interop, x.order, 0);
    InBlobConcat(tiff, c, d + (e + f));
    var b := OptRegions(tiff, s.exif, x.exif, x.order, 0);
    InBlobConcat(tiff, b, c + (d + (e + f)));
    InBlobConcat(tiff, DirRegions(tiff, s.ifd0, x.ifd0, x.order, 0), b + (c + (d + (e + f))));
    InBlobConcat(tiff, [Range(0, HEADER_SIZE)],
                 DirRegions(tiff, s.ifd0, x.ifd0, x.order, 0) + (b + (c + (d + (e + f)))));
  }

  lemma OneInBlob(tiff: seq<Byte>, r: Range)
    requires r.end <= |tiff|
    ensures InBlob(tiff, [r])
  {
  }

  lemma NoneInBlob(tiff: seq<Byte>)
    ensures InBlob(tiff, [])
  {
  }

  lemma DisjointTotal(tiff: seq<Byte>, rs: seq<Range>)
    requires PairwiseDisjoint(rs) && InBlob(tiff, rs)
    ensures TotalLen(rs) <= |tiff|
  {
    hide TotalLen, PairwiseDisjoint;
    DisjointInSpan(rs, Range(0, |tiff|));
  }

  /** Disjoint ranges leave no room for the blob to grow, but for padding and links. */
  lemma SpreadPruneBound(data: seq<Byte>, policy: Policy, want: Option<Orientation>, link: LinkLen)
    requires Spread(data, link)
    ensures var x := Parse(data).value;
            && SerializedLen(Pruned(x, policy, want)) <= |data| + Padding(x) + (LINK_SIZE - link) * Directories(x)
            && 17 * Padding(x) <= |data|
  {
    hide Regions, TreeOf, SourcesOf, ParseIfd, TreeReadAt, PartTree, CoveredTree, Pruned, PairwiseDisjoint, TotalLen, PlanOf,
      InBlob, ParseHeader, Padding, Directories;
    var tiff := TiffOf(data);
    var x := Parse(data).value;
    var (order, off) := ParseHeader(tiff).value;
    var (raw, next) := ParseIfd(tiff, off, order).value;
    var s := SourcesOf(tiff, order, off, raw, next);
    TreeOfReadAt(tiff, HasPrefix(data), order, off, raw, next);
    DisjointTotal(tiff, Regions(tiff, x, s, link));
    PrunedIsPart(x, policy, want);
    var y := Pruned(x, policy, want);
    PartCovered(tiff, x, y, s);
    PartBound(tiff, x, y, s, link);
    PaddingBound(tiff, x, s, link);
    PrunedPrefix(data, x, y);
  }

  lemma FaithfulIsSpread(data: seq<Byte>)
    requires Faithful(data)
    ensures Spread(data, 0)
  {
    hide Regions, TreeOf, SourcesOf, ParseIfd, TreeReadAt, PairwiseDisjoint, InBlob, ParseHeader;
    var tiff := TiffOf(data);
    var (order, off) := ParseHeader(tiff).value;
    var (raw, next) := ParseIfd(tiff, off, order).value;
    TreeOfReadAt(tiff, HasPrefix(data), order, off, raw, next);
    RegionsInBlob(tiff, Parse(data).value, SourcesOf(tiff, order, off, raw, next));
  }

  /**
   A blob that does not overlap itself prunes to at most itself, the padding of its odd values, and four
   bytes for each directory: in numbers, a seventeenth more and twenty bytes.
   */
  lemma FaithfulPruneIsSmall(data: seq<Byte>, policy: Policy, want: Option<Orientation>)
    requires Faithful(data)
    ensures var x := Parse(data).value;
            SerializedLen(Pruned(x, policy, want)) <= |data| + Padding(x) + LINK_SIZE * Directories(x)
    ensures SerializedLen(Pruned(Parse(data).value, policy, want)) <= |data| + |data| / 17 + 20
  {
    hide Faithful, Spread, Parse, Pruned, SerializedLen, Padding;
    FaithfulIsSpread(data);
    SpreadPruneBound(data, policy, want, 0);
  }

  /** Where every table has its own next link behind it, only padding is added. */
  lemma LinkedPruneAddsPadding(data: seq<Byte>, policy: Policy, want: Option<Orientation>)
    requires Spread(data, LINK_SIZE)
    ensures var x := Parse(data).value;
            SerializedLen(Pruned(x, policy, want)) <= |data| + Padding(x)
  {
    hide Spread, Parse, Pruned, SerializedLen, Padding, Directories;
    SpreadPruneBound(data, policy, want, LINK_SIZE);
  }

  // ----- a prune never outgrows the rewrite of what it prunes -----

  lemma PartShrinks(d: Option<Dir>, part: Option<Dir>, n: nat, pointers: nat)
    requires PartOpt(d, part) && pointers <= n
    ensures OptLen(part, pointers) <= OptLen(d, n)
  {
    hide Aliases, ExtSize;
    if part.Some? {
      ExtSizeMonotone(part.value, d.value);
    }
  }

  /** A prune serializes to no more than the tree it prunes, whatever the values share. */
  lemma PruneNeverGrows(x: Tree, policy: Policy, want: Option<Orientation>)
    ensures SerializedLen(Pruned(x, policy, want)) <= SerializedLen(x)
  {
    hide Pruned, PartOpt, Aliases, BlockLen;
    PrunedIsPart(x, policy, want);
    var y := Pruned(x, policy, want);
    CountsShrink(x, y);
    PartShrinks(Some(x.ifd0), Some(y.ifd0), Count(x.exif) + Count(x.gps), Count(y.exif) + Count(y.gps));
    WrittenShrinks(x, y);
    PartShrinks(x.exif, y.exif, Count(WrittenInterop(x)), Count(WrittenInterop(y)));
    PartShrinks(WrittenInterop(x), WrittenInterop(y), 0, 0);
    PartShrinks(x.gps, y.gps, 0, 0);
    PartShrinks(x.ifd1, y.ifd1, 2 * Count(x.thumbnail), 2 * Count(y.thumbnail));
  }

  lemma WrittenShrinks(x: Tree, y: Tree)
    requires PartTree(x, y)
    ensures PartOpt(WrittenInterop(x), WrittenInterop(y)) && Count(WrittenInterop(y)) <= Count(WrittenInterop(x))
  {
    hide Aliases;
  }

  lemma PrunedPrefix(data: seq<Byte>, x: Tree, y: Tree)
    requires Parse(data) == Some(x) && PartTree(x, y)
    ensures |Prefix(y)| + |TiffOf(data)| == |data|
  {
    hide ParseIfd, ExifDirs, SubIfd, ThumbDir, TakeAll, ParseHeader, PartOpt, Aliases;
  }

  /** The guard is for blobs that overlap themselves: up to 3 GiB, an honest one is never dropped. */
  lemma GuardSparesFaithful(src: seq<Byte>, policy: Policy, want: Option<Orientation>)
    requires Faithful(src) && |src| <= 3 * 0x4000_0000
    requires !policy.DiscardsEverything() && !policy.KeepsEverything()
    ensures Retain(src, policy, want).Some? <==> !Empty(Pruned(Parse(src).value, policy, want))
  {
    hide Faithful, Parse, Pruned, ToBytes, SerializedLen;
    FaithfulParses(src);
    FaithfulPruneIsSmall(src, policy, want);
  }

  lemma FaithfulParses(data: seq<Byte>)
    requires Faithful(data)
    ensures Parse(data).Some?
  {
  }

  // ----- a blob that ends with its table -----

  const TABLE_AT_END: seq<Byte> := [73, 73, 42, 0, 8, 0, 0, 0, 1, 0, 0x12, 1, 3, 0, 1, 0, 0, 0, 1, 0, 0, 0]

  /** The one entry of TABLE_AT_END: orientation 1, in its descriptor. */
  const ONLY_ENTRY := Entry(TAG_ORIENTATION, TIFF_SHORT, 1, [1, 0], Source(18))

  const ONLY_TREE := Tree(Little, false, [ONLY_ENTRY], None, None, None, None, None, Ascii)

  lemma TableAtEndHeader()
    ensures ParseHeader(TABLE_AT_END) == Some((Little, HEADER_SIZE))
  {
    var b := TABLE_AT_END;
    assert b[..2] == [73, 73] && b[2..4] == [42, 0] && b[4..8] == [8, 0, 0, 0];
    assert b[4..8][..2] == [8, 0] && b[4..8][2..] == [0, 0];
  }

  lemma TableAtEndTable()
    ensures Rd16(TABLE_AT_END, HEADER_SIZE, Little) == Some(1) && Rd32(TABLE_AT_END, 22, Little).None?
    ensures ResolveEntry(TABLE_AT_END, 10, Little) == Some(ONLY_ENTRY)
  {
    var b := TABLE_AT_END;
    assert b[8..10] == [1, 0] && b[10..12] == [0x12, 1] && b[12..14] == [3, 0] && b[18..20] == [1, 0];
    assert b[14..18] == [1, 0, 0, 0] && b[14..18][..2] == [1, 0] && b[14..18][2..] == [0, 0];
  }

  lemma TableAtEndIsBare()
    ensures TiffOf(TABLE_AT_END) == TABLE_AT_END && !HasPrefix(TABLE_AT_END)
  {
    assert TABLE_AT_END[..|EXIF_PREFIX|][0] != EXIF_PREFIX[0];
  }

  lemma TableAtEndParses()
    ensures ParseIfd(TABLE_AT_END, HEADER_SIZE, Little) == Some(([ONLY_ENTRY], 0))
    ensures Parse(TABLE_AT_END) == Some(ONLY_TREE)
    ensures SourcesOf(TABLE_AT_END, Little, HEADER_SIZE, [ONLY_ENTRY], 0) == Sources(HEADER_SIZE, None, None, None, None, None)
  {
    hide ResolveEntry, ParseHeader, Rd16, Rd32, TiffOf, HasPrefix;
    TableAtEndIsBare();
    TableAtEndHeader();
    TableAtEndTable();
    assert ParsedEntries(TABLE_AT_END, 10, 0, Little) == [];
    assert ParsedEntries(TABLE_AT_END, 10, 1, Little) == [ONLY_ENTRY];
  }

  /**
   Padding is not all that a rewrite adds. This blob has no value to pad and does not overlap itself, and
   every prune that keeps its entry is four bytes longer: the next link for which it has no room.
   */
  lemma TableAtEndGrows(policy: Policy)
    requires policy.orientation && !policy.KeepsEverything()
    ensures Faithful(TABLE_AT_END) && !Spread(TABLE_AT_END, LINK_SIZE) && Padding(Parse(TABLE_AT_END).value) == 0
    ensures Retain(TABLE_AT_END, policy, None).Some?
    ensures |Retain(TABLE_AT_END, policy, None).value| == |TABLE_AT_END| + LINK_SIZE
  {
    hide *;
    TableAtEndFaithful();
    TableAtEndRetained(policy);
  }

  lemma TableAtEndFaithful()
    ensures Faithful(TABLE_AT_END) && !Spread(TABLE_AT_END, LINK_SIZE) && Padding(Parse(TABLE_AT_END).value) == 0
  {
    hide Parse, RegionsOf, TiffOf, Padding;
    TableAtEndIsBare();
    TableAtEndParses();
    TableAtEndRegions(0);
    TableAtEndRegions(LINK_SIZE);
    assert RegionsOf(TABLE_AT_END, LINK_SIZE)[1].end > |TABLE_AT_END|;
    OnlyTreeInline();
  }

  lemma TableAtEndRetained(policy: Policy)
    requires policy.orientation && !policy.KeepsEverything()
    ensures Retain(TABLE_AT_END, policy, None).Some?
    ensures |Retain(TABLE_AT_END, policy, None).value| == |TABLE_AT_END| + LINK_SIZE
  {
    hide Parse, ToBytes, Pruned, SerializedLen;
    TableAtEndParses();
    OnlyTreeKept(policy);
    SerializedLenIsExact(ONLY_TREE);
  }

  /** Header and table, the table up to the end of the blob or `link` bytes beyond. */
  lemma TableAtEndRegions(link: LinkLen)
    ensures Parse(TABLE_AT_END).Some?
    ensures RegionsOf(TABLE_AT_END, link) == [Range(0, HEADER_SIZE), Range(HEADER_SIZE, 22 + link)]
  {
    hide Parse, ParseIfd, ParseHeader, TiffOf, SourcesOf, Rd16;
    TableAtEndIsBare();
    TableAtEndHeader();
    TableAtEndTable();
    TableAtEndParses();
    InlineOnly(ONLY_ENTRY);
  }

  lemma OnlyTreeKept(policy: Policy)
    requires policy.orientation
    ensures Pruned(ONLY_TREE, policy, None) == ONLY_TREE
    ensures SerializedLen(ONLY_TREE) == 26
  {
    assert [1 as Byte, 0][0..2] == [1, 0];
    assert Keep(ONLY_ENTRY, policy, Little, false);
    InlineOnly(ONLY_ENTRY);
  }

  lemma OnlyTreeInline()
    ensures Padding(ONLY_TREE) == 0
  {
    InlineOnly(ONLY_ENTRY);
  }

  lemma InlineOnly(e: Entry)
    requires !e.External()
    ensures Values([e]) == [] && OddGroups([e]) == 0 && ExtSize([e]) == 0
  {
    assert [e][..0] == [];
  }
}
