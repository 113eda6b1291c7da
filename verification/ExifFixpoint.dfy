/**
 The serializer is a canonical fixpoint (src/exif.rs): what it writes for a parsed tree parses to the
 same tree, and writing that tree again gives the same bytes.
 */
module ExifFixpoint {
  import opened Words
  import opened Bytes
  import opened ExifEntries
  import opened ExifLayout
  import opened ExifModel
  import opened ExifReparse
  import opened ExifRoundTrip

  // ----- taking pointers -----

  lemma {:induction false} FilterSame(p: Entry -> bool, q: Entry -> bool, s: Dir)
    requires forall e :: p(e) == q(e)
    ensures Filter(p, s) == Filter(q, s)
  {
    if s != [] {
      FilterSame(p, q, s[..|s| - 1]);
    }
  }

  lemma {:induction false} FilterTwice(p: Entry -> bool, q: Entry -> bool, both: Entry -> bool, s: Dir)
    requires forall e :: both(e) == (p(e) && q(e))
    ensures Filter(q, Filter(p, s)) == Filter(both, s)
  {
    if s != [] {
      hide Filter;
      var init, last := s[..|s| - 1], s[|s| - 1];
      assert s == init + [last];
      FilterTwice(p, q, both, init);
      FilterSnoc(p, init, last);
      FilterSnoc(both, init, last);
      FilterSnoc(q, Filter(p, init), last);
    }
  }

  /** The removed occurrence and the sweep together remove the tag. */
  lemma TakeAllMeans(entries: Dir, tag: U16, order: ByteOrder)
    ensures var (at, rest) := TakeAll(entries, tag, order);
            var first := First(entries, tag);
            && (at.Some? <==> first.Some? && |first.value.value| >= 4)
            && (at.Some? ==> at.value == Dec32(first.value.value[..4], order) && rest == WithoutTag(entries, tag))
            && (at.None? ==> rest == entries)
  {
    hide Filter;
    var i := FirstIndex(entries, tag);
    if i < |entries| {
      var a, e, b := entries[..i], entries[i], entries[i + 1..];
      assert entries == (a + [e]) + b;
      FilterConcat(NotTag(tag), a + [e], b);
      FilterSnoc(NotTag(tag), a, e);
      FilterConcat(NotTag(tag), a, b);
    }
  }

  lemma FirstWithout(s: Dir, dropped: U16, tag: U16)
    requires dropped != tag
    ensures First(WithoutTag(s, dropped), tag) == First(s, tag)
  {
    hide Filter, First;
    FirstOfTagged(s, tag);
    FirstOfTagged(WithoutTag(s, dropped), tag);
    FilterTwice(NotTag(dropped), IsTag(tag), IsTag(tag), s);
  }

  /** Reading a pointer the serializer synthesized. */
  lemma TakeLink(entries: Dir, links: seq<Link>, off: nat, order: ByteOrder, k: nat)
    requires DistinctTags(links) && k < |links| && !HasTag(entries, links[k].tag)
    ensures First(RereadDir(entries, links, off, order), links[k].tag).Some?
    ensures var e := First(RereadDir(entries, links, off, order), links[k].tag).value;
            |e.value| == 4 && Dec32(e.value[..4], order) == ToU32(links[k].target)
            && ReadUint(e, order) == Some(ToU32(links[k].target))
  {
    hide First, RereadDir;
    LinkIsFirst(entries, links, off, order, k);
    var e := First(RereadDir(entries, links, off, order), links[k].tag).value;
    assert e.Content() == Pointer(links[k], order);
    assert e.value[..4] == e.value == e.value[0..4];
    Dec32Enc32(ToU32(links[k].target), order);
  }

  /** A tag that is no usable offset stays where it is. */
  lemma TakeNone(entries: Dir, links: seq<Link>, off: nat, order: ByteOrder, tag: U16)
    requires forall k :: 0 <= k < |links| ==> links[k].tag != tag
    requires Swept(entries, tag, false)
    ensures var first := First(RereadDir(entries, links, off, order), tag);
            first.Some? ==> |first.value.value| < 4
  {
    hide First, RereadDir;
    OtherIsFirst(entries, links, off, order, tag);
  }

  // ----- one directory after another -----

  lemma HeaderReadsBack(tiff: seq<Byte>, order: ByteOrder)
    requires At(tiff, 0, Header(order))
    ensures ParseHeader(tiff) == Some((order, HEADER_SIZE))
  {
    hide Enc16, Enc32, Dec16, Dec32;
    var mark: seq<Byte> := if order.Little? then [73, 73] else [77, 77];
    AtSplit(tiff, 0, mark, Enc16(42, order) + Enc32(HEADER_SIZE, order));
    AtSplit(tiff, 2, Enc16(42, order), Enc32(HEADER_SIZE, order));
    assert tiff[..2] == tiff[0..2] == mark;
    assert OrderOf(tiff) == Some(order) by {
      assert mark[0] == if order.Little? then 73 else 77;
    }
    Rd16At(tiff, 2, 42, order);
    Rd32At(tiff, 4, HEADER_SIZE, order);
  }

  ghost predicate Fits(x: Tree) {
    PlanOf(x).end <= U32_MAX
  }

  function SomeOffset(present: bool, off: nat): Option<U32> {
    if present then Some(ToU32(off)) else None
  }

  function Ifd0Read(x: Tree): Dir {
    RereadDir(x.ifd0, Ifd0Links(x), HEADER_SIZE, x.order)
  }

  lemma Ifd0Parsed(x: Tree, tiff: seq<Byte>)
    requires Ifd0Ok(x) && Fits(x) && Laid(x, tiff)
    ensures ParseIfd(tiff, HEADER_SIZE, x.order) == Some((Ifd0Read(x), NextOf(x)))
  {
    hide DirOk, At, DirBytes, ParseIfd, RereadDir, BlockLen, OptLen;
    DirReadsBack(tiff, x.ifd0, Ifd0Links(x), HEADER_SIZE, NextOf(x), x.order);
  }

  /** The pointers of IFD0 are found, and what is left is the directory that was written. */
  lemma Ifd0Taken(x: Tree)
    requires Ifd0Ok(x)
    ensures var (exifAt, rest) := TakeAll(Ifd0Read(x), TAG_EXIF_IFD, x.order);
            var (gpsAt, ifd0) := TakeAll(rest, TAG_GPS_IFD, x.order);
            && exifAt == SomeOffset(x.exif.Some?, PlanOf(x).exif)
            && gpsAt == SomeOffset(x.gps.Some?, PlanOf(x).gps)
            && SameDir(x.ifd0, ifd0)
  {
    hide TakeAll, RereadDir, PlanOf, SameDir, Filter, First, DirOk;
    var r, links := Ifd0Read(x), Ifd0Links(x);
    var (exifAt, rest) := TakeAll(r, TAG_EXIF_IFD, x.order);
    TakeAllMeans(r, TAG_EXIF_IFD, x.order);
    TakeAllMeans(rest, TAG_GPS_IFD, x.order);
    FirstWithout(r, TAG_EXIF_IFD, TAG_GPS_IFD);
    if x.exif.Some? {
      TakeLink(x.ifd0, links, HEADER_SIZE, x.order, 0);
    } else {
      TakeNone(x.ifd0, links, HEADER_SIZE, x.order, TAG_EXIF_IFD);
    }
    if x.gps.Some? {
      TakeLink(x.ifd0, links, HEADER_SIZE, x.order, |links| - 1);
    } else {
      TakeNone(x.ifd0, links, HEADER_SIZE, x.order, TAG_GPS_IFD);
    }
    RereadSame(x.ifd0, links, HEADER_SIZE, x.order);
    DropTwo(r, links, x.exif.Some?, TAG_EXIF_IFD, x.gps.Some?, TAG_GPS_IFD);
  }

  function DropIf(s: Dir, drop: bool, tag: U16): Dir {
    if drop then WithoutTag(s, tag) else s
  }

  lemma DropTwo(s: Dir, links: seq<Link>, dropA: bool, a: U16, dropB: bool, b: U16)
    requires |links| == (if dropA then 1 else 0) + (if dropB then 1 else 0)
    requires (dropA ==> links[0].tag == a) && (dropB ==> links[|links| - 1].tag == b)
    ensures DropIf(DropIf(s, dropA, a), dropB, b) == Filter(NotLinked(links), s)
  {
    var p := NotLinked(links);
    if dropA && dropB {
      FilterTwice(NotTag(a), NotTag(b), p, s);
    } else if dropA {
      FilterSame(NotTag(a), p, s);
    } else if dropB {
      FilterSame(NotTag(b), p, s);
    } else {
      FilterAll(p, s);
    }
  }

  lemma ToU32Small(n: nat)
    requires n <= U32_MAX
    ensures ToU32(n) == n
  {
  }

  lemma PlanOrdered(x: Tree)
    ensures var p := PlanOf(x);
            HEADER_SIZE <= p.exif <= p.interop <= p.gps <= p.ifd1 <= p.thumb <= p.end
  {
    hide BlockLen;
  }

  /** A directory without pointers, reached from the plan. */
  lemma PlainRead(tiff: seq<Byte>, d: Option<Dir>, off: nat, order: ByteOrder)
    requires d.Some? ==> DirOk(d.value, 0)
    requires At(tiff, off, OptBytes(d, [], off, order)) && off + OptLen(d, 0) <= U32_MAX
    ensures SameOpt(d, SubIfd(tiff, SomeOffset(d.Some?, off), order))
  {
    hide DirOk, At, DirBytes, ParseIfd, RereadDir, BlockLen, SameDir, Filter;
    if d.Some? {
      ToU32Small(off);
      DirReadsBack(tiff, d.value, [], off, 0, order);
      RereadSame(d.value, [], off, order);
      FilterAll(NotLinked([]), RereadDir(d.value, [], off, order));
    }
  }

  function ExifReadDir(x: Tree): Dir
    requires x.exif.Some?
  {
    RereadDir(x.exif.value, ExifLinks(x), PlanOf(x).exif, x.order)
  }

  lemma ExifParsed(x: Tree, tiff: seq<Byte>)
    requires ExifOk(x) && Fits(x) && Laid(x, tiff) && x.exif.Some?
    ensures SubIfd(tiff, SomeOffset(true, PlanOf(x).exif), x.order) == Some(ExifReadDir(x))
  {
    hide DirOk, At, DirBytes, ParseIfd, RereadDir, BlockLen, PlanOf;
    PlanBounds(x);
    ToU32Small(PlanOf(x).exif);
    DirReadsBack(tiff, x.exif.value, ExifLinks(x), PlanOf(x).exif, 0, x.order);
  }

  lemma ExifTaken(x: Tree)
    requires ExifOk(x) && x.exif.Some?
    ensures var (interopAt, rest) := TakeAll(ExifReadDir(x), TAG_INTEROP_IFD, x.order);
            interopAt == SomeOffset(x.interop.Some?, PlanOf(x).interop) && SameDir(x.exif.value, rest)
  {
    hide TakeAll, RereadDir, PlanOf, SameDir, Filter, First, DirOk;
    var r, links := ExifReadDir(x), ExifLinks(x);
    TakeAllMeans(r, TAG_INTEROP_IFD, x.order);
    if x.interop.Some? {
      TakeLink(x.exif.value, links, PlanOf(x).exif, x.order, 0);
    } else {
      TakeNone(x.exif.value, links, PlanOf(x).exif, x.order, TAG_INTEROP_IFD);
    }
    RereadSame(x.exif.value, links, PlanOf(x).exif, x.order);
    DropTwo(r, links, x.interop.Some?, TAG_INTEROP_IFD, false, 0);
  }

  lemma ExifRead(x: Tree, tiff: seq<Byte>)
    requires ExifOk(x) && Fits(x) && Laid(x, tiff)
    ensures var (exif, interop) := ExifDirs(tiff, SomeOffset(x.exif.Some?, PlanOf(x).exif), x.order);
            SameOpt(x.exif, exif) && SameOpt(x.interop, interop)
  {
    hide DirOk, At, DirBytes, SubIfd, ExifReadDir, BlockLen, SameDir, TakeAll, PlanOf, OptBytes;
    if x.exif.Some? {
      ExifParsed(x, tiff);
      ExifTaken(x);
      PlanBounds(x);
      PlainRead(tiff, x.interop, PlanOf(x).interop, x.order);
    } else {
      NoSubIfd(tiff, x.order);
    }
  }

  lemma NoSubIfd(tiff: seq<Byte>, order: ByteOrder)
    ensures SubIfd(tiff, None, order) == None
  {
  }

  /** Every block of the plan ends within 32 bits when the whole does. */
  lemma PlanBounds(x: Tree)
    requires Fits(x)
    ensures var p := PlanOf(x);
            && p.exif <= U32_MAX && p.interop <= U32_MAX && p.gps <= U32_MAX && p.ifd1 <= U32_MAX && p.thumb <= U32_MAX
            && p.exif + OptLen(x.exif, Count(WrittenInterop(x))) <= U32_MAX
            && p.interop + OptLen(WrittenInterop(x), 0) <= U32_MAX
            && p.gps + OptLen(x.gps, 0) <= U32_MAX
            && p.ifd1 + OptLen(x.ifd1, 2 * Count(x.thumbnail)) <= U32_MAX
            && p.thumb + |ThumbBytes(x)| <= U32_MAX
            && p.ifd1 > 0
  {
    hide BlockLen;
    PlanOrdered(x);
  }

  // ----- IFD1 and the thumbnail -----

  function Ifd1Read(x: Tree): Dir
    requires x.ifd1.Some?
  {
    RereadDir(x.ifd1.value, Ifd1Links(x), PlanOf(x).ifd1, x.order)
  }

  lemma Ifd1Parsed(x: Tree, tiff: seq<Byte>)
    requires Ifd1Ok(x) && Fits(x) && Laid(x, tiff) && x.ifd1.Some?
    ensures NextOf(x) == PlanOf(x).ifd1 > 0
    ensures ParseIfd(tiff, PlanOf(x).ifd1, x.order) == Some((Ifd1Read(x), 0))
  {
    hide DirOk, At, DirBytes, ParseIfd, RereadDir, BlockLen, PlanOf;
    PlanBounds(x);
    ToU32Small(PlanOf(x).ifd1);
    DirReadsBack(tiff, x.ifd1.value, Ifd1Links(x), PlanOf(x).ifd1, 0, x.order);
  }

  lemma ThumbRead(x: Tree, tiff: seq<Byte>)
    requires Ifd1Ok(x) && Fits(x) && Laid(x, tiff) && x.ifd1.Some?
    ensures Thumbnail(tiff, Ifd1Read(x), x.order) == x.thumbnail
  {
    hide DirOk, DirBytes, RereadDir, BlockLen, PlanOf, First, OptBytes, ReadUint;
    PlanBounds(x);
    var links, off := Ifd1Links(x), PlanOf(x).ifd1;
    if x.thumbnail.Some? {
      TakeLink(x.ifd1.value, links, off, x.order, 0);
      TakeLink(x.ifd1.value, links, off, x.order, 1);
      ToU32Small(PlanOf(x).thumb);
      ToU32Small(|x.thumbnail.value|);
    } else {
      OtherIsFirst(x.ifd1.value, links, off, x.order, TAG_THUMB_OFFSET);
      NoFirst(x.ifd1.value, TAG_THUMB_OFFSET);
    }
  }

  lemma NoFirst(s: Dir, tag: U16)
    ensures First(s, tag).None? <==> !HasTag(s, tag)
  {
  }

  lemma ThumbTagsDropped(x: Tree)
    requires Ifd1Ok(x) && x.ifd1.Some?
    ensures SameDir(x.ifd1.value, WithoutThumbTags(Ifd1Read(x)))
  {
    hide DirOk, RereadDir, PlanOf, First, Filter, SameDir;
    var links, off := Ifd1Links(x), PlanOf(x).ifd1;
    var r := Ifd1Read(x);
    RereadSame(x.ifd1.value, links, off, x.order);
    if x.thumbnail.Some? {
      DropTwo(r, links, true, TAG_THUMB_OFFSET, true, TAG_THUMB_LENGTH);
    } else {
      StaysAbsent(x.ifd1.value, links, off, x.order, TAG_THUMB_OFFSET);
      StaysAbsent(x.ifd1.value, links, off, x.order, TAG_THUMB_LENGTH);
      DropTwo(r, links, false, 0, false, 0);
    }
  }

  lemma StaysAbsent(entries: Dir, links: seq<Link>, off: nat, order: ByteOrder, tag: U16)
    requires !HasTag(entries, tag) && forall k :: 0 <= k < |links| ==> links[k].tag != tag
    ensures WithoutTag(RereadDir(entries, links, off, order), tag) == RereadDir(entries, links, off, order)
  {
    hide First, RereadDir, Filter;
    OtherIsFirst(entries, links, off, order, tag);
    NoFirst(entries, tag);
    NoFirst(RereadDir(entries, links, off, order), tag);
    FilterAll(NotTag(tag), RereadDir(entries, links, off, order));
  }

  lemma Ifd1AllRead(x: Tree, tiff: seq<Byte>)
    requires Ifd1Ok(x) && Fits(x) && Laid(x, tiff)
    ensures var (ifd1, thumbnail) := ThumbDir(tiff, NextOf(x), x.order);
            SameOpt(x.ifd1, ifd1) && thumbnail == x.thumbnail
  {
    hide DirOk, At, DirBytes, ParseIfd, Ifd1Read, BlockLen, SameDir, PlanOf, OptBytes, Thumbnail, WithoutThumbTags, Laid;
    if x.ifd1.Some? {
      Ifd1Parsed(x, tiff);
      ThumbRead(x, tiff);
      ThumbTagsDropped(x);
    }
  }

  // ----- the whole tree -----

  lemma GpsRead(x: Tree, tiff: seq<Byte>)
    requires (x.gps.Some? ==> DirOk(x.gps.value, 0)) && Fits(x) && Laid(x, tiff)
    ensures SameOpt(x.gps, SubIfd(tiff, SomeOffset(x.gps.Some?, PlanOf(x).gps), x.order))
  {
    hide DirOk, At, DirBytes, SubIfd, BlockLen, SameOpt, PlanOf, OptBytes;
    PlanBounds(x);
    PlainRead(tiff, x.gps, PlanOf(x).gps, x.order);
  }

  lemma TreeRead(x: Tree, tiff: seq<Byte>)
    requires Canonical(x) && Fits(x) && Laid(x, tiff)
    ensures SameTree(x, TreeOf(tiff, x.hadPrefix, x.order, Ifd0Read(x), NextOf(x)))
  {
    hide Ifd0Ok, ExifOk, Ifd1Ok, DirOk, Laid, Fits, SameDir, SameOpt, TakeAll, ExifDirs, ThumbDir, SubIfd, PlanOf,
      Ifd0Read, NextOf;
    Ifd0Taken(x);
    ExifRead(x, tiff);
    GpsRead(x, tiff);
    Ifd1AllRead(x, tiff);
  }

  lemma PrefixSplit(x: Tree, tiff: seq<Byte>)
    requires |tiff| >= HEADER_SIZE && OrderOf(tiff).Some?
    ensures HasPrefix(Prefix(x) + tiff) == x.hadPrefix
    ensures TiffOf(Prefix(x) + tiff) == tiff
  {
    var data := Prefix(x) + tiff;
    if x.hadPrefix {
      assert data[..|EXIF_PREFIX|] == EXIF_PREFIX && data[|EXIF_PREFIX|..] == tiff;
    } else {
      assert data == tiff;
      assert tiff[..2][0] == tiff[0];
      assert EXIF_PREFIX[0] == 69;
      assert tiff[..|EXIF_PREFIX|][0] == tiff[0];
    }
  }

  /** What is written for a canonical tree parses to the same tree, its directories sorted by tag. */
  lemma RoundTrip(x: Tree)
    requires Canonical(x) && Fits(x)
    ensures Parse(ToBytes(x)).Some? && SameTree(x, Parse(ToBytes(x)).value)
  {
    hide Canonical, Fits, Laid, SameTree, TreeOf, TiffBytes, ParseIfd, Prefix, TiffOf, HasPrefix, Ifd0Read, NextOf;
    var tiff := TiffBytes(x);
    TiffBytesLaid(x);
    CanonicalIfd0(x);
    HeaderOf(x, tiff);
    PrefixSplit(x, tiff);
    Ifd0Parsed(x, tiff);
    TreeRead(x, tiff);
  }

  lemma CanonicalIfd0(x: Tree)
    requires Canonical(x)
    ensures Ifd0Ok(x)
  {
  }

  lemma HeaderOf(x: Tree, tiff: seq<Byte>)
    requires Laid(x, tiff)
    ensures ParseHeader(tiff) == Some((x.order, HEADER_SIZE)) && OrderOf(tiff).Some?
  {
    hide DirBytes, OptBytes, Header;
    HeaderReadsBack(tiff, x.order);
  }

  // ----- the same tree, the same bytes -----

  lemma SameItems(a: Dir, b: Dir, links: seq<Link>, order: ByteOrder)
    requires SameDir(a, b)
    ensures Relaid(Items(a, links, order), Items(b, links, order))
  {
    hide Sort, Map, Relaid, Pointers;
    var ptrs := Pointers(links, order);
    PointersInline(links, order);
    RelaidSort(Sort(Bares(a)), Bares(b), ptrs);
    SortConcat(Bares(a), ptrs);
  }

  lemma PointersInline(links: seq<Link>, order: ByteOrder)
    ensures forall e :: e in Pointers(links, order) ==> !e.External()
  {
  }

  lemma SameDirBytes(a: Dir, b: Dir, links: seq<Link>, off: nat, next: U32, order: ByteOrder)
    requires SameDir(a, b)
    ensures DirBytes(a, links, off, next, order) == DirBytes(b, links, off, next, order)
    ensures |a| == |b| && ExtSize(a) == ExtSize(b)
  {
    hide Items, Relaid, IfdBytes, ExtSize;
    SameItems(a, b, links, order);
    RelaidBytes(Items(a, links, order), Items(b, links, order), off, next, order);
    SameSizes(a, b);
  }

  lemma SameSizes(a: Dir, b: Dir)
    requires SameDir(a, b)
    ensures |a| == |b| && ExtSize(a) == ExtSize(b)
  {
    hide Items, ExtBytes, ExtSize, Sort;
    SameItems(a, b, [], Little);
    ItemsExtSize(a, [], Little);
    ItemsExtSize(b, [], Little);
    RelaidExt(Items(a, [], Little), Items(b, [], Little));
  }

  lemma SameOptBytes(a: Option<Dir>, b: Option<Dir>, links: seq<Link>, off: nat, order: ByteOrder)
    requires SameOpt(a, b)
    ensures OptBytes(a, links, off, order) == OptBytes(b, links, off, order)
  {
    hide DirBytes, SameDir;
    if a.Some? {
      SameDirBytes(a.value, b.value, links, off, 0, order);
    }
  }

  lemma SameOptLen(a: Option<Dir>, b: Option<Dir>, n: nat)
    requires SameOpt(a, b)
    ensures OptLen(a, n) == OptLen(b, n) && Count(a) == Count(b)
  {
    hide SameDir, ExtSize;
    if a.Some? {
      SameSizes(a.value, b.value);
    }
  }

  lemma SamePlan(x: Tree, y: Tree)
    requires SameTree(x, y)
    ensures PlanOf(x) == PlanOf(y)
  {
    hide SameDir, SameOpt, ExtSize, OptLen;
    SameSizes(x.ifd0, y.ifd0);
    SameOptLen(x.exif, y.exif, Count(WrittenInterop(x)));
    SameOptLen(x.interop, y.interop, 0);
    SameOptLen(x.gps, y.gps, 0);
    SameOptLen(x.ifd1, y.ifd1, 2 * Count(x.thumbnail));
    SameInterop(x, y);
    SameOptLen(WrittenInterop(x), WrittenInterop(y), 0);
  }

  lemma SameInterop(x: Tree, y: Tree)
    requires SameTree(x, y)
    ensures SameOpt(WrittenInterop(x), WrittenInterop(y))
  {
    hide SameDir;
  }

  /** Trees that differ only in order within equal contents, and in where values were, are written alike. */
  lemma SameBytes(x: Tree, y: Tree)
    requires SameTree(x, y)
    ensures ToBytes(x) == ToBytes(y) && SerializedLen(x) == SerializedLen(y)
  {
    SamePlan(x, y);
    SameInterop(x, y);
    SameTiffBytes(x, y);
  }

  lemma SameTiffBytes(x: Tree, y: Tree)
    requires SameTree(x, y) && PlanOf(x) == PlanOf(y) && SameOpt(WrittenInterop(x), WrittenInterop(y))
    ensures TiffBytes(x) == TiffBytes(y)
  {
    hide SameDir, DirBytes, OptBytes, PlanOf, Header;
    var p := PlanOf(x);
    SameLinks(x, y);
    SameDirBytes(x.ifd0, y.ifd0, Ifd0Links(x), HEADER_SIZE, NextOf(x), x.order);
    SameOptBytes(x.exif, y.exif, ExifLinks(x), p.exif, x.order);
    SameOptBytes(WrittenInterop(x), WrittenInterop(y), [], p.interop, x.order);
    SameOptBytes(x.gps, y.gps, [], p.gps, x.order);
    SameOptBytes(x.ifd1, y.ifd1, Ifd1Links(x), p.ifd1, x.order);
  }

  lemma SameLinks(x: Tree, y: Tree)
    requires SameTree(x, y) && PlanOf(x) == PlanOf(y) && SameOpt(WrittenInterop(x), WrittenInterop(y))
    ensures Ifd0Links(x) == Ifd0Links(y) && ExifLinks(x) == ExifLinks(y) && Ifd1Links(x) == Ifd1Links(y)
    ensures NextOf(x) == NextOf(y)
  {
    hide SameDir, PlanOf;
  }

  /** Writing is a canonical fixpoint: the bytes read back write the same bytes. */
  lemma CanonicalFixpoint(x: Tree)
    requires Canonical(x) && Fits(x)
    ensures Parse(ToBytes(x)).Some? && ToBytes(Parse(ToBytes(x)).value) == ToBytes(x)
  {
    hide Canonical, Fits, SameTree, Parse, ToBytes;
    RoundTrip(x);
    SameBytes(x, Parse(ToBytes(x)).value);
  }
}
