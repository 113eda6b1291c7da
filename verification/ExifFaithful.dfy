/**
 What the serializer writes does not overlap itself (src/exif.rs): a written blob meets the condition
 of the amplification guard, so pruning it again, by any policy, is never refused for its size.
 */
module ExifFaithful {
  import opened Words
  import opened Bytes
  import opened Ranges
  import opened ExifEntries
  import opened ExifLayout
  import opened ExifModel
  import opened ExifReparse
  import opened ExifRoundTrip
  import opened ExifFixpoint
  import opened ExifCanonical
  import opened ExifPolicy
  import opened ExifPruning
  import opened ExifRetention
  import opened ExifAmplification
  import opened ExifEditing

  // ----- ranges side by side -----

  ghost predicate Within(rs: seq<Range>, lo: nat, hi: nat) {
    forall k :: 0 <= k < |rs| ==> lo <= rs[k].start && rs[k].end <= hi
  }

  /** Disjoint ranges between two offsets. */
  ghost predicate Packed(rs: seq<Range>, lo: nat, hi: nat) {
    PairwiseDisjoint(rs) && Within(rs, lo, hi) && lo <= hi
  }

  lemma PackedJoin(a: seq<Range>, b: seq<Range>, lo: nat, mid: nat, hi: nat)
    requires Packed(a, lo, mid) && Packed(b, mid, hi)
    ensures Packed(a + b, lo, hi)
  {
    forall i, j | 0 <= i < j < |a + b|
      ensures Disjoint((a + b)[i], (a + b)[j])
    {
      if j < |a| {
        assert Disjoint(a[i], a[j]);
      } else if i >= |a| {
        assert Disjoint(b[i - |a|], b[j - |a|]);
      } else {
        assert a[i].end <= mid && mid <= b[j - |a|].start;
      }
    }
  }

  lemma PackedNone(lo: nat, hi: nat)
    requires lo <= hi
    ensures Packed([], lo, hi)
  {
  }

  lemma PackedOne(r: Range, lo: nat, hi: nat)
    requires lo <= r.start && r.end <= hi && lo <= hi
    ensures Packed([r], lo, hi)
  {
  }

  lemma PackedSnoc(rs: seq<Range>, r: Range, lo: nat, hi: nat)
    requires Packed(rs, lo, hi) && lo <= r.start && r.end <= hi
    requires forall k :: 0 <= k < |rs| ==> Disjoint(rs[k], r)
    ensures Packed(rs + [r], lo, hi)
  {
  }

  // ----- the values of one written directory -----

  ghost predicate FromBlock(d: Dir, items: Dir, off: nat) {
    forall e :: e in d ==> e in Reread(items, off)
  }

  lemma FromBlockIndex(d: Dir, items: Dir, off: nat, e: Entry) returns (i: nat)
    requires FromBlock(d, items, off) && e in d
    ensures i < |items| && Reread(items, off)[i] == e
  {
    i :| 0 <= i < |items| && Reread(items, off)[i] == e;
  }

  /** The value of an out-of-line entry read back lies in the block's out-of-line area. */
  lemma RereadRange(items: Dir, off: nat, i: nat, base: nat)
    requires i < |items| && items[i].External() && base == ExtBase(off, |items|)
    ensures var r := ValueRange(Reread(items, off)[i]);
            && r.start == base + Place(items, items[i].Alias()) && r.end == r.start + |items[i].value|
            && base <= r.start && r.end <= base + ExtSize(items)
    ensures Reread(items, off)[i].External() && |Reread(items, off)[i].value| == |items[i].value|
  {
    hide Place, ExtSize, Aliases;
    InAliases(items, items[i]);
    PlaceInside(items, items[i].Alias());
    RereadAt(items, off, i, base, off + 2 + 12 * i);
  }

  lemma RereadExternal(items: Dir, off: nat, i: nat)
    requires i < |items|
    ensures Reread(items, off)[i].External() <==> items[i].External()
  {
    hide Place;
  }

  /** Values of different alias groups read back from one block do not overlap. */
  lemma RereadApart(items: Dir, off: nat, i: nat, j: nat, base: nat)
    requires i < |items| && j < |items| && items[i].External() && items[j].External() && base == ExtBase(off, |items|)
    requires Reread(items, off)[i].Alias() != Reread(items, off)[j].Alias()
    ensures Disjoint(ValueRange(Reread(items, off)[i]), ValueRange(Reread(items, off)[j]))
  {
    hide Place, ExtSize, Aliases, ExtBase;
    RereadRange(items, off, i, base);
    RereadRange(items, off, j, base);
    RereadAt(items, off, i, base, off + 2 + 12 * i);
    RereadAt(items, off, j, base, off + 2 + 12 * j);
    InAliases(items, items[i]);
    InAliases(items, items[j]);
    PlaceApart(items, items[i].Alias(), items[j].Alias());
  }

  lemma {:induction false} ValueOf(d: Dir, k: nat) returns (e: Entry)
    requires k < |Values(d)|
    ensures e in d && e.External() && ValueRange(e) == Values(d)[k]
  {
    hide Aliases;
    var init, last := d[..|d| - 1], d[|d| - 1];
    assert d == init + [last];
    if k < |Values(init)| {
      e := ValueOf(init, k);
    } else {
      e := last;
    }
  }

  lemma {:induction false} ValuesPacked(d: Dir, items: Dir, off: nat, base: nat)
    requires FromBlock(d, items, off) && base == ExtBase(off, |items|)
    ensures Packed(Values(d), base, base + ExtSize(items))
  {
    if d == [] {
      PackedNone(base, base + ExtSize(items));
    } else {
      hide Aliases, Reread, ExtSize, ExtBase, Packed;
      var init, last := d[..|d| - 1], d[|d| - 1];
      assert d == init + [last];
      assert forall e :: e in init ==> e in d;
      ValuesPacked(init, items, off, base);
      if StartsGroup(init, last) {
        var j := FromBlockIndex(d, items, off, last);
        RereadExternal(items, off, j);
        RereadRange(items, off, j, base);
        forall k | 0 <= k < |Values(init)|
          ensures Disjoint(Values(init)[k], ValueRange(last))
        {
          var e := ValueOf(init, k);
          var i := FromBlockIndex(d, items, off, e);
          InAliases(init, e);
          RereadExternal(items, off, i);
          RereadApart(items, off, i, j, base);
        }
        PackedSnoc(Values(init), ValueRange(last), base, base + ExtSize(items));
      }
    }
  }

  /** A written directory: its table and its values side by side in its block. */
  lemma DirPacked(tiff: seq<Byte>, entries: Dir, links: seq<Link>, off: nat, next: U32, order: ByteOrder, d: Dir,
                  link: LinkLen)
    requires At(tiff, off, DirBytes(entries, links, off, next, order)) && |entries| + |links| <= MAX_IFD_ENTRIES
    requires FromBlock(d, Items(entries, links, order), off)
    ensures Packed(DirRegions(tiff, off, d, order, link), off, off + BlockLen(entries, |links|))
  {
    hide At, IfdBytes, Items, Table, ExtBytes, ExtSize, Reread, Values, Packed, Enc16, Enc32;
    var items := Items(entries, links, order);
    var base: nat := ExtBase(off, |items|);
    BlockParts(tiff, off, items, next, order, base);
    Rd16At(tiff, off, |items|, order);
    AtBound(tiff, off + 2 + 12 * |items|, Enc32(next, order));
    FullTable(tiff, off, order, |items|, link);
    ValuesPacked(d, items, off, base);
    ItemsExtSize(entries, links, order);
    PackedOne(TableRange(tiff, off, order, link), off, base);
    PackedJoin([TableRange(tiff, off, order, link)], Values(d), off, base, base + ExtSize(items));
  }

  lemma FullTable(tiff: seq<Byte>, off: nat, order: ByteOrder, n: nat, link: LinkLen)
    requires Rd16(tiff, off, order) == Some(n) && off + 2 + 12 * n <= |tiff|
    ensures TableRange(tiff, off, order, link) == Range(off, off + 2 + 12 * n + link)
  {
    hide Rd16;
  }

  lemma OptPacked(tiff: seq<Byte>, entries: Option<Dir>, links: seq<Link>, off: nat, order: ByteOrder, at: Option<U32>,
                  d: Option<Dir>, link: LinkLen)
    requires At(tiff, off, OptBytes(entries, links, off, order))
    requires at.Some? && d.Some? ==>
               && at.value == off && entries.Some? && |entries.value| + |links| <= MAX_IFD_ENTRIES
               && FromBlock(d.value, Items(entries.value, links, order), off)
    ensures Packed(OptRegions(tiff, at, d, order, link), off, off + OptLen(entries, |links|))
  {
    hide At, DirBytes, Items, DirRegions, Packed, BlockLen, FromBlock;
    if at.Some? && d.Some? {
      DirPacked(tiff, entries.value, links, off, 0, order, d.value, link);
    } else {
      PackedNone(off, off + OptLen(entries, |links|));
    }
  }

  // ----- the whole blob -----

  /** What TreeOf reads from written bytes, and from where. */
  ghost predicate ReadBack(x: Tree, tiff: seq<Byte>, y: Tree, s: Sources) {
    && s == SourcesOf(tiff, x.order, HEADER_SIZE, Ifd0Read(x), NextOf(x))
    && y == TreeOf(tiff, x.hadPrefix, x.order, Ifd0Read(x), NextOf(x))
  }

  lemma PartFromBlock(d: Dir, whole: Dir, items: Dir, off: nat)
    requires whole == Reread(items, off) && forall e :: e in d ==> e in whole
    ensures FromBlock(d, items, off)
  {
    hide Reread;
  }

  lemma Ifd0Packed(x: Tree, tiff: seq<Byte>, y: Tree, s: Sources, link: LinkLen)
    requires Canonical(x) && Laid(x, tiff) && ReadBack(x, tiff, y, s)
    ensures Packed(DirRegions(tiff, s.ifd0, y.ifd0, y.order, link), HEADER_SIZE, PlanOf(x).exif)
  {
    hide TakeAll, ExifDirs, SubIfd, ThumbDir, ThumbSource, Reread, DirBytes, At, Packed, DirRegions, BlockLen, OptLen,
      Items, FromBlock, OptBytes, Swept, AllWellFormed, Consistent, ExifOk, Ifd1Ok;
    var raw := Ifd0Read(x);
    TakenMembers(raw, TAG_EXIF_IFD, x.order);
    TakenMembers(TakeAll(raw, TAG_EXIF_IFD, x.order).1, TAG_GPS_IFD, x.order);
    PartFromBlock(y.ifd0, raw, Items(x.ifd0, Ifd0Links(x), x.order), HEADER_SIZE);
    DirPacked(tiff, x.ifd0, Ifd0Links(x), HEADER_SIZE, NextOf(x), x.order, y.ifd0, link);
  }

  lemma SourcesRead(x: Tree, tiff: seq<Byte>, y: Tree, s: Sources)
    requires Canonical(x) && Fits(x) && Laid(x, tiff) && ReadBack(x, tiff, y, s)
    ensures s.exif == SomeOffset(x.exif.Some?, PlanOf(x).exif) && s.gps == SomeOffset(x.gps.Some?, PlanOf(x).gps)
    ensures (y.exif, y.interop) == ExifDirs(tiff, s.exif, x.order) && y.gps == SubIfd(tiff, s.gps, x.order)
    ensures (y.ifd1, y.thumbnail) == ThumbDir(tiff, NextOf(x), x.order)
  {
    hide TakeAll, ExifDirs, SubIfd, ThumbDir, ThumbSource, Ifd0Read, Ifd0Ok, ExifOk, Ifd1Ok, Laid, Fits, SameDir, PlanOf,
      NextOf;
    Ifd0Taken(x);
  }

  lemma PlainParsed(tiff: seq<Byte>, d: Dir, off: nat, order: ByteOrder)
    requires DirOk(d, 0) && At(tiff, off, DirBytes(d, [], off, 0, order)) && off + BlockLen(d, 0) <= U32_MAX
    ensures SubIfd(tiff, SomeOffset(true, off), order) == Some(RereadDir(d, [], off, order))
  {
    hide DirOk, At, DirBytes, ParseIfd, RereadDir, BlockLen;
    ToU32Small(off);
    DirReadsBack(tiff, d, [], off, 0, order);
  }

  /** A directory without pointers, read back from its block. */
  lemma PlainPacked(tiff: seq<Byte>, d: Option<Dir>, off: nat, order: ByteOrder, link: LinkLen)
    requires d.Some? ==> DirOk(d.value, 0)
    requires At(tiff, off, OptBytes(d, [], off, order)) && off + OptLen(d, 0) <= U32_MAX
    ensures var at := SomeOffset(d.Some?, off);
            Packed(OptRegions(tiff, at, SubIfd(tiff, at, order), order, link), off, off + OptLen(d, 0))
  {
    hide At, DirBytes, SubIfd, Packed, OptRegions, BlockLen, FromBlock, Items, Reread, AllWellFormed, Consistent;
    var at := SomeOffset(d.Some?, off);
    ToU32Small(off);
    if d.Some? {
      PlainParsed(tiff, d.value, off, order);
      PartFromBlock(RereadDir(d.value, [], off, order), RereadDir(d.value, [], off, order), Items(d.value, [], order), off);
    }
    OptPacked(tiff, d, [], off, order, at, SubIfd(tiff, at, order), link);
  }

  lemma ExifPacked(x: Tree, tiff: seq<Byte>, y: Tree, s: Sources, link: LinkLen)
    requires Canonical(x) && Fits(x) && Laid(x, tiff) && ReadBack(x, tiff, y, s)
    ensures Packed(OptRegions(tiff, s.exif, y.exif, y.order, link), PlanOf(x).exif, PlanOf(x).interop)
    ensures Packed(OptRegions(tiff, s.interop, y.interop, y.order, link), PlanOf(x).interop, PlanOf(x).gps)
  {
    hide SubIfd, TakeAll, Laid, Canonical, ReadBack, Packed, OptRegions, PlanOf, Fits, ExifReadDir, FromBlock, At,
      OptBytes, SameDir, Items, OptLen;
    SourcesRead(x, tiff, y, s);
    ExifBlocks(x, tiff);
    ReadBackExif(x, tiff, y, s);
    if x.exif.Some? {
      ExifParsed(x, tiff);
      ExifTaken(x);
      TakenMembers(ExifReadDir(x), TAG_INTEROP_IFD, x.order);
      ExifPart(x, TakeAll(ExifReadDir(x), TAG_INTEROP_IFD, x.order).1);
      PlainPacked(tiff, x.interop, PlanOf(x).interop, x.order, link);
    } else {
      NoSubIfd(tiff, x.order);
      PlainPacked(tiff, None, PlanOf(x).interop, x.order, link);
    }
    OptPacked(tiff, x.exif, ExifLinks(x), PlanOf(x).exif, x.order, s.exif, y.exif, link);
  }

  lemma ExifPart(x: Tree, d: Dir)
    requires x.exif.Some? && forall e :: e in d ==> e in ExifReadDir(x)
    ensures FromBlock(d, Items(x.exif.value, ExifLinks(x), x.order), PlanOf(x).exif)
  {
    hide Reread, PlanOf, Items, FromBlock;
    PartFromBlock(d, ExifReadDir(x), Items(x.exif.value, ExifLinks(x), x.order), PlanOf(x).exif);
  }

  lemma ReadBackExif(x: Tree, tiff: seq<Byte>, y: Tree, s: Sources)
    requires ReadBack(x, tiff, y, s)
    ensures y.order == x.order
    ensures var inner := SubIfd(tiff, s.exif, x.order);
            s.interop == if inner.Some? then TakeAll(inner.value, TAG_INTEROP_IFD, x.order).0 else None
  {
    hide SubIfd, TakeAll, ExifDirs, ThumbDir, ThumbSource, Ifd0Read, NextOf;
  }

  /** The bounds and blocks that the Exif and Interop directories need. */
  lemma ExifBlocks(x: Tree, tiff: seq<Byte>)
    requires Canonical(x) && Fits(x) && Laid(x, tiff)
    ensures ExifOk(x) && WrittenInterop(x) == x.interop
    ensures var p := PlanOf(x);
            && At(tiff, p.exif, OptBytes(x.exif, ExifLinks(x), p.exif, x.order))
            && At(tiff, p.interop, OptBytes(x.interop, [], p.interop, x.order))
            && p.interop == p.exif + OptLen(x.exif, |ExifLinks(x)|) && p.gps == p.interop + OptLen(x.interop, 0)
            && p.exif <= U32_MAX && p.interop <= U32_MAX && p.gps <= U32_MAX
            && SomeOffset(true, p.exif) == Some(p.exif)
    ensures x.exif.Some? ==> |x.exif.value| + |ExifLinks(x)| <= MAX_IFD_ENTRIES
    ensures x.interop.Some? ==> DirOk(x.interop.value, 0)
  {
    hide At, DirBytes, OptBytes, BlockLen, Swept, AllWellFormed, Consistent;
    PlanBounds(x);
    ToU32Small(PlanOf(x).exif);
  }

  lemma GpsPacked(x: Tree, tiff: seq<Byte>, y: Tree, s: Sources, link: LinkLen)
    requires Canonical(x) && Fits(x) && Laid(x, tiff) && ReadBack(x, tiff, y, s)
    ensures Packed(OptRegions(tiff, s.gps, y.gps, y.order, link), PlanOf(x).gps, PlanOf(x).ifd1)
  {
    hide SubIfd, ReadBack, Packed, OptRegions, At, OptBytes, OptLen, DirOk, Laid, PlanOf, Canonical, Fits;
    SourcesRead(x, tiff, y, s);
    ReadBackExif(x, tiff, y, s);
    GpsBlock(x, tiff);
    PlainPacked(tiff, x.gps, PlanOf(x).gps, x.order, link);
  }

  lemma GpsBlock(x: Tree, tiff: seq<Byte>)
    requires Canonical(x) && Fits(x) && Laid(x, tiff)
    ensures x.gps.Some? ==> DirOk(x.gps.value, 0)
    ensures var p := PlanOf(x);
            && At(tiff, p.gps, OptBytes(x.gps, [], p.gps, x.order))
            && p.ifd1 == p.gps + OptLen(x.gps, 0) <= U32_MAX
  {
    hide At, DirBytes, OptBytes, BlockLen, DirOk, Ifd0Ok, ExifOk, Ifd1Ok;
    PlanBounds(x);
  }

  /** The thumbnail tags of a written IFD1 hold the thumbnail's place and length. */
  lemma ThumbTags(x: Tree)
    requires Ifd1Ok(x) && Fits(x) && x.thumbnail.Some?
    ensures ReadFirstUint(Ifd1Read(x), TAG_THUMB_OFFSET, x.order) == Some(PlanOf(x).thumb)
    ensures ReadFirstUint(Ifd1Read(x), TAG_THUMB_LENGTH, x.order) == Some(|x.thumbnail.value|)
  {
    hide DirOk, RereadDir, BlockLen, PlanOf, First, ReadUint;
    PlanBounds(x);
    var links, off := Ifd1Links(x), PlanOf(x).ifd1;
    TakeLink(x.ifd1.value, links, off, x.order, 0);
    TakeLink(x.ifd1.value, links, off, x.order, 1);
    ToU32Small(PlanOf(x).thumb);
    ToU32Small(|x.thumbnail.value|);
  }

  lemma ThumbSourceRead(x: Tree, tiff: seq<Byte>)
    requires Ifd1Ok(x) && Fits(x) && Laid(x, tiff)
    ensures ThumbSource(tiff, NextOf(x), x.order)
         == if x.thumbnail.Some? then Some(Range(PlanOf(x).thumb, PlanOf(x).end)) else None
  {
    hide DirOk, At, DirBytes, ParseIfd, Ifd1Read, PlanOf, OptBytes, ReadFirstUint, Fits, Laid;
    ThumbEnd(x, tiff);
    if x.ifd1.Some? {
      Ifd1Parsed(x, tiff);
      ThumbRead(x, tiff);
      if x.thumbnail.Some? {
        ThumbTags(x);
      } else {
        NoThumb(tiff, Ifd1Read(x), x.order);
      }
    }
  }

  lemma NoThumb(tiff: seq<Byte>, entries: Dir, order: ByteOrder)
    requires Thumbnail(tiff, entries, order).None?
    ensures var off, len := ReadFirstUint(entries, TAG_THUMB_OFFSET, order), ReadFirstUint(entries, TAG_THUMB_LENGTH, order);
            off.Some? && len.Some? ==> off.value + len.value > |tiff|
  {
    hide ReadFirstUint;
  }

  lemma ThumbEnd(x: Tree, tiff: seq<Byte>)
    requires Laid(x, tiff)
    ensures PlanOf(x).end == PlanOf(x).thumb + |ThumbBytes(x)| <= |tiff|
  {
    hide BlockLen, OptBytes, DirBytes, Header;
  }

  lemma Ifd1Packed(x: Tree, tiff: seq<Byte>, y: Tree, s: Sources, link: LinkLen)
    requires Canonical(x) && Fits(x) && Laid(x, tiff) && ReadBack(x, tiff, y, s)
    ensures Packed(OptRegions(tiff, s.ifd1, y.ifd1, y.order, link), PlanOf(x).ifd1, PlanOf(x).thumb)
    ensures s.thumb == if x.thumbnail.Some? then Some(Range(PlanOf(x).thumb, PlanOf(x).end)) else None
  {
    hide Laid, ReadBack, Packed, OptRegions, PlanOf, Fits, FromBlock, At, OptBytes, Items, OptLen, ThumbSource, ParseIfd,
      Ifd1Read, WithoutThumbTags, Thumbnail;
    SourcesRead(x, tiff, y, s);
    ReadBackExif(x, tiff, y, s);
    ReadBackIfd1(x, tiff, y, s);
    Ifd1Blocks(x, tiff);
    ThumbSourceRead(x, tiff);
    if x.ifd1.Some? {
      Ifd1Parsed(x, tiff);
      Ifd1Part(x);
    }
    OptPacked(tiff, x.ifd1, Ifd1Links(x), PlanOf(x).ifd1, x.order, s.ifd1, y.ifd1, link);
  }

  lemma ReadBackIfd1(x: Tree, tiff: seq<Byte>, y: Tree, s: Sources)
    requires ReadBack(x, tiff, y, s)
    ensures s.ifd1 == (if NextOf(x) == 0 then None else Some(NextOf(x)))
    ensures s.thumb == ThumbSource(tiff, NextOf(x), x.order)
  {
    hide SubIfd, TakeAll, ExifDirs, ThumbDir, ThumbSource, Ifd0Read, NextOf;
  }

  lemma Ifd1Part(x: Tree)
    requires x.ifd1.Some?
    ensures FromBlock(WithoutThumbTags(Ifd1Read(x)), Items(x.ifd1.value, Ifd1Links(x), x.order), PlanOf(x).ifd1)
  {
    hide Reread, PlanOf, Items, FromBlock, Filter;
    PartFromBlock(WithoutThumbTags(Ifd1Read(x)), Ifd1Read(x), Items(x.ifd1.value, Ifd1Links(x), x.order), PlanOf(x).ifd1);
  }

  lemma Ifd1Blocks(x: Tree, tiff: seq<Byte>)
    requires Canonical(x) && Fits(x) && Laid(x, tiff)
    ensures Ifd1Ok(x) && (x.ifd1.None? ==> NextOf(x) == 0)
    ensures var p := PlanOf(x);
            && At(tiff, p.ifd1, OptBytes(x.ifd1, Ifd1Links(x), p.ifd1, x.order))
            && p.thumb == p.ifd1 + OptLen(x.ifd1, |Ifd1Links(x)|)
    ensures x.ifd1.Some? ==> |x.ifd1.value| + |Ifd1Links(x)| <= MAX_IFD_ENTRIES
  {
    hide At, DirBytes, OptBytes, BlockLen, AllWellFormed, Consistent, Ifd0Ok, ExifOk, HasTag;
  }

  lemma RegionsPacked(x: Tree, tiff: seq<Byte>, y: Tree, s: Sources, link: LinkLen)
    requires Canonical(x) && Fits(x) && Laid(x, tiff) && ReadBack(x, tiff, y, s)
    ensures PairwiseDisjoint(Regions(tiff, y, s, link))
    ensures InBlob(tiff, Regions(tiff, y, s, link))
  {
    hide Canonical, Fits, Laid, ReadBack, PlanOf, Packed, DirRegions, OptRegions, PairwiseDisjoint, InBlob;
    var p := PlanOf(x);
    PlanOrdered(x);
    ThumbEnd(x, tiff);
    Ifd0Packed(x, tiff, y, s, link);
    ExifPacked(x, tiff, y, s, link);
    GpsPacked(x, tiff, y, s, link);
    Ifd1Packed(x, tiff, y, s, link);
    var f := if s.thumb.Some? then [s.thumb.value] else [];
    if s.thumb.Some? {
      PackedOne(s.thumb.value, p.thumb, p.end);
    } else {
      PackedNone(p.thumb, p.end);
    }
    PackedOne(Range(0, HEADER_SIZE), 0, HEADER_SIZE);
    var a := DirRegions(tiff, s.ifd0, y.ifd0, y.order, link);
    var b := OptRegions(tiff, s.exif, y.exif, y.order, link);
    var c := OptRegions(tiff, s.interop, y.interop, y.order, link);
    var d := OptRegions(tiff, s.gps, y.gps, y.order, link);
    var e := OptRegions(tiff, s.ifd1, y.ifd1, y.order, link);
    PackedJoin(e, f, p.ifd1, p.thumb, p.end);
    PackedJoin(d, e + f, p.gps, p.ifd1, p.end);
    PackedJoin(c, d + (e + f), p.interop, p.gps, p.end);
    PackedJoin(b, c + (d + (e + f)), p.exif, p.interop, p.end);
    PackedJoin(a, b + (c + (d + (e + f))), HEADER_SIZE, p.exif, p.end);
    PackedJoin([Range(0, HEADER_SIZE)], a + (b + (c + (d + (e + f)))), 0, HEADER_SIZE, p.end);
    PackedIsDisjoint(tiff, [Range(0, HEADER_SIZE)] + (a + (b + (c + (d + (e + f))))), 0, p.end);
  }

  lemma PackedIsDisjoint(tiff: seq<Byte>, rs: seq<Range>, lo: nat, hi: nat)
    requires Packed(rs, lo, hi) && hi <= |tiff|
    ensures PairwiseDisjoint(rs) && InBlob(tiff, rs)
  {
  }

  /** What is written for a canonical tree does not overlap itself, next links included. */
  lemma WrittenIsSpread(x: Tree, link: LinkLen)
    requires Canonical(x) && Fits(x)
    ensures Spread(ToBytes(x), link)
  {
    hide Canonical, Fits, Laid, TiffBytes, ParseIfd, Prefix, TiffOf, HasPrefix, Ifd0Read, NextOf, TreeOf, SourcesOf, Regions,
      PairwiseDisjoint, InBlob, ParseHeader;
    var tiff := TiffBytes(x);
    TiffBytesLaid(x);
    CanonicalIfd0(x);
    HeaderOf(x, tiff);
    PrefixSplit(x, tiff);
    Ifd0Parsed(x, tiff);
    RegionsPacked(x, tiff, TreeOf(tiff, x.hadPrefix, x.order, Ifd0Read(x), NextOf(x)),
                  SourcesOf(tiff, x.order, HEADER_SIZE, Ifd0Read(x), NextOf(x)), link);
  }

  /** The guard measures a canonical tree's own bytes: pruning what is written for it never adds a byte. */
  lemma WrittenPruneNeverGrows(x: Tree, policy: Policy, want: Option<Orientation>)
    requires Canonical(x) && Fits(x)
    ensures var b := ToBytes(x);
            && Parse(b).Some? && Faithful(b)
            && SerializedLen(Pruned(Parse(b).value, policy, want)) <= |b|
  {
    hide Parse, Canonical, Fits, Pruned, ToBytes, SerializedLen, SameTree, RegionsOf, PairwiseDisjoint, InBlob;
    RoundTrip(x);
    var b := ToBytes(x);
    SerializedLenIsExact(x);
    SameBytes(x, Parse(b).value);
    PruneNeverGrows(Parse(b).value, policy, want);
    WrittenIsSpread(x, 0);
  }

  /**
   A blob that a pruning retain wrote can be pruned again by any other policy: it never grows, and it is
   dropped only when nothing of it survives, never for its size.
   */
  lemma RetainedPrunesFreely(src: seq<Byte>, policy: Policy, want: Option<Orientation>, again: Policy,
                             wantAgain: Option<Orientation>)
    requires !policy.KeepsEverything() && Retain(src, policy, want).Some?
    requires !again.DiscardsEverything() && !again.KeepsEverything()
    ensures var b := Retain(src, policy, want).value;
            && Parse(b).Some? && Faithful(b)
            && (Retain(b, again, wantAgain).Some? <==> !Empty(Pruned(Parse(b).value, again, wantAgain)))
            && (Retain(b, again, wantAgain).Some? ==> |Retain(b, again, wantAgain).value| <= |b|)
  {
    hide Parse, Canonical, Pruned, ToBytes, SerializedLen, PlanOf, Faithful, RetainPruned, Empty, SameTree;
    RetainPrunes(src, policy, want);
    var x := Parse(src).value;
    PrunedReadsBack(src, x, policy, want);
    PrunedOk(x, policy, want);
    FitsWhenShort(Pruned(x, policy, want));
    var b := Retain(src, policy, want).value;
    WrittenPruneNeverGrows(Pruned(x, policy, want), again, wantAgain);
    RetainSmall(b, again, wantAgain);
  }

  lemma RetainSmall(b: seq<Byte>, policy: Policy, want: Option<Orientation>)
    requires Parse(b).Some? && |b| <= U32_MAX && SerializedLen(Pruned(Parse(b).value, policy, want)) <= |b|
    requires !policy.DiscardsEverything() && !policy.KeepsEverything()
    ensures Retain(b, policy, want).Some? <==> !Empty(Pruned(Parse(b).value, policy, want))
    ensures Retain(b, policy, want).Some? ==> |Retain(b, policy, want).value| <= |b|
  {
    hide Parse, Pruned, ToBytes, SerializedLen, Empty;
    SerializedLenIsExact(Pruned(Parse(b).value, policy, want));
  }

  lemma FitsWhenShort(x: Tree)
    requires SerializedLen(x) <= U32_MAX
    ensures Fits(x)
  {
    hide PlanOf;
  }
}
