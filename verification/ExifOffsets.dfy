/**
 Every offset that the serializer writes names the bytes it should (src/exif.rs): sub-directory
 pointers, the link to IFD1, out-of-line values and the thumbnail, all counted after any prefix. Values
 out of line stand on even offsets.
 */
module ExifOffsets {
  import opened Words
  import opened Bytes
  import opened ExifEntries
  import opened ExifLayout
  import opened ExifModel
  import opened ExifReparse
  import opened ExifRoundTrip
  import opened ExifFixpoint

  /** The descriptor at `at` says what the entry is, and its value is in it or where it points. */
  ghost predicate ExactAt(tiff: seq<Byte>, at: nat, e: Entry, order: ByteOrder) {
    && Rd16(tiff, at, order) == Some(e.tag) && Rd16(tiff, at + 2, order) == Some(e.kind)
    && Rd32(tiff, at + 4, order) == Some(e.count)
    && if e.External() then
         && Rd32(tiff, at + 8, order).Some?
         && Rd32(tiff, at + 8, order).value % 2 == 0 && At(tiff, Rd32(tiff, at + 8, order).value, e.value)
       else At(tiff, at + 8, e.value)
  }

  /** A block at `off` holds exactly these items, tag-sorted, and this next link. */
  ghost predicate ExactBlock(tiff: seq<Byte>, off: nat, items: Dir, next: U32, order: ByteOrder) {
    && off % 2 == 0 && Sorted(items)
    && Rd16(tiff, off, order) == Some(ToU16(|items|))
    && (forall i :: 0 <= i < |items| ==> ExactAt(tiff, off + 2 + 12 * i, items[i], order))
    && Rd32(tiff, off + 2 + 12 * |items|, order) == Some(next)
  }

  lemma ResolvedExact(tiff: seq<Byte>, at: nat, e: Entry, r: Entry, order: ByteOrder)
    requires ResolveEntry(tiff, at, order) == Some(r) && r.Content() == e.Content() && r.origin.Source?
    requires e.External() ==> r.origin.offset % 2 == 0
    ensures ExactAt(tiff, at, e, order)
  {
    hide Rd16, Rd32;
    assert r.tag == e.tag && r.kind == e.kind && r.count == e.count && r.value == e.value;
    assert TypeSize(r.kind).Some?;
  }

  lemma RereadEven(items: Dir, off: nat, i: nat)
    requires i < |items| && off % 2 == 0
    ensures var r := Reread(items, off)[i];
            r.Content() == items[i].Content() && r.origin.Source?
            && (items[i].External() ==> r.origin.offset % 2 == 0)
  {
    hide Place;
    PlaceEven(items, items[i].Alias());
  }

  lemma BlockExact(tiff: seq<Byte>, off: nat, items: Dir, next: U32, order: ByteOrder)
    requires At(tiff, off, IfdBytes(items, off, next, order)) && Writable(items, off) && off % 2 == 0 && Sorted(items)
    ensures ExactBlock(tiff, off, items, next, order)
  {
    hide IfdBytes, Writable, ResolveEntry, Reread, ExactAt, ExtBase, Rd16, Rd32, Table, ExtBytes, Enc16, Enc32, Sorted, At;
    forall i | 0 <= i < |items|
      ensures ExactAt(tiff, off + 2 + 12 * i, items[i], order)
    {
      ItemExact(tiff, off, items, next, order, i, off + 2 + 12 * i);
    }
    BlockParts(tiff, off, items, next, order, ExtBase(off, |items|));
    Rd16At(tiff, off, ToU16(|items|), order);
    Rd32At(tiff, off + 2 + 12 * |items|, next, order);
  }

  lemma ItemExact(tiff: seq<Byte>, off: nat, items: Dir, next: U32, order: ByteOrder, i: nat, at: nat)
    requires At(tiff, off, IfdBytes(items, off, next, order)) && Writable(items, off) && off % 2 == 0
    requires i < |items| && at == off + 2 + 12 * i
    ensures ExactAt(tiff, at, items[i], order)
  {
    hide *;
    DescriptorReadsBack(tiff, off, items, next, order, i, ExtBase(off, |items|), at);
    RereadEven(items, off, i);
    ResolvedExact(tiff, at, items[i], Reread(items, off)[i], order);
  }

  lemma DirExact(tiff: seq<Byte>, entries: Dir, links: seq<Link>, off: nat, next: U32, order: ByteOrder)
    requires At(tiff, off, DirBytes(entries, links, off, next, order))
    requires DirOk(entries, |links|) && off + BlockLen(entries, |links|) <= U32_MAX + 1 && off % 2 == 0
    ensures ExactBlock(tiff, off, Items(entries, links, order), next, order)
  {
    hide At, IfdBytes, Writable, DirOk, ExactBlock, Sort, BlockLen, Sorted;
    ItemsWritable(entries, links, off, order);
    SortSorted(Bares(entries) + Pointers(links, order));
    BlockExact(tiff, off, Items(entries, links, order), next, order);
  }

  lemma BlockEven(entries: Dir, pointers: nat)
    ensures BlockLen(entries, pointers) % 2 == 0
  {
    ExtSizeEven(entries);
  }

  lemma PlanEven(x: Tree)
    ensures var p := PlanOf(x);
            p.exif % 2 == 0 && p.interop % 2 == 0 && p.gps % 2 == 0 && p.ifd1 % 2 == 0 && p.thumb % 2 == 0
  {
    hide BlockLen;
    BlockEven(x.ifd0, Count(x.exif) + Count(x.gps));
    if x.exif.Some? {
      BlockEven(x.exif.value, Count(WrittenInterop(x)));
    }
    if WrittenInterop(x).Some? {
      BlockEven(WrittenInterop(x).value, 0);
    }
    if x.gps.Some? {
      BlockEven(x.gps.value, 0);
    }
    if x.ifd1.Some? {
      BlockEven(x.ifd1.value, 2 * Count(x.thumbnail));
    }
  }

  ghost predicate ExactOpt(tiff: seq<Byte>, d: Option<Dir>, links: seq<Link>, off: nat, order: ByteOrder) {
    d.Some? ==> ExactBlock(tiff, off, Items(d.value, links, order), 0, order)
  }

  lemma OptExact(tiff: seq<Byte>, d: Option<Dir>, links: seq<Link>, off: nat, order: ByteOrder)
    requires d.Some? ==> DirOk(d.value, |links|)
    requires At(tiff, off, OptBytes(d, links, off, order)) && off + OptLen(d, |links|) <= U32_MAX && off % 2 == 0
    ensures ExactOpt(tiff, d, links, off, order)
  {
    hide At, DirBytes, DirOk, ExactBlock, BlockLen, Items;
    if d.Some? {
      DirExact(tiff, d.value, links, off, 0, order);
    }
  }

  /** IFD0 links to IFD1 when there is one, and ends the chain with zero otherwise. */
  lemma OffsetsAreExact(x: Tree)
    requires Canonical(x) && Fits(x)
    ensures var t, p := TiffBytes(x), PlanOf(x);
            && ExactBlock(t, HEADER_SIZE, Items(x.ifd0, Ifd0Links(x), x.order), if x.ifd1.Some? then p.ifd1 else 0, x.order)
            && ExactOpt(t, x.exif, ExifLinks(x), p.exif, x.order)
            && ExactOpt(t, x.interop, [], p.interop, x.order)
            && ExactOpt(t, x.gps, [], p.gps, x.order)
            && ExactOpt(t, x.ifd1, Ifd1Links(x), p.ifd1, x.order)
            && (x.thumbnail.Some? ==> At(t, p.thumb, x.thumbnail.value))
            && ToBytes(x) == Prefix(x) + t && |t| == p.end
  {
    hide DirOk, At, DirBytes, OptBytes, ExactBlock, ExactOpt, BlockLen, PlanOf, Items, TiffBytes, Swept, OptLen, HasTag,
      Ifd0Links, ExifLinks, Ifd1Links;
    var t := TiffBytes(x);
    TiffBytesLaid(x);
    PlanBounds(x);
    PlanEven(x);
    TiffBytesLen(x);
    Ifd0Bound(x);
    NextIsIfd1(x);
    DirExact(t, x.ifd0, Ifd0Links(x), HEADER_SIZE, NextOf(x), x.order);
    OptExact(t, x.exif, ExifLinks(x), PlanOf(x).exif, x.order);
    OptExact(t, x.interop, [], PlanOf(x).interop, x.order);
    OptExact(t, x.gps, [], PlanOf(x).gps, x.order);
    OptExact(t, x.ifd1, Ifd1Links(x), PlanOf(x).ifd1, x.order);
  }

  lemma NextIsIfd1(x: Tree)
    requires Fits(x)
    ensures NextOf(x) == if x.ifd1.Some? then PlanOf(x).ifd1 else 0
  {
    hide PlanOf;
    PlanBounds(x);
    ToU32Small(PlanOf(x).ifd1);
  }

  lemma Ifd0Bound(x: Tree)
    requires Fits(x)
    ensures HEADER_SIZE + BlockLen(x.ifd0, |Ifd0Links(x)|) <= U32_MAX
  {
    hide BlockLen;
    PlanBounds(x);
  }

  lemma TiffBytesLen(x: Tree)
    ensures |TiffBytes(x)| == PlanOf(x).end
  {
    hide TiffBytes, PlanOf;
    SerializedLenIsExact(x);
  }
}
