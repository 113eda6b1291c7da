/**
 Patching the orientation in place (src/exif.rs): the patch touches only the value field of the one
 descriptor, so however hostile the blob's offsets are, IFD0 keeps its tags, types, counts and value
 locations, and the orientation reads back as written.
 */
module ExifPatch {
  import opened Words
  import opened Bytes
  import opened ExifEntries
  import opened ExifLayout
  import opened ExifModel
  import opened ExifReparse
  import opened ExifRoundTrip
  import opened ExifFixpoint
  import opened ExifCanonical
  import opened ExifPolicy

  /** Everything about an entry but its value bytes. */
  function Shape(e: Entry): Entry {
    e.(value := [])
  }

  function Shapes(s: Dir): Dir {
    Map((e: Entry) => Shape(e), s)
  }

  /** The blobs agree outside the range. */
  ghost predicate AgreeOutside(a: seq<Byte>, b: seq<Byte>, from: nat, to: nat) {
    |a| == |b| && forall i :: 0 <= i < |a| && !(from <= i < to) ==> a[i] == b[i]
  }

  lemma OverwriteAgrees(a: seq<Byte>, off: nat, bytes: seq<Byte>)
    requires off + |bytes| <= |a|
    ensures AgreeOutside(a, OverwriteAt(a, off, bytes), off, off + |bytes|)
    ensures At(OverwriteAt(a, off, bytes), off, bytes)
  {
    AtWhole(a[..off], bytes, a[off + |bytes|..]);
  }

  lemma SameSlice(a: seq<Byte>, b: seq<Byte>, from: nat, to: nat, lo: nat, hi: nat)
    requires AgreeOutside(a, b, from, to) && lo <= hi <= |a| && (hi <= from || to <= lo)
    ensures a[lo..hi] == b[lo..hi]
  {
  }

  lemma SameRd(a: seq<Byte>, b: seq<Byte>, from: nat, to: nat, o: nat, order: ByteOrder)
    requires AgreeOutside(a, b, from, to)
    ensures o + 2 <= from || to <= o ==> Rd16(a, o, order) == Rd16(b, o, order)
    ensures o + 4 <= from || to <= o ==> Rd32(a, o, order) == Rd32(b, o, order)
  {
    if o + 2 <= |a| && (o + 2 <= from || to <= o) {
      SameSlice(a, b, from, to, o, o + 2);
    }
    if o + 4 <= |a| && (o + 4 <= from || to <= o) {
      SameSlice(a, b, from, to, o, o + 4);
    }
  }

  function ShapeOf(e: Option<Entry>): Option<Entry> {
    if e.Some? then Some(Shape(e.value)) else None
  }

  /** Descriptors that agree but for inline value bytes resolve to the same shape. */
  lemma ResolveShape(a: seq<Byte>, b: seq<Byte>, at: nat, order: ByteOrder)
    requires |a| == |b| && Rd16(a, at, order) == Rd16(b, at, order) && Rd16(a, at + 2, order) == Rd16(b, at + 2, order)
    requires Rd32(a, at + 4, order) == Rd32(b, at + 4, order)
    requires Rd32(a, at + 8, order) == Rd32(b, at + 8, order)
          || (ResolveEntry(a, at, order).Some? && !ResolveEntry(a, at, order).value.External())
    ensures ShapeOf(ResolveEntry(a, at, order)) == ShapeOf(ResolveEntry(b, at, order))
  {
    hide Rd16, Rd32;
  }

  /** A change elsewhere keeps the shape of a descriptor's entry. */
  lemma OtherShape(a: seq<Byte>, b: seq<Byte>, from: nat, to: nat, at: nat, order: ByteOrder)
    requires AgreeOutside(a, b, from, to) && (at + 12 <= from || to <= at)
    ensures ShapeOf(ResolveEntry(a, at, order)) == ShapeOf(ResolveEntry(b, at, order))
  {
    hide ResolveEntry, Rd16, Rd32;
    SameRd(a, b, from, to, at, order);
    SameRd(a, b, from, to, at + 2, order);
    SameRd(a, b, from, to, at + 4, order);
    SameRd(a, b, from, to, at + 8, order);
    ResolveShape(a, b, at, order);
  }

  /** So does a change inside its own value field, when the value is inline. */
  lemma OwnShape(a: seq<Byte>, b: seq<Byte>, from: nat, to: nat, at: nat, order: ByteOrder)
    requires AgreeOutside(a, b, from, to) && at + 8 <= from
    requires ResolveEntry(a, at, order).Some? && !ResolveEntry(a, at, order).value.External()
    ensures ShapeOf(ResolveEntry(a, at, order)) == ShapeOf(ResolveEntry(b, at, order))
  {
    hide ResolveEntry, Rd16, Rd32;
    SameRd(a, b, from, to, at, order);
    SameRd(a, b, from, to, at + 2, order);
    SameRd(a, b, from, to, at + 4, order);
    ResolveShape(a, b, at, order);
  }

  function Pushed(init: Dir, e: Option<Entry>): Dir {
    if e.Some? then init + [e.value] else init
  }

  lemma ParsedLast(tiff: seq<Byte>, start: nat, n: nat, order: ByteOrder, at: nat)
    requires n > 0 && at == start + 12 * (n - 1)
    ensures ParsedEntries(tiff, start, n, order)
         == (var init := ParsedEntries(tiff, start, n - 1, order);
             if at + 12 > |tiff| then init else Pushed(init, ResolveEntry(tiff, at, order)))
  {
    hide ResolveEntry;
  }

  lemma ResolvedInline(tiff: seq<Byte>, at: nat, order: ByteOrder)
    requires ResolveEntry(tiff, at, order).Some? && !ResolveEntry(tiff, at, order).value.External()
    ensures ResolveEntry(tiff, at, order).value.origin == Source(at + 8)
  {
  }

  /** Which descriptor an inline entry of a parsed directory came from. */
  lemma {:induction false} InlineDescriptor(tiff: seq<Byte>, start: nat, n: nat, order: ByteOrder, e: Entry)
    returns (k: nat, at: nat)
    requires e in ParsedEntries(tiff, start, n, order) && !e.External()
    ensures k < n && at == start + 12 * k && at + 12 <= |tiff| && ResolveEntry(tiff, at, order) == Some(e)
    ensures e.origin == Source(at + 8)
  {
    hide ParsedEntries, ResolveEntry;
    if n == 0 {
      NothingParsed(tiff, start, order);
    } else {
      at := start + 12 * (n - 1);
      ParsedLast(tiff, start, n, order, at);
      if e in ParsedEntries(tiff, start, n - 1, order) {
        k, at := InlineDescriptor(tiff, start, n - 1, order, e);
      } else {
        k := n - 1;
        ResolvedInline(tiff, at, order);
      }
    }
  }

  lemma NothingParsed(tiff: seq<Byte>, start: nat, order: ByteOrder)
    ensures ParsedEntries(tiff, start, 0, order) == []
  {
  }

  /** The patched range lies in the value field of descriptor k of the table, which stands at `at`. */
  ghost predicate InField(tiff: seq<Byte>, start: nat, k: nat, at: nat, order: ByteOrder, from: nat, to: nat) {
    && at == start + 12 * k && at + 8 <= from && to <= at + 12
    && ResolveEntry(tiff, at, order).Some? && !ResolveEntry(tiff, at, order).value.External()
  }

  lemma ShapesPushed(s: Dir, t: Dir, a: Option<Entry>, b: Option<Entry>)
    requires Shapes(s) == Shapes(t) && ShapeOf(a) == ShapeOf(b)
    ensures Shapes(Pushed(s, a)) == Shapes(Pushed(t, b))
  {
    hide Map;
    if a.Some? {
      MapSnoc((e: Entry) => Shape(e), s, a.value);
      MapSnoc((e: Entry) => Shape(e), t, b.value);
    }
  }

  lemma {:induction false} EntriesShape(a: seq<Byte>, b: seq<Byte>, from: nat, to: nat, start: nat, k: nat, own: nat,
                                        n: nat, order: ByteOrder)
    requires AgreeOutside(a, b, from, to) && InField(a, start, k, own, order, from, to)
    ensures Shapes(ParsedEntries(a, start, n, order)) == Shapes(ParsedEntries(b, start, n, order))
  {
    if n > 0 {
      hide *;
      EntriesShape(a, b, from, to, start, k, own, n - 1, order);
      EntriesShapeStep(a, b, from, to, start, k, own, n, start + 12 * (n - 1), order);
    } else {
      hide *;
      NothingParsed(a, start, order);
      NothingParsed(b, start, order);
    }
  }

  lemma EntriesShapeStep(a: seq<Byte>, b: seq<Byte>, from: nat, to: nat, start: nat, k: nat, own: nat, n: nat, at: nat,
                         order: ByteOrder)
    requires AgreeOutside(a, b, from, to) && InField(a, start, k, own, order, from, to)
    requires n > 0 && at == start + 12 * (n - 1)
    requires Shapes(ParsedEntries(a, start, n - 1, order)) == Shapes(ParsedEntries(b, start, n - 1, order))
    ensures Shapes(ParsedEntries(a, start, n, order)) == Shapes(ParsedEntries(b, start, n, order))
  {
    hide ResolveEntry, Shapes, ParsedEntries, ShapeOf, Pushed, InField;
    ParsedLast(a, start, n, order, at);
    ParsedLast(b, start, n, order, at);
    DescriptorShape(a, b, from, to, start, k, own, n - 1, at, order);
    ShapesPushed(ParsedEntries(a, start, n - 1, order), ParsedEntries(b, start, n - 1, order),
                 ResolveEntry(a, at, order), ResolveEntry(b, at, order));
  }

  lemma DescriptorShape(a: seq<Byte>, b: seq<Byte>, from: nat, to: nat, start: nat, k: nat, own: nat, i: nat, at: nat,
                        order: ByteOrder)
    requires AgreeOutside(a, b, from, to) && InField(a, start, k, own, order, from, to) && at == start + 12 * i
    ensures ShapeOf(ResolveEntry(a, at, order)) == ShapeOf(ResolveEntry(b, at, order))
  {
    hide ResolveEntry, ShapeOf;
    if i == k {
      OwnShape(a, b, from, to, at, order);
    } else {
      OtherShape(a, b, from, to, at, order);
    }
  }

  /** The whole directory keeps its shape: its count stands before every descriptor. */
  lemma IfdShape(a: seq<Byte>, b: seq<Byte>, from: nat, to: nat, off: nat, k: nat, own: nat,
                 order: ByteOrder)
    requires AgreeOutside(a, b, from, to) && InField(a, off + 2, k, own, order, from, to)
    ensures ParseIfd(a, off, order).Some? <==> ParseIfd(b, off, order).Some?
    ensures ParseIfd(a, off, order).Some? ==>
              Shapes(ParseIfd(a, off, order).value.0) == Shapes(ParseIfd(b, off, order).value.0)
  {
    hide ParsedEntries, ResolveEntry, Map, Rd16, Rd32;
    SameRd(a, b, from, to, off, order);
    if Rd16(a, off, order).Some? {
      EntriesShape(a, b, from, to, off + 2, k, own, Rd16(a, off, order).value, order);
    }
  }

  /** The header is out of reach: a value field begins ten bytes into the blob at the earliest. */
  lemma HeaderKept(a: seq<Byte>, b: seq<Byte>, from: nat, to: nat)
    requires AgreeOutside(a, b, from, to) && from >= HEADER_SIZE
    ensures ParseHeader(a) == ParseHeader(b)
  {
    hide Rd16, Rd32;
    if |a| >= HEADER_SIZE {
      SameSlice(a, b, from, to, 0, 2);
      assert a[..2] == a[0..2] && b[..2] == b[0..2];
      assert OrderOf(a) == OrderOf(b);
      if OrderOf(a).Some? {
        SameRd(a, b, from, to, 2, OrderOf(a).value);
        SameRd(a, b, from, to, 4, OrderOf(a).value);
      }
    }
  }

  // ----- the tree after the patch -----

  lemma ShapesSame(s: Dir, t: Dir, tag: U16)
    requires Shapes(s) == Shapes(t)
    ensures |s| == |t| && FirstIndex(s, tag) == FirstIndex(t, tag)
    ensures First(s, tag).Some? <==> First(t, tag).Some?
    ensures First(s, tag).Some? ==> Shape(First(s, tag).value) == Shape(First(t, tag).value)
  {
    assert |Shapes(s)| == |Shapes(t)|;
    FirstOfMap((e: Entry) => Shape(e), s, tag);
    FirstOfMap((e: Entry) => Shape(e), t, tag);
  }

  lemma ShapesWithout(s: Dir, t: Dir, tag: U16)
    requires Shapes(s) == Shapes(t)
    ensures Shapes(WithoutTag(s, tag)) == Shapes(WithoutTag(t, tag))
  {
    hide Filter, Map;
    FilterMap(NotTag(tag), (e: Entry) => Shape(e), s);
    FilterMap(NotTag(tag), (e: Entry) => Shape(e), t);
  }

  /** The shape of a well-formed entry fixes the length of its value. */
  lemma ShapeLength(a: Entry, b: Entry)
    requires Shape(a) == Shape(b) && WellFormed(a) && WellFormed(b)
    ensures |a.value| == |b.value|
  {
  }

  lemma ShapesTaken(s: Dir, t: Dir, tag: U16, order: ByteOrder)
    requires Shapes(s) == Shapes(t) && AllWellFormed(s) && AllWellFormed(t)
    ensures Shapes(TakeAll(s, tag, order).1) == Shapes(TakeAll(t, tag, order).1)
    ensures AllWellFormed(TakeAll(s, tag, order).1) && AllWellFormed(TakeAll(t, tag, order).1)
  {
    hide TakeAll, Shapes, Filter, FirstIndex, WellFormed;
    TakeAllMeans(s, tag, order);
    TakeAllMeans(t, tag, order);
    ShapesSame(s, t, tag);
    ShapesWithout(s, t, tag);
    if First(s, tag).Some? {
      ShapeLength(First(s, tag).value, First(t, tag).value);
    }
    WithoutWellFormed(s, tag);
    WithoutWellFormed(t, tag);
  }

  lemma WithoutWellFormed(s: Dir, tag: U16)
    requires AllWellFormed(s)
    ensures AllWellFormed(WithoutTag(s, tag))
  {
    hide Filter, WellFormed;
    forall e | e in WithoutTag(s, tag)
      ensures WellFormed(e)
    {
      assert e in s;
    }
    MembersWellFormed(WithoutTag(s, tag));
  }

  function Ifd0Of(raw: Dir, order: ByteOrder): Dir {
    TakeAll(TakeAll(raw, TAG_EXIF_IFD, order).1, TAG_GPS_IFD, order).1
  }

  lemma ShapesIfd0(s: Dir, t: Dir, order: ByteOrder)
    requires Shapes(s) == Shapes(t) && AllWellFormed(s) && AllWellFormed(t)
    ensures Shapes(Ifd0Of(s, order)) == Shapes(Ifd0Of(t, order))
  {
    hide TakeAll, Shapes, AllWellFormed;
    ShapesTaken(s, t, TAG_EXIF_IFD, order);
    ShapesTaken(TakeAll(s, TAG_EXIF_IFD, order).1, TakeAll(t, TAG_EXIF_IFD, order).1, TAG_GPS_IFD, order);
  }

  /** Taking pointers does not touch the orientation. */
  lemma OrientationKept(raw: Dir, order: ByteOrder)
    ensures First(Ifd0Of(raw, order), TAG_ORIENTATION) == First(raw, TAG_ORIENTATION)
  {
    hide TakeAll, First, Filter;
    var once := TakeAll(raw, TAG_EXIF_IFD, order).1;
    TakeAllMeans(raw, TAG_EXIF_IFD, order);
    TakeAllMeans(once, TAG_GPS_IFD, order);
    FirstWithout(raw, TAG_EXIF_IFD, TAG_ORIENTATION);
    FirstWithout(once, TAG_GPS_IFD, TAG_ORIENTATION);
  }
}
