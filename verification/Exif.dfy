/**
 The EXIF tree as the source keeps and changes it (src/exif.rs): the entry loop of the reader, the
 growing buffers of the writer, the editors, and retain_reconciled. Each is proved equal to the
 function of its name in `ExifModel` or `ExifPolicy`.
 */
module ExifStore {
  import opened Words
  import opened Bytes
  import opened ExifEntries
  import opened ExifLayout
  import opened ExifModel
  import opened ExifReparse
  import opened ExifRoundTrip
  import opened ExifFixpoint
  import opened ExifPolicy
  import opened ExifEditing
  import ExifPruning
  import ExifReading
  import ExifSurvival

  // ----- reading -----

  /** A table cut short yields no more entries. */
  lemma {:induction false} TruncatedTable(tiff: seq<Byte>, start: nat, i: nat, n: nat, order: ByteOrder)
    requires i <= n && start + 12 * i + 12 > |tiff|
    ensures ParsedEntries(tiff, start, n, order) == ParsedEntries(tiff, start, i, order)
  {
    if i < n {
      hide ResolveEntry;
      TruncatedTable(tiff, start, i, n - 1, order);
    }
  }

  method ReadIfd(tiff: seq<Byte>, off: nat, order: ByteOrder) returns (r: Option<(Dir, U32)>)
    ensures r == ParseIfd(tiff, off, order)
    ensures ExifReading.ReadsDirectory(tiff, off, order, r)
  {
    hide ResolveEntry, Rd16, Rd32, ExifReading.ReadsDirectory;
    ExifReading.IfdSalvages(tiff, off, order);
    var count := Rd16(tiff, off, order);
    if count.None? || count.value > MAX_IFD_ENTRIES {
      return None;
    }
    var start: nat := off + 2;
    var entries: Dir := [];
    var i: nat := 0;
    while i < count.value
      invariant i <= count.value && entries == ParsedEntries(tiff, start, i, order)
    {
      var e: nat := start + 12 * i;
      if e + 12 > |tiff| {
        TruncatedTable(tiff, start, i, count.value, order);
        break;
      }
      var entry := ResolveEntry(tiff, e, order);
      if entry.Some? {
        entries := entries + [entry.value];
      }
      i := i + 1;
    }
    assert entries == ParsedEntries(tiff, start, count.value, order);
    var next := Rd32(tiff, off + 2 + 12 * count.value, order);
    return Some((entries, if next.Some? then next.value else 0));
  }

  // ----- writing -----

  lemma AliasSeen(s: Dir, k: nat, placed: seq<Alias>)
    requires k < |s| && forall a :: a in placed <==> a in Aliases(s[..k])
    ensures s[..k + 1][..k] == s[..k]
    ensures s[k].External() ==> forall a :: a in placed + [s[k].Alias()] <==> a in Aliases(s[..k + 1])
    ensures !s[k].External() ==> Aliases(s[..k + 1]) == Aliases(s[..k])
  {
    assert s[..k + 1] == s[..k] + [s[k]];
    AliasesSnoc(s[..k], s[k]);
  }

  /** The source's ext_size: a running total and the groups already counted. */
  method ExtSizeOf(entries: Dir) returns (total: nat)
    ensures total == ExtSize(entries)
  {
    hide Aliases;
    total := 0;
    var placed: seq<Alias> := [];
    NoAliases();
    for k := 0 to |entries|
      invariant total == ExtSize(entries[..k])
      invariant forall a :: a in placed <==> a in Aliases(entries[..k])
    {
      var e := entries[k];
      AliasSeen(entries, k, placed);
      if !e.External() {
        continue;
      }
      var key := e.Alias();
      if key !in placed {
        total := total + Align2(|e.value|);
        placed := placed + [key];
      } else {
        assert forall a :: a in placed + [key] <==> a in placed;
      }
    }
    assert entries[..|entries|] == entries;
  }

  lemma NoAliases()
    ensures Aliases([]) == {}
  {
  }

  /** The place recorded for an alias group, if it was written already. */
  function Lookup(placed: seq<(Alias, nat)>, a: Alias): Option<nat> {
    if placed == [] then None
    else if placed[|placed| - 1].0 == a then Some(placed[|placed| - 1].1)
    else Lookup(placed[..|placed| - 1], a)
  }

  /** The record of written groups agrees with the area laid out for the items so far. */
  ghost predicate Recorded(placed: seq<(Alias, nat)>, s: Dir) {
    forall a :: Lookup(placed, a) == if a in Aliases(s) then Some(Place(s, a)) else None
  }

  lemma RecordedStart()
    ensures Recorded([], [])
  {
  }

  lemma RecordedStep(placed: seq<(Alias, nat)>, s: Dir, e: Entry)
    requires Recorded(placed, s)
    ensures e.External() && e.Alias() in Aliases(s) ==> Lookup(placed, e.Alias()) == Some(Place(s + [e], e.Alias()))
    ensures e.External() && e.Alias() !in Aliases(s) ==>
              Lookup(placed, e.Alias()).None? && Place(s + [e], e.Alias()) == |ExtBytes(s)|
              && Recorded(placed + [(e.Alias(), |ExtBytes(s)|)], s + [e])
    ensures !e.External() || e.Alias() in Aliases(s) ==> Recorded(placed, s + [e])
  {
    hide Aliases, ExtBytes;
    var t := s + [e];
    assert t[..|s|] == s;
    AliasesSnoc(s, e);
    var longer := placed + [(e.Alias(), |ExtBytes(s)|)];
    assert longer[..|placed|] == placed;
    forall a
      ensures a in Aliases(s) ==> Place(t, a) == Place(s, a)
    {
    }
  }

  lemma ExtBytesStep(s: Dir, e: Entry)
    ensures ExtBytes(s + [e]) == if StartsGroup(s, e) then ExtBytes(s) + Padded(e.value) else ExtBytes(s)
  {
    assert (s + [e])[..|s|] == s;
  }

  lemma TableGrows(s: Dir, k: nat, extBase: nat, order: ByteOrder)
    requires k < |s|
    ensures Table(s[..k + 1], extBase, order)
         == Table(s[..k], extBase, order) + Descriptor(s[k], extBase + Place(s[..k + 1], s[k].Alias()), order)
  {
    hide Descriptor, Place;
    assert s[..k + 1][..k] == s[..k] && s[..k + 1][k] == s[k];
  }

  lemma DescriptorParts(out: seq<Byte>, e: Entry, off: nat, order: ByteOrder)
    ensures out + Enc16(e.tag, order) + Enc16(e.kind, order) + Enc32(e.count, order) + ValueField(e, off, order)
         == out + Descriptor(e, off, order)
  {
    hide Enc16, Enc32, ValueField;
  }

  /** What write_ifd has produced after k items. */
  ghost predicate Written(out: seq<Byte>, ext: seq<Byte>, placed: seq<(Alias, nat)>, out0: seq<Byte>,
                          items: Dir, k: nat, extBase: nat, order: ByteOrder)
    requires k <= |items|
  {
    && out == out0 + Table(items[..k], extBase, order)
    && ext == ExtBytes(items[..k])
    && Recorded(placed, items[..k])
  }

  lemma WrittenStart(out0: seq<Byte>, items: Dir, extBase: nat, order: ByteOrder)
    ensures Written(out0, [], [], out0, items, 0, extBase, order)
  {
    RecordedStart();
    assert items[..0] == [];
    assert out0 + [] == out0;
  }

  /** Writing one more item: its descriptor, and its value unless the group is already there. */
  lemma WrittenStep(out: seq<Byte>, ext: seq<Byte>, placed: seq<(Alias, nat)>, out0: seq<Byte>,
                    items: Dir, k: nat, extBase: nat, order: ByteOrder)
    requires k < |items| && Written(out, ext, placed, out0, items, k, extBase, order)
    ensures var e := items[k];
            var found := Lookup(placed, e.Alias());
            var off := if found.Some? then found.value else |ext|;
            var starts := e.External() && found.None?;
            Written(out + Descriptor(e, extBase + off, order),
                    if starts then ext + Padded(e.value) else ext,
                    if starts then placed + [(e.Alias(), |ext|)] else placed,
                    out0, items, k + 1, extBase, order)
  {
    hide Descriptor, Table, ExtBytes, Place, Aliases, Recorded, Lookup;
    var e, s := items[k], items[..k];
    assert items[..k + 1] == s + [e];
    RecordedMeans(placed, s, e.Alias());
    RecordedStep(placed, s, e);
    ExtBytesStep(s, e);
    TableGrows(items, k, extBase, order);
    var found := Lookup(placed, e.Alias());
    var off := if found.Some? then found.value else |ext|;
    if !e.External() {
      InlineOffset(e, extBase + off, extBase + Place(s + [e], e.Alias()), order);
    }
    Grow(out0, Table(s, extBase, order), Descriptor(e, extBase + off, order));
  }

  lemma RecordedMeans(placed: seq<(Alias, nat)>, s: Dir, a: Alias)
    requires Recorded(placed, s)
    ensures Lookup(placed, a).Some? <==> a in Aliases(s)
  {
  }

  lemma Grow(a: seq<Byte>, b: seq<Byte>, c: seq<Byte>)
    ensures (a + b) + c == a + (b + c)
  {
  }

  /** The source's write_ifd; the stable sort is the library's. */
  method WriteIfd(start: seq<Byte>, entries: Dir, pointers: seq<Link>, extBase: nat, next: U32, order: ByteOrder)
    returns (out: seq<Byte>)
    ensures var items := Items(entries, pointers, order);
            out == start + (Enc16(ToU16(|items|), order)
                            + (Table(items, extBase, order) + (Enc32(next, order) + ExtBytes(items))))
  {
    hide Descriptor, ValueField, Written, Enc16, Enc32, Table, ExtBytes, Items, Lookup;
    var items := Items(entries, pointers, order);
    out := start + Enc16(ToU16(|items|), order);
    ghost var out0 := out;
    var ext: seq<Byte> := [];
    var placed: seq<(Alias, nat)> := [];
    WrittenStart(out0, items, extBase, order);
    for k := 0 to |items|
      invariant Written(out, ext, placed, out0, items, k, extBase, order)
    {
      var e := items[k];
      WrittenStep(out, ext, placed, out0, items, k, extBase, order);
      var found := Lookup(placed, e.Alias());
      var off: nat := if found.Some? then found.value else |ext|;
      DescriptorParts(out, e, extBase + off, order);
      out := out + Enc16(e.tag, order);
      out := out + Enc16(e.kind, order);
      out := out + Enc32(e.count, order);
      out := out + ValueField(e, extBase + off, order);
      if e.External() && found.None? {
        placed := placed + [(e.Alias(), |ext|)];
        ext := ext + Padded(e.value);
      }
    }
    WrittenEnd(out, ext, placed, out0, items, extBase, order);
    out := out + Enc32(next, order);
    out := out + ext;
    Join(start, Enc16(ToU16(|items|), order), Table(items, extBase, order), Enc32(next, order), ext);
  }

  lemma WrittenEnd(out: seq<Byte>, ext: seq<Byte>, placed: seq<(Alias, nat)>, out0: seq<Byte>, items: Dir, extBase: nat,
                   order: ByteOrder)
    requires Written(out, ext, placed, out0, items, |items|, extBase, order)
    ensures out == out0 + Table(items, extBase, order) && ext == ExtBytes(items)
  {
    hide Table, ExtBytes, Recorded;
    assert items[..|items|] == items;
  }

  lemma Join(a: seq<Byte>, b: seq<Byte>, c: seq<Byte>, d: seq<Byte>, e: seq<Byte>)
    ensures a + b + c + d + e == a + (b + (c + (d + e)))
  {
  }

  /** A whole directory block, as to_bytes asks for it. */
  method WriteDir(start: seq<Byte>, entries: Dir, pointers: seq<Link>, off: nat, next: U32, order: ByteOrder)
    returns (out: seq<Byte>)
    ensures out == start + DirBytes(entries, pointers, off, next, order)
  {
    hide Items, Table, ExtBytes, Enc16, Enc32;
    var extBase: nat := off + 2 + 12 * (|entries| + |pointers|) + 4;
    out := WriteIfd(start, entries, pointers, extBase, next, order);
    assert extBase == ExtBase(off, |Items(entries, pointers, order)|);
  }

  method WriteOpt(start: seq<Byte>, d: Option<Dir>, pointers: seq<Link>, off: nat, order: ByteOrder)
    returns (out: seq<Byte>)
    ensures out == start + OptBytes(d, pointers, off, order)
  {
    hide DirBytes;
    out := start;
    if d.Some? {
      out := WriteDir(out, d.value, pointers, off, 0, order);
    }
  }

  method BlockSize(entries: Dir, pointers: nat) returns (n: nat)
    ensures n == BlockLen(entries, pointers)
  {
    var ext := ExtSizeOf(entries);
    return 2 + 12 * (|entries| + pointers) + 4 + ext;
  }

  method OptSize(d: Option<Dir>, pointers: nat) returns (n: nat)
    ensures n == OptLen(d, pointers)
  {
    n := 0;
    if d.Some? {
      n := BlockSize(d.value, pointers);
    }
  }

  // ----- reading a tree -----

  method ReadSubIfd(tiff: seq<Byte>, at: Option<U32>, order: ByteOrder) returns (d: Option<Dir>)
    ensures d == SubIfd(tiff, at, order)
  {
    hide ParseIfd;
    if at.None? {
      return None;
    }
    var r := ReadIfd(tiff, at.value, order);
    return if r.Some? then Some(r.value.0) else None;
  }

  method ReadExifDirs(tiff: seq<Byte>, at: Option<U32>, order: ByteOrder) returns (exif: Option<Dir>, interop: Option<Dir>)
    ensures (exif, interop) == ExifDirs(tiff, at, order)
  {
    hide ParseIfd, TakePointer, WithoutTag, SubIfd;
    exif := ReadSubIfd(tiff, at, order);
    if exif.None? {
      return None, None;
    }
    var (interopAt, entries) := TakePointer(exif.value, TAG_INTEROP_IFD, order);
    interop := ReadSubIfd(tiff, interopAt, order);
    if interopAt.Some? {
      entries := WithoutTag(entries, TAG_INTEROP_IFD);
    }
    exif := Some(entries);
  }

  method ReadThumbDir(tiff: seq<Byte>, next: U32, order: ByteOrder) returns (ifd1: Option<Dir>, thumbnail: Option<seq<Byte>>)
    ensures (ifd1, thumbnail) == ThumbDir(tiff, next, order)
  {
    hide ParseIfd, Filter, ReadUint, First, ExifReading.ReadsDirectory;
    ifd1, thumbnail := None, None;
    if next == 0 {
      return;
    }
    var r := ReadIfd(tiff, next, order);
    if r.None? {
      return;
    }
    var entries := r.value.0;
    var off := ReadFirstUint(entries, TAG_THUMB_OFFSET, order);
    var len := ReadFirstUint(entries, TAG_THUMB_LENGTH, order);
    if off.Some? && len.Some? && off.value + len.value <= |tiff| {
      thumbnail := Some(tiff[off.value..off.value + len.value]);
    }
    entries := WithoutTag(entries, TAG_THUMB_OFFSET);
    entries := WithoutTag(entries, TAG_THUMB_LENGTH);
    ifd1 := Some(entries);
  }

  /** Sweeping both tags at the end is sweeping each right after its pointer was taken. */
  lemma SweepsCommute(raw: Dir, order: ByteOrder)
    ensures var (exifAt, ifd0) := TakePointer(raw, TAG_EXIF_IFD, order);
            var (gpsAt, rest) := TakePointer(ifd0, TAG_GPS_IFD, order);
            var (exifAt', swept) := TakeAll(raw, TAG_EXIF_IFD, order);
            var (gpsAt', final) := TakeAll(swept, TAG_GPS_IFD, order);
            && exifAt == exifAt' && gpsAt == gpsAt'
            && final == DropIf(DropIf(rest, exifAt.Some?, TAG_EXIF_IFD), gpsAt.Some?, TAG_GPS_IFD)
  {
    hide TakePointer, Filter, First;
    var (exifAt, ifd0) := TakePointer(raw, TAG_EXIF_IFD, order);
    var (gpsAt, rest) := TakePointer(ifd0, TAG_GPS_IFD, order);
    var swept := TakeAll(raw, TAG_EXIF_IFD, order).1;
    TakePointerMeans(ifd0, TAG_GPS_IFD, order);
    TakePointerMeans(swept, TAG_GPS_IFD, order);
    if exifAt.Some? {
      FirstWithout(ifd0, TAG_EXIF_IFD, TAG_GPS_IFD);
      WithoutCommute(rest, TAG_EXIF_IFD, TAG_GPS_IFD);
      WithoutCommute(ifd0, TAG_EXIF_IFD, TAG_GPS_IFD);
    }
  }

  lemma TakePointerMeans(s: Dir, tag: U16, order: ByteOrder)
    ensures var (at, rest) := TakePointer(s, tag, order);
            var first := First(s, tag);
            && (at.Some? <==> first.Some? && |first.value.value| >= 4)
            && (at.Some? ==> at.value == Dec32(first.value.value[..4], order))
            && (at.None? ==> rest == s)
            && (at.Some? ==> WithoutTag(rest, tag) == WithoutTag(s, tag))
  {
    hide Filter;
    TakeAllMeans(s, tag, order);
  }

  lemma WithoutCommute(s: Dir, a: U16, b: U16)
    ensures WithoutTag(WithoutTag(s, a), b) == WithoutTag(WithoutTag(s, b), a)
  {
    hide Filter;
    var both: Entry -> bool := (e: Entry) => e.tag != a && e.tag != b;
    FilterTwice(NotTag(a), NotTag(b), both, s);
    FilterTwice(NotTag(b), NotTag(a), both, s);
  }

  // ----- editing a tree -----

  /** The source's set_ifd0_string: the slot of the first entry with the tag, or a push. */
  method SetIfd0String(entries: Dir, tag: U16, text: seq<Byte>, encoding: TextEncoding) returns (r: Dir)
    ensures r == Replace(entries, StringEntry(tag, text, encoding))
  {
    var entry := StringEntry(tag, text, encoding);
    var slot: nat := 0;
    while slot < |entries| && entries[slot].tag != tag
      invariant slot <= |entries| && forall j :: 0 <= j < slot ==> entries[j].tag != tag
    {
      slot := slot + 1;
    }
    assert slot == FirstIndex(entries, tag);
    if slot < |entries| {
      return entries[slot := entry];
    }
    return entries + [entry];
  }

  /** Either setter writes into the slot of the first orientation entry. */
  lemma SetSame(x: Tree, o: Orientation)
    requires HasTag(x.ifd0, TAG_ORIENTATION)
    ensures var i := FirstIndex(x.ifd0, TAG_ORIENTATION);
            var next := Reauthored(x.ifd0[i], o, x.order);
            && SetOrientation(x, o) == x.(ifd0 := x.ifd0[i := if next.Some? then next.value else OrientationEntry(o, x.order)])
            && SetOrientationTag(x, o) == if next.Some? then x.(ifd0 := x.ifd0[i := next.value]) else x
  {
    hide FirstIndex, IntBytes, Enc16;
  }

  lemma ToBytesUnfolds(x: Tree)
    ensures var p := PlanOf(x);
            ExifModel.ToBytes(x) == Prefix(x) + Header(x.order)
              + DirBytes(x.ifd0, Ifd0Links(x), HEADER_SIZE, NextOf(x), x.order)
              + OptBytes(x.exif, ExifLinks(x), p.exif, x.order)
              + OptBytes(WrittenInterop(x), [], p.interop, x.order)
              + OptBytes(x.gps, [], p.gps, x.order)
              + OptBytes(x.ifd1, Ifd1Links(x), p.ifd1, x.order)
              + ThumbBytes(x)
  {
    hide DirBytes, OptBytes, Header, PlanOf, Ifd0Links, ExifLinks, Ifd1Links, NextOf;
    var p := PlanOf(x);
    EightParts(Prefix(x), Header(x.order), DirBytes(x.ifd0, Ifd0Links(x), HEADER_SIZE, NextOf(x), x.order),
               OptBytes(x.exif, ExifLinks(x), p.exif, x.order), OptBytes(WrittenInterop(x), [], p.interop, x.order),
               OptBytes(x.gps, [], p.gps, x.order), OptBytes(x.ifd1, Ifd1Links(x), p.ifd1, x.order), ThumbBytes(x));
  }

  lemma EightParts(a: seq<Byte>, b: seq<Byte>, c: seq<Byte>, d: seq<Byte>, e: seq<Byte>, f: seq<Byte>, g: seq<Byte>,
                   h: seq<Byte>)
    ensures a + (b + (c + (d + (e + (f + (g + h)))))) == a + b + c + d + e + f + g + h
  {
    Grow(a + b + c + d + e + f, g, h);
    Grow(a + b + c + d + e, f, g + h);
    Grow(a + b + c + d, e, f + (g + h));
    Grow(a + b + c, d, e + (f + (g + h)));
    Grow(a + b, c, d + (e + (f + (g + h))));
    Grow(a, b, c + (d + (e + (f + (g + h)))));
  }

  // ----- the tree -----

  class Exif {
    var order: ByteOrder
    var hadPrefix: bool
    var ifd0: Dir
    var exifIfd: Option<Dir>
    var gpsIfd: Option<Dir>
    var interopIfd: Option<Dir>
    var ifd1: Option<Dir>
    var thumbnail: Option<seq<Byte>>
    var textEncoding: TextEncoding

    /** The value that the fields hold. */
    function Value(): Tree
      reads this
    {
      Tree(order, hadPrefix, ifd0, exifIfd, gpsIfd, interopIfd, ifd1, thumbnail, textEncoding)
    }

    constructor New(encoding: TextEncoding)
      ensures Value() == ExifEditing.New(encoding)
    {
      order, hadPrefix, ifd0 := Little, false, [];
      exifIfd, gpsIfd, interopIfd, ifd1, thumbnail := None, None, None, None, None;
      textEncoding := encoding;
    }

    constructor Of(x: Tree)
      ensures Value() == x
    {
      order, hadPrefix, ifd0 := x.order, x.hadPrefix, x.ifd0;
      exifIfd, gpsIfd, interopIfd, ifd1, thumbnail := x.exif, x.gps, x.interop, x.ifd1, x.thumbnail;
      textEncoding := x.textEncoding;
    }

    /** Pointers are taken one by one and leftovers swept at the end, in the source's order. */
    static method Parse(data: seq<Byte>) returns (r: Option<Exif>)
      ensures r.Some? <==> ExifModel.Parse(data).Some?
      ensures r.Some? ==> fresh(r.value) && r.value.Value() == ExifModel.Parse(data).value
    {
      hide ParseIfd, TakePointer, WithoutTag, OrderOf, Rd16, Rd32, Thumbnail, WithoutThumbTags, ExifReading.ReadsDirectory;
      var tiff := TiffOf(data);
      if |tiff| < HEADER_SIZE {
        return None;
      }
      var order := OrderOf(tiff);
      if order.None? || Rd16(tiff, 2, order.value) != Some(42) {
        return None;
      }
      var off := Rd32(tiff, 4, order.value);
      var first := ReadIfd(tiff, off.value, order.value);
      if first.None? {
        return None;
      }
      var (raw, next) := first.value;
      var (exifAt, ifd0) := TakePointer(raw, TAG_EXIF_IFD, order.value);
      var exifIfd, interopIfd := ReadExifDirs(tiff, exifAt, order.value);
      var (gpsAt, rest) := TakePointer(ifd0, TAG_GPS_IFD, order.value);
      var gpsIfd := ReadSubIfd(tiff, gpsAt, order.value);
      var ifd1, thumbnail := ReadThumbDir(tiff, next, order.value);
      ghost var swept := rest;
      if exifAt.Some? {
        rest := WithoutTag(rest, TAG_EXIF_IFD);
      }
      if gpsAt.Some? {
        rest := WithoutTag(rest, TAG_GPS_IFD);
      }
      SweepsCommute(raw, order.value);
      var x := new Exif.Of(Tree(order.value, HasPrefix(data), rest, exifIfd, gpsIfd, interopIfd, ifd1, thumbnail, Ascii));
      return Some(x);
    }

    /** Insert or replace the copyright, which reads back up to any NUL. */
    method SetCopyright(text: seq<Byte>)
      modifies this
      ensures Value() == ExifModel.SetCopyright(old(Value()), text)
      ensures StringOf(ifd0, TAG_COPYRIGHT) == Readable(text)
      ensures StringOf(ifd0, TAG_ARTIST) == StringOf(old(ifd0), TAG_ARTIST)
    {
      hide StringOf, Replace, Readable;
      SetStringReads(Value(), TAG_COPYRIGHT, TAG_ARTIST, text);
      ifd0 := SetIfd0String(ifd0, TAG_COPYRIGHT, text, textEncoding);
    }

    method SetArtist(text: seq<Byte>)
      modifies this
      ensures Value() == ExifModel.SetArtist(old(Value()), text)
      ensures StringOf(ifd0, TAG_ARTIST) == Readable(text)
      ensures StringOf(ifd0, TAG_COPYRIGHT) == StringOf(old(ifd0), TAG_COPYRIGHT)
    {
      hide StringOf, Replace, Readable;
      SetStringReads(Value(), TAG_ARTIST, TAG_COPYRIGHT, text);
      ifd0 := SetIfd0String(ifd0, TAG_ARTIST, text, textEncoding);
    }

    /** The authoring setter. */
    method SetOrientation(o: Orientation)
      modifies this
      ensures Value() == ExifModel.SetOrientation(old(Value()), o) && OrientationOf(Value()) == Some(o)
    {
      hide Reauthored, OrientationEntry, OrientationOf, FirstIndex;
      SetOrientationReads(Value(), o, 0);
      var i := FirstIndex(ifd0, TAG_ORIENTATION);
      if i < |ifd0| {
        var next := Reauthored(ifd0[i], o, order);
        SetSame(Value(), o);
        ifd0 := ifd0[i := if next.Some? then next.value else OrientationEntry(o, order)];
      } else {
        ifd0 := ifd0 + [OrientationEntry(o, order)];
      }
    }

    /** The reconciling setter: an integer entry takes the value, anything else stays. */
    method SetOrientationTag(o: Orientation)
      modifies this
      ensures Value() == ExifModel.SetOrientationTag(old(Value()), o) && |ifd0| == |old(ifd0)|
    {
      hide Reauthored, FirstIndex;
      SetOrientationTagReads(Value(), o);
      var i := FirstIndex(ifd0, TAG_ORIENTATION);
      if i < |ifd0| {
        var next := Reauthored(ifd0[i], o, order);
        SetSame(Value(), o);
        if next.Some? {
          ifd0 := ifd0[i := next.value];
        }
      }
    }

    /** The pruned tree: nothing in it is left to prune, and it stays writable. */
    method Filtered(policy: Policy) returns (y: Exif)
      ensures fresh(y) && y.Value() == ExifPolicy.Filtered(Value(), policy)
      ensures ExifSurvival.PrunedTo(Value(), y.Value(), policy) && ExifPruning.Clean(y.Value(), policy)
      ensures Canonical(Value()) ==> Canonical(y.Value())
    {
      hide ExifPolicy.Filtered, Canonical, ExifPruning.Clean, ExifSurvival.PrunedTo;
      ExifSurvival.FilteredIsPruned(Value(), policy);
      ExifPruning.FilteredIsClean(Value(), policy);
      if Canonical(Value()) {
        ExifPruning.FilteredIsCanonical(Value(), policy);
      }
      var x := ExifPolicy.Filtered(Value(), policy);
      y := new Exif.Of(x);
    }

    /** Computed without laying anything out, and exact. */
    method SerializedLen() returns (n: nat)
      ensures n == |ExifModel.ToBytes(Value())|
    {
      hide BlockLen, ExifModel.ToBytes;
      SerializedLenIsExact(Value());
      var interop := if exifIfd.Some? then interopIfd else None;
      n := if hadPrefix then |EXIF_PREFIX| else 0;
      var size := BlockSize(ifd0, Count(exifIfd) + Count(gpsIfd));
      n := n + HEADER_SIZE + size;
      size := OptSize(exifIfd, Count(interop));
      n := n + size;
      size := OptSize(interop, 0);
      n := n + size;
      size := OptSize(gpsIfd, 0);
      n := n + size;
      size := OptSize(ifd1, 2 * Count(thumbnail));
      n := n + size;
      if thumbnail.Some? {
        n := n + |thumbnail.value|;
      }
    }

    /** A cursor assigns the offsets. */
    method PlanOffsets() returns (p: Plan)
      ensures p == PlanOf(Value())
    {
      hide BlockLen;
      var interop := if exifIfd.Some? then interopIfd else None;
      var size := BlockSize(ifd0, Count(exifIfd) + Count(gpsIfd));
      var cursor: nat := HEADER_SIZE + size;
      var exifOff: nat := cursor;
      size := OptSize(exifIfd, Count(interop));
      cursor := cursor + size;
      var interopOff: nat := cursor;
      size := OptSize(interop, 0);
      cursor := cursor + size;
      var gpsOff: nat := cursor;
      size := OptSize(gpsIfd, 0);
      cursor := cursor + size;
      var ifd1Off: nat := cursor;
      size := OptSize(ifd1, 2 * Count(thumbnail));
      cursor := cursor + size;
      var thumbOff: nat := cursor;
      if thumbnail.Some? {
        cursor := cursor + |thumbnail.value|;
      }
      return Plan(exifOff, interopOff, gpsOff, ifd1Off, thumbOff, cursor);
    }

    /** The blocks are appended in the order the cursor placed them. */
    method ToBytes() returns (out: seq<Byte>)
      ensures out == ExifModel.ToBytes(Value())
    {
      hide DirBytes, OptBytes, Header, ExifModel.ToBytes, PlanOf;
      ghost var x := Value();
      var p := PlanOffsets();
      var interop := if exifIfd.Some? then interopIfd else None;
      out := (if hadPrefix then EXIF_PREFIX else []) + Header(order);
      var pointers: seq<Link> := [];
      if exifIfd.Some? {
        pointers := pointers + [Link(TAG_EXIF_IFD, p.exif)];
      }
      if gpsIfd.Some? {
        pointers := pointers + [Link(TAG_GPS_IFD, p.gps)];
      }
      assert pointers == Ifd0Links(x);
      out := WriteDir(out, ifd0, pointers, HEADER_SIZE, if ifd1.Some? then ToU32(p.ifd1) else 0, order);
      var inner := if interop.Some? then [Link(TAG_INTEROP_IFD, p.interop)] else [];
      out := WriteOpt(out, exifIfd, inner, p.exif, order);
      out := WriteOpt(out, interop, [], p.interop, order);
      out := WriteOpt(out, gpsIfd, [], p.gps, order);
      var thumbLinks := if thumbnail.Some?
        then [Link(TAG_THUMB_OFFSET, p.thumb), Link(TAG_THUMB_LENGTH, |thumbnail.value|)] else [];
      out := WriteOpt(out, ifd1, thumbLinks, p.ifd1, order);
      if thumbnail.Some? {
        out := out + thumbnail.value;
      }
      ToBytesUnfolds(x);
    }
  }

  // ----- retain -----

  /** Overwrites bytes in a copy of the blob, one after another. */
  method Overwrite(data: seq<Byte>, off: nat, bytes: seq<Byte>) returns (out: seq<Byte>)
    requires off + |bytes| <= |data|
    ensures out == OverwriteAt(data, off, bytes)
  {
    var copy := new Byte[|data|](i requires 0 <= i < |data| => data[i]);
    for i := 0 to |bytes|
      invariant forall k :: 0 <= k < |data| ==> copy[k] == if off <= k < off + i then bytes[k - off] else data[k]
    {
      copy[off + i] := bytes[i];
    }
    out := copy[..];
    var want := OverwriteAt(data, off, bytes);
    forall k | 0 <= k < |data|
      ensures out[k] == want[k]
    {
      assert want[k] == if k < off then data[k] else if k < off + |bytes| then bytes[k - off] else data[k];
    }
    assert out == want;
  }

  method PatchInline(data: seq<Byte>, x: Tree, e: Entry, v: U32) returns (r: Option<seq<Byte>>)
    ensures r == PatchInlineInt(data, x, e, v)
  {
    hide OverwriteAt, IntBytes;
    var bytes := IntBytes(e.kind, v, x.order);
    if bytes.None? || e.count * |bytes.value| > 4 || !e.origin.Source? {
      return None;
    }
    var off: nat := (if x.hadPrefix then |EXIF_PREFIX| else 0) + e.origin.offset;
    if off + |bytes.value| > |data| {
      return None;
    }
    var out := Overwrite(data, off, bytes.value);
    return Some(out);
  }

  /** One parse and at most one rewrite. */
  method RetainReconciled(src: seq<Byte>, policy: Policy, want: Option<Orientation>) returns (r: Option<seq<Byte>>)
    ensures r == Retain(src, policy, want)
    ensures ExifSurvival.Reconciled(src, policy, want, r)
  {
    hide ExifSurvival.Reconciled;
    ExifSurvival.RetainReconciles(src, policy, want);
    hide Filtered, SetOrientationTag, PatchInlineInt, Parse, ToBytes, SerializedLen, First, OrientationOf;
    if policy.DiscardsEverything() {
      return None;
    }
    var keepsAll := policy.KeepsEverything();
    if keepsAll && want.None? {
      return Some(src);
    }
    if |src| > U32_MAX {
      return if keepsAll then Some(src) else None;
    }
    var exif := Exif.Parse(src);
    if exif.None? {
      return if keepsAll then Some(src) else None;
    }
    if keepsAll {
      var x := exif.value.Value();
      if OrientationOf(x) == want {
        return Some(src);
      }
      var entry := First(x.ifd0, TAG_ORIENTATION);
      if entry.None? {
        return Some(src);
      }
      var patched := PatchInline(src, x, entry.value, want.value);
      return if patched.Some? then patched else Some(src);
    }
    var pruned := exif.value.Filtered(policy);
    if want.Some? {
      pruned.SetOrientationTag(want.value);
    }
    SerializedLenIsExact(pruned.Value());
    if pruned.ifd0 == [] && pruned.exifIfd.None? && pruned.gpsIfd.None? && pruned.ifd1.None? {
      return None;
    }
    var len := pruned.SerializedLen();
    if len > Min(2 * |src| + 1024, U32_MAX) {
      return None;
    }
    var out := pruned.ToBytes();
    return Some(out);
  }
}
