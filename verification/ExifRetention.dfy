/**
 retain_reconciled as a whole (src/exif.rs): in-place patching is local and reads back, and rewriting
 is idempotent byte for byte, on the in-place path and on the pruning path.
 */
module ExifRetention {
  import opened Words
  import opened Bytes
  import opened ExifEntries
  import opened ExifLayout
  import opened ExifModel
  import opened ExifReparse
  import opened ExifRoundTrip
  import opened ExifFixpoint
  import opened ExifCanonical
  import opened ExifPolicy
  import opened ExifPruning
  import opened ExifPatch

  // ----- the patch, on the TIFF -----

  /** IFD0 as parsed, before its pointers are taken. */
  ghost predicate Raw(tiff: seq<Byte>, order: ByteOrder, off: nat, raw: Dir) {
    && ParseHeader(tiff) == Some((order, off))
    && ParseIfd(tiff, off, order).Some? && ParseIfd(tiff, off, order).value.0 == raw
  }

  /** The first orientation entry, inline, and the bytes that replace its value. */
  ghost predicate Patchable(raw: Dir, e: Entry, o: Orientation, bytes: seq<Byte>, order: ByteOrder) {
    && First(raw, TAG_ORIENTATION) == Some(e) && WellFormed(e)
    && IntBytes(e.kind, o, order) == Some(bytes) && e.count * |bytes| <= 4
  }

  lemma PatchableInline(raw: Dir, e: Entry, o: Orientation, bytes: seq<Byte>, order: ByteOrder)
    requires Patchable(raw, e, o, bytes, order)
    ensures !e.External() && |e.value| == e.count * |bytes| && 2 <= |bytes| <= 4 && e in raw
  {
    FirstMember(raw, TAG_ORIENTATION);
  }

  /** Descriptor k of IFD0, twelve bytes from `at`, is the one the entry was read from, and holds its value. */
  ghost predicate OwnDescriptor(tiff: seq<Byte>, order: ByteOrder, e: Entry, off: nat, k: nat) {
    var at := off + 2 + 12 * k;
    && ParseHeader(tiff) == Some((order, off))
    && Rd16(tiff, off, order).Some? && k < Rd16(tiff, off, order).value
    && at + 12 <= |tiff| && ResolveEntry(tiff, at, order) == Some(e) && e.origin == Source(at + 8)
  }

  /** Where the entry's value field is: in descriptor k of IFD0, never in the header. */
  lemma FieldOf(tiff: seq<Byte>, order: ByteOrder, off: nat, raw: Dir, e: Entry, o: Orientation, bytes: seq<Byte>)
    returns (k: nat, at: nat)
    requires Raw(tiff, order, off, raw) && Patchable(raw, e, o, bytes, order)
    ensures e.origin == Source(at + 8) && at == off + 2 + 12 * k && at + 12 <= |tiff|
    ensures InField(tiff, off + 2, k, at, order, at + 8, at + 8 + |bytes|)
    ensures OwnDescriptor(tiff, order, e, off, k)
  {
    hide ParsedEntries, ResolveEntry, First, ParseHeader;
    PatchableInline(raw, e, o, bytes, order);
    k, at := InlineDescriptor(tiff, off + 2, Rd16(tiff, off, order).value, order, e);
  }

  lemma RawOk(tiff: seq<Byte>, order: ByteOrder, off: nat, raw: Dir)
    requires Raw(tiff, order, off, raw)
    ensures AllWellFormed(raw) && forall e :: e in raw ==> WellFormed(e) && Slice(tiff, e)
  {
    hide ParsedEntries, WellFormed, Slice;
    EntriesOk(tiff, off + 2, Rd16(tiff, off, order).value, order);
    MembersWellFormed(raw);
  }

  /** Patching keeps the header and the shape of IFD0, and the patched entry holds the new bytes. */
  lemma PatchTiff(a: seq<Byte>, b: seq<Byte>, order: ByteOrder, off: nat, raw: Dir, e: Entry, o: Orientation,
                  bytes: seq<Byte>)
    returns (raw': Dir)
    requires Raw(a, order, off, raw) && Patchable(raw, e, o, bytes, order) && e.origin.Source?
    requires e.origin.offset + |bytes| <= |a| && b == OverwriteAt(a, e.origin.offset, bytes)
    ensures Raw(b, order, off, raw') && Shapes(raw') == Shapes(raw)
    ensures First(raw', TAG_ORIENTATION).Some?
    ensures var e' := First(raw', TAG_ORIENTATION).value;
            Shape(e') == Shape(e) && WellFormed(e') && Slice(b, e')
  {
    hide ParseIfd, ParseHeader, ResolveEntry, OverwriteAt, First, Shapes, Patchable;
    var k, at := FieldOf(a, order, off, raw, e, o, bytes);
    OverwriteAgrees(a, at + 8, bytes);
    HeaderKept(a, b, at + 8, at + 8 + |bytes|);
    IfdShape(a, b, at + 8, at + 8 + |bytes|, off, k, at, order);
    raw' := ParseIfd(b, off, order).value.0;
    PatchableFirst(raw, e, o, bytes, order);
    ShapesSame(raw, raw', TAG_ORIENTATION);
    RawOk(b, order, off, raw');
    FirstMember(raw', TAG_ORIENTATION);
  }

  lemma PatchableFirst(raw: Dir, e: Entry, o: Orientation, bytes: seq<Byte>, order: ByteOrder)
    requires Patchable(raw, e, o, bytes, order)
    ensures First(raw, TAG_ORIENTATION) == Some(e)
  {
  }

  /** An integer entry whose first bytes were written reads back what was written; an empty one reads nothing. */
  lemma ReadsWritten(tiff: seq<Byte>, e: Entry, o: Orientation, bytes: seq<Byte>, order: ByteOrder)
    requires IntBytes(e.kind, o, order) == Some(bytes) && WellFormed(e) && Slice(tiff, e)
    requires e.count * |bytes| <= 4 && At(tiff, e.origin.offset, bytes)
    ensures ReadUint(e, order) == if e.count >= 1 then Some(o) else None
  {
    hide Enc16, Enc32, Dec16, Dec32;
    Dec16Enc16(o, order);
    Dec32Enc32(o, order);
    var n, at := |bytes|, e.origin.offset;
    if e.count >= 1 {
      assert e.value[0..n] == tiff[at..at + |e.value|][0..n] == tiff[at..at + n] == bytes;
    }
  }

  // ----- the patch, on the blob -----

  lemma ParseParts(data: seq<Byte>) returns (order: ByteOrder, off: nat, raw: Dir)
    requires Parse(data).Some?
    ensures Raw(TiffOf(data), order, off, raw)
    ensures var x := Parse(data).value;
            x.order == order && x.hadPrefix == HasPrefix(data) && x.ifd0 == Ifd0Of(raw, order)
  {
    hide ParseHeader, ParseIfd, TakeAll, ExifDirs, SubIfd, ThumbDir;
    var (ord, at) := ParseHeader(TiffOf(data)).value;
    order, off, raw := ord, at, ParseIfd(TiffOf(data), at, ord).value.0;
  }

  lemma PartsParse(data: seq<Byte>, order: ByteOrder, off: nat, raw: Dir)
    requires Raw(TiffOf(data), order, off, raw)
    ensures Parse(data).Some?
    ensures var x := Parse(data).value;
            x.order == order && x.hadPrefix == HasPrefix(data) && x.ifd0 == Ifd0Of(raw, order)
  {
    hide ParseHeader, ParseIfd, TakeAll, ExifDirs, SubIfd, ThumbDir;
  }

  lemma OverwriteTiff(data: seq<Byte>, off: nat, bytes: seq<Byte>)
    requires off >= HEADER_SIZE && off + |bytes| <= |TiffOf(data)|
    ensures var pre := if HasPrefix(data) then |EXIF_PREFIX| else 0;
            && pre + off + |bytes| <= |data|
            && HasPrefix(OverwriteAt(data, pre + off, bytes)) == HasPrefix(data)
            && TiffOf(OverwriteAt(data, pre + off, bytes)) == OverwriteAt(TiffOf(data), off, bytes)
  {
    var pre := if HasPrefix(data) then |EXIF_PREFIX| else 0;
    var b := OverwriteAt(data, pre + off, bytes);
    assert b[..6] == data[..6];
    if HasPrefix(data) {
      assert b[6..] == OverwriteAt(data[6..], off, bytes);
    }
  }

  /** What a successful in-place orientation rewrite is. */
  ghost predicate Patched(data: seq<Byte>, x: Tree, o: Orientation, b: seq<Byte>) {
    SetOrientationWith(data, x, o) == Some(b)
  }

  /** The entry that a rewrite patches, the bytes it gets, and where they go. */
  lemma PatchParts(data: seq<Byte>, o: Orientation, b: seq<Byte>)
    returns (e: Entry, bytes: seq<Byte>, order: ByteOrder, off: nat, raw: Dir)
    requires Parse(data).Some? && Patched(data, Parse(data).value, o, b)
    ensures Raw(TiffOf(data), order, off, raw) && Patchable(raw, e, o, bytes, order)
    ensures First(Parse(data).value.ifd0, TAG_ORIENTATION) == Some(e)
    ensures Parse(data).value.order == order && Parse(data).value.hadPrefix == HasPrefix(data)
    ensures Parse(data).value.ifd0 == Ifd0Of(raw, order)
    ensures e.origin.Source?
    ensures var at := |Prefix(Parse(data).value)| + e.origin.offset;
            at + |bytes| <= |data| && b == OverwriteAt(data, at, bytes)
  {
    hide Parse, First, Ifd0Of, OverwriteAt, Enc16, Enc32;
    var x := Parse(data).value;
    order, off, raw := ParseParts(data);
    OrientationKept(raw, order);
    e := First(x.ifd0, TAG_ORIENTATION).value;
    bytes := IntBytes(e.kind, o, order).value;
    RawOk(TiffOf(data), order, off, raw);
    FirstMember(raw, TAG_ORIENTATION);
  }

  lemma PatchedTree(data: seq<Byte>, o: Orientation, b: seq<Byte>)
    returns (e: Entry, bytes: seq<Byte>, k: nat, off: nat)
    requires Parse(data).Some? && Patched(data, Parse(data).value, o, b)
    ensures First(Parse(data).value.ifd0, TAG_ORIENTATION) == Some(e) && IntBytes(e.kind, o, Parse(data).value.order) == Some(bytes)
    ensures OwnDescriptor(TiffOf(data), Parse(data).value.order, e, off, k)
    ensures e.origin.Source? && |bytes| <= 4
    ensures |Prefix(Parse(data).value)| + e.origin.offset + |bytes| <= |b| == |data|
    ensures AgreeOutside(data, b, |Prefix(Parse(data).value)| + e.origin.offset,
                         |Prefix(Parse(data).value)| + e.origin.offset + |bytes|)
    ensures At(b, |Prefix(Parse(data).value)| + e.origin.offset, bytes)
    ensures Parse(b).Some? && Shapes(Parse(b).value.ifd0) == Shapes(Parse(data).value.ifd0)
    ensures Parse(b).value.order == Parse(data).value.order && Parse(b).value.hadPrefix == Parse(data).value.hadPrefix
    ensures OrientationOf(Parse(b).value) == if e.count >= 1 then Some(o) else None
  {
    hide Parse, First, Ifd0Of, OverwriteAt, Shapes, Raw, TiffOf, HasPrefix, ReadUint, Patchable, Shape, Slice,
      OwnDescriptor;
    var order, raw;
    e, bytes, order, off, raw := PatchParts(data, o, b);
    var at;
    k, at := FieldOf(TiffOf(data), order, off, raw, e, o, bytes);
    PatchableInline(raw, e, o, bytes, order);
    OverwriteAgrees(data, |Prefix(Parse(data).value)| + e.origin.offset, bytes);
    OverwriteTiff(data, e.origin.offset, bytes);
    var raw' := PatchTiff(TiffOf(data), TiffOf(b), order, off, raw, e, o, bytes);
    PartsParse(b, order, off, raw');
    RawOk(TiffOf(data), order, off, raw);
    RawOk(TiffOf(b), order, off, raw');
    ShapesIfd0(raw, raw', order);
    OrientationKept(raw', order);
    OverwriteAgrees(TiffOf(data), e.origin.offset, bytes);
    PatchedReads(TiffOf(b), raw, e, First(raw', TAG_ORIENTATION).value, o, bytes, order);
  }

  lemma PatchedReads(tiff: seq<Byte>, raw: Dir, e: Entry, e': Entry, o: Orientation, bytes: seq<Byte>, order: ByteOrder)
    requires Patchable(raw, e, o, bytes, order) && Shape(e') == Shape(e) && WellFormed(e') && Slice(tiff, e')
    requires e.origin.Source? && At(tiff, e.origin.offset, bytes)
    ensures IntBytes(e.kind, o, order) == Some(bytes) && ReadUint(e', order) == if e.count >= 1 then Some(o) else None
  {
    hide IntBytes, First, At, ReadUint;
    assert e'.kind == e.kind && e'.count == e.count && e'.origin == e.origin;
    ReadsWritten(tiff, e', o, bytes, order);
  }

  /** Where the patched entry's value begins in the blob, and how many bytes it has. */
  function PatchAt(x: Tree, e: Entry): nat {
    |Prefix(x)| + (if e.origin.Source? then e.origin.offset else 0)
  }

  function PatchLen(e: Entry): nat {
    if e.kind == TIFF_SHORT then 2 else 4
  }

  /**
   In-place patching is local, whatever the offsets of the blob are: the length stays, bytes change
   only in the last four bytes of the descriptor of IFD0 that the entry was read from, the blob still
   parses, IFD0 keeps its tags, types, counts and value locations, and the orientation reads back as
   wanted exactly when the entry has a value.
   */
  lemma PatchIsLocal(data: seq<Byte>, o: Orientation)
    requires PatchOrientation(data, o).Some?
    ensures First(Parse(data).value.ifd0, TAG_ORIENTATION).Some?
    ensures var x, b := Parse(data).value, PatchOrientation(data, o).value;
            var e := First(x.ifd0, TAG_ORIENTATION).value;
            && AgreeOutside(data, b, PatchAt(x, e), PatchAt(x, e) + PatchLen(e))
            && PatchLen(e) <= 4
            && (exists off: nat, k: nat :: OwnDescriptor(TiffOf(data), x.order, e, off, k))
            && Parse(b).Some?
            && Shapes(Parse(b).value.ifd0) == Shapes(x.ifd0)
            && OrientationOf(Parse(b).value) == if e.count >= 1 then Some(o) else None
  {
    hide Parse, First, OverwriteAt, Shapes, ReadUint, Prefix, AgreeOutside, Enc16, Enc32, OrientationOf, OwnDescriptor;
    var b := PatchOrientation(data, o).value;
    var e, bytes, k, off := PatchedTree(data, o, b);
  }

  // ----- the in-place path is idempotent -----

  lemma OverwriteAgain(data: seq<Byte>, off: nat, bytes: seq<Byte>)
    requires At(data, off, bytes)
    ensures OverwriteAt(data, off, bytes) == data
  {
    assert data[..off] + bytes + data[off + |bytes|..] == data;
  }

  /** Patching a patched blob changes nothing. */
  lemma PatchTwice(data: seq<Byte>, o: Orientation, b: seq<Byte>)
    requires Parse(data).Some? && Patched(data, Parse(data).value, o, b)
    ensures Parse(b).Some? && RetainInPlace(b, Parse(b).value, Some(o)) == b
  {
    hide Parse, First, OverwriteAt, AgreeOutside, IntBytes, OrientationOf, Shapes, At, Patched, SetOrientationWith, Prefix,
      OwnDescriptor;
    var e, bytes, k, off := PatchedTree(data, o, b);
    var x, y := Parse(data).value, Parse(b).value;
    ShapesSame(x.ifd0, y.ifd0, TAG_ORIENTATION);
    SamePrefix(x, y);
    PatchStays(b, y, First(y.ifd0, TAG_ORIENTATION).value, o, bytes);
  }

  lemma SamePrefix(x: Tree, y: Tree)
    requires x.hadPrefix == y.hadPrefix
    ensures Prefix(x) == Prefix(y)
  {
  }

  lemma PatchStays(b: seq<Byte>, y: Tree, e: Entry, o: Orientation, bytes: seq<Byte>)
    requires First(y.ifd0, TAG_ORIENTATION) == Some(e) && e.origin.Source?
    requires IntBytes(e.kind, o, y.order) == Some(bytes) && At(b, |Prefix(y)| + e.origin.offset, bytes)
    ensures RetainInPlace(b, y, Some(o)) == b
  {
    hide First, IntBytes, OverwriteAt, OrientationOf;
    OverwriteAgain(b, |Prefix(y)| + e.origin.offset, bytes);
  }

  lemma InPlaceTwice(src: seq<Byte>, want: Option<Orientation>)
    requires Parse(src).Some?
    ensures var b := RetainInPlace(src, Parse(src).value, want);
            |b| == |src| && Parse(b).Some? && RetainInPlace(b, Parse(b).value, want) == b
  {
    hide Parse, First, OrientationOf, SetOrientationWith, OwnDescriptor;
    var x := Parse(src).value;
    if want.Some? && OrientationOf(x) != want && SetOrientationWith(src, x, want.value).Some? {
      var b := SetOrientationWith(src, x, want.value).value;
      PatchTwice(src, want.value, b);
      var e, bytes, k, off := PatchedTree(src, want.value, b);
    }
  }

  // ----- the pruning path is idempotent -----

  lemma SameFirst(a: Dir, b: Dir, tag: U16)
    requires SameDir(a, b)
    ensures First(a, tag).Some? <==> First(b, tag).Some?
    ensures First(a, tag).Some? ==> First(a, tag).value.Content() == First(b, tag).value.Content()
  {
    hide Sort;
    var s, t := Sort(Bares(a)), Bares(b);
    RelaidFirst(s, t, tag);
    SortIsStable(Bares(a), tag);
    BareFirst(a, tag);
    BareFirst(b, tag);
  }

  lemma RelaidFirst(s: Dir, t: Dir, tag: U16)
    requires Relaid(s, t)
    ensures First(s, tag).Some? <==> First(t, tag).Some?
    ensures First(s, tag).Some? ==> First(s, tag).value.Content() == First(t, tag).value.Content()
  {
    forall i | 0 <= i < |s|
      ensures s[i].tag == t[i].tag
    {
      assert s[i].Content() == t[i].Content();
    }
    assert FirstIndex(s, tag) == FirstIndex(t, tag);
  }

  /** The wanted orientation is already in the tree. */
  ghost predicate Oriented(x: Tree, o: Orientation) {
    First(x.ifd0, TAG_ORIENTATION).Some? ==>
      var e := First(x.ifd0, TAG_ORIENTATION).value;
      Reauthored(e, o, x.order).Some? && Reauthored(e, o, x.order).value.Content() == e.Content()
  }

  lemma EditedIsOriented(x: Tree, policy: Policy, o: Orientation)
    requires Clean(x, policy)
    ensures Oriented(SetOrientationTag(x, o), o)
  {
    hide Reauthored, Keep, FirstIndex, Clean;
    var y := SetOrientationTag(x, o);
    var first := First(x.ifd0, TAG_ORIENTATION);
    if first.Some? {
      FirstMember(x.ifd0, TAG_ORIENTATION);
      CleanMember(x, policy, first.value);
      KeptIsInteger(first.value, policy, x.order, o);
      ReauthoredMeans(first.value, o, x.order);
      ReplaceFirst(x.ifd0, Reauthored(first.value, o, x.order).value, TAG_ORIENTATION);
    }
  }

  lemma CleanMember(x: Tree, policy: Policy, e: Entry)
    requires Clean(x, policy) && e in x.ifd0
    ensures Keep(e, policy, x.order, false)
  {
    hide Keep;
    assert Keeper(policy, x.order, false)(e);
  }

  lemma ReauthoredContent(a: Entry, b: Entry, o: Orientation, order: ByteOrder)
    requires a.Content() == b.Content()
    ensures Reauthored(a, o, order).Some? <==> Reauthored(b, o, order).Some?
    ensures Reauthored(a, o, order).Some? ==>
              Reauthored(a, o, order).value.Content() == Reauthored(b, o, order).value.Content()
  {
    hide Enc16, Enc32;
  }

  lemma SameOriented(x: Tree, y: Tree, o: Orientation)
    requires SameTree(x, y) && Oriented(x, o)
    ensures Oriented(y, o)
  {
    hide SameDir, First, Reauthored;
    SameFirst(x.ifd0, y.ifd0, TAG_ORIENTATION);
    if First(y.ifd0, TAG_ORIENTATION).Some? {
      var a, b := First(x.ifd0, TAG_ORIENTATION).value, First(y.ifd0, TAG_ORIENTATION).value;
      assert a.Content() == b.Content();
      ReauthoredContent(a, b, o, x.order);
    }
  }

  /** Setting an orientation that is already there leaves the tree as it is, but for ownership. */
  lemma OrientedStays(x: Tree, y: Tree, o: Orientation)
    requires SameTree(x, y) && Oriented(y, o)
    ensures SameTree(x, SetOrientationTag(y, o))
  {
    hide Reauthored, FirstIndex, Sort, SameOpt;
    var first := First(y.ifd0, TAG_ORIENTATION);
    if first.Some? {
      FirstMember(y.ifd0, TAG_ORIENTATION);
      ReauthoredMeans(first.value, o, y.order);
      var r := Reauthored(first.value, o, y.order).value;
      SameBares(y.ifd0, first.value, r);
    }
  }

  lemma SameBares(s: Dir, e: Entry, r: Entry)
    requires First(s, e.tag) == Some(e) && r.Content() == e.Content() && !r.External()
    ensures Bares(Replace(s, r)) == Bares(s)
  {
    hide FirstIndex;
    var i, t := FirstIndex(s, e.tag), Replace(s, r);
    assert r.tag == e.tag && |r.value| == |e.value|;
    assert t == s[i := r];
    forall k | 0 <= k < |s|
      ensures t[k].Bare() == s[k].Bare()
    {
    }
    MapEqual((x: Entry) => x.Bare(), (x: Entry) => x.Bare(), t, s);
  }

  lemma SameEmpty(x: Tree, y: Tree)
    requires SameTree(x, y)
    ensures Empty(x) <==> Empty(y)
  {
    hide SameDir;
    SameSizes(x.ifd0, y.ifd0);
  }

  /** What a pruning rewrite wrote: the pruned tree reads back, sorted. */
  lemma PrunedReadsBack(src: seq<Byte>, x: Tree, policy: Policy, want: Option<Orientation>)
    requires Canonical(x) && RetainPruned(src, x, policy, want).Some?
    ensures var y, b := Pruned(x, policy, want), RetainPruned(src, x, policy, want).value;
            b == ToBytes(y) && |b| == SerializedLen(y) <= U32_MAX
            && Parse(b).Some? && SameTree(y, Parse(b).value)
  {
    hide Pruned, Canonical, Empty, ToBytes, Parse, SameTree, PlanOf;
    var y := Pruned(x, policy, want);
    PrunedOk(x, policy, want);
    SerializedLenIsExact(y);
    RoundTrip(y);
  }

  /** Pruning the tree read back gives the same tree again. */
  lemma PrunedAgain(x: Tree, z: Tree, policy: Policy, want: Option<Orientation>)
    requires Canonical(x) && SameTree(Pruned(x, policy, want), z)
    ensures SameTree(Pruned(x, policy, want), Pruned(z, policy, want))
  {
    hide Filtered, SetOrientationTag, SameTree, Canonical, Clean, Oriented;
    var y := Pruned(x, policy, want);
    PrunedOk(x, policy, want);
    SameIsClean(y, z, policy);
    CleanIffFixed(z, policy);
    if want.Some? {
      FilteredIsClean(x, policy);
      EditedIsOriented(Filtered(x, policy), policy, want.value);
      SameOriented(y, z, want.value);
      OrientedStays(y, z, want.value);
    }
  }

  lemma PruneTwice(src: seq<Byte>, x: Tree, policy: Policy, want: Option<Orientation>)
    requires Canonical(x) && RetainPruned(src, x, policy, want).Some?
    ensures var b := RetainPruned(src, x, policy, want).value;
            |b| <= U32_MAX && Parse(b).Some? && RetainPruned(b, Parse(b).value, policy, want) == Some(b)
  {
    hide Pruned, Canonical, Empty, ToBytes, Parse, SameTree, SerializedLen;
    PrunedReadsBack(src, x, policy, want);
    var y, b := Pruned(x, policy, want), RetainPruned(src, x, policy, want).value;
    PrunedAgain(x, Parse(b).value, policy, want);
    var again := Pruned(Parse(b).value, policy, want);
    SameBytes(y, again);
    SameEmpty(y, again);
  }

  /** Rewriting is idempotent byte for byte, for every source, policy and wanted orientation. */
  lemma RetainTwiceIsOnce(src: seq<Byte>, policy: Policy, want: Option<Orientation>)
    requires Retain(src, policy, want).Some?
    ensures Retain(Retain(src, policy, want).value, policy, want) == Retain(src, policy, want)
  {
    hide RetainPruned, RetainInPlace, Parse;
    if !(policy.KeepsEverything() && want.None?) && |src| <= U32_MAX && Parse(src).Some? {
      if policy.KeepsEverything() {
        InPlaceTwice(src, want);
      } else {
        ParseIsCanonical(src);
        PruneTwice(src, Parse(src).value, policy, want);
      }
    }
  }

  // ----- what a pruning rewrite puts on the wire -----

  lemma RetainPrunes(src: seq<Byte>, policy: Policy, want: Option<Orientation>)
    requires !policy.KeepsEverything() && Retain(src, policy, want).Some?
    ensures Parse(src).Some? && Canonical(Parse(src).value)
    ensures RetainPruned(src, Parse(src).value, policy, want) == Retain(src, policy, want)
  {
    hide Parse, RetainPruned, Canonical;
    ParseIsCanonical(src);
  }

  /**
   The bytes of a pruning retain parse to exactly what the policy keeps: the accepted entries of IFD0,
   the Exif directory and IFD1, the validated Interop entries, the GPS directory whole or not at all,
   and the thumbnail or none.
   */
  lemma RetainedWire(src: seq<Byte>, policy: Policy)
    requires !policy.KeepsEverything() && Retain(src, policy, None).Some?
    ensures Parse(src).Some? && Parse(Retain(src, policy, None).value).Some?
    ensures var x, z := Parse(src).value, Parse(Retain(src, policy, None).value).value;
            && SameDir(Filter(Keeper(policy, x.order, false), x.ifd0), z.ifd0)
            && SameOpt(FilteredExif(x, policy), z.exif)
            && SameOpt(FilteredInterop(x, policy), z.interop)
            && SameOpt(if policy.gps then x.gps else None, z.gps)
            && SameOpt(if policy.thumbnail then FilterDir(x.ifd1, Keeper(policy, x.order, false)) else None, z.ifd1)
            && z.thumbnail == if policy.thumbnail then x.thumbnail else None
  {
    hide Parse, RetainPruned, Canonical, Filter, FilteredExif, FilteredInterop, FilterDir, SameDir, SameOpt, Keeper, Retain;
    RetainPrunes(src, policy, None);
    PrunedReadsBack(src, Parse(src).value, policy, None);
  }

  /** No entry of a discarded category, no maker note and no offset-bearing tag is in the directory. */
  ghost predicate Private(d: Dir, policy: Policy) {
    forall e :: e in d ==> policy.Keeps(Classify(e.tag)) && !OffsetBearing(e.tag) && e.tag != TAG_MAKER_NOTE
  }

  ghost predicate PrivateTree(z: Tree, policy: Policy) {
    && Private(z.ifd0, policy)
    && (z.exif.Some? ==> Private(z.exif.value, policy))
    && (z.ifd1.Some? ==> Private(z.ifd1.value, policy) && policy.thumbnail)
    && (z.thumbnail.Some? ==> policy.thumbnail)
    && (z.gps.Some? ==> policy.gps)
    && (z.interop.Some? ==> policy.color && forall e :: e in z.interop.value ==> KeepInterop(e))
  }

  lemma CleanIsPrivate(z: Tree, policy: Policy)
    requires Clean(z, policy)
    ensures PrivateTree(z, policy)
  {
    hide Keep, KeepInterop, Classify, OffsetBearing, Policy.Keeps;
    KeptIsPrivate(z.ifd0, policy, z.order, false);
    if z.exif.Some? {
      KeptIsPrivate(z.exif.value, policy, z.order, true);
    }
    if z.ifd1.Some? {
      KeptIsPrivate(z.ifd1.value, policy, z.order, false);
    }
  }

  lemma KeptIsPrivate(d: Dir, policy: Policy, order: ByteOrder, exifDir: bool)
    requires AllKept(d, Keeper(policy, order, exifDir))
    ensures Private(d, policy)
  {
    hide Keep, Classify, OffsetBearing, Policy.Keeps;
    forall e | e in d
      ensures policy.Keeps(Classify(e.tag)) && !OffsetBearing(e.tag) && e.tag != TAG_MAKER_NOTE
    {
      assert Keeper(policy, order, exifDir)(e);
      KeptCategory(e, policy, order, exifDir);
    }
  }

  /** What a policy discards does not reappear when the retained bytes are parsed. */
  lemma NothingDiscardedReappears(src: seq<Byte>, policy: Policy, want: Option<Orientation>)
    requires !policy.KeepsEverything() && Retain(src, policy, want).Some?
    ensures Parse(Retain(src, policy, want).value).Some?
    ensures PrivateTree(Parse(Retain(src, policy, want).value).value, policy)
  {
    hide Parse, RetainPruned, Canonical, Pruned, SameTree, Clean, PrivateTree, Retain;
    RetainPrunes(src, policy, want);
    var x := Parse(src).value;
    PrunedReadsBack(src, x, policy, want);
    PrunedOk(x, policy, want);
    SameIsClean(Pruned(x, policy, want), Parse(Retain(src, policy, want).value).value, policy);
    CleanIsPrivate(Parse(Retain(src, policy, want).value).value, policy);
  }
}
