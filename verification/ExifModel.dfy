/**
 The EXIF tree of src/exif.rs: reading a TIFF blob into up to five directories, pruning by policy,
 editing, and laying the tree out again. Offsets are unbounded naturals where the source has a
 64-bit usize, and are cut to 32 bits where the source writes `as u32`.
 */
module ExifModel {
  import opened Words
  import opened Bytes
  import opened ExifEntries
  import opened ExifLayout

  const TAG_MAKE: U16 := 0x010F
  const TAG_MODEL: U16 := 0x0110
  const TAG_ORIENTATION: U16 := 0x0112
  const TAG_SOFTWARE: U16 := 0x0131
  const TAG_DATETIME: U16 := 0x0132
  const TAG_ARTIST: U16 := 0x013B
  const TAG_HOST_COMPUTER: U16 := 0x013C
  const TAG_COPYRIGHT: U16 := 0x8298
  const TAG_EXIF_IFD: U16 := 0x8769
  const TAG_GPS_IFD: U16 := 0x8825
  const TAG_INTEROP_IFD: U16 := 0xA005
  const TAG_COLOR_SPACE: U16 := 0xA001
  const TAG_GAMMA: U16 := 0xA500
  const TAG_INTEROP_INDEX: U16 := 0x0001
  const TAG_INTEROP_VERSION: U16 := 0x0002
  const TAG_THUMB_OFFSET: U16 := 0x0201
  const TAG_THUMB_LENGTH: U16 := 0x0202
  const TAG_SUBIFDS: U16 := 0x014A
  const TAG_STRIP_OFFSETS: U16 := 0x0111
  const TAG_STRIP_BYTE_COUNTS: U16 := 0x0117
  const TAG_TILE_OFFSETS: U16 := 0x0144
  const TAG_TILE_BYTE_COUNTS: U16 := 0x0145
  const TAG_DATETIME_ORIGINAL: U16 := 0x9003
  const TAG_DATETIME_DIGITIZED: U16 := 0x9004
  const TAG_OFFSET_TIME: U16 := 0x9010
  const TAG_OFFSET_TIME_ORIGINAL: U16 := 0x9011
  const TAG_OFFSET_TIME_DIGITIZED: U16 := 0x9012
  const TAG_SUBSEC_TIME: U16 := 0x9290
  const TAG_SUBSEC_TIME_ORIGINAL: U16 := 0x9291
  const TAG_SUBSEC_TIME_DIGITIZED: U16 := 0x9292
  const TAG_MAKER_NOTE: U16 := 0x927C
  const TAG_IMAGE_UNIQUE_ID: U16 := 0xA420
  const TAG_BODY_SERIAL_NUMBER: U16 := 0xA431
  const TAG_DNG_CAMERA_SERIAL: U16 := 0xC62F
  const TAG_CAMERA_LABEL: U16 := 0xC7A1
  const TAG_PSRAW_OWNER: U16 := 0xFDE8
  const TAG_PSRAW_SERIAL: U16 := 0xFDE9
  const TAG_LENS_SPECIFICATION: U16 := 0xA432
  const TAG_LENS_MAKE: U16 := 0xA433
  const TAG_LENS_MODEL: U16 := 0xA434
  const TAG_LENS_SERIAL_NUMBER: U16 := 0xA435
  const TAG_CAMERA_OWNER_NAME: U16 := 0xA430
  const TAG_PHOTOGRAPHER: U16 := 0xA437
  const TAG_IMAGE_EDITOR: U16 := 0xA438
  const TAG_CAMERA_FIRMWARE: U16 := 0xA439
  const TAG_RAW_DEVELOPING_SOFTWARE: U16 := 0xA43A
  const TAG_IMAGE_EDITING_SOFTWARE: U16 := 0xA43B
  const TAG_METADATA_EDITING_SOFTWARE: U16 := 0xA43C

  const TIFF_ASCII: U16 := 2
  const TIFF_SHORT: U16 := 3
  const TIFF_LONG: U16 := 4
  const TIFF_RATIONAL: U16 := 5
  const TIFF_UNDEFINED: U16 := 7
  const TIFF_UTF8: U16 := 129

  const HEADER_SIZE := 8
  const MAX_IFD_ENTRIES := 1000
  /** "Exif" and two NULs. */
  const EXIF_PREFIX: seq<Byte> := [69, 120, 105, 102, 0, 0]

  type Dir = seq<Entry>

  datatype TextEncoding = Ascii | Utf8

  type Orientation = o: int | 1 <= o <= 8 witness 1

  datatype Tree = Tree(order: ByteOrder, hadPrefix: bool, ifd0: Dir, exif: Option<Dir>, gps: Option<Dir>,
                       interop: Option<Dir>, ifd1: Option<Dir>, thumbnail: Option<seq<Byte>>,
                       textEncoding: TextEncoding)

  // ----- reading -----

  function Rd16(d: seq<Byte>, o: nat, order: ByteOrder): (r: Option<U16>)
    ensures r.Some? <==> o + 2 <= |d|
  {
    if o + 2 <= |d| then Some(Dec16(d[o..o + 2], order)) else None
  }

  function Rd32(d: seq<Byte>, o: nat, order: ByteOrder): (r: Option<U32>)
    ensures r.Some? <==> o + 4 <= |d|
  {
    if o + 4 <= |d| then Some(Dec32(d[o..o + 4], order)) else None
  }

  /** The entry whose descriptor stands at `e`, or None when the source skips it. */
  function ResolveEntry(tiff: seq<Byte>, e: nat, order: ByteOrder): Option<Entry> {
    var tag :- Rd16(tiff, e, order);
    var kind :- Rd16(tiff, e + 2, order);
    var count :- Rd32(tiff, e + 4, order);
    var size :- TypeSize(kind);
    var len: nat := count * size;
    if len <= 4 then
      if e + 8 + len <= |tiff| then Some(Entry(tag, kind, count, tiff[e + 8..e + 8 + len], Source(e + 8))) else None
    else
      var off :- Rd32(tiff, e + 8, order);
      if off + len <= |tiff| then Some(Entry(tag, kind, count, tiff[off..off + len], Source(off))) else None
  }

  /** The readable entries among the first n descriptors; a truncated table ends the list. */
  function ParsedEntries(tiff: seq<Byte>, start: nat, n: nat, order: ByteOrder): (r: Dir)
    ensures |r| <= n
  {
    if n == 0 then []
    else
      var init := ParsedEntries(tiff, start, n - 1, order);
      var e := start + 12 * (n - 1);
      if e + 12 > |tiff| then init
      else match ResolveEntry(tiff, e, order)
           case None => init
           case Some(entry) => init + [entry]
  }

  function ParseIfd(tiff: seq<Byte>, off: nat, order: ByteOrder): (r: Option<(Dir, U32)>)
    ensures r.Some? ==> |r.value.0| <= MAX_IFD_ENTRIES
  {
    var count :- Rd16(tiff, off, order);
    if count > MAX_IFD_ENTRIES then None
    else
      var next := Rd32(tiff, off + 2 + 12 * count, order);
      Some((ParsedEntries(tiff, off + 2, count, order), if next.Some? then next.value else 0))
  }

  /** The offset of a structural pointer, and the list without that one entry. */
  function TakePointer(entries: Dir, tag: U16, order: ByteOrder): (Option<U32>, Dir) {
    var i := FirstIndex(entries, tag);
    if i == |entries| || |entries[i].value| < 4 then (None, entries)
    else (Some(Dec32(entries[i].value[..4], order)), entries[..i] + entries[i + 1..])
  }

  /** take_pointer, and the sweep of leftover duplicates once one was taken. */
  function TakeAll(entries: Dir, tag: U16, order: ByteOrder): (Option<U32>, Dir) {
    var (off, rest) := TakePointer(entries, tag, order);
    (off, if off.Some? then WithoutTag(rest, tag) else rest)
  }

  function SubIfd(tiff: seq<Byte>, at: Option<U32>, order: ByteOrder): Option<Dir> {
    var off :- at;
    var (entries, _) :- ParseIfd(tiff, off, order);
    Some(entries)
  }

  function ExifDirs(tiff: seq<Byte>, at: Option<U32>, order: ByteOrder): (Option<Dir>, Option<Dir>) {
    match SubIfd(tiff, at, order)
    case None => (None, None)
    case Some(entries) =>
      var (interopAt, rest) := TakeAll(entries, TAG_INTEROP_IFD, order);
      (Some(rest), SubIfd(tiff, interopAt, order))
  }

  /** A SHORT or LONG value. */
  function ReadUint(e: Entry, order: ByteOrder): Option<U32> {
    if e.kind == TIFF_SHORT then
      var v :- Rd16(e.value, 0, order);
      Some(v)
    else if e.kind == TIFF_LONG then Rd32(e.value, 0, order)
    else None
  }

  function ReadFirstUint(entries: Dir, tag: U16, order: ByteOrder): Option<U32> {
    var e :- First(entries, tag);
    ReadUint(e, order)
  }

  function Thumbnail(tiff: seq<Byte>, entries: Dir, order: ByteOrder): Option<seq<Byte>> {
    var off :- ReadFirstUint(entries, TAG_THUMB_OFFSET, order);
    var len :- ReadFirstUint(entries, TAG_THUMB_LENGTH, order);
    if off + len <= |tiff| then Some(tiff[off..off + len]) else None
  }

  function WithoutThumbTags(entries: Dir): Dir {
    WithoutTag(WithoutTag(entries, TAG_THUMB_OFFSET), TAG_THUMB_LENGTH)
  }

  /** IFD1 without its thumbnail tags, and the thumbnail they name. */
  function ThumbDir(tiff: seq<Byte>, next: U32, order: ByteOrder): (Option<Dir>, Option<seq<Byte>>) {
    if next == 0 || ParseIfd(tiff, next, order).None? then (None, None)
    else
      var (entries, _) := ParseIfd(tiff, next, order).value;
      (Some(WithoutThumbTags(entries)), Thumbnail(tiff, entries, order))
  }

  function OrderOf(tiff: seq<Byte>): Option<ByteOrder>
    requires |tiff| >= 2
  {
    if tiff[..2] == [77, 77] then Some(Big) else if tiff[..2] == [73, 73] then Some(Little) else None
  }

  function TreeOf(tiff: seq<Byte>, hadPrefix: bool, order: ByteOrder, raw: Dir, next: U32): Tree {
    var (exifAt, rest) := TakeAll(raw, TAG_EXIF_IFD, order);
    var (exif, interop) := ExifDirs(tiff, exifAt, order);
    var (gpsAt, ifd0) := TakeAll(rest, TAG_GPS_IFD, order);
    var (ifd1, thumbnail) := ThumbDir(tiff, next, order);
    Tree(order, hadPrefix, ifd0, exif, SubIfd(tiff, gpsAt, order), interop, ifd1, thumbnail, Ascii)
  }

  /** Byte order and the offset of IFD0. */
  function ParseHeader(tiff: seq<Byte>): (r: Option<(ByteOrder, U32)>)
    ensures r.Some? ==> |tiff| >= HEADER_SIZE
  {
    if |tiff| < HEADER_SIZE then None
    else
      var order :- OrderOf(tiff);
      var magic :- Rd16(tiff, 2, order);
      if magic != 42 then None
      else
        var off :- Rd32(tiff, 4, order);
        Some((order, off))
  }

  function ParseTiff(tiff: seq<Byte>, hadPrefix: bool): Option<Tree> {
    var (order, off) :- ParseHeader(tiff);
    var (raw, next) :- ParseIfd(tiff, off, order);
    Some(TreeOf(tiff, hadPrefix, order, raw, next))
  }

  predicate HasPrefix(data: seq<Byte>) {
    |data| >= |EXIF_PREFIX| && data[..|EXIF_PREFIX|] == EXIF_PREFIX
  }

  function TiffOf(data: seq<Byte>): seq<Byte> {
    if HasPrefix(data) then data[|EXIF_PREFIX|..] else data
  }

  function Parse(data: seq<Byte>): Option<Tree> {
    ParseTiff(TiffOf(data), HasPrefix(data))
  }

  function OrientationOf(x: Tree): Option<Orientation> {
    var raw :- ReadFirstUint(x.ifd0, TAG_ORIENTATION, x.order);
    if 1 <= raw <= 8 then Some(raw) else None
  }

  // ----- laying out -----

  /** A synthesized LONG entry: a structural tag and the number it holds. */
  datatype Link = Link(tag: U16, target: nat)

  function Pointer(link: Link, order: ByteOrder): Entry {
    Entry(link.tag, TIFF_LONG, 1, Enc32(ToU32(link.target), order), Nowhere)
  }

  function Pointers(links: seq<Link>, order: ByteOrder): (r: Dir)
    ensures |r| == |links|
    ensures forall i :: 0 <= i < |r| ==> r[i] == Pointer(links[i], order)
  {
    seq(|links|, i requires 0 <= i < |links| => Pointer(links[i], order))
  }

  /** What write_ifd writes: the entries and the pointers, stably sorted by tag. */
  function Items(entries: Dir, links: seq<Link>, order: ByteOrder): (r: Dir)
    ensures |r| == |entries| + |links|
  {
    Sort(Bares(entries) + Pointers(links, order))
  }

  function BlockLen(entries: Dir, pointers: nat): nat {
    6 + 12 * (|entries| + pointers) + ExtSize(entries)
  }

  function OptLen(d: Option<Dir>, pointers: nat): nat {
    if d.Some? then BlockLen(d.value, pointers) else 0
  }

  function Count<T>(o: Option<T>): nat {
    if o.Some? then 1 else 0
  }

  /** The Interop directory hangs off the Exif directory and is not written without it. */
  function WrittenInterop(x: Tree): Option<Dir> {
    if x.exif.Some? then x.interop else None
  }

  function ThumbBytes(x: Tree): seq<Byte> {
    if x.thumbnail.Some? then x.thumbnail.value else []
  }

  /** Where each directory and the thumbnail begin, counted after any prefix. */
  datatype Plan = Plan(exif: nat, interop: nat, gps: nat, ifd1: nat, thumb: nat, end: nat)

  function PlanOf(x: Tree): Plan {
    var exif: nat := HEADER_SIZE + BlockLen(x.ifd0, Count(x.exif) + Count(x.gps));
    var interop := exif + OptLen(x.exif, Count(WrittenInterop(x)));
    var gps := interop + OptLen(WrittenInterop(x), 0);
    var ifd1 := gps + OptLen(x.gps, 0);
    var thumb := ifd1 + OptLen(x.ifd1, 2 * Count(x.thumbnail));
    Plan(exif, interop, gps, ifd1, thumb, thumb + |ThumbBytes(x)|)
  }

  function Ifd0Links(x: Tree): (r: seq<Link>)
    ensures |r| == Count(x.exif) + Count(x.gps)
  {
    (if x.exif.Some? then [Link(TAG_EXIF_IFD, PlanOf(x).exif)] else [])
    + (if x.gps.Some? then [Link(TAG_GPS_IFD, PlanOf(x).gps)] else [])
  }

  function ExifLinks(x: Tree): (r: seq<Link>)
    ensures |r| == Count(WrittenInterop(x))
  {
    if WrittenInterop(x).Some? then [Link(TAG_INTEROP_IFD, PlanOf(x).interop)] else []
  }

  function Ifd1Links(x: Tree): (r: seq<Link>)
    ensures |r| == 2 * Count(x.thumbnail)
  {
    if x.thumbnail.Some? then
      [Link(TAG_THUMB_OFFSET, PlanOf(x).thumb), Link(TAG_THUMB_LENGTH, |x.thumbnail.value|)]
    else []
  }

  /** IFD0's next link: IFD1, or zero. */
  function NextOf(x: Tree): U32 {
    if x.ifd1.Some? then ToU32(PlanOf(x).ifd1) else 0
  }

  function DirBytes(entries: Dir, links: seq<Link>, off: nat, next: U32, order: ByteOrder): seq<Byte> {
    IfdBytes(Items(entries, links, order), off, next, order)
  }

  function OptBytes(d: Option<Dir>, links: seq<Link>, off: nat, order: ByteOrder): seq<Byte> {
    if d.Some? then DirBytes(d.value, links, off, 0, order) else []
  }

  function Header(order: ByteOrder): (r: seq<Byte>)
    ensures |r| == HEADER_SIZE
  {
    (if order.Little? then [73, 73] else [77, 77]) + (Enc16(42, order) + Enc32(HEADER_SIZE, order))
  }

  function TiffBytes(x: Tree): seq<Byte> {
    var p := PlanOf(x);
    Header(x.order)
    + (DirBytes(x.ifd0, Ifd0Links(x), HEADER_SIZE, NextOf(x), x.order)
       + (OptBytes(x.exif, ExifLinks(x), p.exif, x.order)
          + (OptBytes(WrittenInterop(x), [], p.interop, x.order)
             + (OptBytes(x.gps, [], p.gps, x.order)
                + (OptBytes(x.ifd1, Ifd1Links(x), p.ifd1, x.order)
                   + ThumbBytes(x))))))
  }

  function Prefix(x: Tree): seq<Byte> {
    if x.hadPrefix then EXIF_PREFIX else []
  }

  function ToBytes(x: Tree): seq<Byte> {
    Prefix(x) + TiffBytes(x)
  }

  function SerializedLen(x: Tree): nat {
    |Prefix(x)| + PlanOf(x).end
  }

  // ----- editing -----

  /** Replace the first entry with the tag, or append. */
  function Replace(s: Dir, e: Entry): (r: Dir)
    ensures |r| == if HasTag(s, e.tag) then |s| else |s| + 1
  {
    var i := FirstIndex(s, e.tag);
    if i < |s| then s[i := e] else s + [e]
  }

  function StringEntry(tag: U16, text: seq<Byte>, encoding: TextEncoding): Entry {
    var bytes := text + [0];
    Entry(tag, if encoding.Ascii? then TIFF_ASCII else TIFF_UTF8, ToU32(|bytes|), bytes, Owned(tag))
  }

  function SetCopyright(x: Tree, text: seq<Byte>): Tree {
    x.(ifd0 := Replace(x.ifd0, StringEntry(TAG_COPYRIGHT, text, x.textEncoding)))
  }

  function SetArtist(x: Tree, text: seq<Byte>): Tree {
    x.(ifd0 := Replace(x.ifd0, StringEntry(TAG_ARTIST, text, x.textEncoding)))
  }

  /** `v` as a SHORT or LONG value; None for other types. A SHORT keeps the low 16 bits. */
  function IntBytes(kind: U16, v: U32, order: ByteOrder): Option<seq<Byte>> {
    if kind == TIFF_SHORT then Some(Enc16(ToU16(v), order))
    else if kind == TIFF_LONG then Some(Enc32(v, order))
    else None
  }

  function OrientationEntry(o: Orientation, order: ByteOrder): Entry {
    Entry(TAG_ORIENTATION, TIFF_SHORT, 1, Enc16(o, order), Owned(TAG_ORIENTATION))
  }

  function Reauthored(e: Entry, o: Orientation, order: ByteOrder): Option<Entry> {
    var value :- IntBytes(e.kind, o, order);
    Some(e.(count := 1, value := value, origin := Owned(e.tag)))
  }

  /** The authoring setter: adds the tag, and repairs a carrier that is not an integer. */
  function SetOrientation(x: Tree, o: Orientation): Tree {
    match First(x.ifd0, TAG_ORIENTATION)
    case None => x.(ifd0 := x.ifd0 + [OrientationEntry(o, x.order)])
    case Some(e) =>
      var next := Reauthored(e, o, x.order);
      x.(ifd0 := Replace(x.ifd0, if next.Some? then next.value else OrientationEntry(o, x.order)))
  }

  /** The reconciling setter: never adds the tag and leaves a non-integer carrier alone. */
  function SetOrientationTag(x: Tree, o: Orientation): Tree {
    match First(x.ifd0, TAG_ORIENTATION)
    case None => x
    case Some(e) =>
      match Reauthored(e, o, x.order)
      case None => x
      case Some(next) => x.(ifd0 := Replace(x.ifd0, next))
  }
}
