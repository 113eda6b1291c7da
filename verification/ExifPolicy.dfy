/** Per-category retention and the pruning of a tree (src/exif.rs). */
module ExifPolicy {
  import opened Words
  import opened Bytes
  import opened ExifEntries
  import opened ExifModel

  datatype Category =
    | RoleOrientation | Rights | Datetimes | TimeOffsets | Camera | DeviceIds | CameraOwner | ImageUniqueId | Color | Other

  function Classify(tag: U16): Category {
    if tag == TAG_ORIENTATION then RoleOrientation
    else if tag in {TAG_COPYRIGHT, TAG_ARTIST, TAG_PHOTOGRAPHER, TAG_IMAGE_EDITOR} then Rights
    else if tag in {TAG_CAMERA_OWNER_NAME, TAG_PSRAW_OWNER} then CameraOwner
    else if tag == TAG_IMAGE_UNIQUE_ID then ImageUniqueId
    else if tag in {TAG_DATETIME, TAG_DATETIME_ORIGINAL, TAG_DATETIME_DIGITIZED, TAG_SUBSEC_TIME,
                    TAG_SUBSEC_TIME_ORIGINAL, TAG_SUBSEC_TIME_DIGITIZED} then Datetimes
    else if tag in {TAG_OFFSET_TIME, TAG_OFFSET_TIME_ORIGINAL, TAG_OFFSET_TIME_DIGITIZED} then TimeOffsets
    else if tag in {TAG_MAKE, TAG_MODEL, TAG_SOFTWARE, TAG_MAKER_NOTE, TAG_LENS_SPECIFICATION, TAG_LENS_MAKE,
                    TAG_LENS_MODEL, TAG_CAMERA_FIRMWARE, TAG_RAW_DEVELOPING_SOFTWARE, TAG_IMAGE_EDITING_SOFTWARE,
                    TAG_METADATA_EDITING_SOFTWARE} then Camera
    else if tag in {TAG_HOST_COMPUTER, TAG_BODY_SERIAL_NUMBER, TAG_LENS_SERIAL_NUMBER, TAG_DNG_CAMERA_SERIAL,
                    TAG_CAMERA_LABEL, TAG_PSRAW_SERIAL} then DeviceIds
    else if tag in {TAG_COLOR_SPACE, TAG_GAMMA} then Color
    else Other
  }

  /** Which categories are kept: one flag per field of the source's ExifPolicy. */
  datatype Policy = Policy(orientation: bool, rights: bool, thumbnail: bool, gps: bool, datetimes: bool,
                           timeOffsets: bool, camera: bool, deviceIds: bool, cameraOwner: bool,
                           imageUniqueId: bool, color: bool, other: bool)
  {
    predicate Keeps(c: Category) {
      match c
      case RoleOrientation => orientation
      case Rights => rights
      case Datetimes => datetimes
      case TimeOffsets => timeOffsets
      case Camera => camera
      case DeviceIds => deviceIds
      case CameraOwner => cameraOwner
      case ImageUniqueId => imageUniqueId
      case Color => color
      case Other => other
    }

    predicate KeepsEverything() {
      this == KEEP_ALL
    }

    predicate DiscardsEverything() {
      this == DISCARD_ALL
    }
  }

  const KEEP_ALL := Policy(true, true, true, true, true, true, true, true, true, true, true, true)
  const DISCARD_ALL := Policy(false, false, false, false, false, false, false, false, false, false, false, false)

  /** Structural tags: they hold offsets into the file or lengths that go with them. */
  predicate OffsetBearing(tag: U16) {
    tag in {TAG_SUBIFDS, TAG_EXIF_IFD, TAG_GPS_IFD, TAG_INTEROP_IFD, TAG_THUMB_OFFSET, TAG_THUMB_LENGTH,
            TAG_STRIP_OFFSETS, TAG_STRIP_BYTE_COUNTS, TAG_TILE_OFFSETS, TAG_TILE_BYTE_COUNTS}
  }

  /** Whether an entry of IFD0 or IFD1 (exifDir false) or of the Exif directory survives a prune. */
  predicate Keep(e: Entry, policy: Policy, order: ByteOrder, exifDir: bool) {
    if OffsetBearing(e.tag) || e.tag == TAG_MAKER_NOTE then false
    else if e.tag == TAG_ORIENTATION then
      && !exifDir && policy.orientation && e.count == 1 && e.kind in {TIFF_SHORT, TIFF_LONG}
      && ReadUint(e, order).Some? && 1 <= ReadUint(e, order).value <= 8
    else if e.tag == TAG_COLOR_SPACE then exifDir && policy.color && e.kind == TIFF_SHORT && e.count == 1
    else if e.tag == TAG_GAMMA then
      && exifDir && policy.color && e.kind == TIFF_RATIONAL && e.count == 1
      && Rd32(e.value, 0, order).Some? && Rd32(e.value, 0, order).value != 0
      && Rd32(e.value, 4, order).Some? && Rd32(e.value, 4, order).value != 0
    else if e.tag in {TAG_COPYRIGHT, TAG_ARTIST, TAG_PHOTOGRAPHER, TAG_IMAGE_EDITOR} then
      && exifDir == (e.tag in {TAG_PHOTOGRAPHER, TAG_IMAGE_EDITOR})
      && policy.rights && e.kind in {TIFF_ASCII, TIFF_UTF8}
    else policy.Keeps(Classify(e.tag))
  }

  /** "R98", "R03" or "THM" with a NUL; or four ASCII digits. */
  predicate KeepInterop(e: Entry) {
    if e.tag == TAG_INTEROP_INDEX then
      e.kind == TIFF_ASCII && e.count == 4
      && (e.value == [82, 57, 56, 0] || e.value == [82, 48, 51, 0] || e.value == [84, 72, 77, 0])
    else if e.tag == TAG_INTEROP_VERSION then
      e.kind == TIFF_UNDEFINED && e.count == 4 && forall i :: 0 <= i < |e.value| ==> 48 <= e.value[i] <= 57
    else false
  }

  function Keeper(policy: Policy, order: ByteOrder, exifDir: bool): Entry -> bool {
    (e: Entry) => Keep(e, policy, order, exifDir)
  }

  function InteropKeeper(): Entry -> bool {
    (e: Entry) => KeepInterop(e)
  }

  function FilterDir(d: Option<Dir>, p: Entry -> bool): Option<Dir> {
    if d.Some? then Some(Filter(p, d.value)) else None
  }

  function FilteredInterop(x: Tree, policy: Policy): Option<Dir> {
    if policy.color && x.exif.Some? then
      var d :- FilterDir(x.interop, InteropKeeper());
      if d == [] then None else Some(d)
    else None
  }

  function FilteredExif(x: Tree, policy: Policy): Option<Dir> {
    var d :- FilterDir(x.exif, Keeper(policy, x.order, true));
    if d != [] || FilteredInterop(x, policy).Some? then Some(d) else None
  }

  function Filtered(x: Tree, policy: Policy): Tree {
    x.(ifd0 := Filter(Keeper(policy, x.order, false), x.ifd0),
       exif := FilteredExif(x, policy),
       gps := if policy.gps then x.gps else None,
       interop := FilteredInterop(x, policy),
       ifd1 := if policy.thumbnail then FilterDir(x.ifd1, Keeper(policy, x.order, false)) else None,
       thumbnail := if policy.thumbnail then x.thumbnail else None)
  }

  // ----- retain -----

  function OverwriteAt(data: seq<Byte>, off: nat, bytes: seq<Byte>): (r: seq<Byte>)
    requires off + |bytes| <= |data|
    ensures |r| == |data|
  {
    data[..off] + bytes + data[off + |bytes|..]
  }

  /** Overwrites an inline SHORT or LONG value in a copy of the blob; None when that is not safe. */
  function PatchInlineInt(data: seq<Byte>, x: Tree, e: Entry, v: U32): Option<seq<Byte>> {
    var bytes :- IntBytes(e.kind, v, x.order);
    if e.count * |bytes| > 4 || !e.origin.Source? then None
    else
      var off: nat := |Prefix(x)| + e.origin.offset;
      if off + |bytes| <= |data| then Some(OverwriteAt(data, off, bytes)) else None
  }

  function SetOrientationWith(data: seq<Byte>, x: Tree, o: Orientation): Option<seq<Byte>> {
    var e :- First(x.ifd0, TAG_ORIENTATION);
    PatchInlineInt(data, x, e, o)
  }

  /** The source's set_orientation. */
  function PatchOrientation(data: seq<Byte>, o: Orientation): Option<seq<Byte>> {
    var x :- Parse(data);
    SetOrientationWith(data, x, o)
  }

  function Pruned(x: Tree, policy: Policy, want: Option<Orientation>): Tree {
    var y := Filtered(x, policy);
    if want.Some? then SetOrientationTag(y, want.value) else y
  }

  predicate Empty(x: Tree) {
    x.ifd0 == [] && x.exif.None? && x.gps.None? && x.ifd1.None?
  }

  /** The amplification guard: what a rewrite of n source bytes may grow to. */
  function Cap(n: nat): nat {
    Min(2 * n + 1024, U32_MAX)
  }

  function RetainPruned(src: seq<Byte>, x: Tree, policy: Policy, want: Option<Orientation>): Option<seq<Byte>> {
    var y := Pruned(x, policy, want);
    if Empty(y) || SerializedLen(y) > Cap(|src|) then None else Some(ToBytes(y))
  }

  function RetainInPlace(src: seq<Byte>, x: Tree, want: Option<Orientation>): seq<Byte> {
    if want.Some? && OrientationOf(x) != want then
      var patched := SetOrientationWith(src, x, want.value);
      if patched.Some? then patched.value else src
    else src
  }

  /** The source's retain_reconciled; retain is the case of no wanted orientation. */
  function Retain(src: seq<Byte>, policy: Policy, want: Option<Orientation>): Option<seq<Byte>> {
    if policy.DiscardsEverything() then None
    else if policy.KeepsEverything() && want.None? then Some(src)
    else if |src| > U32_MAX || Parse(src).None? then
      if policy.KeepsEverything() then Some(src) else None
    else if policy.KeepsEverything() then Some(RetainInPlace(src, Parse(src).value, want))
    else RetainPruned(src, Parse(src).value, policy, want)
  }
}
