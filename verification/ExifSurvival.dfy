/**
 What a retain keeps (src/exif.rs), told by tag numbers, types and counts alone. Every entry that a policy
 accepts is in the retained bytes, with its contents and in its order; a wanted orientation is there whenever
 there is a place for it; and a blob is dropped for stated reasons only.
 */
module ExifSurvival {
  import opened Words
  import opened Bytes
  import opened ExifEntries
  import opened ExifLayout
  import opened ExifModel
  import opened ExifReparse
  import opened ExifRoundTrip
  import opened ExifFixpoint
  import opened ExifCanonical
  import opened ExifPolicy
  import opened ExifPruning
  import opened ExifPatch
  import opened ExifRetention
  import opened ExifEditing
  import opened ExifReading

  // ----- the tags of each flag -----

  const DATETIMES: set<U16> := {0x0132, 0x9003, 0x9004, 0x9290, 0x9291, 0x9292}
  const TIME_OFFSETS: set<U16> := {0x9010, 0x9011, 0x9012}
  const CAMERA: set<U16> := {0x010F, 0x0110, 0x0131, 0xA432, 0xA433, 0xA434, 0xA439, 0xA43A, 0xA43B, 0xA43C}
  const DEVICE_IDS: set<U16> := {0x013C, 0xA431, 0xA435, 0xC62F, 0xC7A1, 0xFDE9}
  const CAMERA_OWNER: set<U16> := {0xA430, 0xFDE8}
  const IMAGE_UNIQUE_ID: set<U16> := {0xA420}
  /** Copyright and Artist belong in IFD0, Photographer and ImageEditor in the Exif directory. */
  const NOTICES: set<U16> := {0x8298, 0x013B}
  const CREATORS: set<U16> := {0xA437, 0xA438}
  const ORIENTATION: U16 := 0x0112
  const COLOR_SPACE: U16 := 0xA001
  const GAMMA: U16 := 0xA500
  /** Offsets and the lengths that go with them, and the maker note. */
  const NEVER: set<U16> := {0x014A, 0x8769, 0x8825, 0xA005, 0x0201, 0x0202, 0x0111, 0x0117, 0x0144, 0x0145, 0x927C}

  /** Tags that are kept or dropped by their flag alone. */
  predicate Plain(tag: U16) {
    tag !in NEVER + NOTICES + CREATORS + {ORIENTATION, COLOR_SPACE, GAMMA}
  }

  predicate FlagKeeps(policy: Policy, tag: U16) {
    if tag in DATETIMES then policy.datetimes
    else if tag in TIME_OFFSETS then policy.timeOffsets
    else if tag in CAMERA then policy.camera
    else if tag in DEVICE_IDS then policy.deviceIds
    else if tag in CAMERA_OWNER then policy.cameraOwner
    else if tag in IMAGE_UNIQUE_ID then policy.imageUniqueId
    else policy.other
  }

  predicate IsText(e: Entry) {
    e.kind == 2 || e.kind == 129
  }

  /** A single SHORT or LONG from 1 to 8. */
  ghost predicate ValidOrientation(e: Entry, order: ByteOrder) {
    e.count == 1 && exists o: Orientation :: Holds(e, order, o)
  }

  /** One rational without a zero in it. */
  predicate ValidGamma(e: Entry, order: ByteOrder) {
    && e.kind == 5 && e.count == 1 && |e.value| >= 8
    && Long(e.value, 0, order) != 0 && Long(e.value, 4, order) != 0
  }

  /** An entry of IFD0 or IFD1 (exifDir false) or of the Exif directory that a policy keeps. */
  ghost predicate Survives(e: Entry, policy: Policy, order: ByteOrder, exifDir: bool) {
    || (Plain(e.tag) && FlagKeeps(policy, e.tag))
    || (!exifDir && e.tag in NOTICES && policy.rights && IsText(e))
    || (exifDir && e.tag in CREATORS && policy.rights && IsText(e))
    || (!exifDir && e.tag == ORIENTATION && policy.orientation && ValidOrientation(e, order))
    || (exifDir && e.tag == COLOR_SPACE && policy.color && e.kind == 3 && e.count == 1)
    || (exifDir && e.tag == GAMMA && policy.color && ValidGamma(e, order))
  }

  /** "R98", "R03" or "THM" with a NUL as the index, or four digits as the version. */
  predicate InteropSurvives(e: Entry) {
    || (e.tag == 1 && e.kind == 2 && e.count == 4 && e.value in {[82, 57, 56, 0], [82, 48, 51, 0], [84, 72, 77, 0]})
    || (e.tag == 2 && e.kind == 7 && e.count == 4 && forall i :: 0 <= i < |e.value| ==> 48 <= e.value[i] <= 57)
  }

  // ----- what a pruning keeps is what survives -----

  /** Only a SHORT or a LONG holds a number. */
  lemma OrientationIsInteger(e: Entry, order: ByteOrder)
    ensures ValidOrientation(e, order) <==>
              && e.count == 1 && e.kind in {TIFF_SHORT, TIFF_LONG}
              && ReadUint(e, order).Some? && 1 <= ReadUint(e, order).value <= 8
  {
    hide Rd16, Rd32, Long, Word;
    Rd16IsWord(e.value, 0, order);
    Rd32IsLong(e.value, 0, order);
    if ReadUint(e, order).Some? && 1 <= ReadUint(e, order).value <= 8 {
      var o: Orientation := ReadUint(e, order).value;
      assert Holds(e, order, o);
    }
  }

  lemma PlainKept(e: Entry, policy: Policy, order: ByteOrder, exifDir: bool)
    requires Plain(e.tag)
    ensures Keep(e, policy, order, exifDir) <==> FlagKeeps(policy, e.tag)
  {
  }

  lemma NeverKept(e: Entry, policy: Policy, order: ByteOrder, exifDir: bool)
    requires e.tag in NEVER
    ensures !Keep(e, policy, order, exifDir) && !Survives(e, policy, order, exifDir)
  {
    hide ValidOrientation, ValidGamma, FlagKeeps, ReadUint, Classify, Policy.Keeps, IsText;
  }

  lemma TextKept(e: Entry, policy: Policy, order: ByteOrder, exifDir: bool)
    requires e.tag in NOTICES + CREATORS
    ensures Keep(e, policy, order, exifDir) <==> Survives(e, policy, order, exifDir)
  {
    hide ValidOrientation, ValidGamma, FlagKeeps, ReadUint, Classify, Policy.Keeps;
  }

  lemma NumberKept(e: Entry, policy: Policy, order: ByteOrder, exifDir: bool)
    requires e.tag in {ORIENTATION, COLOR_SPACE, GAMMA}
    ensures Keep(e, policy, order, exifDir) <==> Survives(e, policy, order, exifDir)
  {
    hide ValidOrientation, FlagKeeps, ReadUint, Classify, Policy.Keeps, IsText, Rd32, Long;
    OrientationIsInteger(e, order);
    Rd32IsLong(e.value, 0, order);
    Rd32IsLong(e.value, 4, order);
  }

  lemma TagsSplit(tag: U16)
    ensures Plain(tag) || tag in NEVER || tag in NOTICES + CREATORS || tag in {ORIENTATION, COLOR_SPACE, GAMMA}
  {
    hide NEVER, NOTICES, CREATORS, ORIENTATION, COLOR_SPACE, GAMMA;
  }

  lemma PlainSurvives(e: Entry, policy: Policy, order: ByteOrder, exifDir: bool)
    requires Plain(e.tag)
    ensures Survives(e, policy, order, exifDir) <==> FlagKeeps(policy, e.tag)
  {
    hide NEVER, FlagKeeps, ValidOrientation, ValidGamma, IsText;
  }

  lemma KeepIffSurvives(e: Entry, policy: Policy, order: ByteOrder, exifDir: bool)
    ensures Keep(e, policy, order, exifDir) <==> Survives(e, policy, order, exifDir)
  {
    hide *;
    TagsSplit(e.tag);
    if Plain(e.tag) {
      PlainKept(e, policy, order, exifDir);
      PlainSurvives(e, policy, order, exifDir);
    } else if e.tag in NEVER {
      NeverKept(e, policy, order, exifDir);
    } else if e.tag in NOTICES + CREATORS {
      TextKept(e, policy, order, exifDir);
    } else {
      NumberKept(e, policy, order, exifDir);
    }
  }

  lemma InteropKept(e: Entry)
    ensures KeepInterop(e) <==> InteropSurvives(e)
  {
  }

  // ----- a directory across the wire -----

  ghost function Survivor(policy: Policy, order: ByteOrder, exifDir: bool): Entry -> bool {
    (e: Entry) => Survives(e, policy, order, exifDir)
  }

  ghost function InteropSurvivor(): Entry -> bool {
    (e: Entry) => InteropSurvives(e)
  }

  ghost function Everything(): Entry -> bool {
    (e: Entry) => true
  }

  function ContentOf(): Entry -> Entry {
    (e: Entry) => e.Content()
  }

  /** What a reader sees of the entries. */
  function Contents(d: Dir): Dir {
    Map(ContentOf(), d)
  }

  /** Under the tag, z holds exactly the entries of d that p accepts: the same contents in the same order. */
  ghost predicate TagKept(d: Dir, z: Dir, p: Entry -> bool, tag: U16) {
    Contents(WithTag(z, tag)) == Contents(Filter(p, WithTag(d, tag)))
  }

  ghost predicate AllKeptOf(d: Dir, z: Dir, p: Entry -> bool) {
    forall tag: U16 :: TagKept(d, z, p, tag)
  }

  lemma ContentsTagged(d: Dir, tag: U16)
    ensures Contents(WithTag(d, tag)) == WithTag(Contents(d), tag)
  {
    hide Filter, Map;
    FilterMap(IsTag(tag), ContentOf(), d);
  }

  lemma ContentsOfBares(d: Dir)
    ensures Contents(Bares(d)) == Contents(d)
  {
    MapEqual(ContentOf(), ContentOf(), Bares(d), d);
  }

  lemma ContentsRelaid(s: Dir, t: Dir)
    requires Relaid(s, t)
    ensures Contents(s) == Contents(t)
  {
    MapEqual(ContentOf(), ContentOf(), s, t);
  }

  lemma SameTagged(a: Dir, b: Dir, tag: U16)
    requires SameDir(a, b)
    ensures Contents(WithTag(b, tag)) == Contents(WithTag(a, tag))
  {
    hide Sort, Map, Filter, Relaid;
    ContentsRelaid(Sort(Bares(a)), Bares(b));
    ContentsOfBares(a);
    ContentsOfBares(b);
    SortMap(ContentOf(), Bares(a));
    SortIsStable(Contents(a), tag);
    ContentsTagged(a, tag);
    ContentsTagged(b, tag);
  }

  lemma FilterSwap(p: Entry -> bool, d: Dir, tag: U16)
    ensures WithTag(Filter(p, d), tag) == Filter(p, WithTag(d, tag))
  {
    hide Filter;
    var both := (e: Entry) => p(e) && e.tag == tag;
    FilterTwice(p, IsTag(tag), both, d);
    FilterTwice(IsTag(tag), p, both, d);
  }

  /** The directory read back from a pruned one holds what survived of it. */
  lemma PrunedTags(d: Dir, z: Dir, keeper: Entry -> bool, p: Entry -> bool)
    requires SameDir(Filter(keeper, d), z) && forall e :: keeper(e) == p(e)
    ensures AllKeptOf(d, z, p)
  {
    hide Filter, SameDir, Map;
    FilterSame(keeper, p, d);
    forall tag: U16
      ensures TagKept(d, z, p, tag)
    {
      SameTagged(Filter(p, d), z, tag);
      FilterSwap(p, d, tag);
    }
  }

  lemma NotEmptyIff(d: Dir, keeper: Entry -> bool, p: Entry -> bool)
    requires forall e :: keeper(e) == p(e)
    ensures Filter(keeper, d) != [] <==> exists e :: e in d && p(e)
  {
    if Filter(keeper, d) != [] {
      assert Filter(keeper, d)[0] in Filter(keeper, d);
    }
  }

  lemma KeepersSurvive(policy: Policy, order: ByteOrder, exifDir: bool)
    ensures forall e :: Keeper(policy, order, exifDir)(e) == Survivor(policy, order, exifDir)(e)
    ensures forall e :: InteropKeeper()(e) == InteropSurvivor()(e)
  {
    hide Keep, KeepInterop, Survives, InteropSurvives;
    forall e
      ensures Keeper(policy, order, exifDir)(e) == Survivor(policy, order, exifDir)(e)
    {
      KeepIffSurvives(e, policy, order, exifDir);
    }
    forall e
      ensures InteropKeeper()(e) == InteropSurvivor()(e)
    {
      InteropKept(e);
    }
  }

  // ----- the setters change one tag only -----

  lemma ReplaceTagged(s: Dir, r: Entry, tag: U16)
    requires tag != r.tag
    ensures WithTag(Replace(s, r), tag) == WithTag(s, tag)
  {
    hide Filter;
    var i, p := FirstIndex(s, r.tag), IsTag(tag);
    if i < |s| {
      var a, b := s[..i], s[i + 1..];
      assert s == (a + [s[i]]) + b && s[i := r] == (a + [r]) + b;
      FilterConcat(p, a + [s[i]], b);
      FilterConcat(p, a + [r], b);
      FilterSnoc(p, a, s[i]);
      FilterSnoc(p, a, r);
    } else {
      FilterSnoc(p, s, r);
    }
  }

  lemma ReconciledTagged(x: Tree, o: Orientation, tag: U16)
    requires tag != ORIENTATION
    ensures WithTag(SetOrientationTag(x, o).ifd0, tag) == WithTag(x.ifd0, tag)
    ensures SetOrientationTag(x, o) == x.(ifd0 := SetOrientationTag(x, o).ifd0)
  {
    hide First, Replace, Reauthored, Filter;
    var first := First(x.ifd0, TAG_ORIENTATION);
    if first.Some? && Reauthored(first.value, o, x.order).Some? {
      ReauthoredMeans(first.value, o, x.order);
      ReplaceTagged(x.ifd0, Reauthored(first.value, o, x.order).value, tag);
    }
  }

  // ----- the whole tree across the wire -----

  /** Some entry of the directory survives. */
  ghost predicate AnyOf(d: Option<Dir>, p: Entry -> bool) {
    d.Some? && exists e :: e in d.value && p(e)
  }

  /** The Interop directory has something that is kept. */
  ghost predicate InteropStays(x: Tree, policy: Policy) {
    policy.color && x.exif.Some? && AnyOf(x.interop, InteropSurvivor())
  }

  /** The Exif directory stays for what survives in it, or to lead to the Interop directory. */
  ghost predicate ExifStays(x: Tree, policy: Policy) {
    AnyOf(x.exif, Survivor(policy, x.order, true)) || InteropStays(x, policy)
  }

  /** A directory that is there exactly when it stays, with all that survives of it. */
  ghost predicate DirKept(d: Option<Dir>, z: Option<Dir>, stays: bool, p: Entry -> bool) {
    (z.Some? <==> d.Some? && stays) && (z.Some? ==> AllKeptOf(d.value, z.value, p))
  }

  /** z holds what the policy keeps of x, apart from orientation entries. */
  ghost predicate HoldsSurvivors(x: Tree, z: Tree, policy: Policy) {
    && z.order == x.order && z.hadPrefix == x.hadPrefix
    && (forall tag: U16 :: tag != ORIENTATION ==> TagKept(x.ifd0, z.ifd0, Survivor(policy, x.order, false), tag))
    && DirKept(x.exif, z.exif, ExifStays(x, policy), Survivor(policy, x.order, true))
    && DirKept(x.interop, z.interop, InteropStays(x, policy), InteropSurvivor())
    && DirKept(x.gps, z.gps, policy.gps, Everything())
    && DirKept(x.ifd1, z.ifd1, policy.thumbnail, Survivor(policy, x.order, false))
    && z.thumbnail == (if policy.thumbnail then x.thumbnail else None)
  }

  lemma OptPruned(d: Option<Dir>, y: Option<Dir>, z: Option<Dir>, stays: bool, keeper: Entry -> bool, p: Entry -> bool)
    requires y == (if stays then FilterDir(d, keeper) else None) && SameOpt(y, z) && forall e :: keeper(e) == p(e)
    ensures DirKept(d, z, stays, p)
  {
    hide Filter, SameDir, AllKeptOf;
    if z.Some? {
      PrunedTags(d.value, z.value, keeper, p);
    }
  }

  lemma FilteredStays(x: Tree, policy: Policy)
    ensures FilteredInterop(x, policy) == if InteropStays(x, policy) then FilterDir(x.interop, InteropKeeper()) else None
    ensures FilteredExif(x, policy) == if ExifStays(x, policy) then FilterDir(x.exif, Keeper(policy, x.order, true)) else None
  {
    hide Filter, Keeper, InteropKeeper, Survivor, InteropSurvivor;
    KeepersSurvive(policy, x.order, true);
    if x.interop.Some? {
      NotEmptyIff(x.interop.value, InteropKeeper(), InteropSurvivor());
    }
    if x.exif.Some? {
      NotEmptyIff(x.exif.value, Keeper(policy, x.order, true), Survivor(policy, x.order, true));
    }
  }

  ghost function OptFilter(d: Option<Dir>, stays: bool, p: Entry -> bool): Option<Dir> {
    if d.Some? && stays then Some(Filter(p, d.value)) else None
  }

  /** y is x with what survives of each directory, in order, and nothing else. */
  ghost predicate PrunedTo(x: Tree, y: Tree, policy: Policy) {
    && y == x.(ifd0 := y.ifd0, exif := y.exif, interop := y.interop, gps := y.gps, ifd1 := y.ifd1, thumbnail := y.thumbnail)
    && y.ifd0 == Filter(Survivor(policy, x.order, false), x.ifd0)
    && y.exif == OptFilter(x.exif, ExifStays(x, policy), Survivor(policy, x.order, true))
    && y.interop == OptFilter(x.interop, InteropStays(x, policy), InteropSurvivor())
    && y.gps == (if policy.gps then x.gps else None)
    && y.ifd1 == OptFilter(x.ifd1, policy.thumbnail, Survivor(policy, x.order, false))
    && y.thumbnail == (if policy.thumbnail then x.thumbnail else None)
  }

  lemma OptFilterSame(d: Option<Dir>, keeper: Entry -> bool, p: Entry -> bool)
    requires forall e :: keeper(e) == p(e)
    ensures FilterDir(d, keeper) == OptFilter(d, true, p)
  {
    if d.Some? {
      FilterSame(keeper, p, d.value);
    }
  }

  /** Pruning keeps exactly the survivors, in memory. */
  lemma FilteredIsPruned(x: Tree, policy: Policy)
    ensures PrunedTo(x, Filtered(x, policy), policy)
  {
    hide Filter, Keeper, InteropKeeper, Survivor, InteropSurvivor, ExifStays, InteropStays, FilteredExif, FilteredInterop,
      FilterDir;
    KeepersSurvive(policy, x.order, false);
    KeepersSurvive(policy, x.order, true);
    FilteredStays(x, policy);
    StaysNeedsExif(x, policy);
    FilterSame(Keeper(policy, x.order, false), Survivor(policy, x.order, false), x.ifd0);
    OptFilterSame(x.exif, Keeper(policy, x.order, true), Survivor(policy, x.order, true));
    OptFilterSame(x.interop, InteropKeeper(), InteropSurvivor());
    OptFilterSame(x.ifd1, Keeper(policy, x.order, false), Survivor(policy, x.order, false));
  }

  lemma FilterEverything(d: Option<Dir>)
    ensures FilterDir(d, Everything()) == d
  {
    if d.Some? {
      FilterAll(Everything(), d.value);
    }
  }

  /** The pruned directory with entries of other tags, and orientation entries that may have been edited. */
  ghost predicate EditOf(y: Tree, x: Tree) {
    && y == x.(ifd0 := y.ifd0)
    && forall tag: U16 :: tag != ORIENTATION ==> WithTag(y.ifd0, tag) == WithTag(x.ifd0, tag)
  }

  lemma PrunedIsEdit(x: Tree, policy: Policy, want: Option<Orientation>)
    ensures EditOf(Pruned(x, policy, want), Filtered(x, policy))
  {
    hide Filtered, SetOrientationTag, Filter;
    if want.Some? {
      forall tag: U16 | tag != ORIENTATION
        ensures WithTag(Pruned(x, policy, want).ifd0, tag) == WithTag(Filtered(x, policy).ifd0, tag)
      {
        ReconciledTagged(Filtered(x, policy), want.value, tag);
      }
      ReconciledTagged(Filtered(x, policy), want.value, 0);
    }
  }

  lemma EditTags(d: Dir, y: Dir, z: Dir, keeper: Entry -> bool, p: Entry -> bool, tag: U16)
    requires SameDir(y, z) && WithTag(y, tag) == WithTag(Filter(keeper, d), tag) && forall e :: keeper(e) == p(e)
    ensures TagKept(d, z, p, tag)
  {
    hide Filter, SameDir, Map;
    FilterSame(keeper, p, d);
    SameTagged(y, z, tag);
    FilterSwap(p, d, tag);
  }

  lemma EditedSurvives(x: Tree, y: Tree, z: Tree, policy: Policy)
    requires EditOf(y, Filtered(x, policy)) && SameTree(y, z)
    ensures HoldsSurvivors(x, z, policy)
  {
    hide Filter, FilteredExif, FilteredInterop, FilterDir, SameDir, SameOpt, Keeper, InteropKeeper, DirKept, TagKept,
      Survivor, InteropSurvivor, InteropStays, ExifStays, Everything;
    KeepersSurvive(policy, x.order, false);
    KeepersSurvive(policy, x.order, true);
    forall tag: U16 | tag != ORIENTATION
      ensures TagKept(x.ifd0, z.ifd0, Survivor(policy, x.order, false), tag)
    {
      EditTags(x.ifd0, y.ifd0, z.ifd0, Keeper(policy, x.order, false), Survivor(policy, x.order, false), tag);
    }
    FilteredStays(x, policy);
    FilterEverything(x.gps);
    OptPruned(x.exif, y.exif, z.exif, ExifStays(x, policy), Keeper(policy, x.order, true), Survivor(policy, x.order, true));
    OptPruned(x.interop, y.interop, z.interop, InteropStays(x, policy), InteropKeeper(), InteropSurvivor());
    OptPruned(x.gps, y.gps, z.gps, policy.gps, Everything(), Everything());
    OptPruned(x.ifd1, y.ifd1, z.ifd1, policy.thumbnail, Keeper(policy, x.order, false), Survivor(policy, x.order, false));
  }

  /**
   The bytes of any pruning retain parse to a tree that holds exactly what the policy keeps: of every
   directory the surviving entries, with their contents and, tag by tag, in their order.
   */
  lemma RetainedSurvivors(src: seq<Byte>, policy: Policy, want: Option<Orientation>)
    requires !policy.KeepsEverything() && Retain(src, policy, want).Some?
    ensures Parse(src).Some? && Parse(Retain(src, policy, want).value).Some?
    ensures var x, z := Parse(src).value, Parse(Retain(src, policy, want).value).value;
            && HoldsSurvivors(x, z, policy)
            && (want.None? ==> TagKept(x.ifd0, z.ifd0, Survivor(policy, x.order, false), ORIENTATION))
  {
    hide Parse, RetainPruned, Canonical, Pruned, SameTree, HoldsSurvivors, EditOf, Retain, TagKept, Survivor, Keeper, Filtered;
    RetainPrunes(src, policy, want);
    var x := Parse(src).value;
    PrunedReadsBack(src, x, policy, want);
    PrunedIsEdit(x, policy, want);
    var y, z := Pruned(x, policy, want), Parse(Retain(src, policy, want).value).value;
    EditedSurvives(x, y, z, policy);
    if want.None? {
      Ifd0Survives(x, y, z, policy);
    }
  }

  lemma Ifd0Survives(x: Tree, y: Tree, z: Tree, policy: Policy)
    requires y == Pruned(x, policy, None) && SameTree(y, z)
    ensures TagKept(x.ifd0, z.ifd0, Survivor(policy, x.order, false), ORIENTATION)
  {
    hide Filter, SameDir, SameOpt, TagKept, Keeper, Survivor, FilteredExif, FilteredInterop, FilterDir;
    KeepersSurvive(policy, x.order, false);
    EditTags(x.ifd0, y.ifd0, z.ifd0, Keeper(policy, x.order, false), Survivor(policy, x.order, false), ORIENTATION);
  }

  // ----- what that means for the fields people ask for -----

  lemma TagKeptFirst(d: Dir, z: Dir, p: Entry -> bool, tag: U16)
    requires TagKept(d, z, p, tag) && forall e :: e in d && e.tag == tag ==> p(e)
    ensures First(z, tag).Some? <==> First(d, tag).Some?
    ensures First(d, tag).Some? ==> First(z, tag).value.Content() == First(d, tag).value.Content()
  {
    hide Filter, First, HasTag;
    FilterAll(p, WithTag(d, tag));
    FirstOfTagged(d, tag);
    FirstOfTagged(z, tag);
    var a, b := WithTag(d, tag), WithTag(z, tag);
    if a != [] {
      assert Contents(b)[0] == Contents(a)[0];
    }
  }

  lemma TagKeptNone(d: Dir, z: Dir, p: Entry -> bool, tag: U16)
    requires TagKept(d, z, p, tag) && forall e :: e in d && e.tag == tag ==> !p(e)
    ensures !HasTag(z, tag)
  {
    hide Filter, HasTag;
    FilterNone(p, WithTag(d, tag));
    if HasTag(z, tag) {
      HasTagged(z, tag);
    }
  }

  lemma HasTagged(z: Dir, tag: U16)
    requires HasTag(z, tag)
    ensures WithTag(z, tag) != []
  {
    var e :| e in z && e.tag == tag;
    assert e in WithTag(z, tag);
  }

  lemma TextSurvives(e: Entry, policy: Policy, order: ByteOrder)
    ensures e.tag in NOTICES ==> (Survives(e, policy, order, false) <==> policy.rights && IsText(e))
    ensures e.tag in CREATORS ==> (Survives(e, policy, order, true) <==> policy.rights && IsText(e))
    ensures e.tag in NOTICES ==> !Survives(e, policy, order, true)
    ensures e.tag in CREATORS ==> !Survives(e, policy, order, false)
  {
    hide ValidOrientation, ValidGamma, FlagKeeps, IsText;
  }

  /**
   Attribution: with rights kept, Copyright and Artist read from the retained bytes as from the source
   when their carriers are text; with rights discarded neither is there.
   */
  lemma NoticesSurvive(src: seq<Byte>, policy: Policy, want: Option<Orientation>, tag: U16)
    requires !policy.KeepsEverything() && Retain(src, policy, want).Some? && tag in {0x8298, 0x013B}
    ensures Parse(src).Some? && Parse(Retain(src, policy, want).value).Some?
    ensures var x, z := Parse(src).value, Parse(Retain(src, policy, want).value).value;
            && (policy.rights && (forall e :: e in x.ifd0 && e.tag == tag ==> IsText(e)) ==>
                  StringOf(z.ifd0, tag) == StringOf(x.ifd0, tag))
            && (!policy.rights ==> !HasTag(z.ifd0, tag))
            && (z.exif.Some? ==> !HasTag(z.exif.value, tag))
  {
    hide Parse, Retain, First, HasTag, TagKept, Survives, IsText, DirKept;
    RetainedSurvivors(src, policy, want);
    var x, z := Parse(src).value, Parse(Retain(src, policy, want).value).value;
    var p := Survivor(policy, x.order, false);
    assert TagKept(x.ifd0, z.ifd0, p, tag);
    NoticesMean(policy, x.order, tag);
    if !policy.rights {
      TagKeptNone(x.ifd0, z.ifd0, p, tag);
    } else if forall e :: e in x.ifd0 && e.tag == tag ==> IsText(e) {
      TagKeptFirst(x.ifd0, z.ifd0, p, tag);
      SameStrings(x.ifd0, z.ifd0, tag);
    }
    NotInExif(x, z, policy, tag);
  }

  lemma NoticesMean(policy: Policy, order: ByteOrder, tag: U16)
    requires tag in NOTICES
    ensures forall e: Entry :: e.tag == tag ==> (Survivor(policy, order, false)(e) <==> policy.rights && IsText(e))
    ensures forall e: Entry :: e.tag == tag ==> !Survivor(policy, order, true)(e)
  {
    hide Survives, IsText;
    forall e: Entry | e.tag == tag
      ensures Survives(e, policy, order, false) <==> policy.rights && IsText(e)
      ensures !Survives(e, policy, order, true)
    {
      TextSurvives(e, policy, order);
    }
  }

  lemma CreatorsMean(policy: Policy, order: ByteOrder, tag: U16)
    requires tag in CREATORS
    ensures forall e: Entry :: e.tag == tag ==> (Survivor(policy, order, true)(e) <==> policy.rights && IsText(e))
    ensures forall e: Entry :: e.tag == tag ==> !Survivor(policy, order, false)(e)
  {
    hide Survives, IsText;
    forall e: Entry | e.tag == tag
      ensures Survives(e, policy, order, true) <==> policy.rights && IsText(e)
      ensures !Survives(e, policy, order, false)
    {
      TextSurvives(e, policy, order);
    }
  }

  lemma SameStrings(a: Dir, b: Dir, tag: U16)
    requires First(b, tag).Some? <==> First(a, tag).Some?
    requires First(a, tag).Some? ==> First(b, tag).value.Content() == First(a, tag).value.Content()
    ensures StringOf(b, tag) == StringOf(a, tag)
  {
    hide First;
    if First(a, tag).Some? {
      assert First(a, tag).value.Content().value == First(b, tag).value.Content().value;
      assert First(a, tag).value.Content().kind == First(b, tag).value.Content().kind;
    }
  }

  /** A tag that does not survive in the Exif directory is not in the retained one. */
  lemma NotInExif(x: Tree, z: Tree, policy: Policy, tag: U16)
    requires HoldsSurvivors(x, z, policy)
    requires forall e: Entry :: e.tag == tag ==> !Survivor(policy, x.order, true)(e)
    ensures z.exif.Some? ==> !HasTag(z.exif.value, tag)
  {
    hide TagKept, HasTag, Survivor, ExifStays, InteropStays;
    if z.exif.Some? {
      assert TagKept(x.exif.value, z.exif.value, Survivor(policy, x.order, true), tag);
      TagKeptNone(x.exif.value, z.exif.value, Survivor(policy, x.order, true), tag);
    }
  }

  /** Photographer and ImageEditor survive in the Exif directory when they are text, and nowhere else. */
  lemma CreatorsSurvive(src: seq<Byte>, policy: Policy, want: Option<Orientation>, tag: U16)
    requires !policy.KeepsEverything() && Retain(src, policy, want).Some? && tag in {0xA437, 0xA438}
    ensures Parse(src).Some? && Parse(Retain(src, policy, want).value).Some?
    ensures var x, z := Parse(src).value, Parse(Retain(src, policy, want).value).value;
            && !HasTag(z.ifd0, tag)
            && (z.exif.Some? && !policy.rights ==> !HasTag(z.exif.value, tag))
            && (policy.rights && x.exif.Some? && HasTag(x.exif.value, tag)
                && (forall e :: e in x.exif.value && e.tag == tag ==> IsText(e)) ==>
                  z.exif.Some? && StringOf(z.exif.value, tag) == StringOf(x.exif.value, tag))
  {
    hide Parse, Retain, First, HasTag, TagKept, Survives, IsText, InteropStays;
    RetainedSurvivors(src, policy, want);
    var x, z := Parse(src).value, Parse(Retain(src, policy, want).value).value;
    CreatorsMean(policy, x.order, tag);
    assert TagKept(x.ifd0, z.ifd0, Survivor(policy, x.order, false), tag);
    TagKeptNone(x.ifd0, z.ifd0, Survivor(policy, x.order, false), tag);
    if !policy.rights {
      NotInExif(x, z, policy, tag);
    } else if x.exif.Some? && HasTag(x.exif.value, tag) && forall e :: e in x.exif.value && e.tag == tag ==> IsText(e) {
      FirstMember(x.exif.value, tag);
      assert Survivor(policy, x.order, true)(First(x.exif.value, tag).value);
      assert TagKept(x.exif.value, z.exif.value, Survivor(policy, x.order, true), tag);
      TagKeptFirst(x.exif.value, z.exif.value, Survivor(policy, x.order, true), tag);
      SameStrings(x.exif.value, z.exif.value, tag);
    }
  }

  /** All entries with the tag are there with their contents, or none is. */
  ghost predicate WholeOrNone(d: Dir, z: Dir, tag: U16, kept: bool) {
    Contents(WithTag(z, tag)) == if kept then Contents(WithTag(d, tag)) else []
  }

  lemma AllOrNothing(d: Dir, z: Dir, p: Entry -> bool, tag: U16, kept: bool)
    requires TagKept(d, z, p, tag) && forall e: Entry :: e.tag == tag ==> p(e) == kept
    ensures WholeOrNone(d, z, tag, kept)
  {
    hide Filter, Map;
    if kept {
      FilterAll(p, WithTag(d, tag));
    } else {
      FilterNone(p, WithTag(d, tag));
    }
  }

  lemma PlainMeans(policy: Policy, order: ByteOrder, exifDir: bool, tag: U16)
    requires Plain(tag)
    ensures forall e: Entry :: e.tag == tag ==> Survivor(policy, order, exifDir)(e) == FlagKeeps(policy, tag)
  {
    hide Survives, Plain, FlagKeeps;
    forall e: Entry | e.tag == tag
      ensures Survives(e, policy, order, exifDir) <==> FlagKeeps(policy, tag)
    {
      PlainSurvives(e, policy, order, exifDir);
    }
  }

  /** Every other tag is kept whole in IFD0, IFD1 and the Exif directory, or not at all, by its flag. */
  lemma PlainTagsSurvive(src: seq<Byte>, policy: Policy, want: Option<Orientation>, tag: U16)
    requires !policy.KeepsEverything() && Retain(src, policy, want).Some? && Plain(tag)
    ensures Parse(src).Some? && Parse(Retain(src, policy, want).value).Some?
    ensures var x, z := Parse(src).value, Parse(Retain(src, policy, want).value).value;
            && WholeOrNone(x.ifd0, z.ifd0, tag, FlagKeeps(policy, tag))
            && (z.exif.Some? ==> x.exif.Some? && WholeOrNone(x.exif.value, z.exif.value, tag, FlagKeeps(policy, tag)))
            && (z.ifd1.Some? ==> x.ifd1.Some? && WholeOrNone(x.ifd1.value, z.ifd1.value, tag, FlagKeeps(policy, tag)))
            && (FlagKeeps(policy, tag) && x.exif.Some? && HasTag(x.exif.value, tag) ==> z.exif.Some?)
  {
    hide Parse, Retain, First, HasTag, TagKept, Survives, FlagKeeps, InteropStays, Map, Filter;
    RetainedSurvivors(src, policy, want);
    var x, z := Parse(src).value, Parse(Retain(src, policy, want).value).value;
    var outer, inner := Survivor(policy, x.order, false), Survivor(policy, x.order, true);
    PlainMeans(policy, x.order, false, tag);
    PlainMeans(policy, x.order, true, tag);
    assert tag != ORIENTATION;
    AllOrNothing(x.ifd0, z.ifd0, outer, tag, FlagKeeps(policy, tag));
    if z.exif.Some? {
      assert TagKept(x.exif.value, z.exif.value, inner, tag);
      AllOrNothing(x.exif.value, z.exif.value, inner, tag, FlagKeeps(policy, tag));
    }
    if z.ifd1.Some? {
      assert TagKept(x.ifd1.value, z.ifd1.value, outer, tag);
      AllOrNothing(x.ifd1.value, z.ifd1.value, outer, tag, FlagKeeps(policy, tag));
    }
    if FlagKeeps(policy, tag) && x.exif.Some? && HasTag(x.exif.value, tag) {
      FirstMember(x.exif.value, tag);
      assert inner(First(x.exif.value, tag).value);
    }
  }

  /** A colour entry that is well typed: one SHORT for the colour space, one rational without a zero for the gamma. */
  predicate ValidColour(e: Entry, order: ByteOrder) {
    || (e.tag == COLOR_SPACE && e.kind == 3 && e.count == 1)
    || (e.tag == GAMMA && ValidGamma(e, order))
  }

  lemma ColourMeans(policy: Policy, order: ByteOrder, tag: U16)
    requires tag in {COLOR_SPACE, GAMMA}
    ensures forall e: Entry :: e.tag == tag ==> (Survivor(policy, order, true)(e) <==> policy.color && ValidColour(e, order))
    ensures forall e: Entry :: e.tag == tag ==> !Survivor(policy, order, false)(e)
  {
    hide ValidGamma, ValidOrientation, FlagKeeps, IsText;
  }

  /** The colour declaration survives in the Exif directory and nowhere else, when colour is kept and it is well typed. */
  lemma ColourSurvives(src: seq<Byte>, policy: Policy, want: Option<Orientation>, tag: U16)
    requires !policy.KeepsEverything() && Retain(src, policy, want).Some? && tag in {0xA001, 0xA500}
    ensures Parse(src).Some? && Parse(Retain(src, policy, want).value).Some?
    ensures var x, z := Parse(src).value, Parse(Retain(src, policy, want).value).value;
            && !HasTag(z.ifd0, tag)
            && (z.exif.Some? && !policy.color ==> !HasTag(z.exif.value, tag))
            && (policy.color && x.exif.Some? && HasTag(x.exif.value, tag)
                && (forall e :: e in x.exif.value && e.tag == tag ==> ValidColour(e, x.order)) ==>
                  && z.exif.Some?
                  && First(z.exif.value, tag).Some?
                  && First(z.exif.value, tag).value.Content() == First(x.exif.value, tag).value.Content())
  {
    hide Parse, Retain, First, HasTag, TagKept, Survives, ValidColour, InteropStays;
    RetainedSurvivors(src, policy, want);
    var x, z := Parse(src).value, Parse(Retain(src, policy, want).value).value;
    var inner := Survivor(policy, x.order, true);
    ColourMeans(policy, x.order, tag);
    assert TagKept(x.ifd0, z.ifd0, Survivor(policy, x.order, false), tag);
    TagKeptNone(x.ifd0, z.ifd0, Survivor(policy, x.order, false), tag);
    if !policy.color {
      NotInExif(x, z, policy, tag);
    } else if x.exif.Some? && HasTag(x.exif.value, tag) && forall e :: e in x.exif.value && e.tag == tag ==> ValidColour(e, x.order) {
      FirstMember(x.exif.value, tag);
      assert inner(First(x.exif.value, tag).value);
      assert TagKept(x.exif.value, z.exif.value, inner, tag);
      TagKeptFirst(x.exif.value, z.exif.value, inner, tag);
    }
  }

  // ----- the orientation -----

  /** An orientation entry of IFD0 that the policy keeps. */
  ghost predicate OrientationStays(x: Tree, policy: Policy) {
    policy.orientation && exists e :: e in x.ifd0 && e.tag == ORIENTATION && ValidOrientation(e, x.order)
  }

  lemma OrientationSurvives(e: Entry, policy: Policy, order: ByteOrder)
    requires e.tag == ORIENTATION
    ensures Survives(e, policy, order, false) <==> policy.orientation && ValidOrientation(e, order)
  {
    hide ValidOrientation, ValidGamma, FlagKeeps, IsText;
  }

  /** What is left of the orientation entries is integers, and something is left exactly when one stays. */
  lemma FilteredOrientation(x: Tree, policy: Policy)
    ensures var first := First(Filtered(x, policy).ifd0, TAG_ORIENTATION);
            && (first.Some? <==> OrientationStays(x, policy))
            && (first.Some? ==> first.value in x.ifd0 && ValidOrientation(first.value, x.order)
                                && first.value.kind in {TIFF_SHORT, TIFF_LONG})
  {
    hide First, Survives, Keep, ValidOrientation, FilteredExif, FilteredInterop, FilterDir;
    var y := Filtered(x, policy);
    FirstMember(y.ifd0, TAG_ORIENTATION);
    forall e: Entry | e.tag == ORIENTATION
      ensures Keep(e, policy, x.order, false) <==> policy.orientation && ValidOrientation(e, x.order)
      ensures ValidOrientation(e, x.order) ==> e.kind in {TIFF_SHORT, TIFF_LONG}
    {
      KeepIffSurvives(e, policy, x.order, false);
      OrientationSurvives(e, policy, x.order);
      OrientationIsInteger(e, x.order);
    }
    if OrientationStays(x, policy) {
      var e :| e in x.ifd0 && e.tag == ORIENTATION && ValidOrientation(e, x.order);
      assert Keeper(policy, x.order, false)(e);
      assert e in y.ifd0;
    }
  }

  /**
   The wanted orientation on the pruning path: it is what the retained bytes say exactly when an
   orientation entry survives the prune; otherwise they say none.
   */
  lemma WantedIsRead(src: seq<Byte>, policy: Policy, o: Orientation)
    requires !policy.KeepsEverything() && Retain(src, policy, Some(o)).Some?
    ensures Parse(src).Some? && Parse(Retain(src, policy, Some(o)).value).Some?
    ensures OrientationOf(Parse(Retain(src, policy, Some(o)).value).value)
         == if OrientationStays(Parse(src).value, policy) then Some(o) else None
  {
    hide Parse, RetainPruned, Canonical, SameTree, Retain, Filtered, OrientationStays, OrientationOf, First, SetOrientationTag;
    RetainPrunes(src, policy, Some(o));
    var x := Parse(src).value;
    PrunedReadsBack(src, x, policy, Some(o));
    FilteredOrientation(x, policy);
    SetOrientationTagReads(Filtered(x, policy), o);
    ReadsAlike(Pruned(x, policy, Some(o)), Parse(Retain(src, policy, Some(o)).value).value);
  }

  /** The first orientation entry of IFD0 is a SHORT or LONG whose value is in its descriptor. */
  ghost predicate InlineOrientation(x: Tree) {
    First(x.ifd0, ORIENTATION).Some?
    && var e := First(x.ifd0, ORIENTATION).value;
       (e.kind == 3 || e.kind == 4) && |e.value| <= 4
  }

  /** It can be patched exactly then: its descriptor is in the blob. */
  lemma PatchedIff(data: seq<Byte>, o: Orientation)
    requires Parse(data).Some?
    ensures SetOrientationWith(data, Parse(data).value, o).Some? <==> InlineOrientation(Parse(data).value)
  {
    hide Parse, First, Ifd0Of, Enc16, Enc32, OverwriteAt, Raw;
    var x := Parse(data).value;
    var order, off, raw := ParseParts(data);
    OrientationKept(raw, order);
    RawOk(TiffOf(data), order, off, raw);
    FirstMember(raw, TAG_ORIENTATION);
    if First(raw, TAG_ORIENTATION).Some? {
      var e := First(raw, TAG_ORIENTATION).value;
      IntegerSize(e, o, order);
      if IntBytes(e.kind, o, order).Some? && e.count * |IntBytes(e.kind, o, order).value| <= 4 {
        var k, at := FieldOf(TiffOf(data), order, off, raw, e, o, IntBytes(e.kind, o, order).value);
        PrefixLen(data, x);
      }
    }
  }

  lemma PrefixLen(data: seq<Byte>, x: Tree)
    requires x.hadPrefix == HasPrefix(data)
    ensures |data| == |Prefix(x)| + |TiffOf(data)|
  {
  }

  lemma IntegerSize(e: Entry, o: Orientation, order: ByteOrder)
    requires WellFormed(e)
    ensures IntBytes(e.kind, o, order).Some? <==> e.kind == 3 || e.kind == 4
    ensures IntBytes(e.kind, o, order).Some? ==>
              |e.value| == e.count * |IntBytes(e.kind, o, order).value| && |IntBytes(e.kind, o, order).value| <= 4
  {
    hide Enc16, Enc32;
  }

  /**
   The keep-all path: the retained bytes say the wanted orientation exactly when the source says it already
   or has a SHORT or LONG for it, in its descriptor and with at least one element. Without such an entry,
   or when nothing is to be changed, they are the source.
   */
  lemma KeepAllSetsOrientation(src: seq<Byte>, o: Orientation)
    requires |src| <= U32_MAX && Parse(src).Some?
    ensures Retain(src, KEEP_ALL, Some(o)).Some? && Parse(Retain(src, KEEP_ALL, Some(o)).value).Some?
    ensures var x, r := Parse(src).value, Retain(src, KEEP_ALL, Some(o)).value;
            && (OrientationOf(Parse(r).value) == Some(o) <==>
                  OrientationOf(x) == Some(o) || (InlineOrientation(x) && First(x.ifd0, ORIENTATION).value.count >= 1))
            && (OrientationOf(x) == Some(o) || !InlineOrientation(x) ==> r == src)
            && (OrientationOf(x) != Some(o) && InlineOrientation(x) ==> PatchOrientation(src, o) == Some(r))
  {
    hide Parse, First, OrientationOf, SetOrientationWith, Shapes, AgreeOutside, OwnDescriptor, InlineOrientation;
    var x := Parse(src).value;
    PatchedIff(src, o);
    InlineHasFirst(x);
    if OrientationOf(x) != Some(o) && InlineOrientation(x) {
      PatchIsLocal(src, o);
    }
  }

  lemma InlineHasFirst(x: Tree)
    ensures InlineOrientation(x) ==> First(x.ifd0, ORIENTATION).Some?
  {
  }

  /** Whether a retain can make the tree say the orientation. */
  ghost predicate CanBeOriented(x: Tree, policy: Policy, o: Orientation) {
    if policy == KEEP_ALL then
      OrientationOf(x) == Some(o) || (InlineOrientation(x) && First(x.ifd0, ORIENTATION).value.count >= 1)
    else OrientationStays(x, policy)
  }

  /** Both paths: what is retained says the wanted orientation exactly when it can be made to. */
  lemma OrientedIff(src: seq<Byte>, policy: Policy, o: Orientation)
    ensures Retain(src, policy, Some(o)).Some? && |src| <= U32_MAX && Parse(src).Some? ==>
              var r := Retain(src, policy, Some(o)).value;
              && Parse(r).Some?
              && (OrientationOf(Parse(r).value) == Some(o) <==> CanBeOriented(Parse(src).value, policy, o))
  {
    hide Parse, Retain, OrientationOf, OrientationStays, InlineOrientation, First;
    if Retain(src, policy, Some(o)).Some? && |src| <= U32_MAX && Parse(src).Some? {
      if policy == KEEP_ALL {
        InlineHasFirst(Parse(src).value);
        KeepAllSetsOrientation(src, o);
      } else {
        WantedIsRead(src, policy, o);
      }
    }
  }

  /** What a caller gets: bytes that stay as they are when retained again, and the orientation whenever it can be said. */
  ghost predicate Reconciled(src: seq<Byte>, policy: Policy, want: Option<Orientation>, r: Option<seq<Byte>>) {
    r.Some? ==>
      && Retain(r.value, policy, want) == r
      && (want.Some? && |src| <= U32_MAX && Parse(src).Some? ==>
            && Parse(r.value).Some?
            && (OrientationOf(Parse(r.value).value) == want <==> CanBeOriented(Parse(src).value, policy, want.value)))
  }

  lemma RetainReconciles(src: seq<Byte>, policy: Policy, want: Option<Orientation>)
    ensures Reconciled(src, policy, want, Retain(src, policy, want))
  {
    hide Parse, Retain, OrientationOf, CanBeOriented;
    if Retain(src, policy, want).Some? {
      RetainTwiceIsOnce(src, policy, want);
      if want.Some? {
        OrientedIff(src, policy, want.value);
      }
    }
  }

  // ----- what becomes of a blob -----

  /** Something of the tree survives: an entry of IFD0, the Exif directory, GPS, or the thumbnail directory. */
  ghost predicate AnySurvives(x: Tree, policy: Policy) {
    || AnyOf(Some(x.ifd0), Survivor(policy, x.order, false)) || ExifStays(x, policy)
    || (policy.gps && x.gps.Some?) || (policy.thumbnail && x.ifd1.Some?)
  }

  lemma EmptyIff(x: Tree, policy: Policy, want: Option<Orientation>)
    ensures Empty(Pruned(x, policy, want)) <==> !AnySurvives(x, policy)
  {
    hide Filter, Keeper, InteropKeeper, Survivor, InteropStays, ExifStays, FilteredExif, FilteredInterop, First, Replace,
      Reauthored;
    KeepersSurvive(policy, x.order, false);
    NotEmptyIff(x.ifd0, Keeper(policy, x.order, false), Survivor(policy, x.order, false));
    FilteredStays(x, policy);
    StaysNeedsExif(x, policy);
    if want.Some? {
      SetOrientationTagReads(Filtered(x, policy), want.value);
      ReconciledTagged(Filtered(x, policy), want.value, 0);
    }
  }

  lemma StaysNeedsExif(x: Tree, policy: Policy)
    ensures ExifStays(x, policy) ==> x.exif.Some?
  {
    hide Survivor, InteropSurvivor;
  }

  /**
   When a pruning retain gives bytes, and how many: the source fits 32 bits and parses, something survives,
   and the pruned blob has at most twice the bytes of the source and 1024 more, within 32 bits.
   */
  lemma PrunedOutcome(src: seq<Byte>, policy: Policy, want: Option<Orientation>)
    requires policy != KEEP_ALL && policy != DISCARD_ALL
    ensures Retain(src, policy, want).Some? <==>
              && |src| <= 0xFFFF_FFFF && Parse(src).Some? && AnySurvives(Parse(src).value, policy)
              && |ToBytes(Pruned(Parse(src).value, policy, want))| <= 2 * |src| + 1024
              && |ToBytes(Pruned(Parse(src).value, policy, want))| <= 0xFFFF_FFFF
    ensures Retain(src, policy, want).Some? ==>
              Retain(src, policy, want).value == ToBytes(Pruned(Parse(src).value, policy, want))
  {
    hide Parse, Pruned, ToBytes, SerializedLen, AnySurvives, Empty;
    if Parse(src).Some? {
      EmptyIff(Parse(src).value, policy, want);
      SerializedLenIsExact(Pruned(Parse(src).value, policy, want));
    }
  }

  /** The other outcomes: everything discarded is nothing, everything kept is never nothing, and unread is unchanged. */
  lemma OtherOutcomes(src: seq<Byte>, want: Option<Orientation>)
    ensures Retain(src, DISCARD_ALL, want).None? && Retain(src, KEEP_ALL, want).Some?
    ensures want.None? || |src| > 0xFFFF_FFFF || Parse(src).None? ==> Retain(src, KEEP_ALL, want) == Some(src)
  {
    hide Parse, RetainInPlace;
  }
}
