/**
 Pruning by policy survives the wire (src/exif.rs). A pruned tree is canonical and prunes to itself;
 so does the tree read back from its bytes. What a policy discards does not reappear.
 */
module ExifPruning {
  import opened Words
  import opened Bytes
  import opened ExifEntries
  import opened ExifLayout
  import opened ExifModel
  import opened ExifReparse
  import opened ExifRoundTrip
  import opened ExifFixpoint
  import opened ExifCanonical
  import opened ExifPolicy

  // ----- what a kept entry is -----

  /** A kept entry is of a kept category and holds no offset or maker data. */
  lemma KeptCategory(e: Entry, policy: Policy, order: ByteOrder, exifDir: bool)
    requires Keep(e, policy, order, exifDir)
    ensures policy.Keeps(Classify(e.tag)) && !OffsetBearing(e.tag) && e.tag != TAG_MAKER_NOTE
  {
  }

  lemma KeepIgnoresOrigin(e: Entry, policy: Policy, order: ByteOrder, exifDir: bool)
    ensures Keep(e.Content(), policy, order, exifDir) == Keep(e, policy, order, exifDir)
  {
  }

  ghost predicate AllKept(d: Dir, p: Entry -> bool) {
    forall e :: e in d ==> p(e)
  }

  ghost predicate OptKept(d: Option<Dir>, p: Entry -> bool) {
    d.Some? ==> AllKept(d.value, p)
  }

  /** Holds of exactly the trees that a policy leaves alone. */
  ghost predicate Clean(x: Tree, policy: Policy) {
    && AllKept(x.ifd0, Keeper(policy, x.order, false))
    && OptKept(x.exif, Keeper(policy, x.order, true))
    && (x.exif.Some? ==> x.exif.value != [] || x.interop.Some?)
    && OptKept(x.interop, InteropKeeper())
    && (x.interop.Some? ==> policy.color && x.exif.Some? && x.interop.value != [])
    && (x.gps.Some? ==> policy.gps)
    && OptKept(x.ifd1, Keeper(policy, x.order, false))
    && (x.ifd1.Some? ==> policy.thumbnail) && (x.thumbnail.Some? ==> policy.thumbnail)
  }

  lemma FilterDirKept(d: Option<Dir>, p: Entry -> bool)
    ensures OptKept(FilterDir(d, p), p) && (FilterDir(d, p).Some? <==> d.Some?)
    ensures OptKept(d, p) ==> FilterDir(d, p) == d
  {
    hide Filter;
    if OptKept(d, p) && d.Some? {
      FilterAll(p, d.value);
    }
  }

  /** Whatever is pruned is clean. */
  lemma FilteredIsClean(x: Tree, policy: Policy)
    ensures Clean(Filtered(x, policy), policy)
  {
    hide Filter, Keeper, InteropKeeper, FilterDir;
    FilterDirKept(x.interop, InteropKeeper());
    FilterDirKept(x.exif, Keeper(policy, x.order, true));
    FilterDirKept(x.ifd1, Keeper(policy, x.order, false));
  }

  /** A tree is clean exactly when pruning does not change it. */
  lemma CleanIffFixed(x: Tree, policy: Policy)
    ensures Clean(x, policy) <==> Filtered(x, policy) == x
  {
    FilteredIsClean(x, policy);
    if Clean(x, policy) {
      hide Filter, Keeper, InteropKeeper, FilterDir;
      FilterAll(Keeper(policy, x.order, false), x.ifd0);
      FilterDirKept(x.interop, InteropKeeper());
      FilterDirKept(x.exif, Keeper(policy, x.order, true));
      FilterDirKept(x.ifd1, Keeper(policy, x.order, false));
    }
  }

  /** Pruning twice is pruning once. */
  lemma FilterTwiceIsOnce(x: Tree, policy: Policy)
    ensures Filtered(Filtered(x, policy), policy) == Filtered(x, policy)
  {
    hide Filtered;
    FilteredIsClean(x, policy);
    CleanIffFixed(Filtered(x, policy), policy);
  }

  // ----- pruned trees are canonical -----

  lemma FilteredDirOk(s: Dir, p: Entry -> bool, pointers: nat)
    requires DirOk(s, pointers)
    ensures DirOk(Filter(p, s), pointers)
  {
    hide DirOk;
    PartOk(s, p, pointers, 0);
  }

  lemma KeptHasNoOffsets(s: Dir, policy: Policy, order: ByteOrder, exifDir: bool, tag: U16)
    requires OffsetBearing(tag)
    ensures !HasTag(Filter(Keeper(policy, order, exifDir), s), tag)
  {
    hide Filter;
  }

  lemma FilteredIsCanonical(x: Tree, policy: Policy)
    requires Canonical(x)
    ensures Canonical(Filtered(x, policy))
  {
    hide Filter, Keeper, InteropKeeper, DirOk, HasTag, First;
    var y := Filtered(x, policy);
    var plain, inner := Keeper(policy, x.order, false), Keeper(policy, x.order, true);
    FilteredDirOk(x.ifd0, plain, Count(x.exif) + Count(x.gps));
    FewerPointers(y.ifd0, Count(x.exif) + Count(x.gps), Count(y.exif) + Count(y.gps));
    KeptHasNoOffsets(x.ifd0, policy, x.order, false, TAG_EXIF_IFD);
    AbsentIsSwept(y.ifd0, TAG_EXIF_IFD, y.exif.Some?);
    KeptHasNoOffsets(x.ifd0, policy, x.order, false, TAG_GPS_IFD);
    AbsentIsSwept(y.ifd0, TAG_GPS_IFD, y.gps.Some?);
    if y.exif.Some? {
      FilteredDirOk(x.exif.value, inner, Count(x.interop));
      FewerPointers(y.exif.value, Count(x.interop), Count(y.interop));
      KeptHasNoOffsets(x.exif.value, policy, x.order, true, TAG_INTEROP_IFD);
      AbsentIsSwept(y.exif.value, TAG_INTEROP_IFD, y.interop.Some?);
    }
    if y.interop.Some? {
      FilteredDirOk(x.interop.value, InteropKeeper(), 0);
    }
    if y.ifd1.Some? {
      FilteredDirOk(x.ifd1.value, plain, 2 * Count(x.thumbnail));
      FewerPointers(y.ifd1.value, 2 * Count(x.thumbnail), 2 * Count(y.thumbnail));
      KeptHasNoOffsets(x.ifd1.value, policy, x.order, false, TAG_THUMB_OFFSET);
      KeptHasNoOffsets(x.ifd1.value, policy, x.order, false, TAG_THUMB_LENGTH);
    }
  }

  // ----- setting the orientation of a pruned tree -----

  /** A reauthored orientation: one SHORT or LONG that reads back as wanted. */
  lemma ReauthoredMeans(e: Entry, o: Orientation, order: ByteOrder)
    requires Reauthored(e, o, order).Some?
    ensures var r := Reauthored(e, o, order).value;
            && r.tag == e.tag && WellFormed(r) && !r.External()
            && ReadUint(r, order) == Some(o) && Reauthored(r, o, order) == Some(r.(origin := Owned(e.tag)))
  {
    hide Enc16, Enc32, Dec16, Dec32;
    var r := Reauthored(e, o, order).value;
    Dec16Enc16(o, order);
    Dec32Enc32(o, order);
    assert r.value[0..|r.value|] == r.value;
  }

  lemma KeptIsInteger(e: Entry, policy: Policy, order: ByteOrder, o: Orientation)
    requires Keep(e, policy, order, false) && e.tag == TAG_ORIENTATION
    ensures Reauthored(e, o, order).Some? && Keep(Reauthored(e, o, order).value, policy, order, false)
  {
    hide Enc16, Enc32;
    ReauthoredMeans(e, o, order);
  }

  lemma ReplaceMembers(s: Dir, r: Entry)
    requires HasTag(s, r.tag)
    ensures forall e :: e in Replace(s, r) ==> e in s || e == r
    ensures forall t: U16 :: HasTag(Replace(s, r), t) <==> HasTag(s, t)
  {
    var i := FirstIndex(s, r.tag);
    var t := s[i := r];
    forall e | e in t
      ensures e in s || e == r
    {
      var k :| 0 <= k < |t| && t[k] == e;
    }
    forall tag: U16 {:trigger HasTag(s, tag)}
      ensures HasTag(t, tag) <==> HasTag(s, tag)
    {
      if HasTag(s, tag) {
        var k := FirstIndex(s, tag);
        assert t[k].tag == tag;
      }
    }
  }

  /** Replacing answers for its tag and leaves every other tag alone. */
  lemma ReplaceFirst(s: Dir, r: Entry, tag: U16)
    ensures First(Replace(s, r), tag) == if tag == r.tag then Some(r) else First(s, tag)
  {
    var i, t := FirstIndex(s, r.tag), Replace(s, r);
    if i < |s| {
      assert forall j :: 0 <= j < |s| && j != i ==> t[j] == s[j];
      assert t[i] == r;
      if tag == r.tag {
        assert FirstIndex(t, tag) == i;
      } else {
        assert FirstIndex(t, tag) == FirstIndex(s, tag);
      }
    } else {
      FirstConcat(s, [r], tag);
      assert First([r], tag) == if tag == r.tag then Some(r) else None by {
        assert [r][0] == r;
        assert HasTag([r], tag) <==> tag == r.tag;
      }
    }
  }

  lemma ReplaceDirOk(s: Dir, r: Entry, pointers: nat)
    requires DirOk(s, pointers) && HasTag(s, r.tag) && WellFormed(r) && !r.External()
    ensures DirOk(Replace(s, r), pointers)
  {
    hide WellFormed, FirstIndex;
    var t := Replace(s, r);
    ReplaceMembers(s, r);
    forall e | e in t
      ensures WellFormed(e)
    {
      if e in s {
        var k :| 0 <= k < |s| && s[k] == e;
      }
    }
    MembersWellFormed(t);
  }

  lemma EditedIsClean(x: Tree, policy: Policy, o: Orientation)
    requires Clean(x, policy)
    ensures Clean(SetOrientationTag(x, o), policy)
  {
    hide Keep, Replace, Reauthored, First, KeepInterop;
    var first := First(x.ifd0, TAG_ORIENTATION);
    if first.Some? {
      FirstMember(x.ifd0, TAG_ORIENTATION);
      KeptIsInteger(first.value, policy, x.order, o);
      ReauthoredMeans(first.value, o, x.order);
      ReplaceMembers(x.ifd0, Reauthored(first.value, o, x.order).value);
    }
  }

  lemma FirstMember(s: Dir, tag: U16)
    ensures First(s, tag).Some? <==> HasTag(s, tag)
    ensures First(s, tag).Some? ==> First(s, tag).value in s && First(s, tag).value.tag == tag
  {
  }

  lemma EditedIsCanonical(x: Tree, policy: Policy, o: Orientation)
    requires Canonical(x) && Clean(x, policy)
    ensures Canonical(SetOrientationTag(x, o))
  {
    hide Replace, Reauthored, First, DirOk, Clean, HasTag, Keep, OffsetBearing;
    var first := First(x.ifd0, TAG_ORIENTATION);
    if first.Some? && Reauthored(first.value, o, x.order).Some? {
      FirstMember(x.ifd0, TAG_ORIENTATION);
      var r := Reauthored(first.value, o, x.order).value;
      ReauthoredMeans(first.value, o, x.order);
      ReplaceDirOk(x.ifd0, r, Count(x.exif) + Count(x.gps));
      ReplaceMembers(x.ifd0, r);
      CleanHasNoPointer(x, policy, TAG_EXIF_IFD);
      CleanHasNoPointer(x, policy, TAG_GPS_IFD);
      var d := Replace(x.ifd0, r);
      assert HasTag(d, TAG_EXIF_IFD) <==> HasTag(x.ifd0, TAG_EXIF_IFD);
      assert HasTag(d, TAG_GPS_IFD) <==> HasTag(x.ifd0, TAG_GPS_IFD);
      AbsentIsSwept(d, TAG_EXIF_IFD, x.exif.Some?);
      AbsentIsSwept(d, TAG_GPS_IFD, x.gps.Some?);
    }
  }

  lemma CleanHasNoPointer(x: Tree, policy: Policy, tag: U16)
    requires Clean(x, policy) && OffsetBearing(tag)
    ensures !HasTag(x.ifd0, tag)
  {
  }

  /** What a pruning rewrite serializes is canonical and clean. */
  lemma PrunedOk(x: Tree, policy: Policy, want: Option<Orientation>)
    requires Canonical(x)
    ensures Canonical(Pruned(x, policy, want)) && Clean(Pruned(x, policy, want), policy)
  {
    hide Filtered, SetOrientationTag, Canonical, Clean;
    FilteredIsCanonical(x, policy);
    FilteredIsClean(x, policy);
    if want.Some? {
      EditedIsCanonical(Filtered(x, policy), policy, want.value);
      EditedIsClean(Filtered(x, policy), policy, want.value);
    }
  }

  // ----- across the wire -----

  lemma BareMember(d: Dir, b: Entry)
    requires b in Bares(d)
    ensures exists e :: e in d && e.Bare() == b
  {
    var k :| 0 <= k < |d| && Bares(d)[k] == b;
    assert d[k] in d;
  }

  /** Every entry read back has the contents of an entry written. */
  lemma SameMember(a: Dir, b: Dir, e: Entry) returns (w: Entry)
    requires SameDir(a, b) && e in b
    ensures w in a && w.Content() == e.Content()
  {
    hide Sort, Relaid, Map;
    SameSizes(a, b);
    var k :| 0 <= k < |b| && b[k] == e;
    var s := Sort(Bares(a));
    RelaidElement(s, Bares(b), k);
    SortMembers(Bares(a));
    assert s[k] in s;
    BareMember(a, s[k]);
    w :| w in a && w.Bare() == s[k];
  }

  lemma SameKept(a: Dir, b: Dir, p: Entry -> bool)
    requires SameDir(a, b) && AllKept(a, p) && forall e: Entry :: p(e.Content()) == p(e)
    ensures AllKept(b, p) && |a| == |b|
  {
    hide SameDir;
    forall e | e in b
      ensures p(e)
    {
      var w := SameMember(a, b, e);
      assert p(w.Content()) == p(w);
      assert p(e.Content()) == p(e);
    }
    SameSizes(a, b);
  }

  lemma KeepersIgnoreOrigin(policy: Policy, order: ByteOrder, exifDir: bool)
    ensures forall e: Entry :: Keeper(policy, order, exifDir)(e.Content()) == Keeper(policy, order, exifDir)(e)
    ensures forall e: Entry :: InteropKeeper()(e.Content()) == InteropKeeper()(e)
  {
    forall e: Entry
      ensures Keeper(policy, order, exifDir)(e.Content()) == Keeper(policy, order, exifDir)(e)
    {
      KeepIgnoresOrigin(e, policy, order, exifDir);
    }
  }

  /** A tree read back from the bytes of a clean tree is clean. */
  lemma SameIsClean(x: Tree, y: Tree, policy: Policy)
    requires Clean(x, policy) && SameTree(x, y)
    ensures Clean(y, policy)
  {
    hide SameDir, Keeper, InteropKeeper, AllKept;
    KeepersIgnoreOrigin(policy, x.order, false);
    KeepersIgnoreOrigin(policy, x.order, true);
    SameKept(x.ifd0, y.ifd0, Keeper(policy, x.order, false));
    if x.exif.Some? {
      SameKept(x.exif.value, y.exif.value, Keeper(policy, x.order, true));
    }
    if x.interop.Some? {
      SameKept(x.interop.value, y.interop.value, InteropKeeper());
    }
    if x.ifd1.Some? {
      SameKept(x.ifd1.value, y.ifd1.value, Keeper(policy, x.order, false));
    }
  }
}
