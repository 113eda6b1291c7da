/**
 Authoring text and orientation (src/exif.rs): what is set is read back, in memory and across the
 wire, and nothing else changes. Adding an entry to a full IFD0 is the one edit that cannot be read
 back.
 */
module ExifEditing {
  import opened Words
  import opened Bytes
  import opened ExifEntries
  import opened ExifLayout
  import opened ExifModel
  import opened ExifReparse
  import opened ExifRoundTrip
  import opened ExifFixpoint
  import opened ExifCanonical
  import opened ExifPolicy
  import opened ExifPruning
  import opened ExifRetention
  import opened ExifPatch

  /** The bytes before the first NUL. */
  function UpToNul(v: seq<Byte>): (r: seq<Byte>)
    ensures r <= v && 0 !in r
  {
    if v == [] || v[0] == 0 then []
    else
      var rest := UpToNul(v[1..]);
      assert v == [v[0]] + v[1..];
      [v[0]] + rest
  }

  /** The source's ascii_bytes: a string entry's bytes, if it has any. */
  function StringOf(entries: Dir, tag: U16): Option<seq<Byte>> {
    var e :- First(entries, tag);
    if e.kind !in {TIFF_ASCII, TIFF_UTF8} then None else Readable(e.value)
  }

  /** What a reader sees of a text: an embedded NUL cuts it, nothing at all reads as absent. */
  function Readable(text: seq<Byte>): (r: Option<seq<Byte>>)
    ensures text != [] && 0 !in text ==> r == Some(text)
  {
    WholeText(text);
    if UpToNul(text) == [] then None else Some(UpToNul(text))
  }

  lemma {:induction false} WholeText(text: seq<Byte>)
    ensures 0 !in text ==> UpToNul(text) == text
  {
    if text != [] {
      assert text == [text[0]] + text[1..];
      assert forall b :: b in text[1..] ==> b in text;
      WholeText(text[1..]);
    }
  }

  /** The terminator that the setter adds is not part of what is read. */
  lemma {:induction false} UpToNulOfText(text: seq<Byte>)
    ensures UpToNul(text + [0]) == UpToNul(text)
  {
    if text != [] {
      assert (text + [0])[1..] == text[1..] + [0];
      UpToNulOfText(text[1..]);
    }
  }

  function SetString(x: Tree, tag: U16, text: seq<Byte>): Tree {
    x.(ifd0 := Replace(x.ifd0, StringEntry(tag, text, x.textEncoding)))
  }

  /** The readable part of a text is read back as set; other strings stay. */
  lemma SetStringReads(x: Tree, tag: U16, other: U16, text: seq<Byte>)
    requires other != tag
    ensures StringOf(SetString(x, tag, text).ifd0, tag) == Readable(text)
    ensures StringOf(SetString(x, tag, text).ifd0, other) == StringOf(x.ifd0, other)
  {
    hide First, Replace;
    var r := StringEntry(tag, text, x.textEncoding);
    ReplaceFirst(x.ifd0, r, tag);
    ReplaceFirst(x.ifd0, r, other);
    UpToNulOfText(text);
  }

  /** The entry that a text setter writes: ASCII or UTF-8 as the tree's encoding says, the text and one NUL. */
  lemma SetStringWrites(x: Tree, tag: U16, text: seq<Byte>)
    requires |text| < U32_MAX
    ensures First(SetString(x, tag, text).ifd0, tag).Some?
    ensures var e := First(SetString(x, tag, text).ifd0, tag).value;
            && e.kind == (match x.textEncoding case Ascii => 2 case Utf8 => 129)
            && e.value == text + [0] && e.count == |text| + 1
  {
    hide First, Replace;
    ReplaceFirst(x.ifd0, StringEntry(tag, text, x.textEncoding), tag);
  }

  // ----- an edited tree is still canonical -----

  /** Owned bytes belong to the first entry of the tag they were set for. */
  ghost predicate OwnedOnce(s: Dir) {
    forall i :: 0 <= i < |s| && s[i].origin.Owned? ==> s[i].tag == s[i].origin.owner && FirstIndex(s, s[i].tag) == i
  }

  lemma ReplaceOwned(s: Dir, r: Entry)
    requires OwnedOnce(s) && r.origin == Owned(r.tag)
    ensures OwnedOnce(Replace(s, r))
  {
    hide FirstIndex;
    var k, t := FirstIndex(s, r.tag), Replace(s, r);
    forall i | 0 <= i < |t| && t[i].origin.Owned?
      ensures t[i].tag == t[i].origin.owner && FirstIndex(t, t[i].tag) == i
    {
      if k < |s| {
        if i != k {
          assert t[i] == s[i];
        }
        SameFirstIndex(s, t, t[i].tag);
      } else if i < |s| {
        assert t[i] == s[i];
        FirstIndexExtend(s, r, t[i].tag);
      } else {
        FirstIndexEnd(s, r);
      }
    }
  }

  lemma SameFirstIndex(s: Dir, t: Dir, tag: U16)
    requires |s| == |t| && forall i :: 0 <= i < |s| ==> s[i].tag == t[i].tag
    ensures FirstIndex(s, tag) == FirstIndex(t, tag)
  {
  }

  lemma FirstIndexExtend(s: Dir, r: Entry, tag: U16)
    requires FirstIndex(s, tag) < |s|
    ensures FirstIndex(s + [r], tag) == FirstIndex(s, tag)
  {
    var i := FirstIndex(s, tag);
    assert (s + [r])[i] == s[i];
    assert forall j :: 0 <= j < i ==> (s + [r])[j] == s[j];
  }

  lemma FirstIndexEnd(s: Dir, r: Entry)
    requires FirstIndex(s, r.tag) == |s|
    ensures FirstIndex(s + [r], r.tag) == |s|
  {
    assert (s + [r])[|s|] == r;
    assert forall j :: 0 <= j < |s| ==> (s + [r])[j] == s[j];
  }

  lemma ReplaceMember(s: Dir, r: Entry, e: Entry)
    requires OwnedOnce(s) && r.origin == Owned(r.tag) && e in Replace(s, r)
    ensures e == r || (e in s && e.origin != Owned(r.tag))
  {
    hide FirstIndex;
    var k, t := FirstIndex(s, r.tag), Replace(s, r);
    var i :| 0 <= i < |t| && t[i] == e;
    if i != k && e != r {
      assert t[i] == s[i];
    }
  }

  lemma ReplaceConsistent(s: Dir, r: Entry)
    requires OwnedOnce(s) && Consistent(s) && r.origin == Owned(r.tag)
    ensures Consistent(Replace(s, r))
  {
    hide Replace;
    var t := Replace(s, r);
    forall a, b | a in t && b in t && a.External() && b.External() && a.Alias() == b.Alias()
      ensures a.value == b.value
    {
      ReplaceMember(s, r, a);
      ReplaceMember(s, r, b);
    }
  }

  lemma ReplaceShort(s: Dir, r: Entry)
    requires ShortWellFormed(s) && (|r.value| <= U32_MAX ==> WellFormed(r))
    ensures ShortWellFormed(Replace(s, r))
  {
    hide WellFormed, FirstIndex;
    var t := Replace(s, r);
    forall i | 0 <= i < |t| && |t[i].value| <= U32_MAX
      ensures WellFormed(t[i])
    {
      assert t[i] == r || (i < |s| && t[i] == s[i]);
    }
  }

  // ----- runs of edits -----

  /** The edits of a caller: text goes in as bytes, orientation as a number from 1 to 8. */
  datatype Edit = Copyright(text: seq<Byte>) | Artist(text: seq<Byte>) | Orient(o: Orientation) {
    function Tag(): U16 {
      match this
      case Copyright(_) => TAG_COPYRIGHT
      case Artist(_) => TAG_ARTIST
      case Orient(_) => TAG_ORIENTATION
    }
  }

  function Apply(x: Tree, edit: Edit): Tree {
    match edit
    case Copyright(text) => SetCopyright(x, text)
    case Artist(text) => SetArtist(x, text)
    case Orient(o) => SetOrientation(x, o)
  }

  function ApplyAll(x: Tree, edits: seq<Edit>): Tree {
    if edits == [] then x else Apply(ApplyAll(x, edits[..|edits| - 1]), edits[|edits| - 1])
  }

  /** The entry that an edit puts in the place of the first with its tag, or at the end. */
  function NewEntry(x: Tree, edit: Edit): Entry {
    match edit
    case Copyright(text) => StringEntry(TAG_COPYRIGHT, text, x.textEncoding)
    case Artist(text) => StringEntry(TAG_ARTIST, text, x.textEncoding)
    case Orient(o) =>
      var first := First(x.ifd0, TAG_ORIENTATION);
      if first.Some? && Reauthored(first.value, o, x.order).Some? then Reauthored(first.value, o, x.order).value
      else OrientationEntry(o, x.order)
  }

  lemma ApplyIsReplace(x: Tree, edit: Edit)
    ensures var r := NewEntry(x, edit);
            && r.tag == edit.Tag() && r.origin == Owned(r.tag) && (|r.value| <= U32_MAX ==> WellFormed(r))
            && Apply(x, edit) == x.(ifd0 := Replace(x.ifd0, r))
  {
    hide Replace, First, Enc16, Enc32;
    if edit.Orient? {
      FirstMember(x.ifd0, TAG_ORIENTATION);
      var first := First(x.ifd0, TAG_ORIENTATION);
      if first.None? {
        AppendIsReplace(x.ifd0, OrientationEntry(edit.o, x.order));
      } else if Reauthored(first.value, edit.o, x.order).Some? {
        ReauthoredMeans(first.value, edit.o, x.order);
      }
    }
  }

  /** A value that a 32-bit count can tell is told by its count. */
  ghost predicate ShortWellFormed(s: Dir) {
    forall i :: 0 <= i < |s| && |s[i].value| <= U32_MAX ==> WellFormed(s[i])
  }

  function Bit(b: bool): nat {
    if b then 1 else 0
  }

  /** How many of the tags that edits set are there. */
  ghost function Extra(s: Dir): nat {
    Bit(HasTag(s, TAG_COPYRIGHT)) + Bit(HasTag(s, TAG_ARTIST)) + Bit(HasTag(s, TAG_ORIENTATION))
  }

  /** What holds of a canonical tree after any edits: all but the cap on the entries of IFD0. */
  ghost predicate Authored(x: Tree) {
    && OwnedOnce(x.ifd0) && Consistent(x.ifd0) && ShortWellFormed(x.ifd0)
    && Swept(x.ifd0, TAG_EXIF_IFD, x.exif.Some?) && Swept(x.ifd0, TAG_GPS_IFD, x.gps.Some?)
    && ExifOk(x) && Ifd1Ok(x) && (x.gps.Some? ==> DirOk(x.gps.value, 0))
    && Ifd0Count(x) <= MAX_IFD_ENTRIES + Extra(x.ifd0)
  }

  /** The entries of IFD0 and the pointers it will be written with. */
  function Ifd0Count(x: Tree): nat {
    |x.ifd0| + Count(x.exif) + Count(x.gps)
  }

  lemma CanonicalIsAuthored(x: Tree)
    requires Canonical(x) && OwnedOnce(x.ifd0)
    ensures Authored(x) && Ifd0Count(x) <= MAX_IFD_ENTRIES
  {
    hide WellFormed, HasTag, Swept, Consistent, ExifOk, Ifd1Ok, FirstIndex;
  }

  lemma ReplaceTags(s: Dir, r: Entry, tag: U16)
    ensures HasTag(Replace(s, r), tag) <==> HasTag(s, tag) || tag == r.tag
  {
    hide First, Replace;
    ReplaceFirst(s, r, tag);
    NoFirst(s, tag);
    NoFirst(Replace(s, r), tag);
  }

  /** An edit adds an entry exactly when it adds its tag. */
  lemma ReplaceExtra(s: Dir, r: Entry)
    requires r.tag in {TAG_COPYRIGHT, TAG_ARTIST, TAG_ORIENTATION}
    ensures |Replace(s, r)| - Extra(Replace(s, r)) == |s| - Extra(s)
  {
    hide FirstIndex, HasTag;
    ReplaceTags(s, r, TAG_COPYRIGHT);
    ReplaceTags(s, r, TAG_ARTIST);
    ReplaceTags(s, r, TAG_ORIENTATION);
  }

  lemma ApplyAuthored(x: Tree, edit: Edit)
    requires Authored(x)
    ensures Authored(Apply(x, edit))
    ensures Ifd0Count(Apply(x, edit)) - Extra(Apply(x, edit).ifd0) == Ifd0Count(x) - Extra(x.ifd0)
  {
    hide Apply, NewEntry, Replace, OwnedOnce, Consistent, Swept, ExifOk, Ifd1Ok, DirOk, Extra, WellFormed, ShortWellFormed;
    ApplyIsReplace(x, edit);
    var r := NewEntry(x, edit);
    ReplaceOwned(x.ifd0, r);
    ReplaceConsistent(x.ifd0, r);
    ReplaceShort(x.ifd0, r);
    ReplaceExtra(x.ifd0, r);
    SweptReplace(x.ifd0, r, TAG_EXIF_IFD, x.exif.Some?);
    SweptReplace(x.ifd0, r, TAG_GPS_IFD, x.gps.Some?);
    OthersOk(x, Apply(x, edit));
  }

  lemma OthersOk(x: Tree, y: Tree)
    requires ExifOk(x) && Ifd1Ok(x) && y == x.(ifd0 := y.ifd0)
    ensures ExifOk(y) && Ifd1Ok(y)
  {
    hide DirOk, Swept, HasTag;
  }

  lemma {:induction false} EditsAuthored(x: Tree, edits: seq<Edit>)
    requires Authored(x)
    ensures Authored(ApplyAll(x, edits))
    ensures Ifd0Count(ApplyAll(x, edits)) - Extra(ApplyAll(x, edits).ifd0) == Ifd0Count(x) - Extra(x.ifd0)
  {
    hide Authored, Apply, Extra, Ifd0Count;
    if edits != [] {
      EditsAuthored(x, edits[..|edits| - 1]);
      ApplyAuthored(ApplyAll(x, edits[..|edits| - 1]), edits[|edits| - 1]);
    }
  }

  lemma SweptReplace(s: Dir, r: Entry, tag: U16, present: bool)
    requires Swept(s, tag, present) && tag != r.tag
    ensures Swept(Replace(s, r), tag, present)
  {
    hide First, Replace;
    ReplaceFirst(s, r, tag);
    NoFirst(s, tag);
    NoFirst(Replace(s, r), tag);
  }

  // ----- across the wire -----

  lemma SameString(a: Dir, b: Dir, tag: U16)
    requires SameDir(a, b)
    ensures StringOf(a, tag) == StringOf(b, tag)
  {
    hide SameDir, First;
    SameFirst(a, b, tag);
    if First(a, tag).Some? {
      assert First(a, tag).value.Content() == First(b, tag).value.Content();
    }
  }

  lemma TooManyEntries(tiff: seq<Byte>, off: nat, items: Dir, next: U32, order: ByteOrder)
    requires At(tiff, off, IfdBytes(items, off, next, order)) && MAX_IFD_ENTRIES < |items| <= U16_MAX
    ensures ParseIfd(tiff, off, order).None?
  {
    hide Table, ExtBytes, Enc16, Enc32, Rd16, ParsedEntries, IfdBytes, At;
    BlockParts(tiff, off, items, next, order, ExtBase(off, |items|));
    Rd16At(tiff, off, |items|, order);
  }

  /** A count above the cap makes the whole blob unreadable. */
  lemma OverfullUnreadable(x: Tree)
    requires MAX_IFD_ENTRIES < |x.ifd0| + Count(x.exif) + Count(x.gps) <= U16_MAX
    ensures Parse(ToBytes(x)).None?
  {
    hide TiffBytes, Prefix, ParseIfd, OptBytes, PlanOf, HasPrefix, TiffOf, At, IfdBytes, Items, ParseHeader, Ifd0Links;
    var tiff := TiffBytes(x);
    TiffBytesLaid(x);
    HeaderOf(x, tiff);
    PrefixSplit(x, tiff);
    TooManyEntries(tiff, HEADER_SIZE, Items(x.ifd0, Ifd0Links(x), x.order), NextOf(x), x.order);
  }

  /** A tree that fits 32 bits has no value too long for a count. */
  lemma FittingIsWellFormed(x: Tree)
    requires ShortWellFormed(x.ifd0) && SerializedLen(x) <= U32_MAX
    ensures AllWellFormed(x.ifd0)
  {
    hide WellFormed, OptLen, Aliases, Place, ExtSize;
    forall i | 0 <= i < |x.ifd0|
      ensures WellFormed(x.ifd0[i])
    {
      if x.ifd0[i].External() {
        InAliases(x.ifd0, x.ifd0[i]);
        PlaceInside(x.ifd0, x.ifd0[i].Alias());
      }
    }
  }

  /** An edited tree is readable from its bytes exactly when IFD0 keeps to the cap, and then reads back the same. */
  lemma AuthoredReadsIff(x: Tree)
    requires Authored(x) && SerializedLen(x) <= U32_MAX
    ensures Parse(ToBytes(x)).Some? <==> Ifd0Count(x) <= MAX_IFD_ENTRIES
    ensures Parse(ToBytes(x)).Some? ==> SameTree(x, Parse(ToBytes(x)).value)
  {
    hide Parse, ToBytes, SameTree, PlanOf, Swept, Consistent, AllWellFormed, ShortWellFormed, ExifOk, Ifd1Ok, HasTag, OwnedOnce;
    if Ifd0Count(x) <= MAX_IFD_ENTRIES {
      FittingIsWellFormed(x);
      RoundTrip(x);
    } else {
      OverfullUnreadable(x);
    }
  }

  /** An edit in the run sets the tag. */
  ghost predicate Sets(edits: seq<Edit>, tag: U16) {
    exists k :: 0 <= k < |edits| && edits[k].Tag() == tag
  }

  ghost function Added(x: Tree, edits: seq<Edit>, tag: U16): nat {
    Bit(!HasTag(x.ifd0, tag) && Sets(edits, tag))
  }

  /** Room for a run of edits: one more entry for each tag that is set and was not there. */
  ghost predicate RoomFor(x: Tree, edits: seq<Edit>) {
    Ifd0Count(x) + Added(x, edits, TAG_COPYRIGHT) + Added(x, edits, TAG_ARTIST) + Added(x, edits, TAG_ORIENTATION)
      <= MAX_IFD_ENTRIES
  }

  lemma {:induction false} EditedTags(x: Tree, edits: seq<Edit>, tag: U16)
    ensures HasTag(ApplyAll(x, edits).ifd0, tag) <==> HasTag(x.ifd0, tag) || Sets(edits, tag)
  {
    hide Apply, HasTag, Replace, NewEntry;
    if edits != [] {
      var init, last := edits[..|edits| - 1], edits[|edits| - 1];
      EditedTags(x, init, tag);
      ApplyIsReplace(ApplyAll(x, init), last);
      ReplaceTags(ApplyAll(x, init).ifd0, NewEntry(ApplyAll(x, init), last), tag);
      SetsSnoc(init, last, tag);
      assert edits == init + [last];
    }
  }

  lemma SetsSnoc(init: seq<Edit>, last: Edit, tag: U16)
    ensures Sets(init + [last], tag) <==> Sets(init, tag) || last.Tag() == tag
  {
    var edits := init + [last];
    if Sets(init, tag) {
      var k :| 0 <= k < |init| && init[k].Tag() == tag;
      assert edits[k].Tag() == tag;
    }
    assert edits[|init|] == last;
  }

  lemma RoomIsCap(x: Tree, edits: seq<Edit>)
    requires Authored(x)
    ensures RoomFor(x, edits) <==> Ifd0Count(ApplyAll(x, edits)) <= MAX_IFD_ENTRIES
  {
    hide Authored, HasTag, Sets, ApplyAll, Ifd0Count;
    EditsAuthored(x, edits);
    EditedTags(x, edits, TAG_COPYRIGHT);
    EditedTags(x, edits, TAG_ARTIST);
    EditedTags(x, edits, TAG_ORIENTATION);
  }

  /**
   Any run of edits on a parsed or new tree is read back from the written bytes exactly when IFD0 has
   room for the tags that are new; then every string and the orientation read as they do in memory.
   Without the room the blob does not parse at all.
   */
  lemma EditsSurvive(x: Tree, edits: seq<Edit>)
    requires Canonical(x) && OwnedOnce(x.ifd0) && SerializedLen(ApplyAll(x, edits)) <= U32_MAX
    ensures var y := ApplyAll(x, edits);
            && (Parse(ToBytes(y)).Some? <==> RoomFor(x, edits))
            && (RoomFor(x, edits) ==>
                  var z := Parse(ToBytes(y)).value;
                  && SameTree(y, z) && OrientationOf(z) == OrientationOf(y)
                  && forall tag: U16 :: StringOf(z.ifd0, tag) == StringOf(y.ifd0, tag))
  {
    hide Parse, ToBytes, Canonical, ApplyAll, OwnedOnce, StringOf, SameTree, RoomFor, Authored, SerializedLen, OrientationOf,
      Ifd0Count;
    var y := ApplyAll(x, edits);
    CanonicalIsAuthored(x);
    EditsAuthored(x, edits);
    RoomIsCap(x, edits);
    AuthoredReadsIff(y);
    if RoomFor(x, edits) {
      ReadsAlike(y, Parse(ToBytes(y)).value);
    }
  }

  lemma ReadsAlike(x: Tree, y: Tree)
    requires SameTree(x, y)
    ensures OrientationOf(y) == OrientationOf(x)
    ensures forall tag: U16 :: StringOf(y.ifd0, tag) == StringOf(x.ifd0, tag)
  {
    hide SameDir, First, StringOf, Enc16, Dec16, Dec32;
    forall tag: U16
      ensures StringOf(y.ifd0, tag) == StringOf(x.ifd0, tag)
    {
      SameString(x.ifd0, y.ifd0, tag);
    }
    SameFirst(x.ifd0, y.ifd0, TAG_ORIENTATION);
    if First(x.ifd0, TAG_ORIENTATION).Some? {
      assert First(x.ifd0, TAG_ORIENTATION).value.Content() == First(y.ifd0, TAG_ORIENTATION).value.Content();
    }
  }

  /** Room for one entry with the tag. */
  ghost predicate Room(x: Tree, tag: U16) {
    HasTag(x.ifd0, tag) || Ifd0Count(x) < MAX_IFD_ENTRIES
  }

  lemma RoomForOne(x: Tree, edit: Edit)
    requires Ifd0Count(x) <= MAX_IFD_ENTRIES
    ensures RoomFor(x, [edit]) <==> Room(x, edit.Tag())
    ensures ApplyAll(x, [edit]) == Apply(x, edit)
  {
    hide HasTag, Apply;
    assert [edit][..0] == [];
    assert forall tag: U16 :: Sets([edit], tag) <==> edit.Tag() == tag by {
      assert [edit][0] == edit;
    }
  }

  /**
   A string set on a parsed or new tree is read back from the written bytes exactly when IFD0 has the
   tag already or room for one more entry; a full IFD0 is written past the cap and the blob no longer
   parses.
   */
  lemma SetStringSurvives(x: Tree, tag: U16, text: seq<Byte>)
    requires Canonical(x) && OwnedOnce(x.ifd0)
    requires tag in {TAG_COPYRIGHT, TAG_ARTIST}
    requires SerializedLen(SetString(x, tag, text)) <= U32_MAX
    ensures Room(x, tag) <==>
              Parse(ToBytes(SetString(x, tag, text))).Some?
              && StringOf(Parse(ToBytes(SetString(x, tag, text))).value.ifd0, tag) == Readable(text)
  {
    hide Parse, ToBytes, Canonical, OwnedOnce, StringOf, SameTree, RoomFor, Room, SerializedLen, Replace, Readable, Ifd0Count,
      ApplyAll;
    var edit := if tag == TAG_COPYRIGHT then Copyright(text) else Artist(text);
    CanonicalIsAuthored(x);
    RoomForOne(x, edit);
    EditsSurvive(x, [edit]);
    SetStringReads(x, tag, TAG_ORIENTATION, text);
  }

  /** A set orientation is read back from the written bytes under the same condition. */
  lemma SetOrientationSurvives(x: Tree, o: Orientation)
    requires Canonical(x) && OwnedOnce(x.ifd0) && SerializedLen(SetOrientation(x, o)) <= U32_MAX
    ensures Room(x, TAG_ORIENTATION) <==>
              Parse(ToBytes(SetOrientation(x, o))).Some?
              && OrientationOf(Parse(ToBytes(SetOrientation(x, o))).value) == Some(o)
  {
    hide Parse, ToBytes, Canonical, OwnedOnce, StringOf, SameTree, RoomFor, Room, SerializedLen, OrientationOf, Ifd0Count,
      ApplyAll, SetOrientation;
    CanonicalIsAuthored(x);
    RoomForOne(x, Orient(o));
    EditsSurvive(x, [Orient(o)]);
    SetOrientationReads(x, o, 0);
  }

  // ----- orientation -----

  /** The authoring setter always takes: the orientation is read back, other tags stay. */
  lemma SetOrientationReads(x: Tree, o: Orientation, other: U16)
    requires other != TAG_ORIENTATION
    ensures OrientationOf(SetOrientation(x, o)) == Some(o)
    ensures First(SetOrientation(x, o).ifd0, other) == First(x.ifd0, other)
  {
    hide First, Replace, ReadUint, Reauthored, OrientationEntry;
    var first := First(x.ifd0, TAG_ORIENTATION);
    AuthoredReads(o, x.order);
    if first.Some? {
      FirstMember(x.ifd0, TAG_ORIENTATION);
      if Reauthored(first.value, o, x.order).Some? {
        ReauthoredMeans(first.value, o, x.order);
        ReplaceFirst(x.ifd0, Reauthored(first.value, o, x.order).value, TAG_ORIENTATION);
        ReplaceFirst(x.ifd0, Reauthored(first.value, o, x.order).value, other);
      } else {
        ReplaceFirst(x.ifd0, OrientationEntry(o, x.order), TAG_ORIENTATION);
        ReplaceFirst(x.ifd0, OrientationEntry(o, x.order), other);
      }
    } else {
      AppendFirst(x.ifd0, OrientationEntry(o, x.order), other);
    }
  }

  /** What both setters write: one element of the carrier's own integer type, or of SHORT where there was none. */
  lemma OrientationWrites(x: Tree, o: Orientation)
    ensures First(SetOrientation(x, o).ifd0, TAG_ORIENTATION).Some?
    ensures var first, e := First(x.ifd0, TAG_ORIENTATION), First(SetOrientation(x, o).ifd0, TAG_ORIENTATION).value;
            && e.count == 1
            && e.kind == (if first.Some? && first.value.kind == 4 then 4 else 3)
            && |e.value| == (if e.kind == 4 then 4 else 2)
            && (first.Some? && first.value.kind in {3, 4} ==>
                  First(SetOrientationTag(x, o).ifd0, TAG_ORIENTATION) == Some(e))
  {
    hide First, Replace, Enc16, Enc32;
    var first := First(x.ifd0, TAG_ORIENTATION);
    var short := OrientationEntry(o, x.order);
    if first.None? {
      AppendFirst(x.ifd0, short, 0);
    } else {
      FirstMember(x.ifd0, TAG_ORIENTATION);
      var next := Reauthored(first.value, o, x.order);
      ReplaceFirst(x.ifd0, if next.Some? then next.value else short, TAG_ORIENTATION);
    }
  }

  lemma AppendFirst(s: Dir, r: Entry, other: U16)
    requires First(s, r.tag).None? && other != r.tag
    ensures First(s + [r], r.tag) == Some(r) && First(s + [r], other) == First(s, other)
  {
    hide First;
    NoFirst(s, r.tag);
    AppendIsReplace(s, r);
    ReplaceFirst(s, r, r.tag);
    ReplaceFirst(s, r, other);
  }

  lemma AppendIsReplace(s: Dir, r: Entry)
    requires !HasTag(s, r.tag)
    ensures Replace(s, r) == s + [r]
  {
  }

  lemma AuthoredReads(o: Orientation, order: ByteOrder)
    ensures ReadUint(OrientationEntry(o, order), order) == Some(o)
    ensures OrientationEntry(o, order).tag == TAG_ORIENTATION
  {
    hide Enc16, Dec16;
    Dec16Enc16(o, order);
    assert Enc16(o, order)[0..2] == Enc16(o, order);
  }

  /** The reconciling setter takes exactly when an integer entry is there, and adds nothing. */
  lemma SetOrientationTagReads(x: Tree, o: Orientation)
    ensures |SetOrientationTag(x, o).ifd0| == |x.ifd0|
    ensures OrientationOf(SetOrientationTag(x, o)) ==
              if First(x.ifd0, TAG_ORIENTATION).Some? && First(x.ifd0, TAG_ORIENTATION).value.kind in {TIFF_SHORT, TIFF_LONG}
              then Some(o) else None
  {
    hide First, Replace, Enc16, Enc32;
    var first := First(x.ifd0, TAG_ORIENTATION);
    if first.Some? {
      FirstMember(x.ifd0, TAG_ORIENTATION);
      if Reauthored(first.value, o, x.order).Some? {
        ReauthoredMeans(first.value, o, x.order);
        ReplaceFirst(x.ifd0, Reauthored(first.value, o, x.order).value, TAG_ORIENTATION);
      }
    }
  }

  // ----- where editing starts -----

  /** The source's Exif::new. */
  function New(encoding: TextEncoding): Tree {
    Tree(Little, false, [], None, None, None, None, None, encoding)
  }

  lemma NewIsCanonical(encoding: TextEncoding)
    ensures Canonical(New(encoding)) && OwnedOnce(New(encoding).ifd0)
  {
  }

  lemma TakenMembers(entries: Dir, tag: U16, order: ByteOrder)
    ensures forall e :: e in TakeAll(entries, tag, order).1 ==> e in entries
  {
    hide TakeAll, Filter;
    TakeAllMeans(entries, tag, order);
  }

  /** A parsed tree owns nothing: every value is a slice of the blob. */
  lemma ParsedOwnsNothing(data: seq<Byte>)
    requires Parse(data).Some?
    ensures OwnedOnce(Parse(data).value.ifd0)
    ensures forall e :: e in Parse(data).value.ifd0 ==> Slice(TiffOf(data), e)
  {
    hide TakeAll, FirstIndex, Parse, TiffOf, Raw;
    var order, off, raw := ParseParts(data);
    RawOk(TiffOf(data), order, off, raw);
    TakenMembers(raw, TAG_EXIF_IFD, order);
    TakenMembers(TakeAll(raw, TAG_EXIF_IFD, order).1, TAG_GPS_IFD, order);
    assert Parse(data).value.ifd0 == Ifd0Of(raw, order);
    SlicesOwnNothing(TiffOf(data), Parse(data).value.ifd0);
  }

  lemma SlicesOwnNothing(tiff: seq<Byte>, s: Dir)
    requires forall e :: e in s ==> Slice(tiff, e)
    ensures OwnedOnce(s)
  {
    hide FirstIndex;
    assert forall i :: 0 <= i < |s| ==> s[i] in s;
  }

  // ----- a full directory -----

  /** A thousand one-byte entries. */
  function FullTree(): Tree {
    New(Ascii).(ifd0 := seq(MAX_IFD_ENTRIES, _ => Entry(TAG_MAKE, TIFF_UNDEFINED, 1, [0], Nowhere)))
  }

  lemma FullTreeCanonical()
    ensures Canonical(FullTree()) && SerializedLen(FullTree()) <= U32_MAX && Ifd0Count(FullTree()) == MAX_IFD_ENTRIES
    ensures forall e :: e in FullTree().ifd0 ==> e.tag == TAG_MAKE
  {
    hide First;
    var d := FullTree().ifd0;
    NoFirst(d, TAG_EXIF_IFD);
    NoFirst(d, TAG_GPS_IFD);
    assert Aliases(d) == {};
    assert Aliases([]) == {};
    ExtSizeMonotone(d, []);
  }

  /**
   The condition does fail on blobs that parse: one with a thousand entries loses everything when a
   copyright is set.
   */
  lemma FullDirectoryIsLost(text: seq<Byte>)
    requires |text| <= 0x1_0000
    ensures var data := ToBytes(FullTree());
            && Parse(data).Some? && Canonical(Parse(data).value) && OwnedOnce(Parse(data).value.ifd0)
            && !Room(Parse(data).value, TAG_COPYRIGHT)
            && Parse(ToBytes(SetCopyright(Parse(data).value, text))).None?
  {
    hide Parse, ToBytes, Canonical, OwnedOnce, FullTree, SerializedLen, Readable, HasTag, Replace;
    FullTreeCanonical();
    var data := ToBytes(FullTree());
    RoundTripFits(FullTree());
    ParseIsCanonical(data);
    ParsedOwnsNothing(data);
    var x := Parse(data).value;
    SameCount(FullTree(), x);
    OnlyTag(FullTree().ifd0, x.ifd0, TAG_MAKE, TAG_COPYRIGHT);
    CanonicalIsAuthored(x);
    var edit := Copyright(text);
    RoomForOne(x, edit);
    FullUnreadable(x, edit);
  }

  lemma RoundTripFits(x: Tree)
    requires Canonical(x) && SerializedLen(x) <= U32_MAX
    ensures Parse(ToBytes(x)).Some? && SameTree(x, Parse(ToBytes(x)).value)
  {
    hide PlanOf, Canonical, SameTree, Parse, ToBytes;
    RoundTrip(x);
  }

  lemma SameCount(x: Tree, y: Tree)
    requires SameTree(x, y)
    ensures Ifd0Count(x) == Ifd0Count(y) && SameDir(x.ifd0, y.ifd0)
  {
    hide SameDir;
    SameSizes(x.ifd0, y.ifd0);
  }

  lemma OnlyTag(a: Dir, b: Dir, tag: U16, other: U16)
    requires SameDir(a, b) && (forall e :: e in a ==> e.tag == tag) && other != tag
    ensures !HasTag(b, other)
  {
    hide SameDir;
    forall e | e in b
      ensures e.tag == tag
    {
      var w := SameMember(a, b, e);
      assert w.Content().tag == e.Content().tag;
    }
  }

  /** One edit too many: IFD0 is written past the cap. */
  lemma FullUnreadable(x: Tree, edit: Edit)
    requires Authored(x) && Ifd0Count(x) == MAX_IFD_ENTRIES && !HasTag(x.ifd0, edit.Tag())
    ensures Parse(ToBytes(Apply(x, edit))).None?
  {
    hide Parse, ToBytes, Authored, HasTag, Apply, RoomFor;
    RoomForOne(x, edit);
    RoomIsCap(x, [edit]);
    ApplyIsReplace(x, edit);
    OverfullUnreadable(Apply(x, edit));
  }
}
