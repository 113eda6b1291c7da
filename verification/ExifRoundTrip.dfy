/**
 Writing a tree and reading it back (src/exif.rs). The length preview is exact, every pointer names
 the block it should, the tree read back is the tree written with its directories sorted, and what is
 written again is the same bytes.
 */
module ExifRoundTrip {
  import opened Words
  import opened Bytes
  import opened ExifEntries
  import opened ExifLayout
  import opened ExifModel
  import opened ExifReparse

  // ----- the items of one directory -----

  lemma ItemsMembers(entries: Dir, links: seq<Link>, order: ByteOrder, e: Entry)
    requires e in Items(entries, links, order)
    ensures (exists i :: 0 <= i < |entries| && e == entries[i].Bare())
         || (exists i :: 0 <= i < |links| && e == Pointer(links[i], order))
  {
    var all := Bares(entries) + Pointers(links, order);
    SortMembers(all);
    assert e in all;
    var k :| 0 <= k < |all| && all[k] == e;
    if k < |entries| {
      assert all[k] == entries[k].Bare();
    } else {
      assert all[k] == Pointer(links[k - |entries|], order);
    }
  }

  lemma EntryIsItem(entries: Dir, links: seq<Link>, order: ByteOrder, e: Entry)
    requires e in entries
    ensures e.Bare() in Items(entries, links, order)
  {
    var all := Bares(entries) + Pointers(links, order);
    var k :| 0 <= k < |entries| && entries[k] == e;
    SortMembers(all);
    assert all[k] == e.Bare();
    assert e.Bare() in all;
  }

  /** An out-of-line item is an entry of the directory, unchanged. */
  lemma ExternalItem(entries: Dir, links: seq<Link>, order: ByteOrder, e: Entry)
    requires e.External()
    ensures e in Items(entries, links, order) <==> e in entries
  {
    if e in Items(entries, links, order) {
      ItemsMembers(entries, links, order, e);
    }
    if e in entries {
      EntryIsItem(entries, links, order, e);
    }
  }

  /** Sorting and pointers do not change the size of the out-of-line area. */
  lemma ItemsExtSize(entries: Dir, links: seq<Link>, order: ByteOrder)
    ensures ExtSize(Items(entries, links, order)) == ExtSize(entries)
  {
    hide ExtSize, Items, Sort;
    var items := Items(entries, links, order);
    forall e: Entry | e.External()
      ensures e in items <==> e in entries
    {
      ExternalItem(entries, links, order, e);
    }
    assert Aliases(items) == Aliases(entries);
    ExtSizeMonotone(items, entries);
  }

  lemma DirBytesLen(entries: Dir, links: seq<Link>, off: nat, next: U32, order: ByteOrder)
    ensures |DirBytes(entries, links, off, next, order)| == BlockLen(entries, |links|)
  {
    hide IfdBytes, ExtSize, Items;
    ItemsExtSize(entries, links, order);
  }

  ghost predicate DirOk(entries: Dir, pointers: nat) {
    |entries| + pointers <= MAX_IFD_ENTRIES && AllWellFormed(entries) && Consistent(entries)
  }

  lemma ItemsWellFormed(entries: Dir, links: seq<Link>, order: ByteOrder)
    requires AllWellFormed(entries)
    ensures AllWellFormed(Items(entries, links, order))
  {
    hide Items;
    var items := Items(entries, links, order);
    forall i | 0 <= i < |items|
      ensures WellFormed(items[i])
    {
      assert items[i] in items;
      ItemsMembers(entries, links, order, items[i]);
    }
  }

  lemma ItemsConsistent(entries: Dir, links: seq<Link>, order: ByteOrder)
    requires Consistent(entries)
    ensures Consistent(Items(entries, links, order))
  {
    hide Items;
    var items := Items(entries, links, order);
    forall a, b | a in items && b in items && a.External() && b.External() && a.Alias() == b.Alias()
      ensures a.value == b.value
    {
      ExternalItem(entries, links, order, a);
      ExternalItem(entries, links, order, b);
    }
  }

  lemma ItemsWritable(entries: Dir, links: seq<Link>, off: nat, order: ByteOrder)
    requires DirOk(entries, |links|) && off + BlockLen(entries, |links|) <= U32_MAX + 1
    ensures Writable(Items(entries, links, order), off)
  {
    hide Items, AllWellFormed, Consistent, ExtSize;
    ItemsExtSize(entries, links, order);
    ItemsWellFormed(entries, links, order);
    ItemsConsistent(entries, links, order);
  }

  function RereadDir(entries: Dir, links: seq<Link>, off: nat, order: ByteOrder): (r: Dir)
    ensures |r| == |entries| + |links|
  {
    Reread(Items(entries, links, order), off)
  }

  /** A written directory parses to its items, moved. */
  lemma DirReadsBack(tiff: seq<Byte>, entries: Dir, links: seq<Link>, off: nat, next: U32, order: ByteOrder)
    requires At(tiff, off, DirBytes(entries, links, off, next, order))
    requires DirOk(entries, |links|) && off + BlockLen(entries, |links|) <= U32_MAX + 1
    ensures ParseIfd(tiff, off, order) == Some((RereadDir(entries, links, off, order), next))
  {
    hide At, IfdBytes, ParseIfd, Writable, DirOk, Items, Reread, BlockLen;
    ItemsWritable(entries, links, off, order);
    IfdReadsBack(tiff, off, Items(entries, links, order), next, order);
  }

  // ----- the first entry with a tag -----

  lemma FirstReread(items: Dir, off: nat, tag: U16)
    ensures First(items, tag).Some? <==> First(Reread(items, off), tag).Some?
    ensures First(items, tag).Some? ==> First(Reread(items, off), tag).value.Content() == First(items, tag).value.Content()
  {
    hide Place;
    var r := Reread(items, off);
    var i, j := FirstIndex(items, tag), FirstIndex(r, tag);
    assert i < |items| ==> r[i].tag == tag;
    assert j < |r| ==> items[j].tag == tag;
    assert i == j;
  }

  lemma FirstConcat(s: Dir, t: Dir, tag: U16)
    ensures First(s + t, tag) == if HasTag(s, tag) then First(s, tag) else First(t, tag)
  {
    var i, j, k := FirstIndex(s, tag), FirstIndex(t, tag), FirstIndex(s + t, tag);
    if i < |s| {
      assert (s + t)[i].tag == tag;
      assert k <= i;
      assert (s + t)[k] == s[k];
      assert k == i;
    } else {
      assert forall m :: 0 <= m < |s| ==> (s + t)[m] == s[m];
      assert forall m :: 0 <= m < |t| ==> (s + t)[|s| + m] == t[m];
      assert k == |s| + j;
    }
  }

  lemma BareFirst(entries: Dir, tag: U16)
    ensures First(Bares(entries), tag).Some? <==> First(entries, tag).Some?
    ensures First(entries, tag).Some? ==> First(Bares(entries), tag).value == First(entries, tag).value.Bare()
  {
    FirstOfMap((e: Entry) => e.Bare(), entries, tag);
  }

  ghost predicate DistinctTags(links: seq<Link>) {
    forall i, j :: 0 <= i < j < |links| ==> links[i].tag != links[j].tag
  }

  lemma FirstPointer(links: seq<Link>, order: ByteOrder, tag: U16, k: nat)
    requires DistinctTags(links) && k < |links| && links[k].tag == tag
    ensures First(Pointers(links, order), tag) == Some(Pointer(links[k], order))
  {
    var ptrs := Pointers(links, order);
    assert ptrs[k].tag == tag;
    var i := FirstIndex(ptrs, tag);
    assert links[i].tag == ptrs[i].tag == tag;
    assert i == k;
  }

  /** A synthesized pointer is the first entry with its tag when the directory itself has none. */
  lemma LinkIsFirst(entries: Dir, links: seq<Link>, off: nat, order: ByteOrder, k: nat)
    requires DistinctTags(links) && k < |links| && !HasTag(entries, links[k].tag)
    ensures First(RereadDir(entries, links, off, order), links[k].tag).Some?
    ensures First(RereadDir(entries, links, off, order), links[k].tag).value.Content() == Pointer(links[k], order)
  {
    hide First, Sort, Reread, Pointers, Map;
    var tag := links[k].tag;
    var all := Bares(entries) + Pointers(links, order);
    BareFirst(entries, tag);
    FirstConcat(Bares(entries), Pointers(links, order), tag);
    FirstPointer(links, order, tag, k);
    SortIsStable(all, tag);
    FirstReread(Items(entries, links, order), off, tag);
  }

  /** Any other tag has the first entry it had. */
  lemma OtherIsFirst(entries: Dir, links: seq<Link>, off: nat, order: ByteOrder, tag: U16)
    requires forall k :: 0 <= k < |links| ==> links[k].tag != tag
    ensures First(RereadDir(entries, links, off, order), tag).Some? <==> First(entries, tag).Some?
    ensures First(entries, tag).Some? ==>
              First(RereadDir(entries, links, off, order), tag).value.Content() == First(entries, tag).value.Content()
  {
    hide Sort, Reread, Map;
    var ptrs := Pointers(links, order);
    assert !HasTag(ptrs, tag) by {
      forall e | e in ptrs
        ensures e.tag != tag
      {
        var i :| 0 <= i < |links| && ptrs[i] == e;
        assert e.tag == links[i].tag;
      }
    }
    hide First;
    BareFirst(entries, tag);
    FirstConcat(Bares(entries), ptrs, tag);
    SortIsStable(Bares(entries) + ptrs, tag);
    FirstReread(Items(entries, links, order), off, tag);
  }

  // ----- dropping the pointers again -----

  function NotLinked(links: seq<Link>): Entry -> bool {
    (e: Entry) => forall k :: 0 <= k < |links| ==> links[k].tag != e.tag
  }

  ghost predicate NoLinkTags(entries: Dir, links: seq<Link>) {
    forall k :: 0 <= k < |links| ==> !HasTag(entries, links[k].tag)
  }

  lemma BaresUnlinked(entries: Dir, links: seq<Link>, e: Entry)
    requires NoLinkTags(entries, links) && e in Bares(entries)
    ensures NotLinked(links)(e)
  {
    var i :| 0 <= i < |entries| && Bares(entries)[i] == e;
    assert entries[i] in entries && entries[i].tag == e.tag;
    forall k | 0 <= k < |links|
      ensures links[k].tag != e.tag
    {
      assert !HasTag(entries, links[k].tag);
    }
  }

  lemma PointersLinked(links: seq<Link>, order: ByteOrder, e: Entry)
    requires e in Pointers(links, order)
    ensures !NotLinked(links)(e)
  {
    var i :| 0 <= i < |links| && Pointers(links, order)[i] == e;
    assert links[i].tag == e.tag;
  }

  /** The items without the pointers are the sorted entries. */
  lemma ItemsUnlinked(entries: Dir, links: seq<Link>, order: ByteOrder)
    requires NoLinkTags(entries, links)
    ensures Filter(NotLinked(links), Items(entries, links, order)) == Sort(Bares(entries))
  {
    hide Filter, Sort, Map, Pointers, NotLinked, NoLinkTags;
    var p, b, ptrs := NotLinked(links), Bares(entries), Pointers(links, order);
    FilterSort(p, b + ptrs);
    FilterConcat(p, b, ptrs);
    forall e | e in b
      ensures p(e)
    {
      BaresUnlinked(entries, links, e);
    }
    FilterAll(p, b);
    forall e | e in ptrs
      ensures !p(e)
    {
      PointersLinked(links, order, e);
    }
    FilterNone(p, ptrs);
    assert b + [] == b;
  }

  /** Same contents in tag order, values possibly elsewhere but the same ones aliased. */
  ghost predicate SameDir(a: Dir, b: Dir) {
    Relaid(Sort(Bares(a)), Bares(b))
  }

  /** A directory read back, its pointers dropped, is the directory written, sorted. */
  lemma RereadSame(entries: Dir, links: seq<Link>, off: nat, order: ByteOrder)
    requires NoLinkTags(entries, links)
    ensures SameDir(entries, Filter(NotLinked(links), RereadDir(entries, links, off, order)))
  {
    hide Filter, Sort, Map, Relocator, NotLinked, NoLinkTags, Moves, Relaid, Reread, Items, ExtBase;
    var items, p := Items(entries, links, order), NotLinked(links);
    var f := Relocator(items, ExtBase(off, |items|));
    var r := Reread(items, off);
    ItemsAreBare(entries, links, order);
    RereadIsMoved(items, off);
    ItemsUnlinked(entries, links, order);
    RelocatorMoves(items, ExtBase(off, |items|));
    MovesKeepsTags(f, items);
    UnlinkedByTag(links, f);
    UnlinkedByTag(links, (e: Entry) => e.Bare());
    FilterMap(p, f, items);
    FilterMap(p, (e: Entry) => e.Bare(), r);
    MovesPart(f, items, Sort(Bares(entries)));
    MovesRelaid(f, Sort(Bares(entries)));
  }

  lemma UnlinkedByTag(links: seq<Link>, f: Entry -> Entry)
    requires forall e :: f(e).tag == e.tag
    ensures forall e :: NotLinked(links)(f(e)) == NotLinked(links)(e)
  {
  }

  // ----- the whole tree -----

  /** A structural tag is gone when the directory has the child, and is no usable offset when it has not. */
  ghost predicate Swept(entries: Dir, tag: U16, present: bool) {
    if present then !HasTag(entries, tag)
    else First(entries, tag).Some? ==> |First(entries, tag).value.value| < 4
  }

  ghost predicate Ifd0Ok(x: Tree) {
    && DirOk(x.ifd0, Count(x.exif) + Count(x.gps))
    && Swept(x.ifd0, TAG_EXIF_IFD, x.exif.Some?) && Swept(x.ifd0, TAG_GPS_IFD, x.gps.Some?)
  }

  ghost predicate ExifOk(x: Tree) {
    && (x.exif.Some? ==> DirOk(x.exif.value, Count(x.interop)) && Swept(x.exif.value, TAG_INTEROP_IFD, x.interop.Some?))
    && (x.interop.Some? ==> x.exif.Some? && DirOk(x.interop.value, 0))
  }

  ghost predicate Ifd1Ok(x: Tree) {
    && (x.ifd1.Some? ==> && DirOk(x.ifd1.value, 2 * Count(x.thumbnail))
                         && !HasTag(x.ifd1.value, TAG_THUMB_OFFSET) && !HasTag(x.ifd1.value, TAG_THUMB_LENGTH))
    && (x.thumbnail.Some? ==> x.ifd1.Some?)
  }

  /** The shape of every parsed tree, and what a tree must have to survive being written. */
  ghost predicate Canonical(x: Tree) {
    && Ifd0Ok(x) && ExifOk(x) && Ifd1Ok(x)
    && (x.gps.Some? ==> DirOk(x.gps.value, 0))
  }

  ghost predicate SameOpt(a: Option<Dir>, b: Option<Dir>) {
    (a.Some? <==> b.Some?) && (a.Some? ==> SameDir(a.value, b.value))
  }

  /** The second tree is the first with sorted directories and values elsewhere. */
  ghost predicate SameTree(x: Tree, y: Tree) {
    && x.order == y.order && x.hadPrefix == y.hadPrefix && x.thumbnail == y.thumbnail
    && SameDir(x.ifd0, y.ifd0) && SameOpt(x.exif, y.exif) && SameOpt(x.gps, y.gps)
    && SameOpt(x.interop, y.interop) && SameOpt(x.ifd1, y.ifd1)
  }

  /** The preview of the length is exact, for every tree. */
  lemma SerializedLenIsExact(x: Tree)
    ensures SerializedLen(x) == |ToBytes(x)|
  {
    hide DirBytes, BlockLen;
    var p := PlanOf(x);
    DirBytesLen(x.ifd0, Ifd0Links(x), HEADER_SIZE, NextOf(x), x.order);
    OptBytesLen(x.exif, ExifLinks(x), p.exif, x.order);
    OptBytesLen(WrittenInterop(x), [], p.interop, x.order);
    OptBytesLen(x.gps, [], p.gps, x.order);
    OptBytesLen(x.ifd1, Ifd1Links(x), p.ifd1, x.order);
  }

  lemma OptBytesLen(d: Option<Dir>, links: seq<Link>, off: nat, order: ByteOrder)
    ensures |OptBytes(d, links, off, order)| == OptLen(d, |links|)
  {
    hide DirBytes, BlockLen;
    if d.Some? {
      DirBytesLen(d.value, links, off, 0, order);
    }
  }

  /** Every block and the thumbnail stand where the plan says. */
  ghost predicate Laid(x: Tree, tiff: seq<Byte>) {
    var p := PlanOf(x);
    && At(tiff, 0, Header(x.order))
    && At(tiff, HEADER_SIZE, DirBytes(x.ifd0, Ifd0Links(x), HEADER_SIZE, NextOf(x), x.order))
    && At(tiff, p.exif, OptBytes(x.exif, ExifLinks(x), p.exif, x.order))
    && At(tiff, p.interop, OptBytes(WrittenInterop(x), [], p.interop, x.order))
    && At(tiff, p.gps, OptBytes(x.gps, [], p.gps, x.order))
    && At(tiff, p.ifd1, OptBytes(x.ifd1, Ifd1Links(x), p.ifd1, x.order))
    && At(tiff, p.thumb, ThumbBytes(x))
  }

  lemma AtSelf(data: seq<Byte>)
    ensures At(data, 0, data)
  {
    assert data[0..|data|] == data;
  }

  lemma TiffBytesLaid(x: Tree)
    ensures Laid(x, TiffBytes(x))
  {
    hide DirBytes, OptBytes, Header, At, BlockLen, OptLen, ThumbBytes, Ifd0Links, ExifLinks, Ifd1Links, NextOf;
    var p, t := PlanOf(x), TiffBytes(x);
    var ifd0 := DirBytes(x.ifd0, Ifd0Links(x), HEADER_SIZE, NextOf(x), x.order);
    var exif := OptBytes(x.exif, ExifLinks(x), p.exif, x.order);
    var interop := OptBytes(WrittenInterop(x), [], p.interop, x.order);
    var gps := OptBytes(x.gps, [], p.gps, x.order);
    var ifd1 := OptBytes(x.ifd1, Ifd1Links(x), p.ifd1, x.order);
    var thumb := ThumbBytes(x);
    DirBytesLen(x.ifd0, Ifd0Links(x), HEADER_SIZE, NextOf(x), x.order);
    OptBytesLen(x.exif, ExifLinks(x), p.exif, x.order);
    OptBytesLen(WrittenInterop(x), [], p.interop, x.order);
    OptBytesLen(x.gps, [], p.gps, x.order);
    OptBytesLen(x.ifd1, Ifd1Links(x), p.ifd1, x.order);
    AtSelf(t);
    AtSplit(t, 0, Header(x.order), ifd0 + (exif + (interop + (gps + (ifd1 + thumb)))));
    AtSplit(t, HEADER_SIZE, ifd0, exif + (interop + (gps + (ifd1 + thumb))));
    AtSplit(t, p.exif, exif, interop + (gps + (ifd1 + thumb)));
    AtSplit(t, p.interop, interop, gps + (ifd1 + thumb));
    AtSplit(t, p.gps, gps, ifd1 + thumb);
    AtSplit(t, p.ifd1, ifd1, thumb);
  }
}
