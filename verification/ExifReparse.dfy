/**
 Reading back what write_ifd wrote: a directory block anywhere in a blob parses to the entries it was
 made from, each moved to where its value now stands.
 */
module ExifReparse {
  import opened Words
  import opened Bytes
  import opened ExifEntries
  import opened ExifLayout
  import opened ExifModel

  /** Where the value of an entry stands in a block that starts at `off`; `i` is its descriptor. */
  function NewOffset(items: Dir, off: nat, e: Entry, i: nat): nat {
    if e.External() then ExtBase(off, |items|) + Place(items, e.Alias()) else off + 2 + 12 * i + 8
  }

  function Reread(items: Dir, off: nat): (r: Dir)
    ensures |r| == |items|
    ensures forall i :: 0 <= i < |r| ==> r[i] == items[i].(origin := Source(NewOffset(items, off, items[i], i)))
  {
    seq(|items|, i requires 0 <= i < |items| => items[i].(origin := Source(NewOffset(items, off, items[i], i))))
  }

  lemma Rd16At(d: seq<Byte>, o: nat, v: U16, order: ByteOrder)
    requires At(d, o, Enc16(v, order))
    ensures Rd16(d, o, order) == Some(v)
  {
    Dec16Enc16(v, order);
  }

  lemma Rd32At(d: seq<Byte>, o: nat, v: U32, order: ByteOrder)
    requires At(d, o, Enc32(v, order))
    ensures Rd32(d, o, order) == Some(v)
  {
    Dec32Enc32(v, order);
  }

  /** A descriptor reads back as its entry. */
  lemma ResolveBack(tiff: seq<Byte>, at: nat, e: Entry, off: nat, order: ByteOrder)
    requires At(tiff, at, Descriptor(e, off, order)) && WellFormed(e)
    requires e.External() ==> off <= U32_MAX && At(tiff, off, e.value)
    ensures ResolveEntry(tiff, at, order) == Some(e.(origin := Source(if e.External() then off else at + 8)))
  {
    hide Enc16, Enc32, Dec16, Dec32, Rd16, Rd32;
    var field := ValueField(e, off, order);
    AtSplit(tiff, at, Enc16(e.tag, order), Enc16(e.kind, order) + (Enc32(e.count, order) + field));
    AtSplit(tiff, at + 2, Enc16(e.kind, order), Enc32(e.count, order) + field);
    AtSplit(tiff, at + 4, Enc32(e.count, order), field);
    Rd16At(tiff, at, e.tag, order);
    Rd16At(tiff, at + 2, e.kind, order);
    Rd32At(tiff, at + 4, e.count, order);
    if e.External() {
      Rd32At(tiff, at + 8, off, order);
    } else {
      AtSplit(tiff, at + 8, e.value, Zeros(4 - |e.value|));
    }
  }

  /** The pieces of a directory block. */
  lemma BlockParts(tiff: seq<Byte>, off: nat, items: Dir, next: U32, order: ByteOrder, base: nat)
    requires At(tiff, off, IfdBytes(items, off, next, order)) && base == ExtBase(off, |items|)
    ensures At(tiff, off, Enc16(ToU16(|items|), order))
    ensures At(tiff, off + 2, Table(items, base, order))
    ensures At(tiff, off + 2 + 12 * |items|, Enc32(next, order))
    ensures At(tiff, base, ExtBytes(items))
  {
    hide Enc16, Enc32, Table, ExtBytes;
    var table := Table(items, base, order);
    AtSplit(tiff, off, Enc16(ToU16(|items|), order), table + (Enc32(next, order) + ExtBytes(items)));
    AtSplit(tiff, off + 2, table, Enc32(next, order) + ExtBytes(items));
    AtSplit(tiff, off + 2 + 12 * |items|, Enc32(next, order), ExtBytes(items));
  }

  lemma TablePart(tiff: seq<Byte>, off: nat, items: Dir, next: U32, order: ByteOrder, base: nat)
    requires At(tiff, off, IfdBytes(items, off, next, order)) && base == ExtBase(off, |items|)
    ensures At(tiff, off + 2, Table(items, base, order))
  {
    hide *;
    BlockParts(tiff, off, items, next, order, base);
  }

  lemma AreaPart(tiff: seq<Byte>, off: nat, items: Dir, next: U32, order: ByteOrder, base: nat)
    requires At(tiff, off, IfdBytes(items, off, next, order)) && base == ExtBase(off, |items|)
    ensures At(tiff, base, ExtBytes(items))
  {
    hide *;
    BlockParts(tiff, off, items, next, order, base);
  }

  lemma AtWithin(tiff: seq<Byte>, off: nat, outer: seq<Byte>, at: nat, inner: seq<Byte>)
    requires At(tiff, off, outer) && At(outer, at, inner)
    ensures At(tiff, off + at, inner)
  {
    var n := |inner|;
    assert tiff[off..off + |outer|] == outer && outer[at..at + n] == inner;
    forall k | 0 <= k < n
      ensures tiff[off + at..off + at + n][k] == inner[k]
    {
      assert outer[at..at + n][k] == outer[at + k];
      assert tiff[off..off + |outer|][at + k] == tiff[off + at + k];
    }
  }

  /** What a block must meet to be read back: readable entries, true aliases, offsets in 32 bits. */
  ghost predicate Writable(items: Dir, off: nat) {
    && |items| <= MAX_IFD_ENTRIES && AllWellFormed(items) && Consistent(items)
    && ExtBase(off, |items|) + ExtSize(items) <= U32_MAX + 1
  }

  lemma WritableMeans(items: Dir, off: nat)
    requires Writable(items, off)
    ensures |items| <= MAX_IFD_ENTRIES && Consistent(items) && ExtBase(off, |items|) + ExtSize(items) <= U32_MAX + 1
    ensures forall i :: 0 <= i < |items| ==> WellFormed(items[i])
  {
  }

  lemma AtBound(data: seq<Byte>, off: nat, bytes: seq<Byte>)
    requires At(data, off, bytes)
    ensures off + |bytes| <= |data|
  {
  }

  lemma DescriptorStands(tiff: seq<Byte>, off: nat, items: Dir, next: U32, order: ByteOrder, i: nat, base: nat)
    requires At(tiff, off, IfdBytes(items, off, next, order)) && i < |items| && base == ExtBase(off, |items|)
    ensures At(tiff, off + 2 + 12 * i, DescriptorOf(items, i, base, order))
  {
    hide *;
    TablePart(tiff, off, items, next, order, base);
    InTable(tiff, off + 2, items, order, i, base);
  }

  lemma InTable(tiff: seq<Byte>, start: nat, items: Dir, order: ByteOrder, i: nat, base: nat)
    requires At(tiff, start, Table(items, base, order)) && i < |items|
    ensures At(tiff, start + 12 * i, DescriptorOf(items, i, base, order))
  {
    hide *;
    TableHoldsDescriptor(items, base, order, i);
    AtWithin(tiff, start, Table(items, base, order), 12 * i, DescriptorOf(items, i, base, order));
  }

  lemma InArea(tiff: seq<Byte>, items: Dir, e: Entry, base: nat)
    requires At(tiff, base, ExtBytes(items)) && Consistent(items) && e in items && e.External()
    ensures At(tiff, base + Place(items, e.Alias()), e.value)
  {
    hide *;
    PlaceHoldsValue(items, e);
    AtWithin(tiff, base, ExtBytes(items), Place(items, e.Alias()), e.value);
  }

  lemma InBounds(items: Dir, off: nat, e: Entry, base: nat)
    requires Writable(items, off) && e in items && e.External() && base == ExtBase(off, |items|)
    ensures base + Place(items, e.Alias()) <= U32_MAX
  {
    hide Place, Aliases, ExtSize, Consistent, AllWellFormed;
    InAliases(items, e);
    PlaceInside(items, e.Alias());
  }

  /** Every out-of-line value of a block stands where its descriptor says, at an offset of 32 bits. */
  lemma ValueStands(tiff: seq<Byte>, off: nat, items: Dir, next: U32, order: ByteOrder, e: Entry, base: nat)
    requires At(tiff, off, IfdBytes(items, off, next, order)) && Writable(items, off)
    requires e in items && e.External() && base == ExtBase(off, |items|)
    ensures At(tiff, base + Place(items, e.Alias()), e.value)
    ensures base + Place(items, e.Alias()) <= U32_MAX
  {
    hide *;
    WritableMeans(items, off);
    AreaPart(tiff, off, items, next, order, base);
    InArea(tiff, items, e, base);
    InBounds(items, off, e, base);
  }

  /** The i-th descriptor of a block reads back, its value at the new offset. */
  lemma DescriptorReadsBack(tiff: seq<Byte>, off: nat, items: Dir, next: U32, order: ByteOrder, i: nat, base: nat, at: nat)
    requires At(tiff, off, IfdBytes(items, off, next, order)) && Writable(items, off) && i < |items|
    requires base == ExtBase(off, |items|) && at == off + 2 + 12 * i
    ensures at + 12 <= |tiff|
    ensures ResolveEntry(tiff, at, order) == Some(Reread(items, off)[i])
  {
    hide *;
    WritableMeans(items, off);
    var e := items[i];
    var pos: nat := base + Place(items, e.Alias());
    DescriptorStands(tiff, off, items, next, order, i, base);
    if e.External() {
      ValueStands(tiff, off, items, next, order, e, base);
    }
    AtBound(tiff, at, DescriptorOf(items, i, base, order));
    DescriptorOfMeans(items, i, base, order);
    ResolveBack(tiff, at, e, pos, order);
    RereadAt(items, off, i, base, at);
  }

  lemma DescriptorOfMeans(items: Dir, i: nat, base: nat, order: ByteOrder)
    requires i < |items|
    ensures DescriptorOf(items, i, base, order) == Descriptor(items[i], base + Place(items, items[i].Alias()), order)
  {
  }

  lemma RereadAt(items: Dir, off: nat, i: nat, base: nat, at: nat)
    requires i < |items| && base == ExtBase(off, |items|) && at == off + 2 + 12 * i
    ensures var e := items[i];
            Reread(items, off)[i] == e.(origin := Source(if e.External() then base + Place(items, e.Alias()) else at + 8))
  {
    hide Place;
  }

  lemma ParsedStep(tiff: seq<Byte>, start: nat, n: nat, order: ByteOrder, r: Dir, at: nat)
    requires 0 < n <= |r| && at == start + 12 * (n - 1) && at + 12 <= |tiff|
    requires ParsedEntries(tiff, start, n - 1, order) == r[..n - 1] && ResolveEntry(tiff, at, order) == Some(r[n - 1])
    ensures ParsedEntries(tiff, start, n, order) == r[..n]
  {
    hide ResolveEntry;
  }

  lemma {:induction false} EntriesReadBack(tiff: seq<Byte>, off: nat, items: Dir, next: U32, order: ByteOrder, n: nat, base: nat)
    requires At(tiff, off, IfdBytes(items, off, next, order)) && Writable(items, off) && n <= |items|
    requires base == ExtBase(off, |items|)
    ensures ParsedEntries(tiff, off + 2, n, order) == Reread(items, off)[..n]
  {
    if n > 0 {
      hide *;
      EntriesReadBack(tiff, off, items, next, order, n - 1, base);
      LastReadsBack(tiff, off, items, next, order, n, base, off + 2 + 12 * (n - 1));
    }
  }

  lemma LastReadsBack(tiff: seq<Byte>, off: nat, items: Dir, next: U32, order: ByteOrder, n: nat, base: nat, at: nat)
    requires At(tiff, off, IfdBytes(items, off, next, order)) && Writable(items, off) && 0 < n <= |items|
    requires base == ExtBase(off, |items|) && at == off + 2 + 12 * (n - 1)
    requires ParsedEntries(tiff, off + 2, n - 1, order) == Reread(items, off)[..n - 1]
    ensures ParsedEntries(tiff, off + 2, n, order) == Reread(items, off)[..n]
  {
    hide *;
    DescriptorReadsBack(tiff, off, items, next, order, n - 1, base, at);
    ParsedStep(tiff, off + 2, n, order, Reread(items, off), at);
  }

  /** A directory block parses to its entries, moved, and to its next link. */
  lemma IfdReadsBack(tiff: seq<Byte>, off: nat, items: Dir, next: U32, order: ByteOrder)
    requires At(tiff, off, IfdBytes(items, off, next, order)) && Writable(items, off)
    ensures ParseIfd(tiff, off, order) == Some((Reread(items, off), next))
  {
    hide IfdBytes, Table, ExtBytes, ParsedEntries, Rd16, Rd32, Enc16, Enc32;
    BlockParts(tiff, off, items, next, order, ExtBase(off, |items|));
    Rd16At(tiff, off, |items|, order);
    Rd32At(tiff, off + 2 + 12 * |items|, next, order);
    EntriesReadBack(tiff, off, items, next, order, |items|, ExtBase(off, |items|));
    assert Reread(items, off)[..|items|] == Reread(items, off);
  }

  // ----- the entries read back are the entries written, moved -----

  function Relocator(items: Dir, extBase: nat): Entry -> Entry {
    (e: Entry) => if e.External() then e.(origin := Source(extBase + Place(items, e.Alias()))) else e
  }

  lemma RelocatorMoves(items: Dir, extBase: nat)
    ensures Moves(Relocator(items, extBase), items)
  {
    var f := Relocator(items, extBase);
    forall a, b | a in items && b in items && a.External() && b.External()
      ensures a.Alias() == b.Alias() <==> f(a).Alias() == f(b).Alias()
    {
      InAliases(items, a);
      InAliases(items, b);
      if a.Alias() != b.Alias() {
        PlaceApart(items, a.Alias(), b.Alias());
      }
    }
  }

  ghost predicate AllBare(s: Dir) {
    forall e :: e in s ==> e.Bare() == e
  }

  lemma RereadIsMoved(items: Dir, off: nat)
    requires AllBare(items)
    ensures Bares(Reread(items, off)) == Map(Relocator(items, ExtBase(off, |items|)), items)
  {
    hide Place;
    var r, f := Reread(items, off), Relocator(items, ExtBase(off, |items|));
    forall i | 0 <= i < |items|
      ensures r[i].Bare() == f(items[i])
    {
      assert items[i] in items;
    }
  }

  lemma ItemsAreBare(entries: Dir, links: seq<Link>, order: ByteOrder)
    ensures AllBare(Items(entries, links, order))
  {
    forall e | e in Items(entries, links, order)
      ensures e.Bare() == e
    {
      var all := Bares(entries) + Pointers(links, order);
      SortMembers(all);
      assert e in all;
    }
  }
}
