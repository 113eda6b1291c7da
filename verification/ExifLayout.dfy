/**
 The bytes of one IFD (src/exif.rs): a tag-sorted table of 12-byte descriptors, the link to the next
 IFD, and the values that do not fit a descriptor, each alias group written once and padded to an
 even length. TIFF 6.0, section 2.
 */
module ExifLayout {
  import opened Words
  import opened Bytes
  import opened ExifEntries

  type Alias = (Origin, nat)

  function Align2(n: nat): nat {
    n + n % 2
  }

  /** The alias groups of the out-of-line values. */
  function Aliases(s: seq<Entry>): set<Alias> {
    set e | e in s && e.External() :: e.Alias()
  }

  /** The last entry starts a new alias group. */
  predicate StartsGroup(init: seq<Entry>, e: Entry) {
    e.External() && e.Alias() !in Aliases(init)
  }

  /** The source's ext_size: one aligned length per alias group, in list order. */
  function ExtSize(s: seq<Entry>): nat {
    if s == [] then 0
    else
      var init, last := s[..|s| - 1], s[|s| - 1];
      ExtSize(init) + (if StartsGroup(init, last) then Align2(|last.value|) else 0)
  }

  function Padded(v: seq<Byte>): (r: seq<Byte>)
    ensures |r| == Align2(|v|)
  {
    if |v| % 2 == 1 then v + [0] else v
  }

  /** The out-of-line area that write_ifd lays out. */
  function ExtBytes(s: seq<Entry>): (r: seq<Byte>)
    ensures |r| == ExtSize(s)
  {
    if s == [] then []
    else
      var init, last := s[..|s| - 1], s[|s| - 1];
      ExtBytes(init) + (if StartsGroup(init, last) then Padded(last.value) else [])
  }

  /** Where the out-of-line area holds an alias group. */
  function Place(s: seq<Entry>, a: Alias): nat {
    if s == [] then 0
    else if a in Aliases(s[..|s| - 1]) then Place(s[..|s| - 1], a)
    else ExtSize(s[..|s| - 1])
  }

  function ToU32(n: nat): U32 {
    n % 0x1_0000_0000
  }

  function ToU16(n: nat): U16 {
    n % 0x1_0000
  }

  function Zeros(n: nat): (r: seq<Byte>)
    ensures |r| == n
  {
    seq(n, _ => 0)
  }

  /** The last four bytes of a descriptor: the value, or the offset where it stands. */
  function ValueField(e: Entry, off: nat, order: ByteOrder): (r: seq<Byte>)
    ensures |r| == 4
  {
    if e.External() then Enc32(ToU32(off), order) else e.value + Zeros(4 - |e.value|)
  }

  function Descriptor(e: Entry, off: nat, order: ByteOrder): (r: seq<Byte>)
    ensures |r| == 12
  {
    Enc16(e.tag, order) + (Enc16(e.kind, order) + (Enc32(e.count, order) + ValueField(e, off, order)))
  }

  /** The i-th descriptor of a list whose out-of-line area begins at `extBase`. */
  function DescriptorOf(s: seq<Entry>, i: nat, extBase: nat, order: ByteOrder): (r: seq<Byte>)
    requires i < |s|
    ensures |r| == 12
  {
    Descriptor(s[i], extBase + Place(s, s[i].Alias()), order)
  }

  function Table(s: seq<Entry>, extBase: nat, order: ByteOrder): (r: seq<Byte>)
    ensures |r| == 12 * |s|
  {
    if s == [] then []
    else
      Table(s[..|s| - 1], extBase, order) + DescriptorOf(s, |s| - 1, extBase, order)
  }

  /** Where the out-of-line values of a block of n descriptors begin. */
  function ExtBase(off: nat, n: nat): nat {
    off + 6 + 12 * n
  }

  /** The directory block that starts at `off`: count, table, next link, out-of-line values. */
  function IfdBytes(items: seq<Entry>, off: nat, next: U32, order: ByteOrder): (r: seq<Byte>)
    ensures |r| == 6 + 12 * |items| + ExtSize(items)
  {
    Enc16(ToU16(|items|), order)
    + (Table(items, ExtBase(off, |items|), order) + (Enc32(next, order) + ExtBytes(items)))
  }

  /** Whatever fills a value field or makes a value even is zero. */
  lemma PaddingIsZero(e: Entry, off: nat, order: ByteOrder)
    ensures !e.External() ==> forall k :: |e.value| <= k < 4 ==> ValueField(e, off, order)[k] == 0
    ensures forall k :: |e.value| <= k < |Padded(e.value)| ==> Padded(e.value)[k] == 0
  {
  }

  // ----- the size does not depend on the order -----

  /** Total aligned length of a set of alias groups, in no particular order. */
  ghost function Weight(groups: set<Alias>): nat {
    if groups == {} then 0
    else
      var a :| a in groups;
      Align2(a.1) + Weight(groups - {a})
  }

  lemma {:induction false} WeightAdd(groups: set<Alias>, a: Alias)
    requires a !in groups
    ensures Weight(groups + {a}) == Weight(groups) + Align2(a.1)
  {
    var all := groups + {a};
    var b :| b in all && Weight(all) == Align2(b.1) + Weight(all - {b});
    if a == b {
      assert all - {b} == groups;
    } else {
      assert all - {b} == (groups - {b}) + {a};
      assert groups == (groups - {b}) + {b};
      WeightAdd(groups - {b}, a);
      WeightAdd(groups - {b}, b);
    }
  }

  lemma {:induction false} WeightMonotone(a: set<Alias>, b: set<Alias>)
    requires a <= b
    ensures Weight(a) <= Weight(b)
    decreases b - a
  {
    if x :| x in b && x !in a {
      WeightAdd(a, x);
      WeightMonotone(a + {x}, b);
    } else {
      assert a == b;
    }
  }

  lemma AliasesSnoc(init: seq<Entry>, last: Entry)
    ensures Aliases(init + [last]) == if last.External() then Aliases(init) + {last.Alias()} else Aliases(init)
  {
    var s := init + [last];
    forall e | e in s
      ensures e in init || e == last
    {
    }
    assert last in s;
    assert forall e :: e in init ==> e in s;
  }

  /** ext_size is the aligned length of the set of alias groups, whatever the order of the entries. */
  lemma {:induction false} ExtSizeIsWeight(s: seq<Entry>)
    ensures ExtSize(s) == Weight(Aliases(s))
  {
    if s == [] {
      assert Aliases(s) == {};
    } else {
      hide Weight;
      var init, last := s[..|s| - 1], s[|s| - 1];
      assert s == init + [last];
      ExtSizeIsWeight(init);
      AliasesSnoc(init, last);
      if StartsGroup(init, last) {
        WeightAdd(Aliases(init), last.Alias());
      } else if last.External() {
        assert Aliases(init) + {last.Alias()} == Aliases(init);
      }
    }
  }

  /** Fewer groups, smaller area; the same groups, the same area. */
  lemma ExtSizeMonotone(s: seq<Entry>, t: seq<Entry>)
    requires Aliases(s) <= Aliases(t)
    ensures ExtSize(s) <= ExtSize(t)
    ensures Aliases(s) == Aliases(t) ==> ExtSize(s) == ExtSize(t)
  {
    hide Weight, ExtSize;
    ExtSizeIsWeight(s);
    ExtSizeIsWeight(t);
    WeightMonotone(Aliases(s), Aliases(t));
  }

  // ----- every value is where its descriptor says -----

  /** Entries of one alias group hold the same bytes, as slices of one blob do. */
  ghost predicate Consistent(s: seq<Entry>) {
    forall a, b :: a in s && b in s && a.External() && b.External() && a.Alias() == b.Alias() ==> a.value == b.value
  }

  lemma ConsistentPart(s: seq<Entry>, t: seq<Entry>)
    requires Consistent(s) && forall e :: e in t ==> e in s
    ensures Consistent(t)
  {
  }

  lemma {:induction false} PlaceInside(s: seq<Entry>, a: Alias)
    requires a in Aliases(s)
    ensures Place(s, a) + Align2(a.1) <= ExtSize(s) && a.1 > 4
  {
    var init, last := s[..|s| - 1], s[|s| - 1];
    assert s == init + [last];
    AliasesSnoc(init, last);
    if a in Aliases(init) {
      PlaceInside(init, a);
    }
  }

  lemma AlignedIsEven(n: nat)
    ensures Align2(n) % 2 == 0
  {
  }

  lemma EvenSum(a: nat, b: nat)
    requires a % 2 == 0 && b % 2 == 0
    ensures (a + b) % 2 == 0
  {
  }

  lemma {:induction false} ExtSizeEven(s: seq<Entry>)
    ensures ExtSize(s) % 2 == 0
  {
    if s != [] {
      hide Aliases, Align2;
      ExtSizeEven(s[..|s| - 1]);
      AlignedIsEven(|s[|s| - 1].value|);
      EvenSum(ExtSize(s[..|s| - 1]), Align2(|s[|s| - 1].value|));
    }
  }

  /** Every out-of-line value starts on an even place. */
  lemma {:induction false} PlaceEven(s: seq<Entry>, a: Alias)
    ensures Place(s, a) % 2 == 0
  {
    if s != [] {
      hide Aliases, ExtSize;
      PlaceEven(s[..|s| - 1], a);
      ExtSizeEven(s[..|s| - 1]);
    }
  }

  /** Different groups are placed apart. */
  lemma {:induction false} PlaceApart(s: seq<Entry>, a: Alias, b: Alias)
    requires a in Aliases(s) && b in Aliases(s) && a != b
    ensures Place(s, a) + a.1 <= Place(s, b) || Place(s, b) + b.1 <= Place(s, a)
  {
    var init, last := s[..|s| - 1], s[|s| - 1];
    assert s == init + [last];
    AliasesSnoc(init, last);
    if a in Aliases(init) {
      PlaceInside(init, a);
    }
    if b in Aliases(init) {
      PlaceInside(init, b);
    }
    if a in Aliases(init) && b in Aliases(init) {
      PlaceApart(init, a, b);
    }
  }

  lemma {:induction false} PlaceHoldsValue(s: seq<Entry>, e: Entry)
    requires Consistent(s) && e in s && e.External()
    ensures At(ExtBytes(s), Place(s, e.Alias()), e.value)
  {
    var init, last := s[..|s| - 1], s[|s| - 1];
    assert s == init + [last];
    AliasesSnoc(init, last);
    if e.Alias() in Aliases(init) {
      var twin :| twin in init && twin.External() && twin.Alias() == e.Alias();
      assert twin in s;
      ConsistentPart(s, init);
      PlaceHoldsValue(init, twin);
      AtExtend(ExtBytes(init), Place(init, e.Alias()), e.value,
               if StartsGroup(init, last) then Padded(last.value) else []);
    } else {
      assert e == last;
      var pad := Padded(e.value)[|e.value|..];
      assert Padded(e.value) == e.value + pad;
      assert ExtBytes(s) == ExtBytes(init) + e.value + pad;
      AtWhole(ExtBytes(init), e.value, pad);
    }
  }

  lemma PlaceStable(init: seq<Entry>, last: Entry, a: Alias)
    requires a in Aliases(init)
    ensures Place(init + [last], a) == Place(init, a)
  {
    assert (init + [last])[..|init|] == init;
  }

  lemma TableStep(s: seq<Entry>, extBase: nat, order: ByteOrder)
    requires s != []
    ensures Table(s, extBase, order)
         == Table(s[..|s| - 1], extBase, order) + DescriptorOf(s, |s| - 1, extBase, order)
  {
    hide DescriptorOf;
  }

  /** A longer list does not change an earlier descriptor. */
  lemma DescriptorStable(s: seq<Entry>, i: nat, extBase: nat, order: ByteOrder)
    requires i < |s| - 1
    ensures DescriptorOf(s, i, extBase, order) == DescriptorOf(s[..|s| - 1], i, extBase, order)
  {
    hide Place, Descriptor, Aliases;
    var init := s[..|s| - 1];
    assert s == init + [s[|s| - 1]] && init[i] == s[i];
    if s[i].External() {
      InAliases(init, s[i]);
      PlaceStable(init, s[|s| - 1], s[i].Alias());
    } else {
      InlineOffset(s[i], extBase + Place(init, s[i].Alias()), extBase + Place(s, s[i].Alias()), order);
    }
  }

  lemma InAliases(s: seq<Entry>, e: Entry)
    requires e in s && e.External()
    ensures e.Alias() in Aliases(s)
  {
  }

  lemma AtEnd(a: seq<Byte>, b: seq<Byte>)
    ensures At(a + b, |a|, b)
  {
    assert (a + b)[|a|..|a| + |b|] == b;
  }

  /** The i-th descriptor of the table, with the offset of the value in the finished area. */
  lemma {:induction false} TableHoldsDescriptor(s: seq<Entry>, extBase: nat, order: ByteOrder, i: nat)
    requires i < |s|
    ensures At(Table(s, extBase, order), 12 * i, DescriptorOf(s, i, extBase, order))
  {
    hide *;
    var init := s[..|s| - 1];
    TableStep(s, extBase, order);
    if i < |init| {
      TableHoldsDescriptor(init, extBase, order, i);
      DescriptorStable(s, i, extBase, order);
      AtExtend(Table(init, extBase, order), 12 * i, DescriptorOf(init, i, extBase, order),
               DescriptorOf(s, |s| - 1, extBase, order));
    } else {
      AtEnd(Table(init, extBase, order), DescriptorOf(s, |s| - 1, extBase, order));
    }
  }

  lemma InlineOffset(e: Entry, a: nat, b: nat, order: ByteOrder)
    requires !e.External()
    ensures Descriptor(e, a, order) == Descriptor(e, b, order)
  {
  }

  // ----- moving values does not change the bytes -----

  /** Two lists show the same contents and group their out-of-line values alike. */
  ghost predicate Relaid(s: seq<Entry>, t: seq<Entry>) {
    && |s| == |t|
    && (forall i :: 0 <= i < |s| ==> s[i].Content() == t[i].Content() && (!s[i].External() ==> s[i] == t[i]))
    && (forall i, j :: 0 <= i < |s| && 0 <= j < |s| && s[i].External() && s[j].External() ==>
          (s[i].Alias() == s[j].Alias() <==> t[i].Alias() == t[j].Alias()))
  }

  lemma RelaidInit(s: seq<Entry>, t: seq<Entry>)
    requires Relaid(s, t) && s != []
    ensures Relaid(s[..|s| - 1], t[..|t| - 1])
  {
  }

  lemma RelaidPair(s: seq<Entry>, t: seq<Entry>, i: nat, j: nat)
    requires Relaid(s, t) && i < |s| && j < |s| && s[i].External() && t[j].External()
    ensures |t| == |s| && s[j].External() && (s[i].Alias() == s[j].Alias() <==> t[i].Alias() == t[j].Alias())
  {
    assert s[j].Content() == t[j].Content();
  }

  lemma RelaidAliases(s: seq<Entry>, t: seq<Entry>, i: nat, k: nat)
    requires Relaid(s, t) && k <= i < |s| && s[i].External()
    ensures s[i].Alias() in Aliases(s[..k]) <==> t[i].Alias() in Aliases(t[..k])
  {
    hide Aliases, Relaid;
    RelaidElement(s, t, i);
    if s[i].Alias() in Aliases(s[..k]) {
      var j := AliasIndex(s[..k], s[i].Alias());
      RelaidElement(s, t, j);
      RelaidPair(s, t, i, j);
      assert t[j] == t[..k][j];
      InAliases(t[..k], t[j]);
    }
    if t[i].Alias() in Aliases(t[..k]) {
      var j := AliasIndex(t[..k], t[i].Alias());
      RelaidPair(s, t, i, j);
      assert s[j] == s[..k][j];
      InAliases(s[..k], s[j]);
    }
  }

  lemma {:induction false} RelaidExt(s: seq<Entry>, t: seq<Entry>)
    requires Relaid(s, t)
    ensures ExtBytes(s) == ExtBytes(t)
  {
    if s != [] {
      RelaidInit(s, t);
      RelaidExt(s[..|s| - 1], t[..|t| - 1]);
      if s[|s| - 1].External() {
        RelaidAliases(s, t, |s| - 1, |s| - 1);
      }
      assert s[|s| - 1].Content() == t[|t| - 1].Content();
    }
  }

  lemma {:induction false} RelaidPlace(s: seq<Entry>, t: seq<Entry>, i: nat)
    requires Relaid(s, t) && i < |s| && s[i].External()
    ensures Place(s, s[i].Alias()) == Place(t, t[i].Alias())
  {
    hide Aliases, ExtSize;
    var n := |s| - 1;
    RelaidInit(s, t);
    RelaidExt(s[..n], t[..n]);
    PlaceStep(s, s[i].Alias());
    PlaceStep(t, t[i].Alias());
    if i < n {
      InAliases(s[..n], s[i]);
      assert s[..n][i] == s[i] && t[..n][i] == t[i];
      assert t[i] in t[..n] && t[i].External() by {
        assert s[i].Content() == t[i].Content();
      }
      InAliases(t[..n], t[i]);
      RelaidPlace(s[..n], t[..n], i);
    } else {
      RelaidAliases(s, t, i, i);
      if s[i].Alias() in Aliases(s[..n]) {
        var j := AliasIndex(s[..n], s[i].Alias());
        assert s[..n][j] == s[j] && t[..n][j] == t[j];
        RelaidPlace(s[..n], t[..n], j);
      }
    }
  }

  lemma PlaceStep(s: seq<Entry>, a: Alias)
    requires s != []
    ensures Place(s, a) == if a in Aliases(s[..|s| - 1]) then Place(s[..|s| - 1], a) else |ExtBytes(s[..|s| - 1])|
  {
  }

  lemma AliasIndex(s: seq<Entry>, a: Alias) returns (j: nat)
    requires a in Aliases(s)
    ensures j < |s| && s[j].External() && s[j].Alias() == a
  {
    var e :| e in s && e.External() && e.Alias() == a;
    j :| 0 <= j < |s| && s[j] == e;
  }

  lemma {:induction false} RelaidTable(s: seq<Entry>, t: seq<Entry>, extBase: nat, order: ByteOrder)
    requires Relaid(s, t)
    ensures Table(s, extBase, order) == Table(t, extBase, order)
  {
    if s != [] {
      hide DescriptorOf, Table, Relaid;
      RelaidDescriptor(s, t, |s| - 1, extBase, order);
      RelaidInit(s, t);
      RelaidTable(s[..|s| - 1], t[..|t| - 1], extBase, order);
      TableStep(s, extBase, order);
      TableStep(t, extBase, order);
    }
  }

  lemma RelaidDescriptor(s: seq<Entry>, t: seq<Entry>, i: nat, extBase: nat, order: ByteOrder)
    requires Relaid(s, t) && i < |s|
    ensures |s| == |t| && DescriptorOf(s, i, extBase, order) == DescriptorOf(t, i, extBase, order)
  {
    hide Place, Descriptor, Relaid;
    RelaidElement(s, t, i);
    DescriptorOfContent(s[i], t[i], extBase + Place(s, s[i].Alias()), order);
    if s[i].External() {
      RelaidPlace(s, t, i);
    } else {
      InlineOffset(t[i], extBase + Place(s, s[i].Alias()), extBase + Place(t, t[i].Alias()), order);
    }
  }

  lemma RelaidElement(s: seq<Entry>, t: seq<Entry>, i: nat)
    requires Relaid(s, t) && i < |s|
    ensures |s| == |t| && s[i].Content() == t[i].Content() && (s[i].External() <==> t[i].External())
  {
  }

  lemma DescriptorOfContent(a: Entry, b: Entry, off: nat, order: ByteOrder)
    requires a.Content() == b.Content()
    ensures Descriptor(a, off, order) == Descriptor(b, off, order)
  {
  }

  /** Where the values came from is invisible in the bytes; only which of them are aliases matters. */
  lemma RelaidBytes(s: seq<Entry>, t: seq<Entry>, off: nat, next: U32, order: ByteOrder)
    requires Relaid(s, t)
    ensures IfdBytes(s, off, next, order) == IfdBytes(t, off, next, order)
  {
    hide Table, ExtBytes, Aliases;
    RelaidExt(s, t);
    RelaidTable(s, t, ExtBase(off, |s|), order);
  }

  // ----- moving as a mapping of entries -----

  /** A mapping that moves out-of-line values of a list, alias groups staying apart and together. */
  ghost predicate Moves(f: Entry -> Entry, s: seq<Entry>) {
    && (forall e :: f(e).Content() == e.Content() && (!e.External() ==> f(e) == e))
    && (forall a, b :: a in s && b in s && a.External() && b.External() ==>
          (a.Alias() == b.Alias() <==> f(a).Alias() == f(b).Alias()))
  }

  lemma MovesRelaid(f: Entry -> Entry, s: seq<Entry>)
    requires Moves(f, s)
    ensures Relaid(s, Map(f, s))
  {
  }

  lemma MovesPart(f: Entry -> Entry, s: seq<Entry>, t: seq<Entry>)
    requires Moves(f, s) && forall e :: e in t && e.External() ==> e in s
    ensures Moves(f, t)
  {
  }

  /** Takes each alias group of `s` to where the matching entry of `t` has it. */
  function Mover(s: seq<Entry>, t: seq<Entry>): Entry -> Entry
    requires |s| == |t|
  {
    (e: Entry) => if e.External() then MoveOne(s, t, e) else e
  }

  function MoveOne(s: seq<Entry>, t: seq<Entry>, e: Entry): (r: Entry)
    requires |s| == |t|
    ensures r.Content() == e.Content()
  {
    if s == [] then e
    else if s[|s| - 1].External() && s[|s| - 1].Alias() == e.Alias() then e.(origin := t[|t| - 1].origin)
    else MoveOne(s[..|s| - 1], t[..|t| - 1], e)
  }

  lemma {:induction false} MoveOneFinds(s: seq<Entry>, t: seq<Entry>, i: nat)
    requires Relaid(s, t) && i < |s| && s[i].External()
    ensures MoveOne(s, t, s[i]) == t[i]
  {
    var n := |s| - 1;
    assert s[i].Content() == t[i].Content() && s[n].Content() == t[n].Content();
    if s[n].External() && s[n].Alias() == s[i].Alias() {
      assert t[n].Alias() == t[i].Alias();
    } else {
      RelaidInit(s, t);
      MoveOneFinds(s[..n], t[..n], i);
    }
  }

  /** Lists that are relaid are related by a move. */
  lemma RelaidMoves(s: seq<Entry>, t: seq<Entry>)
    requires Relaid(s, t)
    ensures Moves(Mover(s, t), s) && Map(Mover(s, t), s) == t
  {
    var f := Mover(s, t);
    forall i | 0 <= i < |s|
      ensures f(s[i]) == t[i]
    {
      if s[i].External() {
        MoveOneFinds(s, t, i);
      }
    }
    assert Map(f, s) == t;
  }

  /** Adding the same inline entries to relaid sorted lists and sorting gives relaid lists. */
  lemma RelaidSort(s: seq<Entry>, t: seq<Entry>, ptrs: seq<Entry>)
    requires Relaid(s, t) && forall e :: e in ptrs ==> !e.External()
    ensures Relaid(Sort(s + ptrs), Sort(t + ptrs))
  {
    RelaidMoves(s, t);
    var f := Mover(s, t);
    MovesKeepsTags(f, s);
    MapConcat(f, s, ptrs);
    assert Map(f, ptrs) == ptrs;
    SortMap(f, s + ptrs);
    SortMembers(s + ptrs);
    MovesPart(f, s, Sort(s + ptrs));
    MovesRelaid(f, Sort(s + ptrs));
  }

  lemma MovesKeepsTags(f: Entry -> Entry, s: seq<Entry>)
    requires Moves(f, s)
    ensures forall e :: f(e).tag == e.tag
  {
    forall e: Entry
      ensures f(e).tag == e.tag
    {
      assert f(e).Content() == e.Content();
    }
  }
}
