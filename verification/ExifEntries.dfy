/**
 IFD entries and the list operations on them: keeping, mapping, and the stable sort by tag that
 the serializer applies (src/exif.rs). Lists are taken apart at the end, where the source pushes.
 */
module ExifEntries {
  import opened Words
  import opened Bytes

  /**
   Where an entry's value bytes live. The source borrows a parsed value from the blob at an offset;
   an edited value owns its bytes (one edit per tag, so the tag identifies it). `Nowhere` is for
   values stored in the descriptor itself, whose location the serializer ignores.
   */
  datatype Origin = Source(offset: nat) | Owned(owner: U16) | Nowhere

  datatype Entry = Entry(tag: U16, kind: U16, count: U32, value: seq<Byte>, origin: Origin) {
    /** Too long for the four value bytes of a descriptor. */
    predicate External() {
      |value| > 4
    }

    /** Two values are aliases when they start at the same place and have the same length. */
    function Alias(): (Origin, nat) {
      (origin, |value|)
    }

    /** What a reader of the entry sees: everything but the location. */
    function Content(): Entry {
      this.(origin := Nowhere)
    }

    /** The location forgotten where the serializer ignores it. */
    function Bare(): Entry {
      if External() then this else Content()
    }
  }

  /** The source's type_size: bytes per element of a field type. */
  function TypeSize(kind: U16): Option<nat> {
    if kind in {1, 2, 6, 7, 129} then Some(1)
    else if kind in {3, 8} then Some(2)
    else if kind in {4, 9, 11, 13} then Some(4)
    else if kind in {5, 10, 12} then Some(8)
    else None
  }

  /** The length an entry declares is the length of its value. */
  predicate WellFormed(e: Entry) {
    TypeSize(e.kind).Some? && |e.value| == e.count * TypeSize(e.kind).value
  }

  predicate AllWellFormed(s: seq<Entry>) {
    forall i :: 0 <= i < |s| ==> WellFormed(s[i])
  }

  // ----- mapping -----

  function Map(f: Entry -> Entry, s: seq<Entry>): (r: seq<Entry>)
    ensures |r| == |s|
    ensures forall i :: 0 <= i < |s| ==> r[i] == f(s[i])
  {
    if s == [] then [] else Map(f, s[..|s| - 1]) + [f(s[|s| - 1])]
  }

  function Bares(s: seq<Entry>): seq<Entry> {
    Map((e: Entry) => e.Bare(), s)
  }

  lemma MapSnoc(f: Entry -> Entry, s: seq<Entry>, x: Entry)
    ensures Map(f, s + [x]) == Map(f, s) + [f(x)]
  {
  }

  lemma MapConcat(f: Entry -> Entry, s: seq<Entry>, t: seq<Entry>)
    ensures Map(f, s + t) == Map(f, s) + Map(f, t)
  {
  }

  /** Lists equal element by element after mapping are equal after mapping. */
  lemma MapEqual(f: Entry -> Entry, g: Entry -> Entry, s: seq<Entry>, t: seq<Entry>)
    requires |s| == |t| && forall i :: 0 <= i < |s| ==> f(s[i]) == g(t[i])
    ensures Map(f, s) == Map(g, t)
  {
  }

  // ----- keeping -----

  function Filter(p: Entry -> bool, s: seq<Entry>): (r: seq<Entry>)
    ensures |r| <= |s|
    ensures forall e :: e in r <==> e in s && p(e)
  {
    if s == [] then []
    else
      assert s == s[..|s| - 1] + [s[|s| - 1]];
      var init := Filter(p, s[..|s| - 1]);
      if p(s[|s| - 1]) then init + [s[|s| - 1]] else init
  }

  lemma FilterSnoc(p: Entry -> bool, s: seq<Entry>, x: Entry)
    ensures Filter(p, s + [x]) == if p(x) then Filter(p, s) + [x] else Filter(p, s)
  {
    assert (s + [x])[..|s|] == s;
  }

  lemma Snoc(s: seq<Entry>, t: seq<Entry>, x: Entry)
    ensures s + (t + [x]) == (s + t) + [x]
  {
  }

  lemma {:induction false} FilterConcat(p: Entry -> bool, s: seq<Entry>, t: seq<Entry>)
    ensures Filter(p, s + t) == Filter(p, s) + Filter(p, t)
  {
    if t == [] {
      assert s + t == s;
    } else {
      hide Filter;
      var init, last := t[..|t| - 1], t[|t| - 1];
      assert t == init + [last];
      FilterConcat(p, s, init);
      Snoc(s, init, last);
      FilterSnoc(p, s + init, last);
      FilterSnoc(p, init, last);
      Snoc(Filter(p, s), Filter(p, init), last);
    }
  }

  /** Keeping what a mapping does not affect commutes with the mapping. */
  lemma {:induction false} FilterMap(p: Entry -> bool, f: Entry -> Entry, s: seq<Entry>)
    requires forall e :: p(f(e)) == p(e)
    ensures Filter(p, Map(f, s)) == Map(f, Filter(p, s))
  {
    if s != [] {
      hide Filter, Map;
      var init, last := s[..|s| - 1], s[|s| - 1];
      assert s == init + [last];
      FilterMap(p, f, init);
      MapSnoc(f, init, last);
      FilterSnoc(p, Map(f, init), f(last));
      FilterSnoc(p, init, last);
      MapSnoc(f, Filter(p, init), last);
    }
  }

  lemma {:induction false} FilterAll(p: Entry -> bool, s: seq<Entry>)
    requires forall e :: e in s ==> p(e)
    ensures Filter(p, s) == s
  {
    if s != [] {
      hide Filter;
      var init, last := s[..|s| - 1], s[|s| - 1];
      assert s == init + [last] && last in s;
      FilterAll(p, init);
      FilterSnoc(p, init, last);
    }
  }

  lemma {:induction false} FilterNone(p: Entry -> bool, s: seq<Entry>)
    requires forall e :: e in s ==> !p(e)
    ensures Filter(p, s) == []
  {
    if s != [] {
      var init := s[..|s| - 1];
      assert forall e :: e in init ==> e in s;
      assert s[|s| - 1] in s;
      FilterNone(p, init);
    }
  }

  /** Dropping something makes the list shorter. */
  lemma {:induction false} FilterShorter(p: Entry -> bool, s: seq<Entry>, e: Entry)
    requires e in s && !p(e)
    ensures |Filter(p, s)| < |s|
  {
    var init := s[..|s| - 1];
    assert s == init + [s[|s| - 1]];
    if e in init {
      FilterShorter(p, init, e);
    }
  }

  // ----- by tag -----

  function IsTag(tag: U16): Entry -> bool {
    (e: Entry) => e.tag == tag
  }

  function NotTag(tag: U16): Entry -> bool {
    (e: Entry) => e.tag != tag
  }

  function WithTag(s: seq<Entry>, tag: U16): seq<Entry> {
    Filter(IsTag(tag), s)
  }

  function WithoutTag(s: seq<Entry>, tag: U16): seq<Entry> {
    Filter(NotTag(tag), s)
  }

  predicate HasTag(s: seq<Entry>, tag: U16) {
    exists e :: e in s && e.tag == tag
  }

  /** Index of the first entry with the tag; the length of the list when there is none. */
  function FirstIndex(s: seq<Entry>, tag: U16): (i: nat)
    ensures i <= |s|
    ensures i < |s| ==> s[i].tag == tag
    ensures forall j :: 0 <= j < i ==> s[j].tag != tag
    ensures i < |s| <==> HasTag(s, tag)
  {
    if s == [] then 0
    else
      var init := s[..|s| - 1];
      assert s == init + [s[|s| - 1]];
      var i := FirstIndex(init, tag);
      if i < |init| then i else if s[|s| - 1].tag == tag then |init| else |s|
  }

  function First(s: seq<Entry>, tag: U16): (r: Option<Entry>)
    ensures r.Some? <==> HasTag(s, tag)
    ensures r.Some? ==> r.value.tag == tag && r.value in s
  {
    var i := FirstIndex(s, tag);
    if i < |s| then Some(s[i]) else None
  }

  /** The first entry with a tag depends on the entries with that tag alone. */
  lemma {:induction false} FirstOfTagged(s: seq<Entry>, tag: U16)
    ensures First(s, tag) == if WithTag(s, tag) == [] then None else Some(WithTag(s, tag)[0])
  {
    if s != [] {
      FirstOfTagged(s[..|s| - 1], tag);
    }
  }

  lemma {:induction false} FirstOfMap(f: Entry -> Entry, s: seq<Entry>, tag: U16)
    requires forall e :: f(e).tag == e.tag
    ensures FirstIndex(Map(f, s), tag) == FirstIndex(s, tag)
    ensures First(Map(f, s), tag) == if First(s, tag).Some? then Some(f(First(s, tag).value)) else None
  {
  }

  // ----- the stable sort by tag -----

  ghost predicate Sorted(s: seq<Entry>) {
    forall i, j :: 0 <= i < j < |s| ==> s[i].tag <= s[j].tag
  }

  /** After every entry with the same or a smaller tag. */
  function Insert(s: seq<Entry>, x: Entry): (r: seq<Entry>)
    ensures |r| == |s| + 1
  {
    if s == [] || s[|s| - 1].tag <= x.tag then s + [x] else Insert(s[..|s| - 1], x) + [s[|s| - 1]]
  }

  function Sort(s: seq<Entry>): (r: seq<Entry>)
    ensures |r| == |s|
  {
    if s == [] then [] else Insert(Sort(s[..|s| - 1]), s[|s| - 1])
  }

  lemma {:induction false} InsertMembers(s: seq<Entry>, x: Entry)
    ensures forall e :: e in Insert(s, x) <==> e in s || e == x
  {
    if s != [] && s[|s| - 1].tag > x.tag {
      assert s == s[..|s| - 1] + [s[|s| - 1]];
      InsertMembers(s[..|s| - 1], x);
    }
  }

  /** Sorting neither loses nor invents an entry. */
  lemma {:induction false} SortMembers(s: seq<Entry>)
    ensures forall e :: e in Sort(s) <==> e in s
  {
    if s != [] {
      hide Insert;
      assert s == s[..|s| - 1] + [s[|s| - 1]];
      SortMembers(s[..|s| - 1]);
      InsertMembers(Sort(s[..|s| - 1]), s[|s| - 1]);
    }
  }

  lemma {:induction false} InsertSorted(s: seq<Entry>, x: Entry)
    requires Sorted(s)
    ensures Sorted(Insert(s, x))
  {
    if s != [] && s[|s| - 1].tag > x.tag {
      var init, last := s[..|s| - 1], s[|s| - 1];
      InsertSorted(init, x);
      InsertMembers(init, x);
      var r := Insert(init, x);
      forall i | 0 <= i < |r|
        ensures r[i].tag <= last.tag
      {
        assert r[i] in r;
        if r[i] in init {
          var k :| 0 <= k < |init| && init[k] == r[i];
          assert s[k].tag <= s[|s| - 1].tag;
        }
      }
    }
  }

  lemma {:induction false} SortSorted(s: seq<Entry>)
    ensures Sorted(Sort(s))
  {
    if s != [] {
      SortSorted(s[..|s| - 1]);
      InsertSorted(Sort(s[..|s| - 1]), s[|s| - 1]);
    }
  }

  lemma {:induction false} SortOfSorted(s: seq<Entry>)
    requires Sorted(s)
    ensures Sort(s) == s
  {
    if s != [] {
      SortOfSorted(s[..|s| - 1]);
    }
  }

  lemma SortSnoc(s: seq<Entry>, x: Entry)
    ensures Sort(s + [x]) == Insert(Sort(s), x)
  {
    assert (s + [x])[..|s|] == s;
  }

  lemma InsertSnoc(s: seq<Entry>, last: Entry, x: Entry)
    ensures Insert(s + [last], x) == if last.tag <= x.tag then s + [last] + [x] else Insert(s, x) + [last]
  {
    assert (s + [last])[..|s|] == s;
  }

  /** Sorting a beginning first changes nothing. */
  lemma {:induction false} SortConcat(s: seq<Entry>, t: seq<Entry>)
    ensures Sort(s + t) == Sort(Sort(s) + t)
  {
    hide Sort, Insert;
    if t == [] {
      SortSorted(s);
      SortOfSorted(Sort(s));
      assert s + t == s && Sort(s) + t == Sort(s);
    } else {
      var init, last := t[..|t| - 1], t[|t| - 1];
      SortConcat(s, init);
      assert s + t == (s + init) + [last];
      assert Sort(s) + t == (Sort(s) + init) + [last];
      SortSnoc(s + init, last);
      SortSnoc(Sort(s) + init, last);
    }
  }

  lemma {:induction false} FilterInsert(p: Entry -> bool, s: seq<Entry>, x: Entry)
    requires Sorted(s)
    ensures Filter(p, Insert(s, x)) == if p(x) then Insert(Filter(p, s), x) else Filter(p, s)
  {
    hide Filter, Insert;
    if s == [] || s[|s| - 1].tag <= x.tag {
      FilterSnoc(p, s, x);
      NotBefore(p, s, x);
      InsertAtEnd(s, x);
      InsertAtEnd(Filter(p, s), x);
    } else {
      var init, last := s[..|s| - 1], s[|s| - 1];
      assert s == init + [last];
      FilterInsert(p, init, x);
      InsertSnoc(init, last, x);
      FilterSnoc(p, Insert(init, x), last);
      FilterSnoc(p, init, last);
      InsertSnoc(Filter(p, init), last, x);
    }
  }

  lemma NotBefore(p: Entry -> bool, s: seq<Entry>, x: Entry)
    requires Sorted(s) && (s == [] || s[|s| - 1].tag <= x.tag)
    ensures Filter(p, s) == [] || Filter(p, s)[|Filter(p, s)| - 1].tag <= x.tag
  {
    var kept := Filter(p, s);
    if kept != [] {
      assert kept[|kept| - 1] in kept;
      var k :| 0 <= k < |s| && s[k] == kept[|kept| - 1];
      assert k < |s| - 1 ==> s[k].tag <= s[|s| - 1].tag;
    }
  }

  lemma InsertAtEnd(s: seq<Entry>, x: Entry)
    requires s == [] || s[|s| - 1].tag <= x.tag
    ensures Insert(s, x) == s + [x]
  {
  }

  /** Keeping commutes with sorting, so the sort is stable: entries with one tag keep their order. */
  lemma {:induction false} FilterSort(p: Entry -> bool, s: seq<Entry>)
    ensures Filter(p, Sort(s)) == Sort(Filter(p, s))
  {
    if s != [] {
      hide Filter, Insert, Sort;
      var init, last := s[..|s| - 1], s[|s| - 1];
      assert s == init + [last];
      FilterSort(p, init);
      SortSorted(init);
      FilterInsert(p, Sort(init), last);
      SortSnoc(init, last);
      FilterSnoc(p, init, last);
      SortSnoc(Filter(p, init), last);
    }
  }

  lemma {:induction false} InsertMap(f: Entry -> Entry, s: seq<Entry>, x: Entry)
    requires forall e :: f(e).tag == e.tag
    ensures Insert(Map(f, s), f(x)) == Map(f, Insert(s, x))
  {
    hide Map, Insert;
    if s == [] || s[|s| - 1].tag <= x.tag {
      MapSnoc(f, s, x);
      InsertAtEnd(s, x);
      InsertAtEnd(Map(f, s), f(x));
    } else {
      var init, last := s[..|s| - 1], s[|s| - 1];
      assert s == init + [last];
      InsertMap(f, init, x);
      InsertSnoc(init, last, x);
      MapSnoc(f, init, last);
      InsertSnoc(Map(f, init), f(last), f(x));
      MapSnoc(f, Insert(init, x), last);
    }
  }

  /** A mapping that keeps tags commutes with sorting. */
  lemma {:induction false} SortMap(f: Entry -> Entry, s: seq<Entry>)
    requires forall e :: f(e).tag == e.tag
    ensures Sort(Map(f, s)) == Map(f, Sort(s))
  {
    if s != [] {
      var init, last := s[..|s| - 1], s[|s| - 1];
      SortMap(f, init);
      assert Map(f, s)[..|s| - 1] == Map(f, init);
      InsertMap(f, Sort(init), last);
    }
  }

  /** The entries with one tag come out of the sort in their original order. */
  lemma SortIsStable(s: seq<Entry>, tag: U16)
    ensures WithTag(Sort(s), tag) == WithTag(s, tag)
    ensures First(Sort(s), tag) == First(s, tag)
  {
    FilterSort(IsTag(tag), s);
    var same := WithTag(s, tag);
    forall i | 0 <= i < |same|
      ensures same[i].tag == tag
    {
      assert same[i] in same;
    }
    SortOfSorted(same);
    FirstOfTagged(s, tag);
    FirstOfTagged(Sort(s), tag);
  }

  ghost predicate SameByTag(s: seq<Entry>, t: seq<Entry>) {
    forall tag: U16 :: WithTag(s, tag) == WithTag(t, tag)
  }

  /** Only one list is sorted and holds the same entries in the same order under every tag. */
  lemma {:induction false} SortedIsUnique(s: seq<Entry>, t: seq<Entry>)
    requires Sorted(s) && Sorted(t) && |s| == |t|
    requires SameByTag(s, t)
    ensures s == t
  {
    if s != [] {
      var n := |s|;
      var a, b := s[n - 1], t[n - 1];
      LastTagDominates(s, t);
      LastTagDominates(t, s);
      SameLast(s, t);
      SortedIsUnique(s[..n - 1], t[..n - 1]);
    }
  }

  lemma SameLast(s: seq<Entry>, t: seq<Entry>)
    requires |s| == |t| > 0 && s[|s| - 1].tag == t[|t| - 1].tag && SameByTag(s, t)
    ensures s[|s| - 1] == t[|t| - 1]
    ensures SameByTag(s[..|s| - 1], t[..|t| - 1])
  {
    hide Filter;
    var n := |s|;
    var a, b := s[n - 1], t[n - 1];
    assert WithTag(s, a.tag) == WithTag(t, a.tag);
    TaggedSnoc(s, a.tag);
    TaggedSnoc(t, a.tag);
    assert a == WithTag(s, a.tag)[|WithTag(s, a.tag)| - 1];
    forall tag: U16 {:trigger WithTag(s[..n - 1], tag)}
      ensures WithTag(s[..n - 1], tag) == WithTag(t[..n - 1], tag)
    {
      TaggedSnoc(s, tag);
      TaggedSnoc(t, tag);
      SnocCancel(WithTag(s[..n - 1], tag), WithTag(t[..n - 1], tag), a);
      assert WithTag(s, tag) == WithTag(t, tag);
    }
  }

  lemma SnocCancel(a: seq<Entry>, b: seq<Entry>, x: Entry)
    ensures a + [x] == b + [x] ==> a == b
  {
    if a + [x] == b + [x] {
      assert a == (a + [x])[..|a|] == (b + [x])[..|b|] == b;
    }
  }

  lemma TaggedSnoc(s: seq<Entry>, tag: U16)
    requires s != []
    ensures WithTag(s, tag) ==
              if s[|s| - 1].tag == tag then WithTag(s[..|s| - 1], tag) + [s[|s| - 1]] else WithTag(s[..|s| - 1], tag)
  {
    assert s == s[..|s| - 1] + [s[|s| - 1]];
    FilterSnoc(IsTag(tag), s[..|s| - 1], s[|s| - 1]);
  }

  lemma LastTagDominates(s: seq<Entry>, t: seq<Entry>)
    requires |s| == |t| > 0 && Sorted(s)
    requires SameByTag(s, t)
    ensures t[|t| - 1].tag <= s[|s| - 1].tag
  {
    var b := t[|t| - 1];
    assert b in WithTag(t, b.tag);
    assert WithTag(s, b.tag) == WithTag(t, b.tag);
    assert b in s;
    var k :| 0 <= k < |s| && s[k] == b;
    assert k < |s| - 1 ==> s[k].tag <= s[|s| - 1].tag;
  }
}
