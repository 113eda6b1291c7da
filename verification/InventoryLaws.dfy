/** What coverage means, what gap filling does to it, and conservation of leaf bytes. */
module InventoryLaws {
  import opened Words
  import opened Ranges
  import opened InventoryModel

  // ----- coverage -----

  ghost predicate Nested(inner: Range, outer: Range) {
    outer.start <= inner.start && inner.end <= outer.end
  }

  ghost predicate PartOk(parts: seq<Part>, len: nat, i: nat)
    requires i < |parts|
  {
    var part := parts[i];
    && part.range.start < part.range.end <= len
    && (part.body.Some? ==> Nested(part.body.value, part.range) && part.body.value.start <= part.body.value.end)
    && (part.parent.Some? ==> part.parent.value < i && Nested(part.range, parts[part.parent.value].range))
  }

  ghost predicate IsChild(parts: seq<Part>, p: Parent, i: int) {
    0 <= i < |parts| && parts[i].parent == p
  }

  ghost predicate SiblingsDisjoint(parts: seq<Part>, p: Parent) {
    forall i, j :: IsChild(parts, p, i) && IsChild(parts, p, j) && i != j ==> Disjoint(parts[i].range, parts[j].range)
  }

  /** The bytes the children of p must tile: the input, a declared body, or nothing declared. */
  function Span(parts: seq<Part>, len: nat, p: Parent): Option<Range> {
    match p
    case None => Some(Range(0, len))
    case Some(q) => if q < |parts| then parts[q].body else None
  }

  ghost predicate Covered(parts: seq<Part>, p: Parent, x: int) {
    exists i :: IsChild(parts, p, i) && parts[i].range.Has(x)
  }

  ghost predicate InSpan(parts: seq<Part>, p: Parent, span: Range) {
    forall i :: IsChild(parts, p, i) ==> Nested(parts[i].range, span)
  }

  ghost predicate Tiled(parts: seq<Part>, p: Parent, span: Range) {
    InSpan(parts, p, span) && forall x :: span.Has(x) ==> Covered(parts, p, x)
  }

  ghost predicate LevelOk(parts: seq<Part>, len: nat, p: Parent) {
    SiblingsDisjoint(parts, p) && (Span(parts, len, p).Some? ==> Tiled(parts, p, Span(parts, len, p).value))
  }

  /** The coverage guarantees the documentation of `validate` promises. */
  ghost predicate Coverage(parts: seq<Part>, len: nat) {
    && (forall i :: 0 <= i < |parts| ==> PartOk(parts, len, i))
    && LevelOk(parts, len, None)
    && (forall i :: 0 <= i < |parts| ==> LevelOk(parts, len, Some(i)))
  }

  /** What each reported error claims. */
  ghost predicate ErrorHolds(parts: seq<Part>, len: nat, e: InventoryError) {
    match e
    case EmptyPart(i) => i < |parts| && parts[i].range.start >= parts[i].range.end
    case OutOfBounds(i) => i < |parts| && parts[i].range.end > len
    case OutsideParent(i) =>
      && i < |parts|
      && var part := parts[i];
         || (part.body.Some? && (!Nested(part.body.value, part.range) || part.body.value.start > part.body.value.end))
         || (part.parent.Some? && part.parent.value < i && !Nested(part.range, parts[part.parent.value].range))
         || (Span(parts, len, part.parent).Some? && !Nested(part.range, Span(parts, len, part.parent).value))
    case Overlap(a, b) =>
      && a < |parts| && b < |parts| && a != b && parts[a].parent == parts[b].parent
      && !Disjoint(parts[a].range, parts[b].range)
    case Uncovered(p, hole) =>
      && Span(parts, len, p).Some? && Nested(hole, Span(parts, len, p).value) && hole.start < hole.end
      && forall x :: hole.Has(x) ==> !Covered(parts, p, x)
    case _ => false
  }

  /** An error names something that is really wrong: a part list with coverage has none. */
  lemma RealErrorsBreakCoverage(parts: seq<Part>, len: nat, e: InventoryError)
    requires ErrorHolds(parts, len, e)
    ensures !Coverage(parts, len)
  {
    match e
    case EmptyPart(i) =>
      assert !PartOk(parts, len, i);
    case OutOfBounds(i) =>
      assert !PartOk(parts, len, i);
    case OutsideParent(i) =>
      assert IsChild(parts, parts[i].parent, i);
      assert !PartOk(parts, len, i) || !LevelOk(parts, len, parts[i].parent);
    case Overlap(a, b) =>
      assert IsChild(parts, parts[a].parent, a) && IsChild(parts, parts[a].parent, b);
      assert !PartOk(parts, len, a) || !LevelOk(parts, len, parts[a].parent);
    case Uncovered(p, hole) =>
      assert hole.Has(hole.start);
      assert !LevelOk(parts, len, p);
  }

  // ----- sorted siblings: neighbours decide -----

  ghost predicate NeighboursApart(parts: seq<Part>, ids: seq<nat>)
    requires ValidIds(parts, ids)
  {
    forall k :: 0 <= k < |ids| - 1 ==> parts[ids[k]].range.end <= parts[ids[k + 1]].range.start
  }

  ghost predicate NonEmptyIds(parts: seq<Part>, ids: seq<nat>)
    requires ValidIds(parts, ids)
  {
    forall k :: 0 <= k < |ids| ==> parts[ids[k]].range.start < parts[ids[k]].range.end
  }

  /** Comparing sorted neighbours is enough to separate every pair. */
  lemma {:induction false} NeighboursSeparateAll(parts: seq<Part>, ids: seq<nat>, j: nat, k: nat)
    requires ValidIds(parts, ids) && NonEmptyIds(parts, ids) && NeighboursApart(parts, ids)
    requires j < k < |ids|
    ensures parts[ids[j]].range.end <= parts[ids[k]].range.start
    decreases k
  {
    assert parts[ids[k - 1]].range.end <= parts[ids[k - 1 + 1]].range.start;
    if j < k - 1 {
      NeighboursSeparateAll(parts, ids, j, k - 1);
    }
  }

  lemma ApartAreDisjoint(parts: seq<Part>, ids: seq<nat>, a: nat, b: nat)
    requires ValidIds(parts, ids) && NonEmptyIds(parts, ids) && NeighboursApart(parts, ids)
    requires a < |ids| && b < |ids| && a != b
    ensures Disjoint(parts[ids[a]].range, parts[ids[b]].range)
  {
    if a < b {
      NeighboursSeparateAll(parts, ids, a, b);
    } else {
      NeighboursSeparateAll(parts, ids, b, a);
    }
  }

  lemma SortedNeighboursDecide(parts: seq<Part>, p: Parent)
    requires NonEmptyIds(parts, Children(parts, p))
    ensures SiblingsDisjoint(parts, p) <==> NeighboursApart(parts, Children(parts, p))
  {
    hide Children, NonEmptyIds, Disjoint;
    var ids := Children(parts, p);
    ChildrenAreSorted(parts, p);
    if NeighboursApart(parts, ids) {
      forall i, j | IsChild(parts, p, i) && IsChild(parts, p, j) && i != j
        ensures Disjoint(parts[i].range, parts[j].range)
      {
        assert i in ids && j in ids;
        var a :| 0 <= a < |ids| && ids[a] == i;
        var b :| 0 <= b < |ids| && ids[b] == j;
        ApartAreDisjoint(parts, ids, a, b);
      }
    } else {
      var k :| 0 <= k < |ids| - 1 && parts[ids[k]].range.end > parts[ids[k + 1]].range.start;
      NeighboursOverlap(parts, p, k);
    }
  }

  lemma NeighboursOverlap(parts: seq<Part>, p: Parent, k: nat)
    requires NonEmptyIds(parts, Children(parts, p))
    requires k + 1 < |Children(parts, p)|
    requires parts[Children(parts, p)[k]].range.end > parts[Children(parts, p)[k + 1]].range.start
    ensures var ids := Children(parts, p);
            && ids[k] != ids[k + 1] && IsChild(parts, p, ids[k]) && IsChild(parts, p, ids[k + 1])
            && !Disjoint(parts[ids[k]].range, parts[ids[k + 1]].range)
    ensures !SiblingsDisjoint(parts, p)
  {
    var ids := Children(parts, p);
    ChildrenAreSorted(parts, p);
    assert Before(parts, ids[k], ids[k + 1]);
    assert ids[k] in ids && ids[k + 1] in ids;
    var x := parts[ids[k + 1]].range.start;
    assert parts[ids[k]].range.Has(x) && parts[ids[k + 1]].range.Has(x);
  }

  // ----- scanning for gaps -----

  /** The holes `fill_gaps` finds between `cursor` and `end`, in file order, empty ones included. */
  function Scan(parts: seq<Part>, ids: seq<nat>, cursor: nat, end: nat): seq<Range>
    requires ValidIds(parts, ids)
  {
    if ids == [] then if cursor < end then [Range(cursor, end)] else []
    else
      var r := parts[ids[0]].range;
      (if r.start > cursor then [Range(cursor, Min(r.start, end))] else [])
      + Scan(parts, ids[1..], Max(cursor, r.end), end)
  }

  function NonEmpty(holes: seq<Range>): (r: seq<Range>)
    ensures forall k :: 0 <= k < |r| ==> r[k].start < r[k].end
  {
    if holes == [] then []
    else (if holes[0].start < holes[0].end then [holes[0]] else []) + NonEmpty(holes[1..])
  }

  function Holes(parts: seq<Part>, len: nat, p: Parent): seq<Range> {
    match Span(parts, len, p)
    case None => []
    case Some(span) => NonEmpty(Scan(parts, Children(parts, p), span.start, span.end))
  }

  /** How many of the holes contain byte x. */
  function Count(holes: seq<Range>, x: int): nat {
    if holes == [] then 0 else (if holes[0].Has(x) then 1 else 0) + Count(holes[1..], x)
  }

  lemma {:induction false} CountConcat(a: seq<Range>, b: seq<Range>, x: int)
    ensures Count(a + b, x) == Count(a, x) + Count(b, x)
  {
    if a == [] {
      assert a + b == b;
    } else {
      assert (a + b)[1..] == a[1..] + b;
      CountConcat(a[1..], b, x);
    }
  }

  lemma {:induction false} CountNonEmpty(holes: seq<Range>, x: int)
    ensures Count(NonEmpty(holes), x) == Count(holes, x)
  {
    if holes != [] {
      CountNonEmpty(holes[1..], x);
      CountConcat(if holes[0].start < holes[0].end then [holes[0]] else [], NonEmpty(holes[1..]), x);
    }
  }

  ghost predicate CoveredBy(parts: seq<Part>, ids: seq<nat>, x: int)
    requires ValidIds(parts, ids)
  {
    exists k :: 0 <= k < |ids| && parts[ids[k]].range.Has(x)
  }

  /**
   No child ends before it starts in a place where the scan would notice: past the cursor, before
   the end of the span.
   */
  ghost predicate Clean(parts: seq<Part>, ids: seq<nat>, cursor: nat, end: nat)
    requires ValidIds(parts, ids)
  {
    ids == []
    || (var r := parts[ids[0]].range;
        && (r.start <= r.end || r.start <= cursor || cursor >= end || r.end >= end)
        && Clean(parts, ids[1..], Max(cursor, r.end), end))
  }

  lemma CoveredByHead(parts: seq<Part>, ids: seq<nat>, x: int)
    requires ValidIds(parts, ids) && ids != []
    ensures CoveredBy(parts, ids, x) <==> parts[ids[0]].range.Has(x) || CoveredBy(parts, ids[1..], x)
  {
    var rest := ids[1..];
    if CoveredBy(parts, rest, x) {
      var k :| 0 <= k < |rest| && parts[rest[k]].range.Has(x);
      assert parts[ids[k + 1]].range.Has(x);
    }
    if CoveredBy(parts, ids, x) && !parts[ids[0]].range.Has(x) {
      var k :| 0 <= k < |ids| && parts[ids[k]].range.Has(x);
      assert parts[rest[k - 1]].range.Has(x);
    }
  }

  /** On a clean level every uncovered byte of the span lies in exactly one hole, every other byte in none. */
  lemma {:induction false} ScanIsExact(parts: seq<Part>, ids: seq<nat>, cursor: nat, end: nat, x: int)
    requires ValidIds(parts, ids) && SortedIds(parts, ids) && Clean(parts, ids, cursor, end)
    ensures Count(Scan(parts, ids, cursor, end), x)
            == if cursor <= x < end && !CoveredBy(parts, ids, x) then 1 else 0
    decreases |ids|
  {
    if ids != [] {
      var r, rest := parts[ids[0]].range, ids[1..];
      var next := Max(cursor, r.end);
      var here := if r.start > cursor then [Range(cursor, Min(r.start, end))] else [];
      ScanIsExact(parts, rest, next, end, x);
      CountConcat(here, Scan(parts, rest, next, end), x);
      assert here != [] ==> Count(here, x) == if here[0].Has(x) then 1 else 0;
      CoveredByHead(parts, ids, x);
      if x < r.start {
        forall k | 0 <= k < |rest|
          ensures !parts[rest[k]].range.Has(x)
        {
          assert Before(parts, ids[0], ids[k + 1]);
        }
      }
    }
  }

  /** A reversed child that the scan notices puts a byte into two holes: the holes then overlap. */
  lemma {:induction false} UncleanScanOverlaps(parts: seq<Part>, ids: seq<nat>, cursor: nat, end: nat) returns (x: nat)
    requires ValidIds(parts, ids) && SortedIds(parts, ids) && !Clean(parts, ids, cursor, end)
    ensures Count(Scan(parts, ids, cursor, end), x) >= 2
    decreases |ids|
  {
    var r, rest := parts[ids[0]].range, ids[1..];
    var next := Max(cursor, r.end);
    var here := if r.start > cursor then [Range(cursor, Min(r.start, end))] else [];
    if Clean(parts, rest, next, end) {
      x := next;
      ScanIsExact(parts, rest, next, end, x);
      forall k | 0 <= k < |rest|
        ensures !parts[rest[k]].range.Has(x)
      {
        assert Before(parts, ids[0], ids[k + 1]);
      }
    } else {
      x := UncleanScanOverlaps(parts, rest, next, end);
    }
    CountConcat(here, Scan(parts, rest, next, end), x);
    assert here != [] ==> Count(here, x) == if here[0].Has(x) then 1 else 0;
  }

  ghost predicate CleanLevel(parts: seq<Part>, len: nat, p: Parent) {
    Span(parts, len, p).Some? ==>
      Clean(parts, Children(parts, p), Span(parts, len, p).value.start, Span(parts, len, p).value.end)
  }

  /** The children of p are to cover byte x: any byte of the input at the top level, any byte of its body in a part. */
  ghost predicate Wanted(parts: seq<Part>, len: nat, p: Parent, x: int) {
    match p
    case None => 0 <= x < len
    case Some(q) => q < |parts| && parts[q].body.Some? && parts[q].body.value.start <= x < parts[q].body.value.end
  }

  /** Wanted bytes that no child covers lie in exactly one hole; all other bytes in none. */
  ghost predicate HolesPartition(parts: seq<Part>, len: nat, p: Parent) {
    forall x :: Count(Holes(parts, len, p), x) == if Wanted(parts, len, p, x) && !Covered(parts, p, x) then 1 else 0
  }

  lemma WantedIsSpan(parts: seq<Part>, len: nat, p: Parent)
    ensures forall x :: Wanted(parts, len, p, x) <==> Span(parts, len, p).Some? && Span(parts, len, p).value.Has(x)
  {
  }

  /** `fill_gaps` partitions the uncovered bytes exactly when no reversed child is in its way. */
  lemma HolesPartitionIffClean(parts: seq<Part>, len: nat, p: Parent)
    ensures HolesPartition(parts, len, p) <==> CleanLevel(parts, len, p)
  {
    hide Wanted;
    var ids := Children(parts, p);
    ChildrenAreSorted(parts, p);
    WantedIsSpan(parts, len, p);
    if Span(parts, len, p).Some? {
      var span := Span(parts, len, p).value;
      forall x
        ensures Count(Holes(parts, len, p), x) == Count(Scan(parts, ids, span.start, span.end), x)
      {
        CountNonEmpty(Scan(parts, ids, span.start, span.end), x);
      }
      if Clean(parts, ids, span.start, span.end) {
        forall x
          ensures Count(Holes(parts, len, p), x) == if span.Has(x) && !Covered(parts, p, x) then 1 else 0
        {
          ScanIsExact(parts, ids, span.start, span.end, x);
          CoveredByChildren(parts, p, x);
        }
      } else {
        var x := UncleanScanOverlaps(parts, ids, span.start, span.end);
      }
    }
  }

  lemma CoveredByChildren(parts: seq<Part>, p: Parent, x: int)
    ensures CoveredBy(parts, Children(parts, p), x) <==> Covered(parts, p, x)
  {
    var ids := Children(parts, p);
    ChildrenAreSorted(parts, p);
    if Covered(parts, p, x) {
      var i :| IsChild(parts, p, i) && parts[i].range.Has(x);
      assert i in ids;
    }
    if CoveredBy(parts, ids, x) {
      var k :| 0 <= k < |ids| && parts[ids[k]].range.Has(x);
      assert ids[k] in ids;
      assert IsChild(parts, p, ids[k]);
    }
  }

  /** Ranges that do not run backwards are always clean, however they overlap or protrude. */
  lemma {:induction false} ForwardIsClean(parts: seq<Part>, ids: seq<nat>, cursor: nat, end: nat)
    requires ValidIds(parts, ids)
    requires forall k :: 0 <= k < |ids| ==> parts[ids[k]].range.start <= parts[ids[k]].range.end
    ensures Clean(parts, ids, cursor, end)
    decreases |ids|
  {
    if ids != [] {
      ForwardIsClean(parts, ids[1..], Max(cursor, parts[ids[0]].range.end), end);
    }
  }

  ghost predicate ForwardChildren(parts: seq<Part>, p: Parent) {
    forall i :: IsChild(parts, p, i) ==> parts[i].range.start <= parts[i].range.end
  }

  lemma ForwardLevelIsClean(parts: seq<Part>, len: nat, p: Parent)
    requires ForwardChildren(parts, p)
    ensures CleanLevel(parts, len, p)
  {
    var ids := Children(parts, p);
    ChildrenAreSorted(parts, p);
    forall k | 0 <= k < |ids|
      ensures parts[ids[k]].range.start <= parts[ids[k]].range.end
    {
      assert ids[k] in ids;
      assert IsChild(parts, p, ids[k]);
    }
    if Span(parts, len, p).Some? {
      ForwardIsClean(parts, ids, Span(parts, len, p).value.start, Span(parts, len, p).value.end);
    }
  }

  lemma CountTwo(a: Range, b: Range, x: int)
    ensures Count([a, b], x) == (if a.Has(x) then 1 else 0) + (if b.Has(x) then 1 else 0)
  {
    assert [a, b][1..] == [b] && [b][1..] == [];
    assert Count([b], x) == if b.Has(x) then 1 else 0;
  }

  /** The condition does fail: with one part at 5..2 in ten bytes, bytes 2, 3 and 4 lie in two holes each. */
  lemma ReversedPartDoublesHoles(kind: PartKind, d: Disposition)
    ensures var parts := [Part(None, kind, Range(5, 2), None, d)];
            && Holes(parts, 10, None) == [Range(0, 5), Range(2, 10)]
            && !CleanLevel(parts, 10, None) && !HolesPartition(parts, 10, None)
            && forall x :: 2 <= x < 5 ==> Count(Holes(parts, 10, None), x) == 2
  {
    var parts := [Part(None, kind, Range(5, 2), None, d)];
    assert Siblings(parts, None, 1) == [0];
    assert Children(parts, None) == [0];
    assert Scan(parts, [], 2, 10) == [Range(2, 10)];
    assert Scan(parts, [0], 0, 10) == [Range(0, 5), Range(2, 10)];
    assert [Range(0, 5), Range(2, 10)][1..] == [Range(2, 10)];
    forall x
      ensures Count([Range(0, 5), Range(2, 10)], x) == (if Range(0, 5).Has(x) then 1 else 0) + (if Range(2, 10).Has(x) then 1 else 0)
    {
      CountTwo(Range(0, 5), Range(2, 10), x);
    }
    HolesPartitionIffClean(parts, 10, None);
    assert Count(Holes(parts, 10, None), 3) == 2;
  }

  /** In ascending order, and a byte between any two: no hole could be longer. */
  ghost predicate Separated(holes: seq<Range>) {
    forall j, k :: 0 <= j < k < |holes| ==> holes[j].end < holes[k].start
  }

  ghost predicate After(holes: seq<Range>, cursor: nat) {
    forall k :: 0 <= k < |holes| ==> cursor <= holes[k].start
  }

  lemma {:induction false} ScanSeparated(parts: seq<Part>, ids: seq<nat>, cursor: nat, end: nat)
    requires ValidIds(parts, ids) && NonEmptyIds(parts, ids)
    ensures Separated(NonEmpty(Scan(parts, ids, cursor, end))) && After(NonEmpty(Scan(parts, ids, cursor, end)), cursor)
    decreases |ids|
  {
    if ids != [] {
      hide Scan, NonEmpty, NonEmptyIds, ValidIds, Separated, After;
      NonEmptyRest(parts, ids);
      var r := parts[ids[0]].range;
      ScanSeparated(parts, ids[1..], Max(cursor, r.end), end);
      ScanHead(parts, ids, cursor, end);
      SeparatedHead(r, cursor, end, NonEmpty(Scan(parts, ids[1..], Max(cursor, r.end), end)));
    }
  }

  lemma SeparatedHead(r: Range, cursor: nat, end: nat, rest: seq<Range>)
    requires r.start < r.end && Separated(rest) && After(rest, Max(cursor, r.end))
    ensures var here := if cursor < r.start && cursor < end then [Range(cursor, Min(r.start, end))] else [];
            Separated(here + rest) && After(here + rest, cursor)
  {
  }

  lemma NonEmptyRest(parts: seq<Part>, ids: seq<nat>)
    requires ValidIds(parts, ids) && NonEmptyIds(parts, ids) && ids != []
    ensures ids[0] < |parts| && ValidIds(parts, ids[1..]) && NonEmptyIds(parts, ids[1..])
    ensures parts[ids[0]].range.start < parts[ids[0]].range.end
  {
  }

  lemma ScanHead(parts: seq<Part>, ids: seq<nat>, cursor: nat, end: nat)
    requires ValidIds(parts, ids) && ids != [] && ValidIds(parts, ids[1..])
    ensures var r := parts[ids[0]].range;
            NonEmpty(Scan(parts, ids, cursor, end))
            == (if cursor < r.start && cursor < end then [Range(cursor, Min(r.start, end))] else [])
               + NonEmpty(Scan(parts, ids[1..], Max(cursor, r.end), end))
  {
    hide Scan;
    ScanUnfolds(parts, ids, cursor, end);
    var r, rest := parts[ids[0]].range, Scan(parts, ids[1..], Max(cursor, parts[ids[0]].range.end), end);
    if r.start > cursor {
      assert ([Range(cursor, Min(r.start, end))] + rest)[1..] == rest;
    } else {
      assert [] + rest == rest;
    }
  }

  lemma ScanUnfolds(parts: seq<Part>, ids: seq<nat>, cursor: nat, end: nat)
    requires ValidIds(parts, ids) && ids != [] && ValidIds(parts, ids[1..])
    ensures var r := parts[ids[0]].range;
            Scan(parts, ids, cursor, end)
            == (if r.start > cursor then [Range(cursor, Min(r.start, end))] else []) + Scan(parts, ids[1..], Max(cursor, r.end), end)
  {
  }

  /** Among children that have bytes, holes come in file order and each is as long as it can be. */
  lemma HolesAreMaximal(parts: seq<Part>, len: nat, p: Parent)
    requires forall i :: IsChild(parts, p, i) ==> parts[i].range.start < parts[i].range.end
    ensures Separated(Holes(parts, len, p))
  {
    hide Scan, NonEmpty, Children;
    ChildrenAreSorted(parts, p);
    var ids := Children(parts, p);
    forall k | 0 <= k < |ids|
      ensures parts[ids[k]].range.start < parts[ids[k]].range.end
    {
      assert ids[k] in ids && IsChild(parts, p, ids[k]);
    }
    if Span(parts, len, p).Some? {
      ScanSeparated(parts, ids, Span(parts, len, p).value.start, Span(parts, len, p).value.end);
    }
  }

  // ----- what filling does -----

  function GapParts(p: Parent, holes: seq<Range>, d: Disposition): seq<Part> {
    seq(|holes|, k requires 0 <= k < |holes| => Part(p, Gap, holes[k], None, d))
  }

  /** The parts after `fill_gaps`. */
  function Filled(parts: seq<Part>, len: nat, p: Parent, d: Disposition): seq<Part> {
    parts + GapParts(p, Holes(parts, len, p), d)
  }

  lemma {:induction false} CountSeesHole(holes: seq<Range>, k: nat, x: int)
    requires k < |holes| && holes[k].Has(x)
    ensures Count(holes, x) >= 1
  {
    if k > 0 {
      CountSeesHole(holes[1..], k - 1, x);
    }
  }

  lemma {:induction false} CountSeesBoth(holes: seq<Range>, j: nat, k: nat, x: int)
    requires j < k < |holes| && holes[j].Has(x) && holes[k].Has(x)
    ensures Count(holes, x) >= 2
  {
    if j > 0 {
      CountSeesBoth(holes[1..], j - 1, k - 1, x);
    } else {
      CountSeesHole(holes[1..], k - 1, x);
    }
  }

  lemma {:induction false} CountFindsHole(holes: seq<Range>, x: int) returns (k: nat)
    requires Count(holes, x) >= 1
    ensures k < |holes| && holes[k].Has(x)
  {
    if holes[0].Has(x) {
      k := 0;
    } else {
      k := CountFindsHole(holes[1..], x);
      k := k + 1;
    }
  }

  lemma HolesAreNonEmpty(parts: seq<Part>, len: nat, p: Parent)
    ensures forall k :: 0 <= k < |Holes(parts, len, p)| ==>
              Holes(parts, len, p)[k].start < Holes(parts, len, p)[k].end
  {
  }

  /** Each hole is uncovered, inside the span, and apart from the other holes. */
  lemma HoleFacts(parts: seq<Part>, len: nat, p: Parent, k: nat)
    requires CleanLevel(parts, len, p) && k < |Holes(parts, len, p)|
    ensures var holes := Holes(parts, len, p);
            && Span(parts, len, p).Some? && Nested(holes[k], Span(parts, len, p).value)
            && (forall x :: holes[k].Has(x) ==> !Covered(parts, p, x))
            && (forall j :: 0 <= j < |holes| && j != k ==> Disjoint(holes[j], holes[k]))
  {
    hide Holes, Covered;
    var holes := Holes(parts, len, p);
    HolesAreNonEmpty(parts, len, p);
    HolesPartitionIffClean(parts, len, p);
    forall x | holes[k].Has(x)
      ensures Span(parts, len, p).Some? && Span(parts, len, p).value.Has(x) && !Covered(parts, p, x) && Count(holes, x) == 1
    {
      CountSeesHole(holes, k, x);
    }
    assert holes[k].Has(holes[k].start) && holes[k].Has(holes[k].end - 1);
    forall j | 0 <= j < |holes| && j != k
      ensures Disjoint(holes[j], holes[k])
    {
      forall x | holes[j].Has(x)
        ensures !holes[k].Has(x)
      {
        if holes[k].Has(x) {
          CountSeesBoth(holes, Min(j, k), Max(j, k), x);
        }
      }
    }
  }

  lemma FilledParts(parts: seq<Part>, len: nat, p: Parent, d: Disposition)
    ensures |Filled(parts, len, p, d)| == |parts| + |Holes(parts, len, p)|
    ensures forall i :: 0 <= i < |parts| ==> Filled(parts, len, p, d)[i] == parts[i]
    ensures forall i :: |parts| <= i < |Filled(parts, len, p, d)| ==>
              Filled(parts, len, p, d)[i] == Part(p, Gap, Holes(parts, len, p)[i - |parts|], None, d)
  {
    hide Holes;
  }

  lemma CoveredStays(parts: seq<Part>, len: nat, p: Parent, d: Disposition, q: Parent, x: int)
    requires Covered(parts, q, x)
    ensures Covered(Filled(parts, len, p, d), q, x)
  {
    hide Filled;
    FilledParts(parts, len, p, d);
    var i :| IsChild(parts, q, i) && parts[i].range.Has(x);
    assert IsChild(Filled(parts, len, p, d), q, i);
  }

  /** After filling a clean level, its children cover every byte of the span. */
  lemma FillCovers(parts: seq<Part>, len: nat, p: Parent, d: Disposition, x: int)
    requires CleanLevel(parts, len, p) && Span(parts, len, p).Some? && Span(parts, len, p).value.Has(x)
    ensures Covered(Filled(parts, len, p, d), p, x)
  {
    hide Filled, Holes, Covered;
    if Covered(parts, p, x) {
      CoveredStays(parts, len, p, d, p, x);
    } else {
      HolesPartitionIffClean(parts, len, p);
      FilledParts(parts, len, p, d);
      var k := CountFindsHole(Holes(parts, len, p), x);
      GapCovers(Filled(parts, len, p, d), p, |parts| + k, x);
    }
  }

  lemma GapCovers(parts: seq<Part>, p: Parent, i: nat, x: int)
    requires IsChild(parts, p, i) && parts[i].range.Has(x)
    ensures Covered(parts, p, x)
  {
  }

  lemma NoHolesWhenCovered(parts: seq<Part>, len: nat, p: Parent)
    requires CleanLevel(parts, len, p)
    requires Span(parts, len, p).Some? ==> forall x :: Span(parts, len, p).value.Has(x) ==> Covered(parts, p, x)
    ensures Holes(parts, len, p) == []
  {
    var holes := Holes(parts, len, p);
    HolesAreNonEmpty(parts, len, p);
    if holes != [] {
      HoleFacts(parts, len, p, 0);
      assert holes[0].Has(holes[0].start);
    }
  }

  /** A part under p is an earlier part of the list, or p is the top level. */
  ghost predicate Known(parts: seq<Part>, p: Parent) {
    p.Some? ==> p.value < |parts|
  }

  /** Filling twice is filling once. */
  lemma FillTwiceIsOnce(parts: seq<Part>, len: nat, p: Parent, d: Disposition, d': Disposition)
    requires ForwardChildren(parts, p) && Known(parts, p)
    ensures Filled(Filled(parts, len, p, d), len, p, d') == Filled(parts, len, p, d)
  {
    hide Filled, Holes, Covered, CleanLevel;
    ForwardLevelIsClean(parts, len, p);
    var full := Filled(parts, len, p, d);
    FilledParts(parts, len, p, d);
    HolesAreNonEmpty(parts, len, p);
    forall i | IsChild(full, p, i)
      ensures full[i].range.start <= full[i].range.end
    {
      if i < |parts| {
        assert IsChild(parts, p, i);
      }
    }
    ForwardLevelIsClean(full, len, p);
    assert Span(full, len, p) == Span(parts, len, p);
    if Span(full, len, p).Some? {
      forall x | Span(full, len, p).value.Has(x)
        ensures Covered(full, p, x)
      {
        FillCovers(parts, len, p, d, x);
      }
    }
    NoHolesWhenCovered(full, len, p);
    NothingToFill(full, len, p, d');
  }

  lemma NothingToFill(parts: seq<Part>, len: nat, p: Parent, d: Disposition)
    requires Holes(parts, len, p) == []
    ensures Filled(parts, len, p, d) == parts
  {
    assert GapParts(p, Holes(parts, len, p), d) == [];
  }

  // ----- filling every level makes a sound tree valid -----

  ghost predicate LevelSound(parts: seq<Part>, len: nat, p: Parent) {
    && SiblingsDisjoint(parts, p)
    && (Span(parts, len, p).Some? ==> InSpan(parts, p, Span(parts, len, p).value))
  }

  /** Nested, non-empty, sibling-disjoint, with children inside declared bodies; holes allowed. */
  ghost predicate Sound(parts: seq<Part>, len: nat) {
    && (forall i :: 0 <= i < |parts| ==> PartOk(parts, len, i))
    && LevelSound(parts, len, None)
    && (forall i :: 0 <= i < |parts| ==> LevelSound(parts, len, Some(i)))
  }

  lemma SoundLevelIsClean(parts: seq<Part>, len: nat, p: Parent)
    requires Sound(parts, len)
    ensures CleanLevel(parts, len, p)
  {
    forall i | IsChild(parts, p, i)
      ensures parts[i].range.start <= parts[i].range.end
    {
      assert PartOk(parts, len, i);
    }
    ForwardLevelIsClean(parts, len, p);
  }

  lemma GapIsOk(parts: seq<Part>, len: nat, p: Parent, d: Disposition, i: nat)
    requires Sound(parts, len) && Known(parts, p) && i < |Filled(parts, len, p, d)|
    ensures PartOk(Filled(parts, len, p, d), len, i)
  {
    hide Filled, Holes, CleanLevel;
    FilledParts(parts, len, p, d);
    if i < |parts| {
      assert PartOk(parts, len, i);
    } else {
      SoundLevelIsClean(parts, len, p);
      HolesAreNonEmpty(parts, len, p);
      HoleFacts(parts, len, p, i - |parts|);
      if p.Some? {
        assert PartOk(parts, len, p.value);
      }
    }
  }

  lemma FilledSiblings(parts: seq<Part>, len: nat, p: Parent, d: Disposition, q: Parent, i: int, j: int)
    requires Sound(parts, len) && Known(parts, p) && LevelSound(parts, len, q)
    requires IsChild(Filled(parts, len, p, d), q, i) && IsChild(Filled(parts, len, p, d), q, j) && i < j
    ensures Disjoint(Filled(parts, len, p, d)[i].range, Filled(parts, len, p, d)[j].range)
  {
    hide Filled, Holes, CleanLevel, Covered;
    FilledParts(parts, len, p, d);
    if j < |parts| {
      assert IsChild(parts, q, i) && IsChild(parts, q, j);
    } else {
      SoundLevelIsClean(parts, len, p);
      HoleFacts(parts, len, p, j - |parts|);
      if i < |parts| {
        assert IsChild(parts, p, i);
        forall x | parts[i].range.Has(x)
          ensures Covered(parts, p, x)
        {
          GapCovers(parts, p, i, x);
        }
      }
    }
  }

  lemma FilledLevel(parts: seq<Part>, len: nat, p: Parent, d: Disposition, q: Parent)
    requires Sound(parts, len) && Known(parts, p) && Known(Filled(parts, len, p, d), q)
    ensures LevelSound(Filled(parts, len, p, d), len, q)
  {
    hide Filled, Holes, CleanLevel;
    var full := Filled(parts, len, p, d);
    FilledParts(parts, len, p, d);
    if Known(parts, q) {
      assert LevelSound(parts, len, q);
      forall i, j | IsChild(full, q, i) && IsChild(full, q, j) && i != j
        ensures Disjoint(full[i].range, full[j].range)
      {
        FilledSiblings(parts, len, p, d, q, Min(i, j), Max(i, j));
      }
      forall i | IsChild(full, q, i) && Span(full, len, q).Some?
        ensures Nested(full[i].range, Span(full, len, q).value)
      {
        if i < |parts| {
          assert IsChild(parts, q, i);
        } else {
          SoundLevelIsClean(parts, len, p);
          HoleFacts(parts, len, p, i - |parts|);
        }
      }
    } else {
      forall i | 0 <= i < |full|
        ensures !IsChild(full, q, i)
      {
        if i < |parts| {
          assert PartOk(parts, len, i);
        }
      }
    }
  }

  /** Filling one level keeps the tree sound, tiles that level and leaves the others tiled. */
  lemma FillKeepsSound(parts: seq<Part>, len: nat, p: Parent, d: Disposition)
    requires Sound(parts, len) && Known(parts, p)
    ensures Sound(Filled(parts, len, p, d), len)
  {
    hide Filled, PartOk, LevelSound;
    forall i | 0 <= i < |Filled(parts, len, p, d)|
      ensures PartOk(Filled(parts, len, p, d), len, i) && LevelSound(Filled(parts, len, p, d), len, Some(i))
    {
      GapIsOk(parts, len, p, d, i);
      FilledLevel(parts, len, p, d, Some(i));
    }
    FilledLevel(parts, len, p, d, None);
  }

  ghost predicate FullyCovered(parts: seq<Part>, len: nat, p: Parent) {
    Span(parts, len, p).Some? ==> forall x :: Span(parts, len, p).value.Has(x) ==> Covered(parts, p, x)
  }

  lemma FillCoversLevel(parts: seq<Part>, len: nat, p: Parent, d: Disposition, q: Parent)
    requires Sound(parts, len) && Known(parts, p) && Known(parts, q)
    requires q == p || FullyCovered(parts, len, q)
    ensures FullyCovered(Filled(parts, len, p, d), len, q)
  {
    hide Filled, Covered;
    FilledParts(parts, len, p, d);
    assert Span(Filled(parts, len, p, d), len, q) == Span(parts, len, q);
    SoundLevelIsClean(parts, len, p);
    if Span(parts, len, q).Some? {
      forall x | Span(parts, len, q).value.Has(x)
        ensures Covered(Filled(parts, len, p, d), q, x)
      {
        if q == p {
          FillCovers(parts, len, p, d, x);
        } else {
          CoveredStays(parts, len, p, d, q, x);
        }
      }
    }
  }

  /** `fill_gaps` on each of `ps` in turn. */
  function FillAll(parts: seq<Part>, len: nat, ps: seq<Parent>, d: Disposition): seq<Part>
    decreases |ps|
  {
    if ps == [] then parts else FillAll(Filled(parts, len, ps[0], d), len, ps[1..], d)
  }

  lemma {:induction false} FillAllExtends(parts: seq<Part>, len: nat, ps: seq<Parent>, d: Disposition)
    ensures |parts| <= |FillAll(parts, len, ps, d)|
    ensures forall i :: 0 <= i < |parts| ==> FillAll(parts, len, ps, d)[i] == parts[i]
    ensures forall i :: |parts| <= i < |FillAll(parts, len, ps, d)| ==> FillAll(parts, len, ps, d)[i].body == None
    decreases |ps|
  {
    hide Filled;
    if ps != [] {
      FilledParts(parts, len, ps[0], d);
      FillAllExtends(Filled(parts, len, ps[0], d), len, ps[1..], d);
    }
  }

  lemma {:induction false} FillAllKeeps(parts: seq<Part>, len: nat, ps: seq<Parent>, d: Disposition, q: Parent)
    requires Sound(parts, len) && Known(parts, q)
    requires forall k :: 0 <= k < |ps| ==> Known(parts, ps[k])
    requires q in ps || FullyCovered(parts, len, q)
    ensures Sound(FillAll(parts, len, ps, d), len)
    ensures FullyCovered(FillAll(parts, len, ps, d), len, q)
    decreases |ps|
  {
    hide Filled, Sound, FullyCovered;
    if ps != [] {
      FilledParts(parts, len, ps[0], d);
      FillKeepsSound(parts, len, ps[0], d);
      if q == ps[0] || FullyCovered(parts, len, q) {
        FillCoversLevel(parts, len, ps[0], d, q);
      }
      FillAllKeeps(Filled(parts, len, ps[0], d), len, ps[1..], d, q);
    }
  }

  /**
   Once the top level and every declared body have been filled, in any order and with any
   repetition, the tree is valid exactly when it was sound to begin with.
   */
  lemma FilledTreeIsValid(parts: seq<Part>, len: nat, ps: seq<Parent>, d: Disposition)
    requires forall k :: 0 <= k < |ps| ==> Known(parts, ps[k])
    requires None in ps && forall i :: 0 <= i < |parts| && parts[i].body.Some? ==> Some(i) in ps
    ensures Coverage(FillAll(parts, len, ps, d), len) <==> Sound(parts, len)
  {
    hide FillAll, FullyCovered, PartOk, LevelSound, LevelOk;
    var full := FillAll(parts, len, ps, d);
    FillAllExtends(parts, len, ps, d);
    if Sound(parts, len) {
      FillAllKeeps(parts, len, ps, d, None);
      SoundAndFull(full, len, None);
      forall i | 0 <= i < |full|
        ensures LevelOk(full, len, Some(i))
      {
        if i < |parts| && parts[i].body.Some? {
          FillAllKeeps(parts, len, ps, d, Some(i));
        } else {
          NoBodyIsFull(full, len, i);
        }
        SoundAndFull(full, len, Some(i));
      }
    }
    if Coverage(full, len) {
      PrefixIsSound(parts, full, len);
    }
  }

  /** Coverage of a longer list makes the parts it started from sound. */
  lemma PrefixIsSound(parts: seq<Part>, full: seq<Part>, len: nat)
    requires |parts| <= |full| && forall i :: 0 <= i < |parts| ==> full[i] == parts[i]
    requires Coverage(full, len)
    ensures Sound(parts, len)
  {
    forall i | 0 <= i < |parts|
      ensures PartOk(parts, len, i)
    {
      assert PartOk(full, len, i);
    }
    forall p: Parent | Known(parts, p)
      ensures LevelSound(parts, len, p)
    {
      assert LevelOk(full, len, p);
      assert Span(full, len, p) == Span(parts, len, p);
      forall i | IsChild(parts, p, i)
        ensures IsChild(full, p, i)
      {
      }
    }
    assert Known(parts, None);
    forall i | 0 <= i < |parts|
      ensures LevelSound(parts, len, Some(i))
    {
      assert Known(parts, Some(i));
    }
  }

  lemma NoBodyIsFull(parts: seq<Part>, len: nat, i: nat)
    requires i < |parts| && parts[i].body == None
    ensures FullyCovered(parts, len, Some(i))
  {
  }

  lemma SoundAndFull(parts: seq<Part>, len: nat, p: Parent)
    requires LevelSound(parts, len, p) && FullyCovered(parts, len, p)
    ensures LevelOk(parts, len, p)
  {
  }

  /** With coverage, each byte of the input is in exactly one top-level part, each byte of a body in exactly one child. */
  lemma OnePartPerByte(parts: seq<Part>, len: nat, p: Parent, x: nat)
    requires Coverage(parts, len) && Wanted(parts, len, p, x)
    ensures exists i :: IsChild(parts, p, i) && parts[i].range.Has(x)
                        && forall j :: IsChild(parts, p, j) && parts[j].range.Has(x) ==> j == i
  {
    hide PartOk;
    WantedIsSpan(parts, len, p);
    assert LevelOk(parts, len, p);
    assert Covered(parts, p, x);
    var i :| IsChild(parts, p, i) && parts[i].range.Has(x);
    forall j | IsChild(parts, p, j) && j != i
      ensures !parts[j].range.Has(x)
    {
      assert Disjoint(parts[i].range, parts[j].range);
    }
  }

  /** And nothing else: parts are inside the input, children inside their parent, inside its body where it has one. */
  lemma ChildrenInside(parts: seq<Part>, len: nat, i: nat)
    requires Coverage(parts, len) && i < |parts|
    ensures parts[i].range.start < parts[i].range.end <= len
    ensures parts[i].parent.Some? ==>
              var q := parts[i].parent.value;
              && q < i && Nested(parts[i].range, parts[q].range)
              && (parts[q].body.Some? ==> Nested(parts[i].range, parts[q].body.value))
  {
    assert PartOk(parts, len, i);
    if parts[i].parent.Some? {
      assert LevelOk(parts, len, parts[i].parent);
      assert IsChild(parts, parts[i].parent, i);
    }
  }

  // ----- conservation of leaf bytes -----

  function Len(part: Part): nat {
    part.range.Len()
  }

  /** Total length of the parts below n recorded under p. */
  function ChildTotal(parts: seq<Part>, p: Parent, n: nat): nat
    requires n <= |parts|
  {
    if n == 0 then 0
    else ChildTotal(parts, p, n - 1) + if parts[n - 1].parent == p then Len(parts[n - 1]) else 0
  }

  function AllTotal(parts: seq<Part>, n: nat): nat
    requires n <= |parts|
  {
    if n == 0 then 0 else AllTotal(parts, n - 1) + Len(parts[n - 1])
  }

  /** Total over the first m parents of what the parts below n contribute to them. */
  function ByParent(parts: seq<Part>, m: nat, n: nat): nat
    requires n <= |parts|
  {
    if m == 0 then 0 else ByParent(parts, m - 1, n) + ChildTotal(parts, Some(m - 1), n)
  }

  predicate IsLeaf(parts: seq<Part>, i: nat) {
    Latest(parts, Some(i), |parts|) == None
  }

  function LeafTotal(parts: seq<Part>, n: nat): nat
    requires n <= |parts|
  {
    if n == 0 then 0
    else LeafTotal(parts, n - 1) + if IsLeaf(parts, n - 1) then Len(parts[n - 1]) else 0
  }

  /** Bytes of a part that none of its children hold: header and trailer around a body, or holes. */
  function Slack(parts: seq<Part>, i: nat): int
    requires i < |parts|
  {
    Len(parts[i]) - ChildTotal(parts, Some(i), |parts|)
  }

  function SlackTotal(parts: seq<Part>, n: nat): int
    requires n <= |parts|
  {
    if n == 0 then 0
    else SlackTotal(parts, n - 1) + if IsLeaf(parts, n - 1) then 0 else Slack(parts, n - 1)
  }

  lemma {:induction false} ByParentStep(parts: seq<Part>, m: nat, n: nat)
    requires 0 < n <= |parts|
    ensures ByParent(parts, m, n) == ByParent(parts, m, n - 1)
            + if parts[n - 1].parent.Some? && parts[n - 1].parent.value < m then Len(parts[n - 1]) else 0
  {
    if m != 0 {
      ByParentStep(parts, m - 1, n);
    }
  }

  /** Every part is counted under its one parent: summing by parent or by id is the same. */
  lemma {:induction false} SumByParent(parts: seq<Part>, m: nat, n: nat)
    requires ParentsEarlier(parts) && n <= |parts| && n <= m
    ensures AllTotal(parts, n) == ChildTotal(parts, None, n) + ByParent(parts, m, n)
  {
    if n == 0 {
      ByParentZero(parts, m);
    } else {
      SumByParent(parts, m, n - 1);
      ByParentStep(parts, m, n);
    }
  }

  lemma {:induction false} ByParentZero(parts: seq<Part>, m: nat)
    ensures ByParent(parts, m, 0) == 0
  {
    if m != 0 {
      ByParentZero(parts, m - 1);
    }
  }

  lemma {:induction false} LeafHasNoChildren(parts: seq<Part>, p: Parent, n: nat)
    requires n <= |parts| && Latest(parts, p, n) == None
    ensures ChildTotal(parts, p, n) == 0
  {
    if n != 0 {
      LeafHasNoChildren(parts, p, n - 1);
    }
  }

  lemma {:induction false} LeavesAndSlack(parts: seq<Part>, m: nat)
    requires m <= |parts|
    ensures AllTotal(parts, m) - ByParent(parts, m, |parts|) == LeafTotal(parts, m) + SlackTotal(parts, m)
  {
    if m != 0 {
      LeavesAndSlack(parts, m - 1);
      if IsLeaf(parts, m - 1) {
        LeafHasNoChildren(parts, Some(m - 1), |parts|);
      }
    }
  }

  function ChildRanges(parts: seq<Part>, ids: seq<nat>): seq<Range>
    requires ValidIds(parts, ids)
  {
    seq(|ids|, k requires 0 <= k < |ids| => parts[ids[k]].range)
  }

  lemma {:induction false} ChildTotalIsLength(parts: seq<Part>, p: Parent, n: nat)
    requires n <= |parts|
    ensures TotalLen(ChildRanges(parts, Siblings(parts, p, n))) == ChildTotal(parts, p, n)
  {
    hide TotalLen, ChildRanges;
    if n == 0 {
      NoRanges(parts);
    } else {
      ChildTotalIsLength(parts, p, n - 1);
      if parts[n - 1].parent == p {
        PrependRange(parts, n - 1, Siblings(parts, p, n - 1));
      }
    }
  }

  lemma NoRanges(parts: seq<Part>)
    ensures TotalLen(ChildRanges(parts, [])) == 0
  {
  }

  lemma PrependRange(parts: seq<Part>, i: nat, rest: seq<nat>)
    requires i < |parts| && ValidIds(parts, rest)
    ensures TotalLen(ChildRanges(parts, [i] + rest)) == Len(parts[i]) + TotalLen(ChildRanges(parts, rest))
  {
    assert ChildRanges(parts, [i] + rest)[1..] == ChildRanges(parts, rest);
  }

  /** Disjoint children inside a span take at most its bytes; tiling it, exactly its bytes. */
  lemma ChildTotalInSpan(parts: seq<Part>, p: Parent, span: Range)
    requires SiblingsDisjoint(parts, p)
    requires forall i, x :: IsChild(parts, p, i) && parts[i].range.Has(x) ==> span.Has(x)
    ensures ChildTotal(parts, p, |parts|) <= span.Len()
    ensures (forall x :: span.Has(x) ==> Covered(parts, p, x)) ==> ChildTotal(parts, p, |parts|) == span.Len()
  {
    var ids := Siblings(parts, p, |parts|);
    var rs := ChildRanges(parts, ids);
    ChildTotalIsLength(parts, p, |parts|);
    forall j, k | 0 <= j < k < |rs|
      ensures Disjoint(rs[j], rs[k])
    {
      assert IsChild(parts, p, ids[j]) && IsChild(parts, p, ids[k]);
    }
    forall k, x | 0 <= k < |rs| && rs[k].Has(x)
      ensures span.Has(x)
    {
      assert IsChild(parts, p, ids[k]);
    }
    DisjointInSpan(rs, span);
    forall x | Covered(parts, p, x)
      ensures Covers(rs, x)
    {
      var i :| IsChild(parts, p, i) && parts[i].range.Has(x);
      var k :| 0 <= k < |ids| && ids[k] == i;
      assert rs[k].Has(x);
    }
  }

  lemma SlackOfPart(parts: seq<Part>, len: nat, i: nat)
    requires Coverage(parts, len) && i < |parts|
    ensures Slack(parts, i) >= 0
    ensures parts[i].body.Some? ==> Slack(parts, i) == parts[i].range.Len() - parts[i].body.value.Len()
  {
    assert PartOk(parts, len, i) && LevelOk(parts, len, Some(i));
    forall j, x | IsChild(parts, Some(i), j) && parts[j].range.Has(x)
      ensures parts[i].range.Has(x)
    {
      assert PartOk(parts, len, j);
    }
    ChildTotalInSpan(parts, Some(i), parts[i].range);
    if parts[i].body.Some? {
      ChildTotalInSpan(parts, Some(i), parts[i].body.value);
    }
  }

  /**
   Leaf bytes are conserved: in a valid inventory the leaves and the slack of the other parts add
   up to the input length. The slack of a part with a body is its range less its body.
   */
  lemma LeafBytesConserved(parts: seq<Part>, len: nat)
    requires Coverage(parts, len)
    ensures LeafTotal(parts, |parts|) + SlackTotal(parts, |parts|) == len
    ensures 0 <= SlackTotal(parts, |parts|)
    ensures forall i :: 0 <= i < |parts| && parts[i].body.Some? ==>
              Slack(parts, i) == parts[i].range.Len() - parts[i].body.value.Len()
  {
    forall i | 0 <= i < |parts|
      ensures Slack(parts, i) >= 0
      ensures parts[i].body.Some? ==> Slack(parts, i) == parts[i].range.Len() - parts[i].body.value.Len()
      ensures parts[i].parent.Some? ==> parts[i].parent.value < i
    {
      SlackOfPart(parts, len, i);
      assert PartOk(parts, len, i);
    }
    assert LevelOk(parts, len, None);
    forall j, x | IsChild(parts, None, j) && parts[j].range.Has(x)
      ensures Range(0, len).Has(x)
    {
      assert PartOk(parts, len, j);
    }
    ChildTotalInSpan(parts, None, Range(0, len));
    SumByParent(parts, |parts|, |parts|);
    LeavesAndSlack(parts, |parts|);
    SlackNonnegative(parts, |parts|);
  }

  lemma {:induction false} SlackNonnegative(parts: seq<Part>, n: nat)
    requires n <= |parts| && forall i :: 0 <= i < |parts| ==> Slack(parts, i) >= 0
    ensures SlackTotal(parts, n) >= 0
  {
    if n != 0 {
      SlackNonnegative(parts, n - 1);
    }
  }
}
