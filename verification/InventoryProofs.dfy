/** Lemmas that connect the loops over the inventory's arrays to the part list. */
module InventoryProofs {
  import opened Words
  import opened Ranges
  import opened InventoryModel
  import opened InventoryLaws

  /** End of a sibling list. */
  const NONE: U32 := U32_MAX

  /** A link stores the latest part of a list, or the sentinel. */
  function Link(latest: Option<nat>): int {
    match latest
    case None => NONE
    case Some(i) => i
  }

  /** The link arrays hold exactly the sibling lists of the part list. */
  ghost predicate LinksOk(parts: seq<Part>, firstChild: seq<U32>, nextSibling: seq<U32>, firstTop: U32) {
    && |firstChild| == |nextSibling| == |parts| <= U32_MAX
    && ParentsEarlier(parts)
    && firstTop == Link(Latest(parts, None, |parts|))
    && FirstLinks(parts, firstChild)
    && NextLinks(parts, nextSibling)
  }

  ghost predicate FirstLinks(parts: seq<Part>, firstChild: seq<U32>)
    requires |firstChild| == |parts|
  {
    forall i :: 0 <= i < |parts| ==> firstChild[i] == Link(Latest(parts, Some(i), |parts|))
  }

  ghost predicate NextLinks(parts: seq<Part>, nextSibling: seq<U32>)
    requires |nextSibling| == |parts|
  {
    forall i :: 0 <= i < |parts| ==> nextSibling[i] == Link(Latest(parts, parts[i].parent, i))
  }

  /** The ids met by following next-sibling links from `head` to the sentinel. */
  ghost function Follow(nextSibling: seq<U32>, head: U32): seq<nat>
    decreases head
  {
    if head == NONE || head >= |nextSibling| then []
    else [head] + if nextSibling[head] == NONE || nextSibling[head] >= head then [] else Follow(nextSibling, nextSibling[head])
  }

  /** From the latest part of a list, the links visit the whole list and end at the sentinel. */
  lemma {:induction false} FollowIsSiblings(parts: seq<Part>, nextSibling: seq<U32>, p: Parent, n: nat)
    requires |nextSibling| == |parts| <= NONE && NextLinks(parts, nextSibling) && n <= |parts|
    ensures Follow(nextSibling, Link(Latest(parts, p, n))) == Siblings(parts, p, n)
    decreases n
  {
    hide Latest, Siblings, NextLinks;
    SiblingsFromLatest(parts, p, n);
    if Latest(parts, p, n).Some? {
      var i := Latest(parts, p, n).value;
      NextLinkAt(parts, nextSibling, i);
      FollowIsSiblings(parts, nextSibling, p, i);
    }
  }

  lemma NextLinkAt(parts: seq<Part>, nextSibling: seq<U32>, i: nat)
    requires |nextSibling| == |parts| && NextLinks(parts, nextSibling) && i < |parts|
    ensures nextSibling[i] == Link(Latest(parts, parts[i].parent, i))
  {
  }

  /**
   The intrusive lists represent the tree: each chain has strictly decreasing ids, none of them the
   sentinel, and holds exactly the parts recorded under its parent.
   */
  lemma ListsRepresentTree(parts: seq<Part>, firstChild: seq<U32>, nextSibling: seq<U32>, firstTop: U32, p: Parent)
    requires LinksOk(parts, firstChild, nextSibling, firstTop)
    requires p.Some? ==> p.value < |parts|
    ensures var chain := Follow(nextSibling, if p.Some? then firstChild[p.value] else firstTop);
            && (forall j, k :: 0 <= j < k < |chain| ==> chain[j] > chain[k])
            && (forall k :: 0 <= k < |chain| ==> chain[k] < NONE)
            && (forall i :: i in chain <==> 0 <= i < |parts| && parts[i].parent == p)
  {
    FollowIsSiblings(parts, nextSibling, p, |parts|);
    var chain := Siblings(parts, p, |parts|);
    forall i | i in chain
      ensures 0 <= i < |parts| && parts[i].parent == p
    {
    }
  }

  lemma LatestOfNew(parts: seq<Part>, part: Part, p: Parent)
    ensures Latest(parts + [part], p, |parts| + 1)
            == if part.parent == p then Some(|parts|) else Latest(parts, p, |parts|)
  {
    LatestExtends(parts, [part], p, |parts|);
    assert (parts + [part])[|parts|] == part;
  }

  /** Relinking for a push: the new part heads its parent's list and points at the old head. */
  lemma PushLinks(parts: seq<Part>, firstChild: seq<U32>, nextSibling: seq<U32>, firstTop: U32, part: Part)
    requires LinksOk(parts, firstChild, nextSibling, firstTop) && |parts| < U32_MAX
    requires part.parent.Some? ==> part.parent.value < |parts|
    ensures var id := |parts|;
            var next := if part.parent.Some? then firstChild[part.parent.value] else firstTop;
            LinksOk(parts + [part],
                    (if part.parent.Some? then firstChild[part.parent.value := id] else firstChild) + [NONE],
                    nextSibling + [next],
                    if part.parent.Some? then firstTop else id)
  {
    hide Latest, FirstLinks, NextLinks;
    LatestOfNew(parts, part, None);
    PushFirstLinks(parts, firstChild, part);
    var next := if part.parent.Some? then firstChild[part.parent.value] else firstTop;
    if part.parent.Some? {
      FirstLinkAt(parts, firstChild, part.parent.value);
    }
    PushNextLinks(parts, nextSibling, part, next);
  }

  lemma FirstLinkAt(parts: seq<Part>, firstChild: seq<U32>, i: nat)
    requires |firstChild| == |parts| && FirstLinks(parts, firstChild) && i < |parts|
    ensures firstChild[i] == Link(Latest(parts, Some(i), |parts|))
  {
  }

  lemma PushFirstLinks(parts: seq<Part>, firstChild: seq<U32>, part: Part)
    requires |firstChild| == |parts| < U32_MAX && FirstLinks(parts, firstChild) && ParentsEarlier(parts)
    requires part.parent.Some? ==> part.parent.value < |parts|
    ensures FirstLinks(parts + [part],
                       (if part.parent.Some? then firstChild[part.parent.value := |parts|] else firstChild) + [NONE])
  {
    hide Latest;
    var all := parts + [part];
    NoChildrenYet(parts, Some(|parts|), |parts|);
    var first := (if part.parent.Some? then firstChild[part.parent.value := |parts|] else firstChild) + [NONE];
    forall i | 0 <= i < |all|
      ensures first[i] == Link(Latest(all, Some(i), |all|))
    {
      LatestOfNew(parts, part, Some(i));
    }
  }

  lemma PushNextLinks(parts: seq<Part>, nextSibling: seq<U32>, part: Part, next: U32)
    requires |nextSibling| == |parts| && NextLinks(parts, nextSibling)
    requires next == Link(Latest(parts, part.parent, |parts|))
    ensures NextLinks(parts + [part], nextSibling + [next])
  {
    hide Latest;
    var all := parts + [part];
    forall i | 0 <= i < |all|
      ensures (nextSibling + [next])[i] == Link(Latest(all, all[i].parent, i))
    {
      LatestExtends(parts, [part], all[i].parent, i);
    }
  }

  /** Nothing is recorded under an id that does not exist yet. */
  lemma {:induction false} NoChildrenYet(parts: seq<Part>, p: Parent, n: nat)
    requires ParentsEarlier(parts) && n <= |parts| && p.Some? && p.value >= |parts|
    ensures Latest(parts, p, n) == None && Siblings(parts, p, n) == []
  {
    if n != 0 {
      NoChildrenYet(parts, p, n - 1);
    }
  }

  lemma GapPartsHead(p: Parent, hole: Range, rest: seq<Range>, d: Disposition)
    ensures GapParts(p, [hole] + rest, d) == [Part(p, Gap, hole, None, d)] + GapParts(p, rest, d)
  {
  }

  lemma ChildOf(parts: seq<Part>, p: Parent, k: nat)
    requires k < |Children(parts, p)|
    ensures IsChild(parts, p, Children(parts, p)[k])
  {
    hide Children;
    ChildrenAreSorted(parts, p);
    assert Children(parts, p)[k] in Children(parts, p);
  }

  /** With disjoint sorted siblings, no byte between one sibling's end and the next one's start is covered. */
  lemma NothingBetween(parts: seq<Part>, p: Parent, k: nat, cursor: nat, x: int)
    requires NonEmptyIds(parts, Children(parts, p)) && NeighboursApart(parts, Children(parts, p))
    requires k <= |Children(parts, p)| && (k > 0 ==> cursor == parts[Children(parts, p)[k - 1]].range.end)
    requires cursor <= x && (k < |Children(parts, p)| ==> x < parts[Children(parts, p)[k]].range.start)
    ensures !Covered(parts, p, x)
  {
    hide Children;
    var ids := Children(parts, p);
    CoveredByChildren(parts, p, x);
    forall j | 0 <= j < |ids|
      ensures !parts[ids[j]].range.Has(x)
    {
      if j + 1 < k {
        NeighboursSeparateAll(parts, ids, j, k - 1);
      } else if j > k {
        NeighboursSeparateAll(parts, ids, k, j);
      }
    }
  }

  /** The checks `check_level` makes for one level, put together. */
  lemma LevelTiled(parts: seq<Part>, len: nat, p: Parent, s: Range, cursor: nat)
    requires Span(parts, len, p) == Some(s) && SiblingsDisjoint(parts, p) && cursor >= s.end
    requires forall j :: 0 <= j < |Children(parts, p)| ==> Nested(parts[Children(parts, p)[j]].range, s)
    requires forall x :: s.start <= x < cursor ==> CoveredBy(parts, Children(parts, p), x)
    ensures LevelOk(parts, len, p)
  {
    hide Children;
    ChildrenAreSorted(parts, p);
    forall i | IsChild(parts, p, i)
      ensures Nested(parts[i].range, s)
    {
      assert i in Children(parts, p);
    }
    forall x | s.Has(x)
      ensures Covered(parts, p, x)
    {
      assert CoveredBy(parts, Children(parts, p), x);
      CoveredByChildren(parts, p, x);
    }
  }

  lemma AllNonEmpty(parts: seq<Part>, len: nat, p: Parent)
    requires forall i :: 0 <= i < |parts| ==> PartOk(parts, len, i)
    ensures NonEmptyIds(parts, Children(parts, p))
  {
    hide Children;
    forall k | 0 <= k < |Children(parts, p)|
      ensures parts[Children(parts, p)[k]].range.start < parts[Children(parts, p)[k]].range.end
    {
      assert PartOk(parts, len, Children(parts, p)[k]);
    }
  }

  lemma {:induction false} NoLatestNoChild(parts: seq<Part>, p: Parent, n: nat)
    requires n <= |parts| && Latest(parts, p, n) == None
    ensures forall i :: 0 <= i < n ==> parts[i].parent != p
  {
    if n != 0 {
      NoLatestNoChild(parts, p, n - 1);
    }
  }

  lemma NoChildrenLevel(parts: seq<Part>, len: nat, i: nat)
    requires i < |parts| && IsLeaf(parts, i) && parts[i].body == None
    ensures LevelOk(parts, len, Some(i))
  {
    NoLatestNoChild(parts, Some(i), |parts|);
  }

  /** The checks `validate` makes on one part alone, in its order. */
  function PartError(parts: seq<Part>, len: nat, i: nat): (error: Option<InventoryError>)
    requires ParentsEarlier(parts) && i < |parts|
    ensures error.None? <==> PartOk(parts, len, i)
    ensures error.Some? ==> ErrorHolds(parts, len, error.value)
  {
    var part := parts[i];
    if part.range.start >= part.range.end then Some(EmptyPart(i))
    else if part.range.end > len then Some(OutOfBounds(i))
    else if part.body.Some?
            && (part.body.value.start < part.range.start || part.body.value.end > part.range.end
                || part.body.value.start > part.body.value.end) then Some(OutsideParent(i))
    else if part.parent.Some?
            && (part.range.start < parts[part.parent.value].range.start
                || part.range.end > parts[part.parent.value].range.end) then
      // A parent is always an earlier part, so the source's BadParent branch is never taken.
      Some(OutsideParent(i))
    else None
  }

  lemma OverlapIsReal(parts: seq<Part>, len: nat, p: Parent, k: nat)
    requires NonEmptyIds(parts, Children(parts, p)) && k + 1 < |Children(parts, p)|
    requires parts[Children(parts, p)[k]].range.end > parts[Children(parts, p)[k + 1]].range.start
    ensures ErrorHolds(parts, len, Overlap(Children(parts, p)[k], Children(parts, p)[k + 1]))
    ensures !LevelOk(parts, len, p)
  {
    hide Children;
    NeighboursOverlap(parts, p, k);
  }

  lemma DisjointIsEnough(parts: seq<Part>, len: nat, p: Parent)
    requires Span(parts, len, p) == None
    ensures LevelOk(parts, len, p) <==> SiblingsDisjoint(parts, p)
  {
  }

  /** The first k siblings lie in the span and cover it up to the cursor. */
  ghost predicate TilesUpTo(parts: seq<Part>, ids: seq<nat>, s: Range, k: nat, cursor: nat) {
    && ValidIds(parts, ids) && k <= |ids|
    && (forall j :: 0 <= j < k ==> Nested(parts[ids[j]].range, s))
    && cursor == (if k == 0 then s.start else parts[ids[k - 1]].range.end)
    && (forall x :: s.start <= x < cursor ==> CoveredBy(parts, ids, x))
  }

  lemma TilesStep(parts: seq<Part>, ids: seq<nat>, s: Range, k: nat, cursor: nat)
    requires TilesUpTo(parts, ids, s, k, cursor) && k < |ids|
    requires Nested(parts[ids[k]].range, s) && parts[ids[k]].range.start <= cursor
    ensures TilesUpTo(parts, ids, s, k + 1, parts[ids[k]].range.end)
  {
    forall x | s.start <= x < parts[ids[k]].range.end
      ensures CoveredBy(parts, ids, x)
    {
      if x >= cursor {
        assert parts[ids[k]].range.Has(x);
      }
    }
  }

  /** A hole before sibling k, or after the last one, really is uncovered and breaks the level. */
  lemma HoleAt(parts: seq<Part>, len: nat, p: Parent, s: Range, k: nat, cursor: nat, hole: Range)
    requires NonEmptyIds(parts, Children(parts, p)) && NeighboursApart(parts, Children(parts, p))
    requires Span(parts, len, p) == Some(s) && TilesUpTo(parts, Children(parts, p), s, k, cursor)
    requires k <= |Children(parts, p)| && hole.start == cursor && hole.start < hole.end
    requires k < |Children(parts, p)| ==> hole.end == parts[Children(parts, p)[k]].range.start <= s.end
    requires k == |Children(parts, p)| ==> hole.end == s.end
    ensures ErrorHolds(parts, len, Uncovered(p, hole)) && !LevelOk(parts, len, p)
  {
    hide Children, Covered;
    forall x | hole.Has(x)
      ensures !Covered(parts, p, x)
    {
      NothingBetween(parts, p, k, cursor, x);
    }
    var ids := Children(parts, p);
    assert k > 0 ==> parts[ids[k - 1]].range.start < parts[ids[k - 1]].range.end && Nested(parts[ids[k - 1]].range, s);
    assert hole.Has(cursor) && s.Has(cursor);
  }

  lemma StrayChild(parts: seq<Part>, len: nat, p: Parent, i: nat)
    requires IsChild(parts, p, i) && Span(parts, len, p).Some? && !Nested(parts[i].range, Span(parts, len, p).value)
    ensures ErrorHolds(parts, len, OutsideParent(i)) && !LevelOk(parts, len, p)
  {
  }

  // ----- fill_gaps -----

  lemma NoSpanNoHoles(parts: seq<Part>, len: nat, p: Parent)
    requires Span(parts, len, p) == None
    ensures Holes(parts, len, p) == []
  {
  }

  /** One turn of the cursor loop moves one hole from the rest of the scan to the result. */
  lemma ScanStep(parts: seq<Part>, ids: seq<nat>, k: nat, cursor: nat, end: nat, holes: seq<Range>)
    requires ValidIds(parts, ids) && k < |ids|
    ensures var r := parts[ids[k]].range;
            holes + Scan(parts, ids[k..], cursor, end)
            == (if r.start > cursor then holes + [Range(cursor, Min(r.start, end))] else holes)
               + Scan(parts, ids[k + 1..], Max(cursor, r.end), end)
  {
    assert ids[k..][0] == ids[k] && ids[k..][1..] == ids[k + 1..];
  }

  lemma ScanEnd(parts: seq<Part>, ids: seq<nat>, cursor: nat, end: nat, holes: seq<Range>)
    requires ValidIds(parts, ids)
    ensures holes + Scan(parts, ids[|ids|..], cursor, end)
            == if cursor < end then holes + [Range(cursor, end)] else holes
  {
  }

  lemma FilledFrom(parts: seq<Part>, len: nat, p: Parent, d: Disposition, holes: seq<Range>)
    requires Span(parts, len, p).Some?
    requires holes == Scan(parts, Children(parts, p), Span(parts, len, p).value.start, Span(parts, len, p).value.end)
    ensures Holes(parts, len, p) == NonEmpty(holes) && holes[0..] == holes
    ensures Filled(parts, len, p, d) == parts + GapParts(p, NonEmpty(holes), d)
  {
  }

  /** One turn of the push loop moves one gap from the rest to the recorded parts. */
  lemma GapStep(parts: seq<Part>, p: Parent, holes: seq<Range>, k: nat, d: Disposition)
    requires k < |holes|
    ensures |NonEmpty(holes[k..])| == |NonEmpty(holes[k + 1..])| + if holes[k].start < holes[k].end then 1 else 0
    ensures parts + GapParts(p, NonEmpty(holes[k..]), d)
            == (if holes[k].start < holes[k].end then parts + [Part(p, Gap, holes[k], None, d)] else parts)
               + GapParts(p, NonEmpty(holes[k + 1..]), d)
  {
    assert holes[k..][0] == holes[k] && holes[k..][1..] == holes[k + 1..];
    GapPartsHead(p, holes[k], NonEmpty(holes[k + 1..]), d);
  }

  lemma GapEnd(parts: seq<Part>, p: Parent, holes: seq<Range>, d: Disposition)
    ensures parts + GapParts(p, NonEmpty(holes[|holes|..]), d) == parts
  {
  }

  // ----- following a sibling list -----

  /** What the list walk has collected, and what is left of the list. */
  ghost predicate FollowOk(parts: seq<Part>, p: Parent, rest: nat, out: seq<nat>) {
    && rest <= |parts| && ValidIds(parts, out)
    && out + Siblings(parts, p, rest) == Siblings(parts, p, |parts|)
  }

  lemma FollowStart(parts: seq<Part>, p: Parent)
    ensures FollowOk(parts, p, |parts|, [])
  {
    assert [] + Siblings(parts, p, |parts|) == Siblings(parts, p, |parts|);
  }

  lemma FollowStep(parts: seq<Part>, p: Parent, rest: nat, out: seq<nat>)
    requires FollowOk(parts, p, rest, out) && Link(Latest(parts, p, rest)) != NONE
    ensures var next := Link(Latest(parts, p, rest));
            && 0 <= next < rest && next < |parts| && parts[next].parent == p
            && FollowOk(parts, p, next, out + [next])
  {
    SiblingsFromLatest(parts, p, rest);
    var next := Latest(parts, p, rest).value;
    assert out + ([next] + Siblings(parts, p, next)) == (out + [next]) + Siblings(parts, p, next);
  }

  lemma FollowEnd(parts: seq<Part>, p: Parent, rest: nat, out: seq<nat>)
    requires |parts| <= NONE && FollowOk(parts, p, rest, out) && Link(Latest(parts, p, rest)) == NONE
    ensures ValidIds(parts, out) && SortIds(parts, out) == Children(parts, p)
  {
    SiblingsFromLatest(parts, p, rest);
    assert out + [] == out;
  }
}
