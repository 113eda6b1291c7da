/**
 The inventory as the source keeps it: three parallel arrays with intrusive first-child and
 next-sibling links, a sentinel, and the operations that walk and grow them (src/inventory.rs).
 Every operation is proved against the part list (`InventoryModel`, `InventoryLaws`).
 */
module InventoryStore {
  import opened Words
  import opened Ranges
  import opened InventoryModel
  import opened InventoryLaws
  import opened InventoryWalk
  import opened InventoryProofs

  datatype Line = Line(id: nat, depth: nat)

  function LineIds(lines: seq<Line>): seq<nat> {
    seq(|lines|, k requires 0 <= k < |lines| => lines[k].id)
  }

  datatype Total = Total(name: string, bytes: U64)

  function Sum(totals: seq<Total>): nat {
    if totals == [] then 0 else totals[0].bytes + Sum(totals[1..])
  }

  /** Leaf bytes below n recorded under a disposition name. */
  function NameTotal(parts: seq<Part>, name: string, n: nat): nat
    requires n <= |parts|
  {
    if n == 0 then 0
    else NameTotal(parts, name, n - 1)
         + if IsLeaf(parts, n - 1) && parts[n - 1].disposition.Name() == name then Len(parts[n - 1]) else 0
  }

  lemma {:induction false} SumUpdate(totals: seq<Total>, k: nat, bytes: U64)
    requires k < |totals|
    ensures Sum(totals[k := Total(totals[k].name, bytes)]) == Sum(totals) - totals[k].bytes + bytes
    ensures totals[k].bytes <= Sum(totals)
  {
    var next := totals[k := Total(totals[k].name, bytes)];
    if k == 0 {
      assert next[1..] == totals[1..];
    } else {
      SumUpdate(totals[1..], k - 1, bytes);
      assert next[1..] == totals[1..][k - 1 := Total(totals[k].name, bytes)];
    }
  }

  lemma {:induction false} SumAppend(totals: seq<Total>, t: Total)
    ensures Sum(totals + [t]) == Sum(totals) + t.bytes
  {
    if totals != [] {
      SumAppend(totals[1..], t);
      assert (totals + [t])[1..] == totals[1..] + [t];
    }
  }

  lemma ScanStart(parts: seq<Part>, ids: seq<nat>, span: Range)
    requires ValidIds(parts, ids)
    ensures [] + Scan(parts, ids[0..], span.start, span.end) == Scan(parts, ids, span.start, span.end)
  {
    assert ids[0..] == ids;
  }

  // ----- the display walk -----

  ghost predicate LinesOk(parts: seq<Part>, lines: seq<Line>)
    requires ParentsEarlier(parts)
  {
    forall k :: 0 <= k < |lines| ==> lines[k].id < |parts| && lines[k].depth == Depth(parts, lines[k].id)
  }

  /** The lines are the walk below p, each indented by its depth. */
  ghost predicate WalkDone(parts: seq<Part>, p: Parent, lines: seq<Line>)
    requires ParentsEarlier(parts)
  {
    LineIds(lines) == Preorder(parts, p) && LinesOk(parts, lines)
  }

  lemma ChildIsBelow(parts: seq<Part>, i: nat)
    requires ParentsEarlier(parts) && i < |parts|
    ensures Below(parts, Some(i)) < Below(parts, parts[i].parent)
  {
  }

  ghost predicate WalkIds(parts: seq<Part>, p: Parent, ids: seq<nat>) {
    forall k :: 0 <= k < |ids| ==> ids[k] < |parts| && parts[ids[k]].parent == p
  }

  /** After k children: the lines so far and the walk still to come make up the whole walk. */
  ghost predicate WalkOk(parts: seq<Part>, p: Parent, ids: seq<nat>, k: nat, lines: seq<Line>)
    requires ParentsEarlier(parts)
  {
    && k <= |ids| && WalkIds(parts, p, ids)
    && LineIds(lines) + PreorderOf(parts, p, ids[k..]) == Preorder(parts, p)
    && LinesOk(parts, lines)
  }

  lemma WalkStart(parts: seq<Part>, p: Parent)
    requires ParentsEarlier(parts)
    ensures WalkOk(parts, p, Children(parts, p), 0, [])
  {
    hide Children, Preorder, Depth;
    PreorderOfChildren(parts, p);
    assert LineIds([]) == [];
    assert [] + PreorderOf(parts, p, Children(parts, p)[0..]) == PreorderOf(parts, p, Children(parts, p)[0..]);
  }

  lemma PreorderOfChildren(parts: seq<Part>, p: Parent)
    requires ParentsEarlier(parts)
    ensures WalkIds(parts, p, Children(parts, p)) && Children(parts, p)[0..] == Children(parts, p)
    ensures Preorder(parts, p) == PreorderOf(parts, p, Children(parts, p))
  {
    hide Children;
    ChildrenAreSorted(parts, p);
    forall k | 0 <= k < |Children(parts, p)|
      ensures parts[Children(parts, p)[k]].parent == p
    {
      assert Children(parts, p)[k] in Children(parts, p);
    }
  }

  lemma WalkStep(parts: seq<Part>, p: Parent, ids: seq<nat>, k: nat, lines: seq<Line>, line: Line, sub: seq<Line>)
    requires ParentsEarlier(parts) && k < |ids| && WalkOk(parts, p, ids, k, lines)
    requires line.id == ids[k] && line.depth == Depth(parts, ids[k])
    requires WalkDone(parts, Some(ids[k]), sub)
    ensures WalkOk(parts, p, ids, k + 1, lines + [line] + sub)
  {
    hide Preorder, Depth;
    var rest := PreorderOf(parts, p, ids[k + 1..]);
    assert ids[k..][0] == ids[k] && ids[k..][1..] == ids[k + 1..];
    assert LineIds(lines + [line] + sub) == LineIds(lines) + [ids[k]] + LineIds(sub);
    Reassociate(LineIds(lines), [ids[k]], LineIds(sub), rest);
  }

  lemma Reassociate<T>(a: seq<T>, b: seq<T>, c: seq<T>, d: seq<T>)
    ensures a + (b + c + d) == (a + b + c) + d
  {
  }

  lemma WalkEnd(parts: seq<Part>, p: Parent, ids: seq<nat>, lines: seq<Line>)
    requires ParentsEarlier(parts) && WalkOk(parts, p, ids, |ids|, lines)
    ensures WalkDone(parts, p, lines)
  {
    hide Preorder;
    assert ids[|ids|..] == [];
    assert LineIds(lines) + [] == LineIds(lines);
  }

  lemma DepthOfChild(parts: seq<Part>, i: nat)
    requires ParentsEarlier(parts) && i < |parts|
    ensures Depth(parts, i) == if parts[i].parent.None? then 0 else Depth(parts, parts[i].parent.value) + 1
  {
  }

  // ----- leaf totals per disposition -----

  function Wrap(n: nat): U64 {
    n % (U64_MAX + 1)
  }

  /**
   The totals after the first n parts: one per name, each the name's leaf bytes modulo u64; when
   all leaf bytes together fit u64 their sum is exact.
   */
  ghost predicate TotalsOk(parts: seq<Part>, totals: seq<Total>, n: nat) {
    && n <= |parts|
    && (forall j, k :: 0 <= j < k < |totals| ==> totals[j].name != totals[k].name)
    && (forall k :: 0 <= k < |totals| ==> totals[k].bytes == Wrap(NameTotal(parts, totals[k].name, n)))
    && (forall name :: name !in Names(totals) ==> NameTotal(parts, name, n) == 0)
    && (LeafTotal(parts, n) <= U64_MAX ==> Sum(totals) == LeafTotal(parts, n))
  }

  function Names(totals: seq<Total>): seq<string> {
    seq(|totals|, k requires 0 <= k < |totals| => totals[k].name)
  }

  lemma NoTotals(parts: seq<Part>)
    ensures TotalsOk(parts, [], 0)
  {
  }

  lemma TotalsSkip(parts: seq<Part>, totals: seq<Total>, i: nat)
    requires i < |parts| && TotalsOk(parts, totals, i) && !IsLeaf(parts, i)
    ensures TotalsOk(parts, totals, i + 1)
  {
    forall name
      ensures NameTotal(parts, name, i + 1) == NameTotal(parts, name, i)
    {
    }
  }

  lemma TotalsAdd(parts: seq<Part>, totals: seq<Total>, i: nat, k: nat)
    requires i < |parts| && TotalsOk(parts, totals, i) && IsLeaf(parts, i)
    requires k < |totals| && totals[k].name == parts[i].disposition.Name()
    ensures TotalsOk(parts, totals[k := Total(totals[k].name, Wrap(totals[k].bytes + Len(parts[i])))], i + 1)
  {
    hide Wrap, IsLeaf, Sum;
    var name, bytes := totals[k].name, Wrap(totals[k].bytes + Len(parts[i]));
    var next := totals[k := Total(name, bytes)];
    forall other
      ensures NameTotal(parts, other, i + 1) == NameTotal(parts, other, i) + if other == name then Len(parts[i]) else 0
    {
    }
    WrapAdd(NameTotal(parts, name, i), Len(parts[i]));
    SumAfterAdd(totals, k, Len(parts[i]));
    assert Names(totals)[k] == name;
    assert Names(next) == Names(totals);
  }

  lemma SumAfterAdd(totals: seq<Total>, k: nat, bytes: nat)
    requires k < |totals|
    ensures Sum(totals) + bytes <= U64_MAX ==>
              Sum(totals[k := Total(totals[k].name, Wrap(totals[k].bytes + bytes))]) == Sum(totals) + bytes
  {
    hide Wrap;
    SumUpdate(totals, k, Wrap(totals[k].bytes + bytes));
    WrapSmall(totals[k].bytes + bytes);
  }

  lemma TotalsAppend(parts: seq<Part>, totals: seq<Total>, i: nat)
    requires i < |parts| && TotalsOk(parts, totals, i) && IsLeaf(parts, i)
    requires forall k :: 0 <= k < |totals| ==> totals[k].name != parts[i].disposition.Name()
    ensures TotalsOk(parts, totals + [Total(parts[i].disposition.Name(), Wrap(Len(parts[i])))], i + 1)
  {
    hide Wrap, IsLeaf;
    var name, t := parts[i].disposition.Name(), Total(parts[i].disposition.Name(), Wrap(Len(parts[i])));
    forall other
      ensures NameTotal(parts, other, i + 1) == NameTotal(parts, other, i) + if other == name then Len(parts[i]) else 0
    {
    }
    assert name !in Names(totals);
    assert Names(totals + [t]) == Names(totals) + [name];
    SumAppend(totals, t);
    WrapSmall(Len(parts[i]));
  }

  lemma WrapAdd(a: nat, b: nat)
    ensures Wrap(Wrap(a) + b) == Wrap(a + b)
  {
  }

  lemma WrapSmall(n: nat)
    ensures n <= U64_MAX ==> Wrap(n) == n
  {
  }

  lemma {:induction false} NameWithinLeaves(parts: seq<Part>, name: string, n: nat)
    requires n <= |parts|
    ensures NameTotal(parts, name, n) <= LeafTotal(parts, n)
  {
    if n > 0 {
      hide IsLeaf;
      NameWithinLeaves(parts, name, n - 1);
    }
  }

  /**
   In a valid inventory of a u64 length no total wraps: each is its name's exact leaf bytes, and all
   of them with the header slack add up to the input.
   */
  lemma ValidTotalsAreExact(parts: seq<Part>, totals: seq<Total>, len: U64)
    requires Coverage(parts, len) && TotalsOk(parts, totals, |parts|)
    ensures Sum(totals) + SlackTotal(parts, |parts|) == len && Sum(totals) <= len
    ensures forall k :: 0 <= k < |totals| ==> totals[k].bytes == NameTotal(parts, totals[k].name, |parts|)
  {
    hide Coverage, LeafTotal, SlackTotal, NameTotal, Wrap, Sum;
    LeafBytesConserved(parts, len);
    forall k | 0 <= k < |totals|
      ensures totals[k].bytes == NameTotal(parts, totals[k].name, |parts|)
    {
      NameWithinLeaves(parts, totals[k].name, |parts|);
      WrapSmall(NameTotal(parts, totals[k].name, |parts|));
    }
  }

  class Inventory {
    const len: U64
    var parts: seq<Part>
    var maxParts: U32
    /** By part id: the child pushed last, or the sentinel. */
    var firstChild: seq<U32>
    /** By part id: the sibling pushed before it, or the sentinel. */
    var nextSibling: seq<U32>
    var firstTop: U32

    ghost predicate Valid()
      reads this
    {
      LinksOk(parts, firstChild, nextSibling, firstTop)
    }

    constructor (len: U64)
      ensures Valid() && parts == [] && this.len == len && maxParts == 0x10_0000
    {
      this.len := len;
      parts, firstChild, nextSibling := [], [], [];
      maxParts := 0x10_0000;
      firstTop := NONE;
    }

    method WithMaxParts(maxParts: U32)
      requires Valid()
      modifies this`maxParts
      ensures Valid() && this.maxParts == maxParts
    {
      this.maxParts := maxParts;
    }

    /**
     Record a part. An error changes nothing; success appends one part under its parent and puts
     it at the head of that parent's list, with an id that is never the sentinel.
     */
    method Push(parent: Parent, part: Part) returns (r: Result<nat, InventoryError>)
      requires Valid()
      modifies this
      ensures Valid() && maxParts == old(maxParts)
      ensures r == if old(|parts|) >= maxParts then Err(TooManyParts(maxParts))
                   else if parent.Some? && parent.value >= old(|parts|) then Err(BadParent(old(|parts|)))
                   else Ok(old(|parts|))
      ensures r.Err? ==> unchanged(this)
      ensures r.Ok? ==> r.value < NONE && parts == old(parts) + [part.(parent := parent)]
    {
      if |parts| >= maxParts {
        return Err(TooManyParts(maxParts));
      }
      var id: U32 := |parts|;
      if parent.Some? && parent.value >= |parts| {
        return Err(BadParent(id));
      }
      PushLinks(parts, firstChild, nextSibling, firstTop, part.(parent := parent));
      var next;
      match parent {
        case Some(p) =>
          next := firstChild[p];
          firstChild := firstChild[p := id];
        case None =>
          next := firstTop;
          firstTop := id;
      }
      parts := parts + [part.(parent := parent)];
      firstChild := firstChild + [NONE];
      nextSibling := nextSibling + [next];
      return Ok(id);
    }

    method ReserveParts(additional: nat) returns (r: Result<(), InventoryError>)
      requires Valid()
      ensures r.Ok? <==> additional == 0 || |parts| + additional <= maxParts
      ensures r.Err? ==> r.error == TooManyParts(maxParts)
    {
      if additional > Max(maxParts - |parts|, 0) {
        return Err(TooManyParts(maxParts));
      }
      return Ok(());
    }

    /** Follow a sibling list to its sentinel, then sort by (start, id). */
    method TryChildren(parent: Parent) returns (out: seq<nat>)
      requires Valid()
      ensures out == Children(parts, parent)
    {
      hide Latest, FollowOk, LinksOk, Children;
      Heads(parent);
      FollowStart(parts, parent);
      out := [];
      var next;
      match parent {
        case None => next := firstTop;
        case Some(p) =>
          if p >= |firstChild| {
            return [];
          }
          next := firstChild[p];
      }
      ghost var rest: nat := |parts|;
      while next != NONE
        invariant FollowOk(parts, parent, rest, out)
        invariant next == Link(Latest(parts, parent, rest))
        decreases rest
      {
        FollowStep(parts, parent, rest, out);
        NextLink(next);
        out := out + [next];
        rest := next;
        next := nextSibling[next];
      }
      FollowEnd(parts, parent, rest, out);
      out := SortIds(parts, out);
    }

    lemma Heads(p: Parent)
      requires Valid()
      ensures |firstChild| == |parts| <= NONE
      ensures p.None? ==> firstTop == Link(Latest(parts, p, |parts|))
      ensures p.Some? && p.value < |parts| ==> firstChild[p.value] == Link(Latest(parts, p, |parts|))
      ensures p.Some? && p.value >= |parts| ==> Children(parts, p) == []
    {
      if p.Some? && p.value >= |parts| {
        NoChildrenYet(parts, p, |parts|);
      }
    }

    lemma NextLink(i: nat)
      requires Valid() && i < |parts|
      ensures i < |nextSibling| && nextSibling[i] == Link(Latest(parts, parts[i].parent, i))
    {
    }

    /**
     Append a gap part for each hole of the level, in file order. A cap failure changes nothing.
     */
    method FillGaps(parent: Parent, d: Disposition) returns (r: Result<(), InventoryError>)
      requires Valid()
      modifies this
      ensures Valid() && maxParts == old(maxParts)
      ensures r.Err? <==> |Holes(old(parts), len, parent)| > Max(maxParts - old(|parts|), 0)
      ensures r.Err? ==> r.error == TooManyParts(maxParts) && parts == old(parts) && firstChild == old(firstChild)
                         && nextSibling == old(nextSibling) && firstTop == old(firstTop)
      ensures r.Ok? ==> parts == Filled(old(parts), len, parent, d)
    {
      hide Filled, Scan, NonEmpty, GapParts, LinksOk, Children, Holes;
      ghost var before := parts;
      var span := Span(parts, len, parent);
      if span.None? {
        NoSpanNoHoles(parts, len, parent);
        NothingToFill(parts, len, parent, d);
        return Ok(());
      }
      var holes := FindHoles(parent, span.value);
      FilledFrom(before, len, parent, d, holes);
      var wanted := |NonEmpty(holes)|;
      var reserved := ReserveParts(wanted);
      if reserved.Err? {
        return reserved;
      }
      for k := 0 to |holes|
        invariant Valid() && maxParts == old(maxParts)
        invariant |before| <= |parts| && |parts| + |NonEmpty(holes[k..])| <= Max(maxParts, |parts|)
        invariant parts + GapParts(parent, NonEmpty(holes[k..]), d) == Filled(before, len, parent, d)
      {
        GapStep(parts, parent, holes, k, d);
        if holes[k].start < holes[k].end {
          var pushed := Push(parent, Part(None, Gap, holes[k], None, d));
          assert pushed.Ok?;
        }
      }
      GapEnd(parts, parent, holes, d);
      return Ok(());
    }

    /** The cursor loop of `fill_gaps`: every hole, empty ones included. */
    method FindHoles(parent: Parent, span: Range) returns (holes: seq<Range>)
      requires Valid() && Span(parts, len, parent) == Some(span)
      ensures holes == Scan(parts, Children(parts, parent), span.start, span.end)
    {
      hide Scan, Children, LinksOk;
      var ids := TryChildren(parent);
      holes := [];
      var cursor: nat := span.start;
      ScanStart(parts, ids, span);
      for k := 0 to |ids|
        invariant holes + Scan(parts, ids[k..], cursor, span.end) == Scan(parts, ids, span.start, span.end)
      {
        ScanStep(parts, ids, k, cursor, span.end, holes);
        var range := parts[ids[k]].range;
        if range.start > cursor {
          holes := holes + [Range(cursor, Min(range.start, span.end))];
        }
        cursor := Max(cursor, range.end);
      }
      ScanEnd(parts, ids, cursor, span.end, holes);
      if cursor < span.end {
        holes := holes + [Range(cursor, span.end)];
      }
    }

    /** One level: apart from each other, and without a hole where a span is given. */
    method CheckLevel(parent: Parent, ids: seq<nat>, span: Option<Range>) returns (r: Result<(), InventoryError>)
      requires Known(parts, parent)
      requires ids == Children(parts, parent) && NonEmptyIds(parts, ids) && span == Span(parts, len, parent)
      ensures r.Ok? <==> LevelOk(parts, len, parent)
      ensures r.Err? ==> ErrorHolds(parts, len, r.error)
    {
      hide Children, SiblingsDisjoint, ErrorHolds, LevelOk;
      SortedNeighboursDecide(parts, parent);
      for k := 0 to |ids| - (if |ids| == 0 then 0 else 1)
        invariant forall j :: 0 <= j < k ==> parts[ids[j]].range.end <= parts[ids[j + 1]].range.start
      {
        if parts[ids[k + 1]].range.start < parts[ids[k]].range.end {
          OverlapIsReal(parts, len, parent, k);
          return Err(Overlap(ids[k], ids[k + 1]));
        }
      }
      if span.None? {
        DisjointIsEnough(parts, len, parent);
        return Ok(());
      }
      r := CheckTiles(parent, ids, span.value);
    }

    /** The second half of `check_level`: disjoint sorted siblings must tile the span. */
    method CheckTiles(parent: Parent, ids: seq<nat>, s: Range) returns (r: Result<(), InventoryError>)
      requires ids == Children(parts, parent) && NonEmptyIds(parts, ids) && Span(parts, len, parent) == Some(s)
      requires NeighboursApart(parts, ids) && SiblingsDisjoint(parts, parent)
      ensures r.Ok? <==> LevelOk(parts, len, parent)
      ensures r.Err? ==> ErrorHolds(parts, len, r.error)
    {
      hide Children, Covered, SiblingsDisjoint, LevelOk;
      var cursor: nat := s.start;
      for k := 0 to |ids|
        invariant TilesUpTo(parts, ids, s, k, cursor)
      {
        var range := parts[ids[k]].range;
        ChildOf(parts, parent, k);
        if range.start < s.start || range.end > s.end {
          StrayChild(parts, len, parent, ids[k]);
          return Err(OutsideParent(ids[k]));
        }
        if range.start > cursor {
          HoleAt(parts, len, parent, s, k, cursor, Range(cursor, range.start));
          return Err(Uncovered(parent, Range(cursor, range.start)));
        }
        TilesStep(parts, ids, s, k, cursor);
        cursor := range.end;
      }
      if cursor < s.end {
        HoleAt(parts, len, parent, s, |ids|, cursor, Range(cursor, s.end));
        return Err(Uncovered(parent, Range(cursor, s.end)));
      }
      LevelTiled(parts, len, parent, s, cursor);
      return Ok(());
    }

    /** `validate` is sound and complete for coverage, and every error it reports is real. */
    method Validate() returns (r: Result<(), InventoryError>)
      requires Valid()
      ensures r.Ok? <==> Coverage(parts, len)
      ensures r.Err? ==> ErrorHolds(parts, len, r.error)
    {
      hide PartOk, LevelOk, ErrorHolds, LinksOk, Children, PartError;
      for i := 0 to |parts|
        invariant forall j :: 0 <= j < i ==> PartOk(parts, len, j)
      {
        ParentsAreEarlier();
        var error := PartError(parts, len, i);
        if error.Some? {
          RealErrorsBreakCoverage(parts, len, error.value);
          return Err(error.value);
        }
      }
      var level := TryChildren(None);
      AllNonEmpty(parts, len, None);
      var top := CheckLevel(None, level, Some(Range(0, len)));
      if top.Err? {
        return top;
      }
      for i := 0 to |parts|
        invariant forall j :: 0 <= j < i ==> LevelOk(parts, len, Some(j))
      {
        SentinelMeansLeaf(i);
        if firstChild[i] == NONE && parts[i].body.None? {
          NoChildrenLevel(parts, len, i);
        } else {
          level := TryChildren(Some(i));
          AllNonEmpty(parts, len, Some(i));
          var checked := CheckLevel(Some(i), level, parts[i].body);
          if checked.Err? {
            return checked;
          }
        }
      }
      return Ok(());
    }

    lemma ParentsAreEarlier()
      requires Valid()
      ensures ParentsEarlier(parts)
    {
    }

    lemma SentinelMeansLeaf(i: nat)
      requires Valid() && i < |parts|
      ensures i < |firstChild| && (firstChild[i] == NONE <==> IsLeaf(parts, i))
    {
    }

    /**
     Leaf bytes per disposition name. Totals wrap at u64 as the source's release arithmetic does;
     when all leaf bytes together fit u64, each total is exact and so is their sum.
     */
    method BytesByDisposition() returns (totals: seq<Total>)
      requires Valid()
      ensures TotalsOk(parts, totals, |parts|)
    {
      hide TotalsOk, LinksOk, IsLeaf;
      totals := [];
      NoTotals(parts);
      for i := 0 to |parts|
        invariant TotalsOk(parts, totals, i)
      {
        SentinelMeansLeaf(i);
        if firstChild[i] != NONE {
          TotalsSkip(parts, totals, i);
          continue;
        }
        var name, bytes := parts[i].disposition.Name(), parts[i].range.Len();
        var k := 0;
        while k < |totals| && totals[k].name != name
          invariant k <= |totals| && forall j :: 0 <= j < k ==> totals[j].name != name
        {
          k := k + 1;
        }
        if k < |totals| {
          TotalsAdd(parts, totals, i, k);
          totals := totals[k := Total(name, Wrap(totals[k].bytes + bytes))];
        } else {
          TotalsAppend(parts, totals, i);
          totals := totals + [Total(name, Wrap(bytes))];
        }
      }
    }

    /** The recursive display walk, one line per part. */
    method WriteLevel(parent: Parent, depth: nat) returns (lines: seq<Line>)
      requires Valid() && Known(parts, parent)
      requires depth == if parent.None? then 0 else Depth(parts, parent.value) + 1
      ensures WalkDone(parts, parent, lines)
      decreases Below(parts, parent)
    {
      ParentsAreEarlier();
      hide LinksOk, Children, Depth, WalkDone, WalkOk, Below;
      lines := [];
      var ids := TryChildren(parent);
      WalkStart(parts, parent);
      for k := 0 to |ids|
        invariant WalkOk(parts, parent, ids, k, lines)
      {
        ChildOf(parts, parent, k);
        DepthOfChild(parts, ids[k]);
        ChildIsBelow(parts, ids[k]);
        var sub := WriteLevel(Some(ids[k]), depth + 1);
        WalkStep(parts, parent, ids, k, lines, Line(ids[k], depth), sub);
        lines := lines + [Line(ids[k], depth)] + sub;
      }
      WalkEnd(parts, parent, ids, lines);
    }
  }
}
