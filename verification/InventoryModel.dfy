/**
 The structural inventory as a value: the list of recorded parts determines everything
 (src/inventory.rs). This file holds the reference definitions; `Inventory` holds the arrays.
 */
module InventoryModel {
  import opened Words
  import opened Ranges

  datatype PartKind =
    | Header | Segment | ScanData | Chunk | Box | Item | Extent | Property | Block
    | Ifd | Field | Attribute | EmbeddedImage | CodedUnit | Trailer | Gap

  datatype MetadataKind =
    | Exif | Xmp | Icc | Cicp | Colour | HdrStatic | GainMap | Orientation | Resolution | Animation | Supplement

  datatype Disposition =
    | Structure | ImageData | Metadata(kind: MetadataKind) | Dropped | Skipped
    | Unknown | Trailing | Unreferenced | Padding | Malformed
  {
    function Name(): string {
      match this
      case Structure => "structure"
      case ImageData => "image-data"
      case Metadata(_) => "metadata"
      case Dropped => "dropped"
      case Skipped => "skipped"
      case Unknown => "unknown"
      case Trailing => "trailing"
      case Unreferenced => "unreferenced"
      case Padding => "padding"
      case Malformed => "malformed"
    }
  }

  /** A name tells a disposition, but for the kind of metadata. */
  lemma NamesTellApart(a: Disposition, b: Disposition)
    ensures a.Name() == b.Name() <==> a == b || (a.Metadata? && b.Metadata?)
  {
  }

  /** A part's parent is an earlier part, or None at the top level. */
  type Parent = Option<nat>

  datatype Part = Part(parent: Parent, kind: PartKind, range: Range, body: Option<Range>, disposition: Disposition)

  datatype InventoryError =
    | TooManyParts(max: U32)
    | BadParent(part: nat)
    | EmptyPart(part: nat)
    | OutOfBounds(part: nat)
    | OutsideParent(part: nat)
    | Overlap(first: nat, second: nat)
    | Uncovered(parent: Parent, range: Range)

  ghost predicate ParentsEarlier(parts: seq<Part>) {
    forall i :: 0 <= i < |parts| && parts[i].parent.Some? ==> parts[i].parent.value < i
  }

  // ----- children of a part -----

  /** Latest part below n recorded under p, or none: what the intrusive links store. */
  function Latest(parts: seq<Part>, p: Parent, n: nat): (r: Option<nat>)
    requires n <= |parts|
    ensures r.Some? ==> r.value < n && parts[r.value].parent == p
  {
    if n == 0 then None
    else if parts[n - 1].parent == p then Some(n - 1)
    else Latest(parts, p, n - 1)
  }

  /** The parts below n recorded under p, latest first: the sibling list. */
  function Siblings(parts: seq<Part>, p: Parent, n: nat): (ids: seq<nat>)
    requires n <= |parts|
    ensures forall k :: 0 <= k < |ids| ==> ids[k] < n && parts[ids[k]].parent == p
    ensures forall i :: 0 <= i < n && parts[i].parent == p ==> i in ids
    ensures forall j, k :: 0 <= j < k < |ids| ==> ids[j] > ids[k]
  {
    if n == 0 then []
    else if parts[n - 1].parent == p then [n - 1] + Siblings(parts, p, n - 1)
    else Siblings(parts, p, n - 1)
  }

  lemma SiblingsStep(parts: seq<Part>, p: Parent, n: nat)
    requires 0 < n <= |parts|
    ensures Latest(parts, p, n) == if parts[n - 1].parent == p then Some(n - 1) else Latest(parts, p, n - 1)
    ensures Siblings(parts, p, n)
         == (if parts[n - 1].parent == p then [n - 1] else []) + Siblings(parts, p, n - 1)
  {
    assert [] + Siblings(parts, p, n - 1) == Siblings(parts, p, n - 1);
  }

  lemma {:induction false} SiblingsFromLatest(parts: seq<Part>, p: Parent, n: nat)
    requires n <= |parts|
    ensures var last := Latest(parts, p, n);
            Siblings(parts, p, n) == if last.None? then [] else [last.value] + Siblings(parts, p, last.value)
  {
    if n != 0 {
      hide Latest, Siblings;
      SiblingsStep(parts, p, n);
      if parts[n - 1].parent != p {
        SiblingsFromLatest(parts, p, n - 1);
      }
    }
  }

  lemma {:induction false} LatestExtends(parts: seq<Part>, more: seq<Part>, p: Parent, n: nat)
    requires n <= |parts|
    ensures Latest(parts + more, p, n) == Latest(parts, p, n)
  {
    if n != 0 {
      LatestExtends(parts, more, p, n - 1);
    }
  }

  // ----- children sorted by (start, id) -----

  predicate Before(parts: seq<Part>, a: nat, b: nat)
    requires a < |parts| && b < |parts|
  {
    parts[a].range.start < parts[b].range.start || (parts[a].range.start == parts[b].range.start && a < b)
  }

  predicate ValidIds(parts: seq<Part>, ids: seq<nat>) {
    forall k :: 0 <= k < |ids| ==> ids[k] < |parts|
  }

  ghost predicate SortedIds(parts: seq<Part>, ids: seq<nat>)
    requires ValidIds(parts, ids)
  {
    forall j, k :: 0 <= j < k < |ids| ==> Before(parts, ids[j], ids[k])
  }

  function InsertId(parts: seq<Part>, ids: seq<nat>, id: nat): (r: seq<nat>)
    requires ValidIds(parts, ids) && id < |parts|
    ensures ValidIds(parts, r) && multiset(r) == multiset(ids) + multiset{id}
  {
    if ids == [] then [id]
    else if Before(parts, id, ids[0]) then [id] + ids
    else
      assert ids == [ids[0]] + ids[1..];
      [ids[0]] + InsertId(parts, ids[1..], id)
  }

  /** The library sort on the key (start, id); all keys are distinct, so the result is unique. */
  function SortIds(parts: seq<Part>, ids: seq<nat>): (r: seq<nat>)
    requires ValidIds(parts, ids)
    ensures ValidIds(parts, r) && multiset(r) == multiset(ids)
  {
    if ids == [] then []
    else
      assert ids == [ids[0]] + ids[1..];
      InsertId(parts, SortIds(parts, ids[1..]), ids[0])
  }

  lemma {:induction false} InsertKeepsSorted(parts: seq<Part>, ids: seq<nat>, id: nat)
    requires ValidIds(parts, ids) && id < |parts| && SortedIds(parts, ids) && id !in ids
    ensures SortedIds(parts, InsertId(parts, ids, id))
  {
    if ids != [] && !Before(parts, id, ids[0]) {
      InsertKeepsSorted(parts, ids[1..], id);
      var tail := InsertId(parts, ids[1..], id);
      forall k | 0 <= k < |tail|
        ensures Before(parts, ids[0], tail[k])
      {
        assert tail[k] in multiset(tail);
        assert tail[k] == id || tail[k] in ids[1..];
      }
    }
  }

  lemma {:induction false} SortIdsSorts(parts: seq<Part>, ids: seq<nat>)
    requires ValidIds(parts, ids)
    requires forall j, k :: 0 <= j < k < |ids| ==> ids[j] != ids[k]
    ensures SortedIds(parts, SortIds(parts, ids))
  {
    if ids != [] {
      SortIdsSorts(parts, ids[1..]);
      assert ids[0] !in multiset(SortIds(parts, ids[1..]));
      InsertKeepsSorted(parts, SortIds(parts, ids[1..]), ids[0]);
    }
  }

  /** `children`: everything recorded under p, in file order. */
  function Children(parts: seq<Part>, p: Parent): (ids: seq<nat>)
    ensures ValidIds(parts, ids)
  {
    SortIds(parts, Siblings(parts, p, |parts|))
  }

  /** `children` holds exactly the parts recorded under p, sorted by (start, id). */
  lemma ChildrenAreSorted(parts: seq<Part>, p: Parent)
    ensures SortedIds(parts, Children(parts, p))
    ensures forall i :: i in Children(parts, p) <==> 0 <= i < |parts| && parts[i].parent == p
    ensures |Children(parts, p)| == |Siblings(parts, p, |parts|)|
  {
    var sib := Siblings(parts, p, |parts|);
    SortIdsSorts(parts, sib);
    assert |multiset(Children(parts, p))| == |multiset(sib)|;
    forall i
      ensures i in Children(parts, p) <==> 0 <= i < |parts| && parts[i].parent == p
    {
      assert i in Children(parts, p) <==> i in multiset(Children(parts, p));
      assert i in sib <==> i in multiset(sib);
    }
  }
}
