/** The order in which the recursive display walk of an inventory visits its parts. */
module InventoryWalk {
  import opened Words
  import opened Ranges
  import opened InventoryModel

  /** Parts still ahead of the walk below p: children have larger ids than their parent. */
  function Below(parts: seq<Part>, p: Parent): nat {
    match p
    case None => |parts| + 1
    case Some(q) => if q < |parts| then |parts| - q else 0
  }

  function Preorder(parts: seq<Part>, p: Parent): (ids: seq<nat>)
    requires ParentsEarlier(parts)
    decreases Below(parts, p), |Children(parts, p)| + 1
  {
    ChildrenAreSorted(parts, p);
    PreorderOf(parts, p, Children(parts, p))
  }

  function PreorderOf(parts: seq<Part>, p: Parent, ids: seq<nat>): (r: seq<nat>)
    requires ParentsEarlier(parts)
    requires forall k :: 0 <= k < |ids| ==> ids[k] < |parts| && parts[ids[k]].parent == p
    decreases Below(parts, p), |ids|
  {
    if ids == [] then []
    else [ids[0]] + Preorder(parts, Some(ids[0])) + PreorderOf(parts, p, ids[1..])
  }

  /** i lies somewhere below p. */
  predicate Under(parts: seq<Part>, i: nat, p: Parent)
    requires ParentsEarlier(parts) && i < |parts|
  {
    parts[i].parent == p || (parts[i].parent.Some? && Under(parts, parts[i].parent.value, p))
  }

  lemma {:induction false} UnderIsLater(parts: seq<Part>, i: nat, a: nat)
    requires ParentsEarlier(parts) && i < |parts| && Under(parts, i, Some(a))
    ensures a < i
  {
    if parts[i].parent != Some(a) {
      UnderIsLater(parts, parts[i].parent.value, a);
    }
  }

  /** The child of p that i lies in or is. */
  function Branch(parts: seq<Part>, i: nat, p: Parent): (r: nat)
    requires ParentsEarlier(parts) && i < |parts| && Under(parts, i, p)
    ensures r <= i && parts[r].parent == p
  {
    if parts[i].parent == p then i else Branch(parts, parts[i].parent.value, p)
  }

  lemma {:induction false} BranchIsUnique(parts: seq<Part>, i: nat, p: Parent, a: nat)
    requires ParentsEarlier(parts) && i < |parts| && a < |parts| && parts[a].parent == p
    ensures (i == a || Under(parts, i, Some(a))) <==> (Under(parts, i, p) && Branch(parts, i, p) == a)
  {
    if i == a {
    } else if parts[i].parent == p {
      if Under(parts, i, Some(a)) && parts[i].parent != Some(a) {
        AncestorsDiffer(parts, a, p, parts[i].parent.value);
      }
    } else if parts[i].parent.Some? {
      BranchIsUnique(parts, parts[i].parent.value, p, a);
    }
  }

  /** No part lies below its own sibling: p itself is not below a child of p. */
  lemma AncestorsDiffer(parts: seq<Part>, a: nat, p: Parent, q: nat)
    requires ParentsEarlier(parts) && a < |parts| && parts[a].parent == p && p == Some(q) && q < |parts|
    ensures !Under(parts, q, Some(a))
  {
    if Under(parts, q, Some(a)) {
      UnderIsLater(parts, q, a);
    }
  }

  function Occurrences(ids: seq<nat>, i: nat): nat {
    multiset(ids)[i]
  }

  lemma OccurrencesOf3(a: nat, b: seq<nat>, c: seq<nat>, i: nat)
    ensures Occurrences([a] + b + c, i) == (if a == i then 1 else 0) + Occurrences(b, i) + Occurrences(c, i)
  {
  }

  ghost predicate DistinctIds(ids: seq<nat>) {
    forall j, k :: 0 <= j < k < |ids| ==> ids[j] != ids[k]
  }

  lemma {:induction false} PreorderOfVisits(parts: seq<Part>, p: Parent, ids: seq<nat>, i: nat)
    requires ParentsEarlier(parts) && i < |parts| && DistinctIds(ids)
    requires forall k :: 0 <= k < |ids| ==> ids[k] < |parts| && parts[ids[k]].parent == p
    ensures Occurrences(PreorderOf(parts, p, ids), i)
            == if Under(parts, i, p) && Branch(parts, i, p) in ids then 1 else 0
    decreases Below(parts, p), |ids|
  {
    hide Preorder, Under, Branch, Occurrences;
    if ids == [] {
      NothingOccurs(i);
    } else {
      var a, rest := ids[0], ids[1..];
      PreorderVisits(parts, Some(a), i);
      PreorderOfVisits(parts, p, rest, i);
      OccurrencesOf3(a, Preorder(parts, Some(a)), PreorderOf(parts, p, rest), i);
      HeadOrRest(parts, p, a, rest, i);
      assert ids == [a] + rest;
    }
  }

  lemma NothingOccurs(i: nat)
    ensures Occurrences([], i) == 0
  {
  }

  /** Being a, being below a, and being in a later branch exclude each other. */
  lemma HeadOrRest(parts: seq<Part>, p: Parent, a: nat, rest: seq<nat>, i: nat)
    requires ParentsEarlier(parts) && i < |parts| && a < |parts| && parts[a].parent == p && a !in rest
    ensures (if a == i then 1 else 0) + (if Under(parts, i, Some(a)) then 1 else 0)
            + (if Under(parts, i, p) && Branch(parts, i, p) in rest then 1 else 0)
            == if Under(parts, i, p) && Branch(parts, i, p) in [a] + rest then 1 else 0
  {
    BranchIsUnique(parts, i, p, a);
    if Under(parts, i, Some(a)) {
      UnderIsLater(parts, i, a);
    }
  }

  /** The walk below p visits exactly the parts below p, each of them once. */
  lemma {:induction false} PreorderVisits(parts: seq<Part>, p: Parent, i: nat)
    requires ParentsEarlier(parts) && i < |parts|
    ensures Occurrences(Preorder(parts, p), i) == if Under(parts, i, p) then 1 else 0
    decreases Below(parts, p), |Children(parts, p)| + 1
  {
    var ids := Children(parts, p);
    ChildrenAreSorted(parts, p);
    forall j, k | 0 <= j < k < |ids|
      ensures ids[j] != ids[k]
    {
      assert Before(parts, ids[j], ids[k]);
    }
    PreorderOfVisits(parts, p, ids, i);
  }

  lemma {:induction false} AllUnderTop(parts: seq<Part>, i: nat)
    requires ParentsEarlier(parts) && i < |parts|
    ensures Under(parts, i, None)
  {
    if parts[i].parent.Some? {
      AllUnderTop(parts, parts[i].parent.value);
    }
  }

  /** Each visited part's parent is p or was visited before it. */
  ghost predicate ParentsFirst(parts: seq<Part>, p: Parent, ids: seq<nat>) {
    forall k :: 0 <= k < |ids| ==>
      && ids[k] < |parts|
      && (parts[ids[k]].parent == p || exists j :: 0 <= j < k && parts[ids[k]].parent == Some(ids[j]))
  }

  lemma ParentsFirstJoin(parts: seq<Part>, p: Parent, a: nat, b: seq<nat>, c: seq<nat>)
    requires a < |parts| && parts[a].parent == p
    requires ParentsFirst(parts, Some(a), b) && ParentsFirst(parts, p, c)
    ensures ParentsFirst(parts, p, [a] + b + c)
  {
    var r := [a] + b + c;
    forall k | 0 <= k < |r|
      ensures r[k] < |parts|
      ensures parts[r[k]].parent == p || exists j :: 0 <= j < k && parts[r[k]].parent == Some(r[j])
    {
      if 1 <= k <= |b| {
        assert r[k] == b[k - 1];
        if parts[r[k]].parent == Some(a) {
          assert r[0] == a;
        } else {
          var j :| 0 <= j < k - 1 && parts[b[k - 1]].parent == Some(b[j]);
          assert r[j + 1] == b[j];
        }
      } else if k > |b| {
        var k' := k - 1 - |b|;
        assert r[k] == c[k'];
        if parts[r[k]].parent != p {
          var j :| 0 <= j < k' && parts[c[k']].parent == Some(c[j]);
          assert r[j + 1 + |b|] == c[j];
        }
      }
    }
  }

  lemma {:induction false} PreorderOfParentsFirst(parts: seq<Part>, p: Parent, ids: seq<nat>)
    requires ParentsEarlier(parts)
    requires forall k :: 0 <= k < |ids| ==> ids[k] < |parts| && parts[ids[k]].parent == p
    ensures ParentsFirst(parts, p, PreorderOf(parts, p, ids))
    decreases Below(parts, p), |ids|
  {
    if ids != [] {
      PreorderParentsFirst(parts, Some(ids[0]));
      PreorderOfParentsFirst(parts, p, ids[1..]);
      ParentsFirstJoin(parts, p, ids[0], Preorder(parts, Some(ids[0])), PreorderOf(parts, p, ids[1..]));
    }
  }

  lemma {:induction false} PreorderParentsFirst(parts: seq<Part>, p: Parent)
    requires ParentsEarlier(parts)
    ensures ParentsFirst(parts, p, Preorder(parts, p))
    decreases Below(parts, p), |Children(parts, p)| + 1
  {
    ChildrenAreSorted(parts, p);
    PreorderOfParentsFirst(parts, p, Children(parts, p));
  }

  /** The display walk visits every part exactly once, after its parent. */
  lemma WalkVisitsEveryPartOnce(parts: seq<Part>)
    requires ParentsEarlier(parts)
    ensures forall i :: 0 <= i < |parts| ==> Occurrences(Preorder(parts, None), i) == 1
    ensures ParentsFirst(parts, None, Preorder(parts, None))
    ensures |Preorder(parts, None)| == |parts|
  {
    var ids := Preorder(parts, None);
    forall i | 0 <= i < |parts|
      ensures Occurrences(ids, i) == 1
    {
      AllUnderTop(parts, i);
      PreorderVisits(parts, None, i);
    }
    PreorderParentsFirst(parts, None);
    VisitedOnce(ids, |parts|);
  }

  /** A sequence that holds each of 0..n exactly once, and nothing else, has length n. */
  lemma {:induction false} VisitedOnce(ids: seq<nat>, n: nat)
    requires forall k :: 0 <= k < |ids| ==> ids[k] < n
    requires forall i :: 0 <= i < n ==> Occurrences(ids, i) == 1
    ensures |ids| == n
    decreases n
  {
    if n == 0 {
    } else {
      assert Occurrences(ids, n - 1) == 1;
      assert n - 1 in multiset(ids);
      var k: nat :| k < |ids| && ids[k] == n - 1;
      VisitedLast(ids, n, k);
      VisitedOnce(ids[..k] + ids[k + 1..], n - 1);
    }
  }

  lemma VisitedLast(ids: seq<nat>, n: nat, k: nat)
    requires n > 0 && k < |ids| && ids[k] == n - 1
    requires forall k :: 0 <= k < |ids| ==> ids[k] < n
    requires forall i :: 0 <= i < n ==> Occurrences(ids, i) == 1
    ensures var rest := ids[..k] + ids[k + 1..];
            && (forall j :: 0 <= j < |rest| ==> rest[j] < n - 1)
            && (forall i :: 0 <= i < n - 1 ==> Occurrences(rest, i) == 1)
  {
    var rest := ids[..k] + ids[k + 1..];
    assert ids == ids[..k] + [n - 1] + ids[k + 1..];
    assert multiset(ids) == multiset(rest) + multiset{n - 1};
    assert Occurrences(ids, n - 1) == 1;
    assert multiset(rest)[n - 1] == 0;
    forall j | 0 <= j < |rest|
      ensures rest[j] < n - 1
    {
      assert rest[j] in multiset(rest);
      assert rest[j] in ids;
    }
    forall i | 0 <= i < n - 1
      ensures Occurrences(rest, i) == 1
    {
      assert Occurrences(ids, i) == 1;
    }
  }

  /** Number of ancestors: the indentation of a part in the table. */
  function Depth(parts: seq<Part>, i: nat): nat
    requires ParentsEarlier(parts) && i < |parts|
  {
    match parts[i].parent
    case None => 0
    case Some(q) => 1 + Depth(parts, q)
  }

  /** The proper ancestors of a part. */
  ghost function Ancestors(parts: seq<Part>, i: nat): set<nat>
    requires ParentsEarlier(parts) && i < |parts|
  {
    set a: nat | a < |parts| && Under(parts, i, Some(a))
  }

  lemma {:induction false} DepthCountsAncestors(parts: seq<Part>, i: nat)
    requires ParentsEarlier(parts) && i < |parts|
    ensures Depth(parts, i) == |Ancestors(parts, i)|
  {
    match parts[i].parent {
      case None =>
        assert Ancestors(parts, i) == {};
      case Some(q) =>
        DepthCountsAncestors(parts, q);
        if Under(parts, q, Some(q)) {
          UnderIsLater(parts, q, q);
        }
        assert Ancestors(parts, i) == Ancestors(parts, q) + {q};
    }
  }

  // ----- the walk keeps file order -----

  /** a is i or lies below it. */
  ghost predicate InBranch(parts: seq<Part>, a: nat, i: nat)
    requires ParentsEarlier(parts) && a < |parts|
  {
    a == i || Under(parts, a, Some(i))
  }

  lemma {:induction false} UnderTransitive(parts: seq<Part>, a: nat, b: nat, p: Parent)
    requires ParentsEarlier(parts) && a < |parts| && b < |parts| && Under(parts, a, Some(b)) && Under(parts, b, p)
    ensures Under(parts, a, p)
  {
    if parts[a].parent != Some(b) {
      UnderTransitive(parts, parts[a].parent.value, b, p);
    }
  }

  /** Of two parts above the same part one is in the branch of the other. */
  lemma {:induction false} AncestorsCompare(parts: seq<Part>, u: nat, a: nat, b: nat)
    requires ParentsEarlier(parts) && u < |parts| && a < |parts| && b < |parts|
    requires InBranch(parts, u, a) && InBranch(parts, u, b)
    ensures InBranch(parts, a, b) || InBranch(parts, b, a)
  {
    if u != a && u != b {
      AncestorsCompare(parts, parts[u].parent.value, a, b);
    }
  }

  /** The branches of siblings are apart. */
  lemma SiblingsApart(parts: seq<Part>, v: nat, i: nat, j: nat)
    requires ParentsEarlier(parts) && v < |parts| && i < |parts| && j < |parts| && parts[i].parent == parts[j].parent
    requires InBranch(parts, v, i) && InBranch(parts, v, j)
    ensures i == j
  {
    hide Under, Branch;
    BranchIsUnique(parts, v, parts[i].parent, i);
    BranchIsUnique(parts, v, parts[i].parent, j);
  }

  lemma BranchTransitive(parts: seq<Part>, a: nat, b: nat, c: nat)
    requires ParentsEarlier(parts) && a < |parts| && b < |parts| && InBranch(parts, a, b) && InBranch(parts, b, c)
    ensures InBranch(parts, a, c)
  {
    hide Under;
    if a != b && b != c {
      UnderTransitive(parts, a, b, Some(c));
    }
  }

  lemma SiblingOfBelow(parts: seq<Part>, i: nat, j: nat, a: nat)
    requires ParentsEarlier(parts) && i < |parts| && j < |parts| && parts[i].parent == parts[j].parent
    requires Under(parts, j, Some(a))
    ensures Under(parts, i, Some(a))
  {
  }

  /** u is visited before v although v is in the branch of an earlier sibling. */
  ghost predicate Misplaced(parts: seq<Part>, u: nat, v: nat)
    requires ParentsEarlier(parts) && u < |parts| && v < |parts|
  {
    exists i, j :: 0 <= i < |parts| && 0 <= j < |parts| && parts[i].parent == parts[j].parent && Before(parts, i, j)
                   && InBranch(parts, v, i) && InBranch(parts, u, j)
  }

  lemma SelfPlaced(parts: seq<Part>, u: nat, v: nat)
    requires ParentsEarlier(parts) && u < |parts| && v < |parts| && InBranch(parts, v, u)
    ensures !Misplaced(parts, u, v)
  {
    hide InBranch;
    if Misplaced(parts, u, v) {
      var i, j :| 0 <= i < |parts| && 0 <= j < |parts| && parts[i].parent == parts[j].parent && Before(parts, i, j)
                  && InBranch(parts, v, i) && InBranch(parts, u, j);
      BranchTransitive(parts, v, u, j);
      SiblingsApart(parts, v, i, j);
    }
  }

  lemma BranchesPlaced(parts: seq<Part>, a: nat, c: nat, u: nat, v: nat)
    requires ParentsEarlier(parts) && a < |parts| && c < |parts| && u < |parts| && v < |parts|
    requires parts[a].parent == parts[c].parent && Before(parts, a, c)
    requires InBranch(parts, u, a) && InBranch(parts, v, c)
    ensures !Misplaced(parts, u, v)
  {
    hide InBranch;
    if Misplaced(parts, u, v) {
      var i, j :| 0 <= i < |parts| && 0 <= j < |parts| && parts[i].parent == parts[j].parent && Before(parts, i, j)
                  && InBranch(parts, v, i) && InBranch(parts, u, j);
      AncestorsCompare(parts, u, a, j);
      if j == a {
        SiblingsApart(parts, v, i, c);
      } else {
        BranchSplits(parts, a, j);
        if Under(parts, j, Some(a)) {
          SiblingOfBelow(parts, i, j, a);
          BelowBranch(parts, v, i, a);
          SiblingsApart(parts, v, a, c);
        } else {
          SiblingOfBelow(parts, c, a, j);
          BelowBranch(parts, v, c, j);
          SiblingsApart(parts, v, i, j);
        }
      }
    }
  }

  lemma BranchSplits(parts: seq<Part>, a: nat, j: nat)
    requires ParentsEarlier(parts) && a < |parts| && j < |parts| && a != j
    ensures InBranch(parts, a, j) || InBranch(parts, j, a) <==> Under(parts, j, Some(a)) || Under(parts, a, Some(j))
  {
    hide Under;
  }

  lemma BelowBranch(parts: seq<Part>, v: nat, i: nat, a: nat)
    requires ParentsEarlier(parts) && v < |parts| && i < |parts| && InBranch(parts, v, i) && Under(parts, i, Some(a))
    ensures InBranch(parts, v, a)
  {
    hide Under;
    assert InBranch(parts, i, a);
    BranchTransitive(parts, v, i, a);
  }

  ghost predicate AllPlaced(parts: seq<Part>, ids: seq<nat>)
    requires ParentsEarlier(parts)
  {
    (forall k :: 0 <= k < |ids| ==> ids[k] < |parts|)
    && forall s, t :: 0 <= s <= t < |ids| ==> !Misplaced(parts, ids[s], ids[t])
  }

  /** A part in the branch of one of the siblings. */
  ghost predicate InSome(parts: seq<Part>, roots: seq<nat>, v: nat)
    requires ParentsEarlier(parts)
  {
    v < |parts| && exists c :: c in roots && InBranch(parts, v, c)
  }

  ghost predicate OfBranches(parts: seq<Part>, roots: seq<nat>, ids: seq<nat>)
    requires ParentsEarlier(parts)
  {
    forall k :: 0 <= k < |ids| ==> InSome(parts, roots, ids[k])
  }

  lemma InSomeMore(parts: seq<Part>, a: nat, rest: seq<nat>, v: nat)
    requires ParentsEarlier(parts) && a < |parts|
    ensures InSome(parts, [a], v) || InSome(parts, rest, v) ==> InSome(parts, [a] + rest, v)
    ensures InSome(parts, [a] + rest, a)
  {
    hide InBranch;
    SelfInBranch(parts, a);
    assert a in [a] + rest;
    if InSome(parts, rest, v) {
      var c :| c in rest && InBranch(parts, v, c);
      assert c in [a] + rest;
    }
  }

  lemma BranchesJoin(parts: seq<Part>, a: nat, rest: seq<nat>, b: seq<nat>, c: seq<nat>)
    requires ParentsEarlier(parts) && a < |parts|
    requires OfBranches(parts, [a], b) && OfBranches(parts, rest, c)
    ensures OfBranches(parts, [a] + rest, [a] + b + c)
  {
    hide InSome;
    var r := [a] + b + c;
    forall k | 0 <= k < |r|
      ensures InSome(parts, [a] + rest, r[k])
    {
      InSomeMore(parts, a, rest, r[k]);
      if 1 <= k <= |b| {
        assert r[k] == b[k - 1];
      } else if k > |b| {
        assert r[k] == c[k - 1 - |b|];
      }
    }
  }

  /** Parts of the first branch come before parts of the later ones. */
  lemma LaterPlaced(parts: seq<Part>, p: Parent, a: nat, rest: seq<nat>, u: nat, v: nat)
    requires ParentsEarlier(parts) && a < |parts| && parts[a].parent == p && u < |parts|
    requires forall k :: 0 <= k < |rest| ==> rest[k] < |parts| && parts[rest[k]].parent == p && Before(parts, a, rest[k])
    requires InBranch(parts, u, a) && InSome(parts, rest, v)
    ensures !Misplaced(parts, u, v)
  {
    hide Misplaced, InBranch, Before;
    var d :| d in rest && InBranch(parts, v, d);
    BranchesPlaced(parts, a, d, u, v);
  }

  lemma OneRoot(parts: seq<Part>, a: nat, v: nat)
    requires ParentsEarlier(parts) && InSome(parts, [a], v)
    ensures v < |parts| && InBranch(parts, v, a)
  {
    hide InBranch;
  }

  lemma PlacedJoin(parts: seq<Part>, p: Parent, a: nat, rest: seq<nat>, b: seq<nat>, c: seq<nat>)
    requires ParentsEarlier(parts) && a < |parts| && parts[a].parent == p
    requires forall k :: 0 <= k < |rest| ==> rest[k] < |parts| && parts[rest[k]].parent == p && Before(parts, a, rest[k])
    requires AllPlaced(parts, b) && AllPlaced(parts, c) && OfBranches(parts, [a], b) && OfBranches(parts, rest, c)
    ensures AllPlaced(parts, [a] + b + c)
  {
    hide Misplaced, InBranch, Before, InSome;
    var r := [a] + b + c;
    SelfInBranch(parts, a);
    forall s, t | 0 <= s <= t < |r|
      ensures !Misplaced(parts, r[s], r[t])
    {
      if s > |b| {
        assert r[s] == c[s - 1 - |b|] && r[t] == c[t - 1 - |b|];
      } else {
        if s > 0 {
          assert r[s] == b[s - 1];
          OneRoot(parts, a, r[s]);
        }
        if t > |b| {
          assert r[t] == c[t - 1 - |b|];
          LaterPlaced(parts, p, a, rest, r[s], r[t]);
        } else if s > 0 {
          assert r[t] == b[t - 1];
        } else {
          if t > 0 {
            assert r[t] == b[t - 1];
            OneRoot(parts, a, r[t]);
          }
          SelfPlaced(parts, a, r[t]);
        }
      }
    }
  }

  lemma SelfInBranch(parts: seq<Part>, a: nat)
    requires ParentsEarlier(parts) && a < |parts|
    ensures InBranch(parts, a, a)
  {
  }

  lemma {:induction false} PreorderOfPlaced(parts: seq<Part>, p: Parent, ids: seq<nat>)
    requires ParentsEarlier(parts) && ValidIds(parts, ids) && SortedIds(parts, ids)
    requires forall k :: 0 <= k < |ids| ==> ids[k] < |parts| && parts[ids[k]].parent == p
    ensures AllPlaced(parts, PreorderOf(parts, p, ids)) && OfBranches(parts, ids, PreorderOf(parts, p, ids))
    decreases Below(parts, p), |ids|
  {
    if ids != [] {
      hide *;
      var a, rest := ids[0], ids[1..];
      RestOfLevel(parts, p, ids);
      PreorderPlaced(parts, Some(a));
      PreorderOfPlaced(parts, p, rest);
      PreorderInBranch(parts, a);
      PlacedJoin(parts, p, a, rest, Preorder(parts, Some(a)), PreorderOf(parts, p, rest));
      BranchesJoin(parts, a, rest, Preorder(parts, Some(a)), PreorderOf(parts, p, rest));
      PreorderUnfolds(parts, p, ids);
    }
  }

  /** The first of a sorted level, and the rest of it. */
  lemma RestOfLevel(parts: seq<Part>, p: Parent, ids: seq<nat>)
    requires ParentsEarlier(parts) && ValidIds(parts, ids) && SortedIds(parts, ids) && ids != []
    requires forall k :: 0 <= k < |ids| ==> ids[k] < |parts| && parts[ids[k]].parent == p
    ensures ids[0] < |parts| && Below(parts, Some(ids[0])) < Below(parts, p)
    ensures ValidIds(parts, ids[1..]) && SortedIds(parts, ids[1..])
    ensures forall k :: 0 <= k < |ids[1..]| ==>
              ids[1..][k] < |parts| && parts[ids[1..][k]].parent == p && Before(parts, ids[0], ids[1..][k])
  {
    hide Before;
    forall k | 0 <= k < |ids[1..]|
      ensures Before(parts, ids[0], ids[1..][k])
    {
      assert ids[1..][k] == ids[k + 1];
    }
    forall j, k | 0 <= j < k < |ids[1..]|
      ensures Before(parts, ids[1..][j], ids[1..][k])
    {
      assert ids[1..][j] == ids[j + 1] && ids[1..][k] == ids[k + 1];
    }
  }

  lemma PreorderUnfolds(parts: seq<Part>, p: Parent, ids: seq<nat>)
    requires ParentsEarlier(parts) && ids != []
    requires forall k :: 0 <= k < |ids| ==> ids[k] < |parts| && parts[ids[k]].parent == p
    ensures ids == [ids[0]] + ids[1..]
    ensures PreorderOf(parts, p, ids) == [ids[0]] + Preorder(parts, Some(ids[0])) + PreorderOf(parts, p, ids[1..])
  {
    hide Preorder;
  }

  lemma PreorderInBranch(parts: seq<Part>, a: nat)
    requires ParentsEarlier(parts) && a < |parts|
    ensures OfBranches(parts, [a], Preorder(parts, Some(a)))
  {
    hide Preorder, Under, InSome, ParentsFirst, Occurrences;
    PreorderParentsFirst(parts, Some(a));
    var ids := Preorder(parts, Some(a));
    forall k | 0 <= k < |ids|
      ensures InSome(parts, [a], ids[k])
    {
      VisitedKnown(parts, Some(a), ids, k);
      PreorderVisits(parts, Some(a), ids[k]);
      Occurs(ids, k);
      UnderInSome(parts, a, ids[k]);
    }
  }

  lemma VisitedKnown(parts: seq<Part>, p: Parent, ids: seq<nat>, k: nat)
    requires ParentsFirst(parts, p, ids) && k < |ids|
    ensures ids[k] < |parts|
  {
  }

  lemma Occurs(ids: seq<nat>, k: nat)
    requires k < |ids|
    ensures Occurrences(ids, ids[k]) >= 1
  {
    assert ids[k] in multiset(ids);
  }

  lemma UnderInSome(parts: seq<Part>, a: nat, v: nat)
    requires ParentsEarlier(parts) && v < |parts| && Under(parts, v, Some(a))
    ensures InSome(parts, [a], v)
  {
    hide Under;
    assert a in [a] && InBranch(parts, v, a);
  }

  lemma {:induction false} PreorderPlaced(parts: seq<Part>, p: Parent)
    requires ParentsEarlier(parts)
    ensures AllPlaced(parts, Preorder(parts, p))
    decreases Below(parts, p), |Children(parts, p)| + 1
  {
    ChildrenAreSorted(parts, p);
    PreorderOfPlaced(parts, p, Children(parts, p));
  }

  /**
   The walk is in file order: of two siblings the one that starts first, or was recorded first, comes first,
   and everything below it before the other and everything below that.
   */
  lemma WalkKeepsFileOrder(parts: seq<Part>, i: nat, j: nat, s: nat, t: nat)
    requires ParentsEarlier(parts) && i < |parts| && j < |parts| && parts[i].parent == parts[j].parent
    requires Before(parts, i, j)
    requires s < |Preorder(parts, None)| && t < |Preorder(parts, None)|
    requires InSome(parts, [i], Preorder(parts, None)[s]) && InSome(parts, [j], Preorder(parts, None)[t])
    ensures s < t
  {
    hide Preorder, InBranch, Before, InSome;
    var ids := Preorder(parts, None);
    OneRoot(parts, i, ids[s]);
    OneRoot(parts, j, ids[t]);
    assert t <= s ==> Misplaced(parts, ids[t], ids[s]);
    PreorderPlaced(parts, None);
  }
}
