/** Half-open byte ranges, and the counting argument for families of disjoint ranges. */
module Ranges {
  import opened Words

  datatype Range = Range(start: nat, end: nat) {
    /** Saturating length, as in the source. */
    function Len(): nat {
      if start <= end then end - start else 0
    }

    predicate Has(x: int) {
      start <= x < end
    }

    ghost function Bytes(): set<int> {
      set x: int | start <= x < end && Has(x)
    }
  }

  ghost predicate Disjoint(a: Range, b: Range) {
    forall x :: !(a.Has(x) && b.Has(x))
  }

  ghost predicate PairwiseDisjoint(rs: seq<Range>) {
    forall i, j :: 0 <= i < j < |rs| ==> Disjoint(rs[i], rs[j])
  }

  ghost predicate Covers(rs: seq<Range>, x: int) {
    exists k :: 0 <= k < |rs| && rs[k].Has(x)
  }

  function TotalLen(rs: seq<Range>): nat {
    if rs == [] then 0 else rs[0].Len() + TotalLen(rs[1..])
  }

  ghost function Union(rs: seq<Range>): set<int> {
    if rs == [] then {} else rs[0].Bytes() + Union(rs[1..])
  }

  lemma {:induction false} BytesCount(r: Range)
    ensures |r.Bytes()| == r.Len()
    decreases r.end
  {
    if r.start < r.end {
      var s := Range(r.start, r.end - 1);
      BytesCount(s);
      assert r.Bytes() == s.Bytes() + {r.end - 1};
    } else {
      assert r.Bytes() == {};
    }
  }

  lemma {:induction false} UnionMeansCovers(rs: seq<Range>)
    ensures forall x :: x in Union(rs) <==> Covers(rs, x)
  {
    if rs != [] {
      UnionMeansCovers(rs[1..]);
      forall x
        ensures x in Union(rs) <==> Covers(rs, x)
      {
        if Covers(rs, x) {
          var k :| 0 <= k < |rs| && rs[k].Has(x);
          if k > 0 {
            assert rs[1..][k - 1].Has(x);
          }
        }
        if x in rs[0].Bytes() {
          assert rs[0].Has(x);
        } else if x in Union(rs[1..]) {
          var k :| 0 <= k < |rs[1..]| && rs[1..][k].Has(x);
          assert rs[k + 1].Has(x);
        }
      }
    }
  }

  lemma {:induction false} DisjointCount(rs: seq<Range>)
    requires PairwiseDisjoint(rs)
    ensures |Union(rs)| == TotalLen(rs)
  {
    if rs != [] {
      var rest := rs[1..];
      forall i, j | 0 <= i < j < |rest|
        ensures Disjoint(rest[i], rest[j])
      {
        assert Disjoint(rs[i + 1], rs[j + 1]);
      }
      DisjointCount(rest);
      BytesCount(rs[0]);
      UnionMeansCovers(rest);
      forall x | x in Union(rest)
        ensures !rs[0].Has(x)
      {
        var k :| 0 <= k < |rest| && rest[k].Has(x);
        assert Disjoint(rs[0], rs[k + 1]);
      }
      assert rs[0].Bytes() !! Union(rest);
    }
  }

  /** Disjoint ranges inside a span are no longer in total than the span; tiling it, exactly as long. */
  lemma DisjointInSpan(rs: seq<Range>, span: Range)
    requires PairwiseDisjoint(rs)
    requires forall k, x :: 0 <= k < |rs| && rs[k].Has(x) ==> span.Has(x)
    ensures TotalLen(rs) <= span.Len()
    ensures (forall x :: span.Has(x) ==> Covers(rs, x)) ==> TotalLen(rs) == span.Len()
  {
    DisjointCount(rs);
    UnionInSpan(rs, span);
    BytesCount(span);
    SubsetCount(Union(rs), span.Bytes());
  }

  lemma UnionInSpan(rs: seq<Range>, span: Range)
    requires forall k, x :: 0 <= k < |rs| && rs[k].Has(x) ==> span.Has(x)
    ensures Union(rs) <= span.Bytes()
    ensures (forall x :: span.Has(x) ==> Covers(rs, x)) ==> Union(rs) == span.Bytes()
  {
    UnionMeansCovers(rs);
    forall x | x in Union(rs)
      ensures x in span.Bytes()
    {
      var k :| 0 <= k < |rs| && rs[k].Has(x);
      assert span.Has(x);
    }
  }

  lemma SubsetCount<T>(a: set<T>, b: set<T>)
    requires a <= b
    ensures |a| <= |b|
  {
    assert b == a + (b - a);
  }
}
