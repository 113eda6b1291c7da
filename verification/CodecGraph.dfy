/**
 Shared pixel identity in a resolved dependency graph (scripts/check-codec-graph.py).

 `Cores` searches a possibly cyclic graph with a `seen` set that is local to each path. Its
 contract is over simple walks; the lemmas turn that into plain reachability. A missing dictionary
 key raises in the source: here the answer is None.
 */
module CodecGraph {
  import opened Words

  type Id = string

  const FAMILY: set<string> := {"zencodec", "zencodec-io", "zencodec-coroutine", "zencodec-media",
                                "zencodec-testkit", "zencodec-media-testkit", "zenmeta", "zencodec-render"}

  /** Package names by id, dependency lists by node id, and the order nodes are listed in. */
  datatype Metadata = Metadata(packages: map<Id, string>, nodes: map<Id, seq<Id>>, order: seq<Id>) {
    ghost predicate Ordered() {
      && (forall i, j :: 0 <= i < j < |order| ==> order[i] != order[j])
      && (forall i :: 0 <= i < |order| ==> order[i] in nodes)
      && (forall x :: x in nodes ==> x in order)
    }

    /** Every id mentioned anywhere has a package and a node: cargo's own output. */
    ghost predicate Closed() {
      && (forall x :: x in nodes ==> x in packages)
      && (forall x, i :: x in nodes && 0 <= i < |nodes[x]| ==> nodes[x][i] in nodes)
    }
  }

  function NamedDependencies(g: Metadata, ident: Id, names: set<string>): Option<set<Id>> {
    if ident !in g.nodes || exists dep :: dep in g.nodes[ident] && dep !in g.packages then None
    else Some(set dep | dep in g.nodes[ident] && g.packages[dep] in names)
  }

  // ----- what the metadata says -----

  /** x lists y among its dependencies. */
  ghost predicate Lists(g: Metadata, x: Id, y: Id) {
    x in g.nodes && y in g.nodes[x]
  }

  ghost predicate IsNamed(g: Metadata, x: Id, name: string) {
    x in g.packages && g.packages[x] == name
  }

  /** The dependencies of x have a node to be listed in, and each has a package. */
  ghost predicate Resolved(g: Metadata, x: Id) {
    x in g.nodes && forall y :: Lists(g, x, y) ==> y in g.packages
  }

  /** The dependencies of x that are packages of the given name. */
  ghost function Uses(g: Metadata, x: Id, name: string): set<Id> {
    set y | y in g.packages && Lists(g, x, y) && IsNamed(g, y, name)
  }

  lemma NamedMeans(g: Metadata, x: Id, name: string)
    ensures NamedDependencies(g, x, {name}) == if Resolved(g, x) then Some(Uses(g, x, name)) else None
  {
    if Resolved(g, x) {
      assert forall y :: y in g.nodes[x] ==> Lists(g, x, y);
      assert NamedDependencies(g, x, {name}).value == Uses(g, x, name);
    } else if x in g.nodes {
      var y :| Lists(g, x, y) && y !in g.packages;
    }
  }

  lemma FamilyMeans(g: Metadata, x: Id)
    ensures NamedDependencies(g, x, FAMILY).Some? <==> Resolved(g, x)
    ensures NamedDependencies(g, x, FAMILY).Some? ==>
              forall y :: y in NamedDependencies(g, x, FAMILY).value <==>
                Lists(g, x, y) && y in g.packages && g.packages[y] in FAMILY
  {
    if Resolved(g, x) {
      assert forall y :: y in g.nodes[x] ==> Lists(g, x, y);
    } else if x in g.nodes {
      var y :| Lists(g, x, y) && y !in g.packages;
    }
  }

  // ----- walks -----

  ghost predicate IsCore(g: Metadata, x: Id) {
    IsNamed(g, x, "zencodec")
  }

  /** A visit to x raises a key error. */
  ghost predicate Bad(g: Metadata, x: Id) {
    x !in g.packages || (!IsCore(g, x) && !Resolved(g, x))
  }

  /** The search goes on from x to y: x is not itself a core, and y is a family dependency of x. */
  ghost predicate Edge(g: Metadata, x: Id, y: Id) {
    x in g.packages && !IsCore(g, x) && Lists(g, x, y) && y in g.packages && g.packages[y] in FAMILY
  }

  ghost predicate Walk(g: Metadata, p: seq<Id>, from: Id, to: Id) {
    && |p| >= 1 && p[0] == from && p[|p| - 1] == to
    && forall i :: 0 <= i < |p| - 1 ==> Edge(g, p[i], p[i + 1])
  }

  ghost predicate Distinct(p: seq<Id>) {
    forall i, j :: 0 <= i < j < |p| ==> p[i] != p[j]
  }

  ghost predicate SimpleWalk(g: Metadata, p: seq<Id>, seen: set<Id>, from: Id, to: Id) {
    Walk(g, p, from, to) && Distinct(p) && forall i :: 0 <= i < |p| ==> p[i] !in seen
  }

  /** x is reachable from ident through family dependencies without passing through a core. */
  ghost predicate Reaches(g: Metadata, ident: Id, x: Id) {
    exists p :: Walk(g, p, ident, x)
  }

  ghost predicate Found(g: Metadata, seen: set<Id>, ident: Id, x: Id) {
    exists p :: SimpleWalk(g, p, seen, ident, x)
  }

  lemma FoundHere(g: Metadata, seen: set<Id>, ident: Id)
    requires ident !in seen
    ensures Found(g, seen, ident, ident)
  {
    assert SimpleWalk(g, [ident], seen, ident, ident);
  }

  lemma FoundThrough(g: Metadata, seen: set<Id>, ident: Id, dep: Id, x: Id)
    requires ident !in seen && Edge(g, ident, dep) && Found(g, seen + {ident}, dep, x)
    ensures Found(g, seen, ident, x)
  {
    var p :| SimpleWalk(g, p, seen + {ident}, dep, x);
    var q := [ident] + p;
    assert forall i :: 1 <= i < |q| ==> q[i] == p[i - 1];
    assert SimpleWalk(g, q, seen, ident, x);
  }

  lemma FoundSplits(g: Metadata, seen: set<Id>, ident: Id, x: Id) returns (dep: Id)
    requires Found(g, seen, ident, x) && x != ident
    ensures ident !in seen && Edge(g, ident, dep) && Found(g, seen + {ident}, dep, x)
  {
    var p :| SimpleWalk(g, p, seen, ident, x);
    dep := p[1];
    var q := p[1..];
    forall i | 0 <= i < |q| - 1
      ensures Edge(g, q[i], q[i + 1])
    {
      assert Edge(g, p[i + 1], p[i + 1 + 1]);
    }
    assert Edge(g, p[0], p[0 + 1]);
    assert SimpleWalk(g, q, seen + {ident}, dep, x);
  }

  /** The path-local search: exact over simple walks that avoid `seen`. */
  method Cores(g: Metadata, ident: Id, seen: set<Id>) returns (r: Option<set<Id>>)
    ensures r.None? <==> exists x :: Found(g, seen, ident, x) && Bad(g, x)
    ensures r.Some? ==> forall x :: x in r.value <==> Found(g, seen, ident, x) && IsCore(g, x)
    decreases g.packages.Keys - seen
  {
    if ident in seen {
      return Some({});
    }
    FoundHere(g, seen, ident);
    if ident !in g.packages {
      return None;
    }
    if g.packages[ident] == "zencodec" {
      assert forall y :: !Edge(g, ident, y);
      CoreIsLeaf(g, seen, ident);
      return Some({ident});
    }
    FamilyMeans(g, ident);
    var deps := NamedDependencies(g, ident, FAMILY);
    if deps.None? {
      return None;
    }
    var seen' := seen + {ident};
    var found: set<Id> := {};
    var todo := deps.value;
    while todo != {}
      invariant todo <= deps.value
      invariant forall dep, x :: dep in deps.value - todo && Found(g, seen', dep, x) ==> !Bad(g, x)
      invariant forall x :: x in found <==>
                  IsCore(g, x) && exists dep :: dep in deps.value - todo && Found(g, seen', dep, x)
      decreases todo
    {
      var dep :| dep in todo;
      var sub := Cores(g, dep, seen');
      if sub.None? {
        ghost var x :| Found(g, seen', dep, x) && Bad(g, x);
        FoundThrough(g, seen, ident, dep, x);
        return None;
      }
      found := found + sub.value;
      todo := todo - {dep};
    }
    FoundAtNode(g, seen, ident, deps.value);
    return Some(found);
  }

  lemma CoreIsLeaf(g: Metadata, seen: set<Id>, ident: Id)
    requires IsCore(g, ident)
    ensures forall x :: Found(g, seen, ident, x) ==> x == ident
  {
    forall x | Found(g, seen, ident, x)
      ensures x == ident
    {
      if x != ident {
        var dep := FoundSplits(g, seen, ident, x);
      }
    }
  }

  lemma FoundAtNode(g: Metadata, seen: set<Id>, ident: Id, deps: set<Id>)
    requires ident !in seen && ident in g.packages && g.packages[ident] != "zencodec"
    requires forall y :: y in deps <==> Edge(g, ident, y)
    ensures forall x :: Found(g, seen, ident, x) <==>
              x == ident || exists dep :: dep in deps && Found(g, seen + {ident}, dep, x)
  {
    FoundHere(g, seen, ident);
    forall x | Found(g, seen, ident, x) && x != ident
      ensures exists dep :: dep in deps && Found(g, seen + {ident}, dep, x)
    {
      var dep := FoundSplits(g, seen, ident, x);
    }
    forall x, dep | dep in deps && Found(g, seen + {ident}, dep, x)
      ensures Found(g, seen, ident, x)
    {
      FoundThrough(g, seen, ident, dep, x);
    }
  }

  // ----- simple walks reach everything that walks reach -----

  lemma {:induction false} Shorten(g: Metadata, p: seq<Id>, from: Id, to: Id)
    requires Walk(g, p, from, to)
    ensures Found(g, {}, from, to)
    decreases |p|
  {
    if Distinct(p) {
      assert SimpleWalk(g, p, {}, from, to);
    } else {
      var i, j :| 0 <= i < j < |p| && p[i] == p[j];
      var q := p[..i] + p[j..];
      forall k | 0 <= k < |q| - 1
        ensures Edge(g, q[k], q[k + 1])
      {
        if k < i - 1 {
          assert Edge(g, p[k], p[k + 1]);
        } else if k == i - 1 {
          assert q[k + 1] == p[j] == p[i];
          assert Edge(g, p[k], p[k + 1]);
        } else {
          assert Edge(g, p[k - i + j], p[k - i + j + 1]);
        }
      }
      Shorten(g, q, from, to);
    }
  }

  /** Although `seen` is local to each path, the search misses nothing that is reachable. */
  lemma FoundIsReachable(g: Metadata, ident: Id, x: Id)
    ensures Found(g, {}, ident, x) <==> Reaches(g, ident, x)
  {
    if Found(g, {}, ident, x) {
      var p :| SimpleWalk(g, p, {}, ident, x);
    }
    if Reaches(g, ident, x) {
      var p :| Walk(g, p, ident, x);
      Shorten(g, p, ident, x);
    }
  }

  /** `cores(ident, set())`: exactly the reachable cores, on any finite graph, cyclic or not. */
  method ReachableCores(g: Metadata, ident: Id) returns (r: Option<set<Id>>)
    ensures r.None? <==> exists x :: Reaches(g, ident, x) && Bad(g, x)
    ensures r.Some? ==> forall x :: x in r.value <==> Reaches(g, ident, x) && IsCore(g, x)
  {
    r := Cores(g, ident, {});
    forall x
      ensures Found(g, {}, ident, x) <==> Reaches(g, ident, x)
    {
      FoundIsReachable(g, ident, x);
    }
  }

  // ----- the check -----

  datatype Mismatch =
    | MultipleCores(ident: Id, cores: set<Id>)
    | CorePixels(core: Id, found: set<Id>)
    | PixelsDisagree(ident: Id, actual: set<Id>, expected: set<Id>)
    | ConverterDisagrees(ident: Id, converter: Id, converted: set<Id>, expected: set<Id>)

  datatype CheckError = KeyError | NoInterfaces

  ghost function ReachedCores(g: Metadata, ident: Id): set<Id> {
    set x | x in g.packages && Reaches(g, ident, x) && IsCore(g, x)
  }

  /** The node's one core uses one pixel package, and the node and its converters use no other. */
  ghost predicate AgreesOn(g: Metadata, ident: Id, core: Id, pixels: set<Id>) {
    && ReachedCores(g, ident) == {core} && Uses(g, core, "zenpixels") == pixels && |pixels| == 1
    && Uses(g, ident, "zenpixels") <= pixels
    && forall c :: c in Uses(g, ident, "zenpixels-convert") ==> Uses(g, c, "zenpixels") == pixels
  }

  ghost predicate Agrees(g: Metadata, ident: Id) {
    ReachedCores(g, ident) == {} || exists core, pixels :: AgreesOn(g, ident, core, pixels)
  }

  /** What a reported mismatch claims really holds in the graph. */
  ghost predicate IsReal(g: Metadata, ident: Id, e: Mismatch) {
    match e
    case MultipleCores(i, cores) => i == ident && cores == ReachedCores(g, ident) && |cores| > 1
    case CorePixels(core, found) =>
      ReachedCores(g, ident) == {core} && Uses(g, core, "zenpixels") == found && |found| != 1
    case PixelsDisagree(i, actual, expected) =>
      && i == ident && Uses(g, ident, "zenpixels") == actual && actual != {} && actual != expected
      && exists core :: ReachedCores(g, ident) == {core} && Uses(g, core, "zenpixels") == expected
    case ConverterDisagrees(i, c, converted, expected) =>
      && i == ident && c in Uses(g, ident, "zenpixels-convert")
      && Uses(g, c, "zenpixels") == converted && converted != expected
      && exists core :: ReachedCores(g, ident) == {core} && Uses(g, core, "zenpixels") == expected
  }

  /**
   Checking the node looks up a missing key: on the way to the cores, or, when there is one core, at the
   core, and when that core uses one pixel package, at the node or one of its converters.
   */
  ghost predicate Raises(g: Metadata, ident: Id) {
    || (exists x :: Reaches(g, ident, x) && Bad(g, x))
    || (exists core :: ReachedCores(g, ident) == {core}
          && (!Resolved(g, core)
              || (|Uses(g, core, "zenpixels")| == 1
                  && (!Resolved(g, ident) || exists c :: c in Uses(g, ident, "zenpixels-convert") && !Resolved(g, c)))))
  }

  lemma {:induction false} ClosedWalk(g: Metadata, p: seq<Id>, from: Id, to: Id)
    requires g.Closed() && from in g.nodes && Walk(g, p, from, to)
    ensures to in g.nodes && !Bad(g, to)
    decreases |p|
  {
    if |p| > 1 {
      var q := p[..|p| - 1];
      assert Edge(g, p[|p| - 2], p[|p| - 2 + 1]);
      forall i | 0 <= i < |q| - 1
        ensures Edge(g, q[i], q[i + 1])
      {
        assert Edge(g, p[i], p[i + 1]);
      }
      ClosedWalk(g, q, from, p[|p| - 2]);
    }
  }

  /** In a closed graph no lookup of the search raises. */
  lemma ClosedNeverBad(g: Metadata, ident: Id)
    requires g.Closed() && ident in g.nodes
    ensures forall x :: Reaches(g, ident, x) ==> x in g.nodes && !Bad(g, x)
  {
    forall x | Reaches(g, ident, x)
      ensures x in g.nodes && !Bad(g, x)
    {
      var p :| Walk(g, p, ident, x);
      ClosedWalk(g, p, ident, x);
    }
  }

  lemma SingletonOf<T>(s: set<T>, x: T)
    requires |s| == 1 && x in s
    ensures s == {x}
  {
    assert |s - {x}| == 0;
    assert s == (s - {x}) + {x};
  }

  /** A subset of one is nothing or all of it. */
  lemma SubsetOfOne<T>(a: set<T>, b: set<T>)
    requires |b| == 1
    ensures a <= b <==> a == {} || a == b
  {
    if a <= b && a != {} {
      var x :| x in a;
      SingletonOf(b, x);
    }
  }

  /** One turn of the loop in `check`: whether the node counts, and its mismatches. */
  method NodeErrors(g: Metadata, ident: Id) returns (r: Option<(bool, seq<Mismatch>)>)
    requires ident in g.nodes
    ensures r.None? <==> Raises(g, ident)
    ensures r.Some? ==> r.value.0 == (ReachedCores(g, ident) != {})
    ensures r.Some? ==> (r.value.1 == [] <==> Agrees(g, ident))
    ensures r.Some? ==> forall e :: e in r.value.1 ==> IsReal(g, ident, e)
  {
    hide NamedDependencies, Resolved, Uses, Reaches, Bad;
    var reached := ReachableCores(g, ident);
    if reached.None? {
      return None;
    }
    var coreIds := reached.value;
    CoresReached(g, ident, coreIds);
    if coreIds == {} {
      return Some((false, []));
    }
    if |coreIds| != 1 {
      return Some((true, [MultipleCores(ident, coreIds)]));
    }
    var core :| core in coreIds;
    SingletonOf(coreIds, core);
    NamedMeans(g, core, "zenpixels");
    var expected :- NamedDependencies(g, core, {"zenpixels"});
    if |expected| != 1 {
      return Some((true, [CorePixels(core, expected)]));
    }
    var errors: seq<Mismatch> := [];
    NamedMeans(g, ident, "zenpixels");
    NamedMeans(g, ident, "zenpixels-convert");
    var actual :- NamedDependencies(g, ident, {"zenpixels"});
    SubsetOfOne(actual, expected);
    if actual != {} && actual != expected {
      errors := [PixelsDisagree(ident, actual, expected)];
    }
    var converters := NamedDependencies(g, ident, {"zenpixels-convert"}).value;
    var todo := converters;
    while todo != {}
      invariant todo <= converters
      invariant forall e :: e in errors ==> IsReal(g, ident, e)
      invariant forall c :: c in converters - todo ==> Resolved(g, c)
      invariant errors == [] <==>
                  actual <= expected && forall c :: c in converters - todo ==> Uses(g, c, "zenpixels") == expected
      decreases todo
    {
      var converter :| converter in todo;
      NamedMeans(g, converter, "zenpixels");
      var converted :- NamedDependencies(g, converter, {"zenpixels"});
      if converted != expected {
        errors := errors + [ConverterDisagrees(ident, converter, converted, expected)];
      }
      todo := todo - {converter};
    }
    assert errors == [] <==> AgreesOn(g, ident, core, expected);
    return Some((true, errors));
  }

  lemma CoresReached(g: Metadata, ident: Id, cores: set<Id>)
    requires forall x :: x in cores <==> Reaches(g, ident, x) && IsCore(g, x)
    ensures cores == ReachedCores(g, ident)
  {
    hide Reaches;
  }

  /** In a closed graph, as cargo prints it, no lookup at all raises. */
  lemma ClosedNeverRaises(g: Metadata, ident: Id)
    requires g.Closed() && ident in g.nodes
    ensures !Raises(g, ident)
  {
    ClosedNeverBad(g, ident);
    assert forall x :: x in g.nodes ==> Resolved(g, x);
    forall core | ReachedCores(g, ident) == {core}
      ensures Resolved(g, core) && Resolved(g, ident)
    {
      assert core in ReachedCores(g, ident);
    }
  }

  ghost function Interfaces(g: Metadata, ids: seq<Id>): nat {
    if ids == [] then 0
    else Interfaces(g, ids[..|ids| - 1]) + if ReachedCores(g, ids[|ids| - 1]) != {} then 1 else 0
  }

  lemma {:induction false} NoInterfacesMeansNone(g: Metadata, ids: seq<Id>)
    ensures Interfaces(g, ids) == 0 <==> forall k :: 0 <= k < |ids| ==> ReachedCores(g, ids[k]) == {}
  {
    if ids != [] {
      hide ReachedCores;
      NoInterfacesMeansNone(g, ids[..|ids| - 1]);
      assert forall k :: 0 <= k < |ids| ==> k == |ids| - 1 || ids[k] == ids[..|ids| - 1][k];
      assert forall k :: 0 <= k < |ids| - 1 ==> ids[k] == ids[..|ids| - 1][k];
    }
  }

  /**
   `check`: no errors exactly when every node that reaches a core agrees with it, every reported
   error is real, and the count is the number of nodes that reach a core. It raises exactly when a node
   looks up a missing key, or when no node reaches a core.
   */
  method Check(g: Metadata) returns (r: Result<(nat, seq<Mismatch>), CheckError>)
    requires g.Ordered()
    ensures r == Err(KeyError) <==> exists k :: 0 <= k < |g.order| && Raises(g, g.order[k])
    ensures r == Err(NoInterfaces) <==>
              forall k :: 0 <= k < |g.order| ==> !Raises(g, g.order[k]) && ReachedCores(g, g.order[k]) == {}
    ensures r.Ok? ==> (r.value.1 == [] <==> forall k :: 0 <= k < |g.order| ==> Agrees(g, g.order[k]))
    ensures r.Ok? ==> forall e :: e in r.value.1 ==> exists k :: 0 <= k < |g.order| && IsReal(g, g.order[k], e)
    ensures r.Ok? ==> r.value.0 == Interfaces(g, g.order) > 0
  {
    hide Agrees, IsReal, ReachedCores, Raises;
    var errors: seq<Mismatch> := [];
    var checked := 0;
    for i := 0 to |g.order|
      invariant checked == Interfaces(g, g.order[..i])
      invariant forall k :: 0 <= k < i ==> !Raises(g, g.order[k])
      invariant errors == [] <==> forall k :: 0 <= k < i ==> Agrees(g, g.order[k])
      invariant forall e :: e in errors ==> exists k :: 0 <= k < i && IsReal(g, g.order[k], e)
    {
      assert g.order[..i + 1][..i] == g.order[..i];
      assert g.order[i] in g.nodes;
      var node := NodeErrors(g, g.order[i]);
      if node.None? {
        return Err(KeyError);
      }
      if node.value.0 {
        checked := checked + 1;
      }
      errors := errors + node.value.1;
    }
    assert g.order[..|g.order|] == g.order;
    NoInterfacesMeansNone(g, g.order);
    if checked == 0 {
      return Err(NoInterfaces);
    }
    return Ok((checked, errors));
  }
}
