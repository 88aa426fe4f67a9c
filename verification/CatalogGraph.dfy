/**
  The change-of-ownership graph: for one zone, an edge leads from each catalog
  to the configured catalog its coo property names.
 */
module CatalogGraph {
  import opened Wrappers
  import opened ByteOrder
  import opened CatalogModel
  import opened Sequences

  datatype GraphError = SelfReference(catalog: Name, zone: Name) | Cycle(zone: Name, through: Name)

  ghost function Edges(catalogs: Catalogs, sources: set<Name>, z: Name): map<Name, Name> {
    map c | c in catalogs && Publishes(catalogs, c, z)
            && MemberOf(catalogs, c, z).coo.Some? && MemberOf(catalogs, c, z).coo.value in sources
          :: MemberOf(catalogs, c, z).coo.value
  }

  function Walk(edges: map<Name, Name>, start: Name, k: nat): Option<Name> {
    if k == 0 then Some(start)
    else match Walk(edges, start, k - 1)
      case None => None
      case Some(c) => if c in edges then Some(edges[c]) else None
  }

  /** The walk from start never comes back to a catalog it has left. */
  ghost predicate NeverRevisits(edges: map<Name, Name>, start: Name) {
    forall i: nat, j: nat | i < j && Walk(edges, start, i).Some? :: Walk(edges, start, i) != Walk(edges, start, j)
  }

  ghost predicate SelfReferential(catalogs: Catalogs, z: Name, c: Name) {
    Publishes(catalogs, c, z) && MemberOf(catalogs, c, z).coo == Some(c)
  }

  ghost predicate ZoneGraphOk(catalogs: Catalogs, sources: set<Name>, z: Name) {
    && (forall c :: !SelfReferential(catalogs, z, c))
    && (forall start | start in Edges(catalogs, sources, z) :: NeverRevisits(Edges(catalogs, sources, z), start))
  }

  ghost predicate GraphOk(catalogs: Catalogs, sources: set<Name>) {
    forall z :: ZoneGraphOk(catalogs, sources, z)
  }

  lemma {:induction false} WalkStaysEnded(edges: map<Name, Name>, start: Name, k: nat, j: nat)
    requires k <= j && Walk(edges, start, k).None?
    ensures Walk(edges, start, j).None?
    decreases j
  {
    if k < j {
      WalkStaysEnded(edges, start, k, j - 1);
    }
  }

  ghost predicate IsTrail(edges: map<Name, Name>, start: Name, trail: seq<Name>) {
    && NoDuplicates(trail)
    && forall i | 0 <= i < |trail| :: Walk(edges, start, i) == Some(trail[i])
  }

  lemma EndedTrail(edges: map<Name, Name>, start: Name, trail: seq<Name>)
    requires IsTrail(edges, start, trail) && Walk(edges, start, |trail|).None?
    ensures NeverRevisits(edges, start)
  {
    forall i: nat, j: nat | i < j && Walk(edges, start, i).Some?
      ensures Walk(edges, start, i) != Walk(edges, start, j)
    {
      if |trail| <= j {
        WalkStaysEnded(edges, start, |trail|, j);
      }
      if |trail| <= i {
        WalkStaysEnded(edges, start, |trail|, i);
      }
    }
  }

  lemma TrailRevisits(edges: map<Name, Name>, start: Name, trail: seq<Name>, name: Name)
    requires IsTrail(edges, start, trail) && Walk(edges, start, |trail|) == Some(name) && name in trail
    ensures !NeverRevisits(edges, start)
  {
    var i :| 0 <= i < |trail| && trail[i] == name;
    assert Walk(edges, start, i) == Walk(edges, start, |trail|);
  }

  lemma TrailGrows(edges: map<Name, Name>, start: Name, trail: seq<Name>, name: Name)
    requires IsTrail(edges, start, trail) && Walk(edges, start, |trail|) == Some(name) && name !in trail
    ensures IsTrail(edges, start, trail + [name]) && Elements(trail + [name]) == Elements(trail) + {name}
    ensures Walk(edges, start, |trail + [name]|) == if name in edges then Some(edges[name]) else None
  {
  }

  method WalkFrom(edges: map<Name, Name>, start: Name) returns (revisited: Option<Name>)
    ensures revisited.None? <==> NeverRevisits(edges, start)
  {
    var seen: set<Name> := {};
    var current := Some(start);
    ghost var trail: seq<Name> := [];
    ghost var unseen := {start} + edges.Values;
    while current.Some?
      invariant current == Walk(edges, start, |trail|)
      invariant IsTrail(edges, start, trail) && seen == Elements(trail)
      invariant current.Some? ==> current.value in unseen + seen
      invariant edges.Values <= unseen + seen
      decreases |unseen|, current.Some?
    {
      var name := current.value;
      if name in seen {
        TrailRevisits(edges, start, trail, name);
        return Some(name);
      }
      TrailGrows(edges, start, trail, name);
      SmallerSet(unseen - {name}, unseen);
      unseen := unseen - {name};
      seen := seen + {name};
      trail := trail + [name];
      current := if name in edges then Some(edges[name]) else None;
    }
    EndedTrail(edges, start, trail);
    return None;
  }

  lemma SmallerSet<T>(a: set<T>, b: set<T>)
    requires a < b
    ensures |a| < |b|
  {
    var x :| x in b && x !in a;
    var rest := b - {x};
    assert a <= rest;
    SubsetSize(a, rest);
  }

  lemma {:induction false} SubsetSize<T>(a: set<T>, b: set<T>)
    requires a <= b
    ensures |a| <= |b|
  {
    if a != {} {
      var x :| x in a;
      SubsetSize(a - {x}, b - {x});
    }
  }

  /** Collects the edges of one zone, in whatever order the catalogs are ranged. */
  method CollectEdges(catalogs: Catalogs, sources: set<Name>, z: Name) returns (r: Result<map<Name, Name>, Name>)
    ensures r.Ok? ==> r.value == Edges(catalogs, sources, z) && forall c :: !SelfReferential(catalogs, z, c)
    ensures r.Err? ==> SelfReferential(catalogs, z, r.error)
  {
    var edges: map<Name, Name> := map[];
    var todo := catalogs.Keys;
    while todo != {}
      invariant todo <= catalogs.Keys
      invariant forall c | c in catalogs.Keys - todo :: !SelfReferential(catalogs, z, c)
      invariant edges == map c | c in Edges(catalogs, sources, z) && c !in todo :: Edges(catalogs, sources, z)[c]
      decreases |todo|
    {
      var c :| c in todo;
      todo := todo - {c};
      if z !in catalogs[c].members || catalogs[c].members[z].coo.None? {
        continue;
      }
      var target := catalogs[c].members[z].coo.value;
      if target == c {
        return Err(c);
      }
      if target in sources {
        edges := edges[c := target];
      }
    }
    return Ok(edges);
  }

  /** Accepts the catalogs exactly when no zone has a self-directed or cyclic change of ownership. */
  method ValidateCatalogGraph(catalogs: Catalogs, sources: set<Name>) returns (error: Option<GraphError>)
    ensures error.None? <==> GraphOk(catalogs, sources)
  {
    var memberZones := set c, z | c in catalogs && z in catalogs[c].members :: z;
    var zones := SortedKeys(memberZones);
    for i := 0 to |zones|
      invariant forall j | 0 <= j < i :: ZoneGraphOk(catalogs, sources, zones[j])
    {
      var z := zones[i];
      var collected := CollectEdges(catalogs, sources, z);
      if collected.Err? {
        assert !ZoneGraphOk(catalogs, sources, z);
        return Some(SelfReference(collected.error, z));
      }
      var edges := collected.value;
      var starts := SortedKeys(edges.Keys);
      for j := 0 to |starts|
        invariant forall l | 0 <= l < j :: NeverRevisits(edges, starts[l])
      {
        var revisited := WalkFrom(edges, starts[j]);
        if revisited.Some? {
          assert starts[j] in Elements(starts);
          assert !ZoneGraphOk(catalogs, sources, z);
          return Some(Cycle(z, revisited.value));
        }
      }
      forall start | start in edges ensures NeverRevisits(edges, start) {
        assert start in Elements(starts);
      }
    }
    forall z ensures ZoneGraphOk(catalogs, sources, z) {
      if z in memberZones {
        assert z in Elements(zones);
      } else {
        assert Edges(catalogs, sources, z) == map[];
      }
    }
    return None;
  }

  // ---------- what acceptance means ----------

  /** For z, catalog c names d as its next owner. */
  ghost predicate NamesNext(catalogs: Catalogs, z: Name, c: Name, d: Name) {
    c in catalogs && z in catalogs[c].members && catalogs[c].members[z].coo == Some(d)
  }

  /** Each catalog of the chain names the next one, and the last is the first again. */
  ghost predicate ClosedChain(catalogs: Catalogs, z: Name, chain: seq<Name>) {
    && |chain| >= 2 && chain[0] == chain[|chain| - 1]
    && forall i, j | 0 <= i < |chain| - 1 && j == i + 1 :: NamesNext(catalogs, z, chain[i], chain[j])
  }

  lemma {:induction false} WalkFollows(catalogs: Catalogs, sources: set<Name>, z: Name, chain: seq<Name>, k: nat)
    requires catalogs.Keys <= sources && ClosedChain(catalogs, z, chain) && k < |chain|
    ensures Walk(Edges(catalogs, sources, z), chain[0], k) == Some(chain[k])
  {
    if k > 0 {
      var i := k - 1;
      WalkFollows(catalogs, sources, z, chain, i);
      assert NamesNext(catalogs, z, chain[i], chain[k]);
      if k < |chain| - 1 {
        assert NamesNext(catalogs, z, chain[k], chain[k + 1]);
      } else {
        assert NamesNext(catalogs, z, chain[0], chain[1]);
      }
    }
  }

  lemma ClosedChainIsRejected(catalogs: Catalogs, sources: set<Name>, z: Name, chain: seq<Name>)
    requires catalogs.Keys <= sources && ClosedChain(catalogs, z, chain)
    ensures !GraphOk(catalogs, sources)
  {
    var edges, last := Edges(catalogs, sources, z), |chain| - 1;
    WalkFollows(catalogs, sources, z, chain, 0);
    WalkFollows(catalogs, sources, z, chain, 1);
    WalkFollows(catalogs, sources, z, chain, last);
    assert Walk(edges, chain[0], 0) == Walk(edges, chain[0], last);
    assert chain[0] in edges && !NeverRevisits(edges, chain[0]);
    assert !ZoneGraphOk(catalogs, sources, z);
  }

  /** The stretch of a walk from its i-th to its j-th catalog. */
  lemma {:induction false} Stretch(catalogs: Catalogs, sources: set<Name>, z: Name, start: Name, i: nat, j: nat)
    returns (chain: seq<Name>)
    requires i <= j && Walk(Edges(catalogs, sources, z), start, j).Some?
    ensures |chain| == j - i + 1
    ensures Walk(Edges(catalogs, sources, z), start, i) == Some(chain[0])
    ensures Walk(Edges(catalogs, sources, z), start, j) == Some(chain[j - i])
    ensures forall k, l | 0 <= k < j - i && l == k + 1 :: NamesNext(catalogs, z, chain[k], chain[l])
  {
    var edges := Edges(catalogs, sources, z);
    if i == j {
      chain := [Walk(edges, start, i).value];
    } else {
      var before := Stretch(catalogs, sources, z, start, i, j - 1);
      chain := before + [Walk(edges, start, j).value];
    }
  }

  lemma RejectedHasClosedChain(catalogs: Catalogs, sources: set<Name>) returns (z: Name, chain: seq<Name>)
    requires !GraphOk(catalogs, sources)
    ensures ClosedChain(catalogs, z, chain)
  {
    z :| !ZoneGraphOk(catalogs, sources, z);
    if c :| SelfReferential(catalogs, z, c) {
      chain := [c, c];
    } else {
      var edges := Edges(catalogs, sources, z);
      var start :| start in edges && !NeverRevisits(edges, start);
      var i: nat, j: nat :| i < j && Walk(edges, start, i).Some? && Walk(edges, start, i) == Walk(edges, start, j);
      chain := Stretch(catalogs, sources, z, start, i, j);
    }
  }

  /** Catalogs are accepted exactly when for no zone a chain of catalogs, each naming the next, closes. */
  lemma GraphOkIff(catalogs: Catalogs, sources: set<Name>)
    requires catalogs.Keys <= sources
    ensures GraphOk(catalogs, sources) <==> forall z, chain :: !ClosedChain(catalogs, z, chain)
  {
    if GraphOk(catalogs, sources) {
      forall z, chain ensures !ClosedChain(catalogs, z, chain) {
        if ClosedChain(catalogs, z, chain) {
          ClosedChainIsRejected(catalogs, sources, z, chain);
        }
      }
    } else {
      var z, chain := RejectedHasClosedChain(catalogs, sources);
    }
  }
}
