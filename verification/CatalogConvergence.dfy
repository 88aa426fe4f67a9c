/**
  Planning and committing the same catalogs over and over.  Each round may hand
  a zone to another catalog, so it is not obvious that the rounds ever stop.
 */
module CatalogConvergence {
  import opened Wrappers
  import opened ByteOrder
  import opened CatalogModel
  import opened Sequences
  import opened CatalogPlan
  import opened CatalogGraph

  function PublishedZones(catalogs: Catalogs): set<Name> {
    set c, z | c in catalogs && z in catalogs[c].members :: z
  }

  ghost function NextOwners(r: Round): Owners {
    map z | z in r.owners.Keys + PublishedZones(r.next) && NextOwner(r, z).Some? :: NextOwner(r, z).value
  }

  lemma NextOwnersAt(r: Round, z: Name)
    ensures OwnerOf(NextOwners(r), z) == NextOwner(r, z)
  {
    match Decide(r, z)
    case Some(a) =>
      if !a.Remove? {
        assert Publishes(r.next, a.catalog, z);
        assert z in PublishedZones(r.next);
      }
    case None =>
  }

  /** Committing the plan's actions one by one is the same as deciding every zone at once. */
  lemma CommittedIsNextOwners(r: Round, actions: seq<Action>, after: Owners)
    requires Committed(r, actions, after)
    ensures after == NextOwners(r)
  {
    forall z ensures OwnerOf(after, z) == OwnerOf(NextOwners(r), z) {
      PlanGivesNextOwner(r, actions, z);
      NextOwnersAt(r, z);
    }
    SameOwners(after, NextOwners(r));
  }

  /** The k-th of a series of rounds in which the catalogs no longer change. */
  ghost function RoundAt(r: Round, k: nat): Round {
    if k == 0 then r
    else Round(r.next, r.next, NextOwners(RoundAt(r, k - 1)), r.order, r.reserved)
  }

  /** The decision on z in round k, were o its owner then. */
  function DecisionAt(r: Round, z: Name, k: nat, o: Option<Ownership>): Option<Action> {
    match o
    case Some(owner) => DecideOwned(if k == 0 then r.previous else r.next, r.next, z, owner)
    case None => DecideUnowned(r.next, r.order, r.reserved, z)
  }

  function Step(r: Round, z: Name, k: nat, o: Option<Ownership>): Option<Ownership> {
    OwnerAfter(o, DecisionAt(r, z, k, o))
  }

  /** The owner of z before round k, followed through the rounds on its own. */
  function OwnerAt(r: Round, z: Name, k: nat): Option<Ownership> {
    if k == 0 then OwnerOf(r.owners, z)
    else Step(r, z, k - 1, OwnerAt(r, z, k - 1))
  }

  lemma DecisionInRound(q: Round, r: Round, z: Name, k: nat, o: Option<Ownership>)
    requires OwnerOf(q.owners, z) == o && q.next == r.next && q.order == r.order && q.reserved == r.reserved
    requires q.previous == if k == 0 then r.previous else r.next
    ensures Decide(q, z) == DecisionAt(r, z, k, o)
    ensures OwnerOf(NextOwners(q), z) == Step(r, z, k, o)
  {
    NextOwnersAt(q, z);
  }

  /** Up to round k, z has had the owners its own decisions give it. */
  ghost predicate AloneUpTo(r: Round, z: Name, k: nat) {
    OwnerOf(RoundAt(r, k).owners, z) == OwnerAt(r, z, k) && (k > 0 ==> AloneUpTo(r, z, k - 1))
  }

  lemma OwnerNextRound(r: Round, z: Name, k: nat, next: nat)
    requires next == k + 1
    ensures OwnerOf(RoundAt(r, next).owners, z) == NextOwner(RoundAt(r, k), z)
  {
    NextOwnersAt(RoundAt(r, k), z);
  }

  lemma NextOwnerAlone(r: Round, z: Name, k: nat, o: Option<Ownership>)
    requires OwnerOf(RoundAt(r, k).owners, z) == o
    ensures NextOwner(RoundAt(r, k), z) == Step(r, z, k, o)
  {
    RoundAtFixed(r, k);
  }

  lemma OneRoundMore(r: Round, z: Name, k: nat, next: nat)
    requires AloneUpTo(r, z, k) && next == k + 1
    ensures AloneUpTo(r, z, next)
  {
    OwnerNextRound(r, z, k, next);
    NextOwnerAlone(r, z, k, OwnerAt(r, z, k));
  }

  lemma AloneAtStart(r: Round, z: Name)
    ensures AloneUpTo(r, z, 0)
  {
  }

  lemma {:induction false} AlwaysAlone(r: Round, z: Name, k: nat)
    ensures AloneUpTo(r, z, k)
  {
    if k == 0 {
      AloneAtStart(r, z);
    } else {
      AlwaysAlone(r, z, k - 1);
      OneRoundMore(r, z, k - 1, k);
    }
  }

  /** Zones never influence one another: each evolves by its own decisions. */
  lemma ZonesEvolveAlone(r: Round, z: Name, k: nat)
    ensures OwnerOf(RoundAt(r, k).owners, z) == OwnerAt(r, z, k)
    ensures Decide(RoundAt(r, k), z) == DecisionAt(r, z, k, OwnerAt(r, z, k))
  {
    AlwaysAlone(r, z, k);
    RoundAtFixed(r, k);
    DecisionInRound(RoundAt(r, k), r, z, k, OwnerAt(r, z, k));
  }

  predicate Settled(r: Round, z: Name, k: nat) {
    DecisionAt(r, z, k, OwnerAt(r, z, k)).None?
  }

  lemma {:induction false} RoundAtFixed(r: Round, k: nat)
    ensures RoundAt(r, k).next == r.next && RoundAt(r, k).order == r.order && RoundAt(r, k).reserved == r.reserved
    ensures RoundAt(r, k).previous == if k == 0 then r.previous else r.next
  {
    if k > 0 {
      RoundAtFixed(r, k - 1);
    }
  }

  lemma {:induction false} StaysSettled(r: Round, z: Name, k: nat, j: nat)
    requires k <= j && Settled(r, z, k)
    ensures Settled(r, z, j) && OwnerAt(r, z, j) == OwnerAt(r, z, k)
    decreases j
  {
    if k < j {
      StaysSettled(r, z, k, j - 1);
    }
  }

  // ---------- handoff chains ----------

  ghost function Handoffs(next: Catalogs, z: Name): map<Name, Name> {
    map c | c in next && Handoff(next, c, z).Some? :: Handoff(next, c, z).value
  }

  /** From c on, the zone is handed over only finitely often. */
  ghost predicate HandoffsEnd(next: Catalogs, z: Name, c: Name) {
    exists n: nat :: Walk(Handoffs(next, z), c, n).None?
  }

  ghost predicate AllHandoffsEnd(next: Catalogs, z: Name) {
    forall c | c in next :: HandoffsEnd(next, z, c)
  }

  lemma {:induction false} RepeatNeverEnds(edges: map<Name, Name>, start: Name, i: nat, j: nat, n: nat)
    requires i < j && Walk(edges, start, i).Some? && Walk(edges, start, i) == Walk(edges, start, j)
    ensures Walk(edges, start, n).Some?
    decreases n
  {
    if n <= j {
      if Walk(edges, start, n).None? {
        WalkStaysEnded(edges, start, n, j);
      }
    } else {
      RepeatNeverEnds(edges, start, i, j, n - (j - i));
      ShiftWalk(edges, start, i, j, n - j);
    }
  }

  lemma {:induction false} ShiftWalk(edges: map<Name, Name>, start: Name, i: nat, j: nat, m: nat)
    requires Walk(edges, start, i) == Walk(edges, start, j)
    ensures Walk(edges, start, i + m) == Walk(edges, start, j + m)
  {
    if m > 0 {
      ShiftWalk(edges, start, i, j, m - 1);
    }
  }

  ghost function Visited(edges: map<Name, Name>, start: Name, k: nat): set<Name> {
    var here := match Walk(edges, start, k) case None => {} case Some(c) => {c};
    if k == 0 then here else Visited(edges, start, k - 1) + here
  }

  lemma {:induction false} VisitedExactly(edges: map<Name, Name>, start: Name, k: nat, c: Name)
    ensures c in Visited(edges, start, k) ==> exists i: nat :: i <= k && Walk(edges, start, i) == Some(c)
    ensures forall i: nat | i <= k && Walk(edges, start, i) == Some(c) :: c in Visited(edges, start, k)
  {
    if Walk(edges, start, k) == Some(c) {
      assert c in Visited(edges, start, k);
    } else if k > 0 {
      VisitedExactly(edges, start, k - 1, c);
      assert c in Visited(edges, start, k) <==> c in Visited(edges, start, k - 1);
    }
  }

  /** A walk that has not ended and never repeats has visited one catalog per step. */
  lemma WalkLengthBounded(edges: map<Name, Name>, start: Name, k: nat, all: set<Name>)
    requires NeverRevisits(edges, start) && Walk(edges, start, k).Some?
    requires {start} + edges.Values <= all
    ensures Visited(edges, start, k) <= all && |Visited(edges, start, k)| == k + 1 && k < |all|
  {
    FreshUpTo(edges, start, k);
    FreshWalkSize(edges, start, k);
    VisitedWithin(edges, start, k, all);
    SubsetSize(Visited(edges, start, k), all);
  }

  /** Each of the first k steps leads to a catalog not visited before it. */
  ghost predicate Fresh(edges: map<Name, Name>, start: Name, k: nat) {
    k == 0 ||
    (Fresh(edges, start, k - 1)
     && (Walk(edges, start, k).Some? ==> Walk(edges, start, k).value !in Visited(edges, start, k - 1)))
  }

  lemma {:induction false} FreshUpTo(edges: map<Name, Name>, start: Name, k: nat)
    requires NeverRevisits(edges, start)
    ensures Fresh(edges, start, k)
  {
    if k > 0 {
      FreshUpTo(edges, start, k - 1);
      if Walk(edges, start, k).Some? {
        NewlyVisited(edges, start, k, Walk(edges, start, k).value);
      }
    }
  }

  lemma {:induction false} FreshWalkSize(edges: map<Name, Name>, start: Name, k: nat)
    requires Fresh(edges, start, k) && Walk(edges, start, k).Some?
    ensures |Visited(edges, start, k)| == k + 1
  {
    var c := Walk(edges, start, k).value;
    if k == 0 {
      assert Visited(edges, start, 0) == {start};
    } else {
      FreshWalkSize(edges, start, k - 1);
      assert Visited(edges, start, k) == Visited(edges, start, k - 1) + {c};
    }
  }

  lemma {:induction false} VisitedWithin(edges: map<Name, Name>, start: Name, k: nat, all: set<Name>)
    requires start in all && forall c | c in edges :: edges[c] in all
    ensures Visited(edges, start, k) <= all
  {
    if k > 0 {
      VisitedWithin(edges, start, k - 1, all);
    }
  }

  lemma NewlyVisited(edges: map<Name, Name>, start: Name, k: nat, c: Name)
    requires NeverRevisits(edges, start) && k > 0 && Walk(edges, start, k) == Some(c)
    ensures c !in Visited(edges, start, k - 1)
  {
    VisitedExactly(edges, start, k - 1, c);
  }

  lemma HandoffsThatEndNeverRevisit(next: Catalogs, z: Name, c: Name)
    requires HandoffsEnd(next, z, c)
    ensures NeverRevisits(Handoffs(next, z), c)
  {
    var edges := Handoffs(next, z);
    var n: nat :| Walk(edges, c, n).None?;
    forall i: nat, j: nat | i < j && Walk(edges, c, i).Some? ensures Walk(edges, c, i) != Walk(edges, c, j) {
      if Walk(edges, c, i) == Walk(edges, c, j) {
        RepeatNeverEnds(edges, c, i, j, n);
      }
    }
  }

  // ---------- the rounds end ----------

  ghost predicate OwnedCurrently(r: Round, z: Name, k: nat, c: Name) {
    && k > 0 && Publishes(r.next, c, z)
    && OwnerAt(r, z, k) == Some(Ownership(c, MemberOf(r.next, c, z).uniqueLabel))
  }

  lemma AtRest(r: Round, z: Name, k: nat, c: Name)
    requires OwnedCurrently(r, z, k, c) && Handoff(r.next, c, z).None?
    ensures Settled(r, z, k)
  {
  }

  lemma HandedOver(r: Round, z: Name, k: nat, c: Name, d: Name)
    requires OwnedCurrently(r, z, k, c) && Handoff(r.next, c, z) == Some(d)
    ensures OwnedCurrently(r, z, k + 1, d)
  {
    assert OwnerAt(r, z, k + 1) == Step(r, z, k, OwnerAt(r, z, k));
  }

  /** c is the i-th catalog of a finite chain of handoffs from start. */
  ghost predicate OnChain(next: Catalogs, z: Name, start: Name, i: nat, c: Name) {
    start in next && HandoffsEnd(next, z, start) && Walk(Handoffs(next, z), start, i) == Some(c)
  }

  lemma ChainStarts(next: Catalogs, z: Name, c: Name)
    requires AllHandoffsEnd(next, z) && c in next
    ensures OnChain(next, z, c, 0, c)
    ensures Handoff(next, c, z).Some? ==> OnChain(next, z, c, 1, Handoff(next, c, z).value)
  {
    ChainBounded(next, z, c, 0, c);
  }

  lemma ChainBounded(next: Catalogs, z: Name, start: Name, i: nat, c: Name)
    requires OnChain(next, z, start, i, c)
    ensures i < |next|
    ensures Handoff(next, c, z).Some? ==> OnChain(next, z, start, i + 1, Handoff(next, c, z).value)
  {
    var edges := Handoffs(next, z);
    HandoffsThatEndNeverRevisit(next, z, start);
    assert {start} + edges.Values <= next.Keys;
    WalkLengthBounded(edges, start, i, next.Keys);
  }

  lemma {:induction false} TransfersEnd(r: Round, z: Name, start: Name, i: nat, c: Name, k: nat, last: nat)
    requires OnChain(r.next, z, start, i, c) && OwnedCurrently(r, z, k, c)
    requires last - k == |r.next| - 1 - i
    ensures Settled(r, z, last)
    decreases |r.next| - i
  {
    ChainBounded(r.next, z, start, i, c);
    match Handoff(r.next, c, z)
    case None =>
      AtRest(r, z, k, c);
      StaysSettled(r, z, k, last);
    case Some(d) =>
      HandedOver(r, z, k, c, d);
      TransfersEnd(r, z, start, i + 1, d, k + 1, last);
  }

  lemma Added(r: Round, z: Name, k: nat, a: Action)
    requires OwnerAt(r, z, k).None? && DecideUnowned(r.next, r.order, r.reserved, z) == Some(a)
    ensures OwnedCurrently(r, z, k + 1, a.catalog)
  {
    assert OwnerAt(r, z, k + 1) == Step(r, z, k, None);
  }

  lemma AddedSettles(r: Round, z: Name, k: nat, c: Name, last: nat)
    requires AllHandoffsEnd(r.next, z) && OwnedCurrently(r, z, k, c) && last == k + |r.next| - 1
    ensures Settled(r, z, last)
  {
    ChainStarts(r.next, z, c);
    TransfersEnd(r, z, c, 0, c, k, last);
  }

  lemma UnownedSettles(r: Round, z: Name, k: nat, last: nat)
    requires AllHandoffsEnd(r.next, z) && OwnerAt(r, z, k).None? && last == k + |r.next|
    ensures Settled(r, z, last)
  {
    var decision := DecideUnowned(r.next, r.order, r.reserved, z);
    if decision.None? {
      assert Settled(r, z, k);
      StaysSettled(r, z, k, last);
    } else {
      Added(r, z, k, decision.value);
      AddedSettles(r, z, k + 1, decision.value.catalog, last);
    }
  }

  lemma TransferredFirst(r: Round, z: Name, c: Name, d: Name)
    requires OwnerOf(r.owners, z).Some? && r.owners[z].catalog == c && Handoff(r.next, c, z) == Some(d)
    ensures OwnedCurrently(r, z, 1, d)
  {
    assert OwnerAt(r, z, 1) == Step(r, z, 0, OwnerAt(r, z, 0));
  }

  lemma FirstTransferSettles(r: Round, z: Name, c: Name, d: Name)
    requires AllHandoffsEnd(r.next, z) && OwnerOf(r.owners, z).Some? && r.owners[z].catalog == c
    requires Handoff(r.next, c, z) == Some(d)
    ensures Settled(r, z, |r.next| + 1)
  {
    ChainStarts(r.next, z, c);
    ChainBounded(r.next, z, c, 1, d);
    TransferredFirst(r, z, c, d);
    TransfersEnd(r, z, c, 1, d, 1, |r.next| - 1);
    StaysSettled(r, z, |r.next| - 1, |r.next| + 1);
  }

  lemma KeptSettles(r: Round, z: Name, c: Name)
    requires OwnerOf(r.owners, z).Some? && r.owners[z].catalog == c
    requires Publishes(r.next, c, z) && Handoff(r.next, c, z).None?
    ensures Settled(r, z, 1)
  {
    assert OwnerAt(r, z, 1) == Step(r, z, 0, OwnerAt(r, z, 0));
  }

  lemma OwnedSettles(r: Round, z: Name)
    requires AllHandoffsEnd(r.next, z)
    requires z in r.owners
    ensures Settled(r, z, |r.next| + 1)
  {
    var c := r.owners[z].catalog;
    match Handoff(r.next, c, z)
    case Some(d) => FirstTransferSettles(r, z, c, d);
    case None =>
      if Publishes(r.next, c, z) {
        KeptSettles(r, z, c);
        StaysSettled(r, z, 1, |r.next| + 1);
      } else {
        assert OwnerAt(r, z, 1) == Step(r, z, 0, OwnerAt(r, z, 0)) == None;
        UnownedSettles(r, z, 1, |r.next| + 1);
      }
  }

  /**
    Repeated planning settles a zone, whatever the ownership it starts from and
    the catalogs last accepted, exactly when no catalog starts an endless chain
    of handoffs; and then |next| + 1 rounds are enough.
   */
  lemma SettlesIffHandoffsEnd(next: Catalogs, order: seq<Name>, reserved: set<Name>, z: Name)
    ensures (forall previous, owners :: Settled(Round(previous, next, owners, order, reserved), z, |next| + 1))
            <==> AllHandoffsEnd(next, z)
  {
    if AllHandoffsEnd(next, z) {
      forall previous, owners ensures Settled(Round(previous, next, owners, order, reserved), z, |next| + 1) {
        var r := Round(previous, next, owners, order, reserved);
        if z in owners {
          OwnedSettles(r, z);
        } else {
          UnownedSettles(r, z, 0, |next|);
          StaysSettled(r, z, |next|, |next| + 1);
        }
      }
    } else {
      var c :| c in next && !HandoffsEnd(next, z, c);
      var r := Round(next, next, map[z := Ownership(c, "")], order, reserved);
      EndlessHandoffsNeverSettle(r, z, c, |next| + 1);
    }
  }

  lemma {:induction false} EndlessHandoffsNeverSettle(r: Round, z: Name, c: Name, k: nat)
    requires z in r.owners && r.owners[z].catalog == c && !HandoffsEnd(r.next, z, c)
    ensures !Settled(r, z, k)
    ensures OwnerAt(r, z, k).Some?
    ensures Some(OwnerAt(r, z, k).value.catalog) == Walk(Handoffs(r.next, z), c, k)
  {
    var edges := Handoffs(r.next, z);
    assert Walk(edges, c, k + 1).Some? && Walk(edges, c, k).Some?;
    if k > 0 {
      EndlessHandoffsNeverSettle(r, z, c, k - 1);
      HandsOver(r, z, k - 1, Walk(edges, c, k).value);
    }
    HandsOver(r, z, k, Walk(edges, c, k + 1).value);
  }

  lemma HandsOver(r: Round, z: Name, k: nat, d: Name)
    requires OwnerAt(r, z, k).Some? && Handoff(r.next, OwnerAt(r, z, k).value.catalog, z) == Some(d)
    ensures !Settled(r, z, k)
    ensures OwnerAt(r, z, k + 1).Some? && OwnerAt(r, z, k + 1).value.catalog == d
  {
  }

  // ---------- the accepted catalogs ----------

  lemma {:induction false} HandoffWalkFollowsCoo(next: Catalogs, sources: set<Name>, z: Name, c: Name, k: nat)
    requires next.Keys <= sources && Walk(Handoffs(next, z), c, k).Some?
    ensures Walk(Edges(next, sources, z), c, k) == Walk(Handoffs(next, z), c, k)
  {
    if k > 0 {
      HandoffWalkFollowsCoo(next, sources, z, c, k - 1);
    }
  }

  lemma GraphOkHandoffsEnd(next: Catalogs, sources: set<Name>, z: Name, c: Name)
    requires next.Keys <= sources && ZoneGraphOk(next, sources, z) && c in next
    ensures HandoffsEnd(next, z, c)
  {
    var edges := Handoffs(next, z);
    if Walk(edges, c, |next|).Some? {
      forall i: nat, j: nat | i < j && Walk(edges, c, i).Some? ensures Walk(edges, c, i) != Walk(edges, c, j) {
        if Walk(edges, c, j).Some? {
          HandoffWalkFollowsCoo(next, sources, z, c, i);
          HandoffWalkFollowsCoo(next, sources, z, c, j);
          if c !in Edges(next, sources, z) {
            WalkStaysEnded(Edges(next, sources, z), c, 1, j);
          }
        }
      }
      assert {c} + edges.Values <= next.Keys;
      WalkLengthBounded(edges, c, |next|, next.Keys);
    }
  }

  /**
    The convergence theorem.  Once the graph check accepts the catalogs, round
    |next| + 1 and every later round plans nothing but conflict reports, and
    ownership has stopped changing.
   */
  lemma AcceptedCatalogsConverge(r: Round, sources: set<Name>, k: nat, actions: seq<Action>)
    requires r.next.Keys <= sources && GraphOk(r.next, sources)
    requires k > |r.next| && IsPlan(RoundAt(r, k), actions)
    ensures forall a | a in actions :: a.Conflict?
    ensures RoundAt(r, k).owners == RoundAt(r, |r.next| + 1).owners
  {
    forall z
      ensures Settled(r, z, k)
      ensures OwnerOf(RoundAt(r, k).owners, z) == OwnerOf(RoundAt(r, |r.next| + 1).owners, z)
    {
      assert ZoneGraphOk(r.next, sources, z);
      forall c | c in r.next ensures HandoffsEnd(r.next, z, c) {
        GraphOkHandoffsEnd(r.next, sources, z, c);
      }
      SettlesIffHandoffsEnd(r.next, r.order, r.reserved, z);
      assert r == Round(r.previous, r.next, r.owners, r.order, r.reserved);
      StaysSettled(r, z, |r.next| + 1, k);
      ZonesEvolveAlone(r, z, k);
      ZonesEvolveAlone(r, z, |r.next| + 1);
    }
    forall a | a in actions ensures a.Conflict? {
      assert Planned(RoundAt(r, k), a);
      assert Settled(r, a.zone, k);
      ZonesEvolveAlone(r, a.zone, k);
    }
    SameOwners(RoundAt(r, k).owners, RoundAt(r, |r.next| + 1).owners);
  }

  lemma SameOwners(a: Owners, b: Owners)
    requires forall z :: OwnerOf(a, z) == OwnerOf(b, z)
    ensures a == b
  {
    forall z ensures z in a <==> z in b {
      assert OwnerOf(a, z) == OwnerOf(b, z);
    }
    forall z | z in a ensures a[z] == b[z] {
      assert OwnerOf(a, z) == OwnerOf(b, z);
    }
  }

  // ---------- serials do not matter ----------

  /** The same catalogs with the same members; serials may differ. */
  ghost predicate SameMembers(a: Catalogs, b: Catalogs) {
    a.Keys == b.Keys && forall c | c in a :: a[c].members == b[c].members
  }

  ghost predicate SameUpToSerials(q: Round, r: Round) {
    && SameMembers(q.previous, r.previous) && SameMembers(q.next, r.next)
    && q.owners == r.owners && q.order == r.order && q.reserved == r.reserved
  }

  lemma {:induction false} FirstPublisherIgnoresSerials(a: Catalogs, b: Catalogs, order: seq<Name>, z: Name)
    requires SameMembers(a, b)
    ensures FirstPublisher(a, order, z) == FirstPublisher(b, order, z)
  {
    if order != [] {
      FirstPublisherIgnoresSerials(a, b, order[1..], z);
    }
  }

  lemma DecisionIgnoresSerials(q: Round, r: Round, z: Name)
    requires SameUpToSerials(q, r)
    ensures Decide(q, z) == Decide(r, z) && ClaimOn(q, z) == ClaimOn(r, z)
  {
    FirstPublisherIgnoresSerials(q.next, r.next, q.order, z);
  }

  /** A plan depends on the members of the catalogs, never on their serials. */
  lemma PlanIgnoresSerials(q: Round, r: Round, actions: seq<Action>)
    requires SameUpToSerials(q, r)
    ensures IsPlan(q, actions) <==> IsPlan(r, actions)
  {
    forall a ensures Planned(q, a) <==> Planned(r, a) {
      DecisionIgnoresSerials(q, r, a.zone);
    }
  }

  // ---------- the bound is attained ----------

  /** A zone whose catalogs each hand it to the next one in the list. */
  function Chain(order: seq<Name>, z: Name): Catalogs {
    map c | c in order :: Catalog(0, map[z := ChainMember(order, Rank(order, c))])
  }

  function ChainMember(order: seq<Name>, i: nat): Member {
    Member([], [], if i + 1 < |order| then Some(order[i + 1]) else None, map[])
  }

  lemma {:induction false} RankInList(order: seq<Name>, i: nat)
    requires NoDuplicates(order) && i < |order|
    ensures Rank(order, order[i]) == i
  {
    if i > 0 {
      assert order[0] != order[i] && order[1..][i - 1] == order[i];
      RankInList(order[1..], i - 1);
    }
  }

  lemma ChainHandsOn(order: seq<Name>, z: Name, i: nat)
    requires NoDuplicates(order) && i < |order|
    ensures Publishes(Chain(order, z), order[i], z)
    ensures MemberOf(Chain(order, z), order[i], z) == ChainMember(order, i)
    ensures Handoff(Chain(order, z), order[i], z) == if i + 1 < |order| then Some(order[i + 1]) else None
  {
    RankInList(order, i);
    if i + 1 < |order| {
      assert order[i + 1] in order;
    }
  }

  ghost predicate LeadsOn(edges: map<Name, Name>, order: seq<Name>, i: nat)
    requires i < |order|
  {
    if i + 1 < |order| then order[i] in edges && edges[order[i]] == order[i + 1] else order[i] !in edges
  }

  lemma ChainEdge(order: seq<Name>, sources: set<Name>, z: Name, i: nat)
    requires NoDuplicates(order) && Elements(order) <= sources && i < |order|
    ensures LeadsOn(Edges(Chain(order, z), sources, z), order, i)
  {
    ChainHandsOn(order, z, i);
    assert i + 1 < |order| ==> order[i + 1] in Elements(order);
  }

  lemma {:induction false} ChainWalk(order: seq<Name>, edges: map<Name, Name>, i: nat, k: nat)
    requires i < |order| && forall j | 0 <= j < |order| :: LeadsOn(edges, order, j)
    ensures Walk(edges, order[i], k) == if i + k < |order| then Some(order[i + k]) else None
  {
    if k > 0 {
      ChainWalk(order, edges, i, k - 1);
      assert i + k - 1 < |order| ==> LeadsOn(edges, order, i + k - 1);
    }
  }

  lemma ListNeverRevisits(order: seq<Name>, edges: map<Name, Name>, i: nat)
    requires NoDuplicates(order) && i < |order| && forall j | 0 <= j < |order| :: LeadsOn(edges, order, j)
    ensures NeverRevisits(edges, order[i])
  {
    var trail := order[i..];
    forall k | 0 <= k < |trail| ensures Walk(edges, order[i], k) == Some(trail[k]) {
      ChainWalk(order, edges, i, k);
    }
    ChainWalk(order, edges, i, |trail|);
    EndedTrail(edges, order[i], trail);
  }

  lemma ChainAccepted(order: seq<Name>, sources: set<Name>, z: Name)
    requires NoDuplicates(order) && Elements(order) <= sources
    ensures GraphOk(Chain(order, z), sources)
  {
    var next := Chain(order, z);
    forall y ensures ZoneGraphOk(next, sources, y) {
      var edges := Edges(next, sources, y);
      forall c ensures !SelfReferential(next, y, c) {
        if Publishes(next, c, y) {
          var i :| 0 <= i < |order| && order[i] == c;
          ChainHandsOn(order, z, i);
        }
      }
      forall start | start in edges ensures NeverRevisits(edges, start) {
        var i :| 0 <= i < |order| && order[i] == start;
        ChainNeverRevisits(order, sources, z, i);
      }
    }
  }

  lemma ChainNeverRevisits(order: seq<Name>, sources: set<Name>, z: Name, i: nat)
    requires NoDuplicates(order) && Elements(order) <= sources && i < |order|
    ensures NeverRevisits(Edges(Chain(order, z), sources, z), order[i])
  {
    var edges := Edges(Chain(order, z), sources, z);
    forall j | 0 <= j < |order| ensures LeadsOn(edges, order, j) {
      ChainEdge(order, sources, z, j);
    }
    ListNeverRevisits(order, edges, i);
  }

  lemma LostOwnerLeaves(r: Round, z: Name)
    requires z in r.owners && !Publishes(r.next, r.owners[z].catalog, z)
    ensures !Settled(r, z, 0) && OwnerAt(r, z, 1) == None
  {
    assert OwnerAt(r, z, 1) == Step(r, z, 0, OwnerAt(r, z, 0));
  }

  lemma ChainIsJoined(order: seq<Name>, z: Name)
    requires NoDuplicates(order) && order != []
    ensures DecideUnowned(Chain(order, z), order, {}, z) == Some(Add(z, order[0], []))
  {
    ChainHandsOn(order, z, 0);
    assert FirstPublisher(Chain(order, z), order, z) == Some(order[0]);
  }

  /** A round over a chain in which z starts with a lost owner. */
  ghost predicate StartsLost(r: Round, order: seq<Name>, z: Name) {
    && NoDuplicates(order) && r.next == Chain(order, z) && r.order == order && r.reserved == {}
    && z in r.owners && !Publishes(r.next, r.owners[z].catalog, z)
  }

  /** In round k + 2 the zone, first removed and then added, has reached catalog k. */
  lemma {:induction false} ChainOwner(order: seq<Name>, z: Name, r: Round, k: nat)
    requires StartsLost(r, order, z) && k < |order|
    ensures OwnedCurrently(r, z, k + 2, order[k])
  {
    if k == 0 {
      LostOwnerLeaves(r, z);
      ChainIsJoined(order, z);
      Added(r, z, 1, Add(z, order[0], []));
    } else {
      ChainOwner(order, z, r, k - 1);
      ChainHandsOn(order, z, k - 1);
      HandedOver(r, z, k + 1, order[k - 1], order[k]);
    }
  }

  lemma {:induction false} CountNames(order: seq<Name>)
    requires NoDuplicates(order)
    ensures |Elements(order)| == |order|
  {
    if order != [] {
      var init, last := order[..|order| - 1], order[|order| - 1];
      CountNames(init);
      assert order == init + [last];
      assert Elements(order) == Elements(init) + {last};
      assert last !in Elements(init);
    }
  }

  lemma LongChainUnsettled(order: seq<Name>, z: Name, r: Round, k: nat, last: nat)
    requires StartsLost(r, order, z) && k + 2 == |order| == last
    ensures !Settled(r, z, last)
  {
    ChainOwner(order, z, r, k);
    ChainHandsOn(order, z, k);
    HandsOver(r, z, last, order[k + 1]);
  }

  lemma UnownedUnsettled(r: Round, z: Name, k: nat)
    requires OwnerAt(r, z, k).None? && DecideUnowned(r.next, r.order, r.reserved, z).Some?
    ensures !Settled(r, z, k)
  {
  }

  lemma ChainUnsettled(order: seq<Name>, z: Name, r: Round)
    requires StartsLost(r, order, z)
    ensures !Settled(r, z, |order|)
  {
    if |order| >= 2 {
      LongChainUnsettled(order, z, r, |order| - 2, |order|);
    } else {
      LostOwnerLeaves(r, z);
      if |order| == 1 {
        ChainIsJoined(order, z);
        UnownedUnsettled(r, z, 1);
      }
    }
  }

  /**
    The bound is attained, whatever catalogs there are: along a chain of hand-offs through
    all of them, a zone with a lost owner is still unsettled |next| rounds later.
   */
  lemma BoundIsTight(order: seq<Name>, z: Name, lost: Name)
    requires NoDuplicates(order) && lost !in order
    ensures var next := Chain(order, z);
            var r := Round(next, next, map[z := Ownership(lost, [])], order, {});
            && next.Keys == Elements(order) && |next| == |order| && GraphOk(next, Elements(order))
            && !Settled(r, z, |order|) && Settled(r, z, |order| + 1)
  {
    var next := Chain(order, z);
    var r := Round(next, next, map[z := Ownership(lost, [])], order, {});
    CountNames(order);
    assert next.Keys == Elements(order) && |next| == |next.Keys|;
    ChainAccepted(order, Elements(order), z);
    ChainUnsettled(order, z, r);
    forall c | c in next ensures HandoffsEnd(next, z, c) {
      assert ZoneGraphOk(next, Elements(order), z);
      GraphOkHandoffsEnd(next, Elements(order), z, c);
    }
    OwnedSettles(r, z);
  }
}
