/**
  What a plan contains, field by field of the catalogs it comes from: when each of
  the six kinds of action is due, in which order they come, and what they change.
 */
module CatalogOutcomes {
  import opened Wrappers
  import opened ByteOrder
  import opened CatalogModel
  import opened CatalogPlan
  import opened CatalogRuntime

  // ---------- when an action is due ----------

  /** The owner still publishes z and names d, which publishes it too. */
  ghost predicate Offers(next: Catalogs, c: Name, z: Name, d: Name) {
    && c in next && z in next[c].members && next[c].members[z].coo == Some(d)
    && d != c && d in next && z in next[d].members
  }

  ghost predicate OffersNobody(next: Catalogs, c: Name, z: Name) {
    forall d :: !Offers(next, c, z, d)
  }

  /** A transfer is due for exactly the zones whose owner offers them, and resets the zone if its label changes. */
  lemma TransferDueIff(r: Round, actions: seq<Action>, a: Action)
    requires IsPlan(r, actions) && a.Transfer?
    ensures a in actions <==>
              && a.zone in r.owners && r.owners[a.zone] == Ownership(a.from, a.previousLabel)
              && Offers(r.next, a.from, a.zone, a.catalog)
              && a.uniqueLabel == r.next[a.catalog].members[a.zone].uniqueLabel
              && a.resetState == (a.previousLabel != a.uniqueLabel)
  {
  }

  /** A removal is due for exactly the zones that their owner no longer publishes. */
  lemma RemoveDueIff(r: Round, actions: seq<Action>, a: Action)
    requires IsPlan(r, actions) && a.Remove?
    ensures a in actions <==>
              && a.zone in r.owners && r.owners[a.zone] == Ownership(a.from, a.previousLabel)
              && (a.from in r.next ==> a.zone !in r.next[a.from].members)
  {
  }

  /** A recreation is due for exactly the zones that stay with their owner under another label. */
  lemma RecreateDueIff(r: Round, actions: seq<Action>, a: Action)
    requires IsPlan(r, actions) && a.Recreate?
    ensures a in actions <==>
              && a.zone in r.owners && r.owners[a.zone] == Ownership(a.catalog, a.previousLabel)
              && a.catalog in r.next && a.zone in r.next[a.catalog].members
              && OffersNobody(r.next, a.catalog, a.zone)
              && a.uniqueLabel == r.next[a.catalog].members[a.zone].uniqueLabel
              && a.uniqueLabel != a.previousLabel
  {
    NobodyIffNoHandoff(r.next, a.catalog, a.zone);
  }

  lemma NobodyIffNoHandoff(next: Catalogs, c: Name, z: Name)
    ensures OffersNobody(next, c, z) <==> Handoff(next, c, z).None?
  {
    match Handoff(next, c, z)
    case Some(d) => assert Offers(next, c, z, d);
    case None =>
  }

  /**
    A reconfiguration is due for exactly the zones that stay with their owner under the
    same label, and whose member differs from the one before in more than its
    change-of-ownership property.
   */
  lemma ReconfigureDueIff(r: Round, actions: seq<Action>, a: Action)
    requires IsPlan(r, actions) && a.Reconfigure?
    ensures a in actions <==>
              && a.zone in r.owners && r.owners[a.zone] == Ownership(a.catalog, a.previousLabel)
              && a.catalog in r.next && a.zone in r.next[a.catalog].members
              && OffersNobody(r.next, a.catalog, a.zone)
              && a.uniqueLabel == a.previousLabel == r.next[a.catalog].members[a.zone].uniqueLabel
              && a.catalog in r.previous && a.zone in r.previous[a.catalog].members
              && var now, before := r.next[a.catalog].members[a.zone], r.previous[a.catalog].members[a.zone];
                 before.(coo := now.coo) != now
  {
    NobodyIffNoHandoff(r.next, a.catalog, a.zone);
  }

  /** c is the first catalog of the order to publish z. */
  ghost predicate PublishesFirst(r: Round, c: Name, z: Name) {
    exists k :: 0 <= k < |r.order| && r.order[k] == c && c in r.next && z in r.next[c].members
                && forall j | 0 <= j < k :: r.order[j] in r.next ==> z !in r.next[r.order[j]].members
  }

  lemma {:induction false} FirstPublisherIff(next: Catalogs, order: seq<Name>, z: Name, c: Name)
    ensures FirstPublisher(next, order, z) == Some(c) <==>
              exists k :: 0 <= k < |order| && order[k] == c && c in next && z in next[c].members
                          && forall j | 0 <= j < k :: order[j] in next ==> z !in next[order[j]].members
  {
    if order != [] {
      var rest := order[1..];
      if Publishes(next, order[0], z) {
        assert order[0] == c ==> (0 <= 0 < |order| && order[0] == c && c in next && z in next[c].members);
      } else {
        FirstPublisherIff(next, rest, z, c);
        if FirstPublisher(next, rest, z) == Some(c) {
          var k :| 0 <= k < |rest| && rest[k] == c && c in next && z in next[c].members
                   && forall j | 0 <= j < k :: rest[j] in next ==> z !in next[rest[j]].members;
          assert order[k + 1] == c;
          assert forall j | 0 < j < k + 1 :: order[j] == rest[j - 1];
        }
        if k :| 0 <= k < |order| && order[k] == c && c in next && z in next[c].members
                && forall j | 0 <= j < k :: order[j] in next ==> z !in next[order[j]].members {
          assert k > 0 && rest[k - 1] == c;
          assert forall j | 0 <= j < k - 1 :: rest[j] == order[j + 1];
        }
      }
    }
  }

  /** An addition is due for exactly the unowned, unreserved zones, by the first catalog to publish them. */
  lemma AddDueIff(r: Round, actions: seq<Action>, a: Action)
    requires IsPlan(r, actions) && a.Add?
    ensures a in actions <==>
              && a.zone !in r.owners && a.zone !in r.reserved && PublishesFirst(r, a.catalog, a.zone)
              && a.uniqueLabel == r.next[a.catalog].members[a.zone].uniqueLabel
  {
    FirstPublisherIff(r.next, r.order, a.zone, a.catalog);
  }

  /** Who has a claim to z in this round: its owner, or whom that offers it to; the operator; the first publisher. */
  ghost predicate Claims(r: Round, z: Name, claim: Claim) {
    if z in r.owners then
      && claim.ByCatalog?
      && (Offers(r.next, r.owners[z].catalog, z, claim.name)
          || (claim.name == r.owners[z].catalog && OffersNobody(r.next, r.owners[z].catalog, z)))
    else if z in r.reserved then claim == ByOperator
    else claim.ByCatalog? && PublishesFirst(r, claim.name, z)
  }

  lemma ClaimsIff(r: Round, z: Name, claim: Claim)
    ensures Claims(r, z, claim) <==> ClaimOn(r, z) == Some(claim)
  {
    if z in r.owners {
      NobodyIffNoHandoff(r.next, r.owners[z].catalog, z);
    } else if claim.ByCatalog? {
      FirstPublisherIff(r.next, r.order, z, claim.name);
    }
  }

  /**
    A conflict is reported to exactly the catalogs that publish a zone another has a claim
    to, unless they are just giving it away or name the claimant themselves.
   */
  lemma ConflictDueIff(r: Round, actions: seq<Action>, a: Action)
    requires IsPlan(r, actions) && a.Conflict?
    ensures a in actions <==>
              && a.catalog in r.next && a.zone in r.next[a.catalog].members
              && Claims(r, a.zone, a.claimedBy) && a.claimedBy != ByCatalog(a.catalog)
              && !(a.zone in r.owners && r.owners[a.zone].catalog == a.catalog)
              && !(a.claimedBy.ByCatalog? && r.next[a.catalog].members[a.zone].coo == Some(a.claimedBy.name))
  {
    ClaimsIff(r, a.zone, a.claimedBy);
    if a.zone in r.owners {
      NobodyIffNoHandoff(r.next, r.owners[a.zone].catalog, a.zone);
    }
  }

  // ---------- the order of the actions ----------

  /** Transfers, removals, recreations, reconfigurations, additions and conflict reports, one kind after the other. */
  lemma KindsFollowEachOther(r: Round, actions: seq<Action>, i: nat, j: nat)
    requires IsPlan(r, actions) && i < j < |actions|
    ensures var a, b := actions[i], actions[j];
      && (b.Transfer? ==> a.Transfer?)
      && (b.Remove? ==> a.Transfer? || a.Remove?)
      && (b.Recreate? ==> a.Transfer? || a.Remove? || a.Recreate?)
      && (b.Reconfigure? ==> !a.Add? && !a.Conflict?)
      && (b.Add? ==> !a.Conflict?)
  {
    assert Before(r.order, actions[i], actions[j]);
  }

  /** Within a kind zones ascend; conflict reports on one zone follow the catalog order. */
  lemma ZonesAscendWithinKinds(r: Round, actions: seq<Action>, i: nat, j: nat)
    requires IsPlan(r, actions) && i < j < |actions|
    requires actions[i].Conflict? <==> actions[j].Conflict?
    requires !actions[i].Conflict? ==>
               || (actions[i].Transfer? && actions[j].Transfer?) || (actions[i].Remove? && actions[j].Remove?)
               || (actions[i].Recreate? && actions[j].Recreate?) || (actions[i].Add? && actions[j].Add?)
               || (actions[i].Reconfigure? && actions[j].Reconfigure?)
    ensures var a, b := actions[i], actions[j];
      || Less(a.zone, b.zone)
      || (a.Conflict? && a.zone == b.zone && NotAfter(r.order, a.catalog, b.catalog))
  {
    assert Before(r.order, actions[i], actions[j]);
    if !actions[i].Conflict? && actions[i].zone == actions[j].zone {
      OneActionPerZone(r, actions, i, j);
    } else if actions[i].zone == actions[j].zone {
      RankedNotAfter(r.order, actions[i].catalog, actions[j].catalog);
    }
  }

  /** No place of d in the order comes before every place of c; outside the order, names ascend. */
  ghost predicate NotAfter(order: seq<Name>, c: Name, d: Name) {
    if d in order then exists k :: 0 <= k < |order| && order[k] == c && d !in order[..k + 1]
    else c in order || Less(c, d)
  }

  lemma {:induction false} RankIsFirst(order: seq<Name>, c: Name)
    ensures Rank(order, c) < |order| <==> c in order
    ensures c !in order[..Rank(order, c)]
  {
    if order != [] && order[0] != c {
      RankIsFirst(order[1..], c);
      assert order[..Rank(order, c)] == [order[0]] + order[1..][..Rank(order[1..], c)];
    }
  }

  lemma RankedNotAfter(order: seq<Name>, c: Name, d: Name)
    requires Rank(order, c) < Rank(order, d) || (Rank(order, c) == Rank(order, d) && Less(c, d))
    ensures NotAfter(order, c, d)
  {
    RankIsFirst(order, c);
    RankIsFirst(order, d);
    LessIrreflexive(c);
    if d in order {
      var k := Rank(order, c);
      assert k < Rank(order, d) && order[k] == c;
      assert order[..k + 1] == order[..Rank(order, d)][..k + 1];
    }
  }

  // ---------- what the actions change ----------

  /** A planned change of a zone's configuration discards its data exactly if the zone gets another label. */
  lemma ResetIffLabelChanges(r: Round, actions: seq<Action>, a: Action)
    requires IsPlan(r, actions) && a in actions && !a.Conflict?
    ensures ChangeFor(a) ==
              if a.Remove? then Withdraw(a.zone)
              else Upsert(a.zone, a.zone in r.owners && r.owners[a.zone].uniqueLabel != a.uniqueLabel)
  {
    assert Planned(r, a);
  }

  /** The batch asks for exactly one change of each zone with an action of its own. */
  lemma BatchIs(r: Round, actions: seq<Action>, change: Change)
    requires IsPlan(r, actions)
    ensures change in ChangesFor(actions) <==>
              exists a :: a in actions && !a.Conflict? && change ==
                if a.Remove? then Withdraw(a.zone)
                else Upsert(a.zone, a.zone in r.owners && r.owners[a.zone].uniqueLabel != a.uniqueLabel)
  {
    ChangesExactly(actions);
    forall a | a in actions && !a.Conflict?
      ensures ChangeFor(a) ==
                if a.Remove? then Withdraw(a.zone)
                else Upsert(a.zone, a.zone in r.owners && r.owners[a.zone].uniqueLabel != a.uniqueLabel)
    {
      ResetIffLabelChanges(r, actions, a);
    }
  }

  /** The owned zones that lose their data: no longer owned, or under another label. */
  ghost function Losing(before: Owners, after: Owners): set<Name> {
    set z | z in before && (z !in after || after[z].uniqueLabel != before[z].uniqueLabel)
  }

  ghost predicate LosesZone(r: Round, a: Action) {
    && !a.Conflict? && a.zone in r.owners
    && (a.Remove? || r.owners[a.zone].uniqueLabel != a.uniqueLabel)
  }

  lemma DestructiveIff(r: Round, a: Action)
    requires Planned(r, a)
    ensures IsDestructive(a) <==> LosesZone(r, a)
  {
  }

  ghost function ZonesLost(r: Round, actions: seq<Action>): set<Name> {
    set a | a in actions && LosesZone(r, a) :: a.zone
  }

  lemma {:induction false} CountDestructiveIs(r: Round, actions: seq<Action>, n: nat)
    requires IsPlan(r, actions) && n <= |actions|
    ensures CountDestructive(actions[..n]) == |ZonesLost(r, actions[..n])|
  {
    if n == 0 {
      assert ZonesLost(r, actions[..0]) == {};
    } else {
      var k := n - 1;
      CountDestructiveIs(r, actions, k);
      assert actions[..n][..k] == actions[..k] && actions[..n] == actions[..k] + [actions[k]];
      assert Planned(r, actions[k]);
      DestructiveIff(r, actions[k]);
      var before, z := ZonesLost(r, actions[..k]), actions[k].zone;
      if LosesZone(r, actions[k]) {
        OnceLost(r, actions, k);
        assert ZonesLost(r, actions[..n]) == before + {z};
      } else {
        assert ZonesLost(r, actions[..n]) == before;
      }
    }
  }

  lemma OnceLost(r: Round, actions: seq<Action>, k: nat)
    requires IsPlan(r, actions) && k < |actions| && LosesZone(r, actions[k])
    ensures actions[k].zone !in ZonesLost(r, actions[..k])
  {
    if a :| a in actions[..k] && LosesZone(r, a) && a.zone == actions[k].zone {
      var i :| 0 <= i < k && actions[i] == a;
      OneActionPerZone(r, actions, i, k);
    }
  }

  /** What operator approval is asked for: the number of owned zones that lose their data. */
  lemma DestructiveCountsLosses(r: Round, actions: seq<Action>, after: Owners)
    requires Committed(r, actions, after)
    ensures CountDestructive(actions) == |Losing(r.owners, after)|
  {
    CountDestructiveIs(r, actions, |actions|);
    assert actions[..|actions|] == actions;
    forall z ensures z in ZonesLost(r, actions) <==> z in Losing(r.owners, after) {
      LostIff(r, actions, after, z);
    }
    assert ZonesLost(r, actions) == Losing(r.owners, after);
  }

  lemma LostIff(r: Round, actions: seq<Action>, after: Owners, z: Name)
    requires Committed(r, actions, after)
    ensures z in ZonesLost(r, actions) <==> z in Losing(r.owners, after)
  {
    PlanGivesNextOwner(r, actions, z);
    if a :| a in actions && LosesZone(r, a) && a.zone == z {
      assert Planned(r, a);
    }
    if z in Losing(r.owners, after) {
      assert Decide(r, z).Some?;
      var a := Decide(r, z).value;
      assert a.zone == z && Planned(r, a) && LosesZone(r, a);
    }
  }
}
