/**
  The planning pass itself: three loops over shared maps, followed by a sort.
  It is proved to produce exactly the plan CatalogPlan describes zone by zone.
 */
module CatalogPlanner {
  import opened Wrappers
  import opened ByteOrder
  import opened CatalogModel
  import opened Sequences
  import opened CatalogPlan

  datatype PlanError = DuplicateInOrder(name: Name) | ReservedAndOwned(zone: Name)

  // ---------- catalog precedence ----------

  function Selected(configured: seq<Name>, keys: set<Name>): (s: seq<Name>)
    ensures Elements(s) == Elements(configured) * keys
  {
    if configured == [] then []
    else
      var last := configured[|configured| - 1];
      var init := configured[..|configured| - 1];
      assert configured == init + [last];
      assert Elements(configured) == Elements(init) + {last};
      var tail := if last in keys then [last] else [];
      assert Elements(Selected(init, keys) + tail) == Elements(Selected(init, keys)) + Elements(tail);
      Selected(init, keys) + (if last in keys then [last] else [])
  }

  /** Configured catalogs in their given order, then the others by name. */
  ghost function CatalogOrder(keys: set<Name>, configured: seq<Name>): (s: seq<Name>)
    ensures Elements(s) == keys
  {
    var rest := SortedList(keys - Elements(configured));
    assert Elements(Selected(configured, keys) + rest) == Elements(Selected(configured, keys)) + Elements(rest);
    Selected(configured, keys) + rest
  }

  lemma OneMoreName(configured: seq<Name>, i: nat, keys: set<Name>)
    requires i < |configured|
    ensures Elements(configured[..i + 1]) == Elements(configured[..i]) + {configured[i]}
    ensures Selected(configured[..i + 1], keys)
         == Selected(configured[..i], keys) + if configured[i] in keys then [configured[i]] else []
    ensures NoDuplicates(configured[..i]) && configured[i] !in Elements(configured[..i]) ==>
              NoDuplicates(configured[..i + 1])
  {
    assert configured[..i + 1] == configured[..i] + [configured[i]];
    assert configured[..i + 1][..i] == configured[..i];
  }

  method OrderedCatalogNames(catalogs: Catalogs, configured: seq<Name>) returns (r: Result<seq<Name>, Name>)
    ensures r.Ok? <==> NoDuplicates(configured)
    ensures r.Ok? ==> r.value == CatalogOrder(catalogs.Keys, configured)
  {
    var names: seq<Name> := [];
    var seen: set<Name> := {};
    for i := 0 to |configured|
      invariant NoDuplicates(configured[..i]) && seen == Elements(configured[..i])
      invariant names == Selected(configured[..i], catalogs.Keys)
    {
      var name := configured[i];
      if name in seen {
        var j :| 0 <= j < i && configured[j] == name;
        return Err(name);
      }
      OneMoreName(configured, i, catalogs.Keys);
      seen := seen + {name};
      if name in catalogs {
        names := names + [name];
      }
    }
    assert configured[..|configured|] == configured;
    var remaining := SortedKeys(catalogs.Keys - seen);
    SortedUnique(remaining, SortedList(catalogs.Keys - seen));
    return Ok(names + remaining);
  }

  lemma {:induction false} SelectedNoDuplicates(configured: seq<Name>, keys: set<Name>)
    requires NoDuplicates(configured)
    ensures NoDuplicates(Selected(configured, keys))
  {
    if configured != [] {
      var init := configured[..|configured| - 1];
      var last := configured[|configured| - 1];
      SelectedNoDuplicates(init, keys);
      forall i | 0 <= i < |Selected(init, keys)| ensures Selected(init, keys)[i] != last {
        assert Selected(init, keys)[i] in Elements(Selected(init, keys));
        assert Selected(init, keys)[i] in init;
      }
    }
  }

  lemma {:induction false} SelectedInOrder(configured: seq<Name>, keys: set<Name>, i: nat, j: nat)
    returns (k: nat, l: nat)
    requires i < j < |Selected(configured, keys)|
    ensures k < l < |configured|
    ensures configured[k] == Selected(configured, keys)[i] && configured[l] == Selected(configured, keys)[j]
  {
    var n, init := |configured| - 1, configured[..|configured| - 1];
    if j < |Selected(init, keys)| {
      k, l := SelectedInOrder(init, keys, i, j);
    } else {
      l := n;
      assert Selected(init, keys)[i] in Elements(Selected(init, keys));
      assert Selected(init, keys)[i] in Elements(init);
      k :| 0 <= k < n && init[k] == Selected(init, keys)[i];
    }
  }

  /** Configured catalogs stand as configured, before all others; those ascend. */
  lemma CatalogOrderIs(keys: set<Name>, configured: seq<Name>, i: nat, j: nat)
    requires NoDuplicates(configured) && i < j < |CatalogOrder(keys, configured)|
    ensures var s := CatalogOrder(keys, configured);
      && s[i] in keys && s[j] in keys
      && if s[j] in configured
         then exists k, l :: 0 <= k < l < |configured| && configured[k] == s[i] && configured[l] == s[j]
         else s[i] in configured || Less(s[i], s[j])
  {
    var s, chosen := CatalogOrder(keys, configured), Selected(configured, keys);
    assert s[i] in Elements(s) && s[j] in Elements(s);
    var rest := SortedList(keys - Elements(configured));
    if j < |chosen| {
      var k, l := SelectedInOrder(configured, keys, i, j);
      assert configured[k] == s[i] && configured[l] == s[j];
    } else {
      assert s[j] == rest[j - |chosen|] && s[j] in Elements(rest);
      if i < |chosen| {
        assert s[i] in Elements(chosen);
      } else {
        assert s[i] == rest[i - |chosen|];
      }
    }
  }

  lemma CatalogOrderNoDuplicates(keys: set<Name>, configured: seq<Name>)
    requires NoDuplicates(configured)
    ensures NoDuplicates(CatalogOrder(keys, configured))
  {
    SelectedNoDuplicates(configured, keys);
    var first := Selected(configured, keys);
    var rest := SortedList(keys - Elements(configured));
    forall i, j | 0 <= i < |first| && 0 <= j < |rest| ensures first[i] != rest[j] {
      assert first[i] in Elements(first);
      assert rest[j] in Elements(rest);
    }
    forall i, j | 0 <= i < j < |rest| ensures rest[i] != rest[j] {
      assert Less(rest[i], rest[j]);
      LessIrreflexive(rest[i]);
    }
  }

  // ---------- sorting the actions ----------

  ghost predicate DistinctKeys(actions: seq<Action>) {
    forall i, j | 0 <= i < j < |actions| :: !SameKey(actions[i], actions[j])
  }

  lemma InsertInOrder(order: seq<Name>, s: seq<Action>, k: nat, a: Action)
    requires InOrder(order, s) && k <= |s|
    requires forall i | 0 <= i < |s| :: !SameKey(a, s[i])
    requires forall j | k <= j < |s| :: Before(order, a, s[j])
    requires k > 0 ==> !Before(order, a, s[k - 1])
    ensures InOrder(order, InsertAt(s, k, a))
  {
    forall j | 0 <= j < k ensures Before(order, s[j], a) {
      BeforeIsStrictOrder(order, a, s[k - 1], a);
      BeforeIsStrictOrder(order, s[j], s[k - 1], a);
    }
  }

  method SortActions(actions: seq<Action>, order: seq<Name>) returns (sorted: seq<Action>)
    requires DistinctKeys(actions)
    ensures InOrder(order, sorted) && |sorted| == |actions|
    ensures forall a :: a in sorted <==> a in actions
  {
    sorted := [];
    for i := 0 to |actions|
      invariant InOrder(order, sorted) && |sorted| == i
      invariant forall a :: a in sorted <==> a in actions[..i]
    {
      var a := actions[i];
      var k := |sorted|;
      while k > 0 && Before(order, a, sorted[k - 1])
        invariant 0 <= k <= |sorted|
        invariant forall j | k <= j < |sorted| :: Before(order, a, sorted[j])
      {
        k := k - 1;
      }
      forall j | 0 <= j < |sorted| ensures !SameKey(a, sorted[j]) {
        assert sorted[j] in actions[..i];
      }
      assert actions[..i + 1] == actions[..i] + [a];
      InsertInOrder(order, sorted, k, a);
      InsertElements(sorted, k, a);
      sorted := InsertAt(sorted, k, a);
    }
    assert actions[..|actions|] == actions;
  }

  // ---------- the three passes ----------

  function MovedOwner(r: Round, z: Name): Ownership
    requires z in r.owners
  {
    match Handoff(r.next, r.owners[z].catalog, z)
    case Some(d) => Ownership(d, MemberOf(r.next, d, z).uniqueLabel)
    case None => r.owners[z]
  }

  predicate Moves(r: Round, z: Name) {
    z in r.owners && Handoff(r.next, r.owners[z].catalog, z).Some?
  }

  /** State of the transfer pass once the zones in done have been visited. */
  ghost predicate TransferPhase(r: Round, done: set<Name>, owners: Owners, handled: set<Name>,
                                transferredFrom: map<Name, Name>, actions: seq<Action>) {
    && owners.Keys == r.owners.Keys
    && (forall z | z in owners :: owners[z] == if z in done then MovedOwner(r, z) else r.owners[z])
    && (forall z :: z in handled <==> z in done && Moves(r, z))
    && transferredFrom.Keys == handled
    && (forall z | z in transferredFrom :: transferredFrom[z] == r.owners[z].catalog)
    && (forall a :: a in actions <==> a.Transfer? && a.zone in done && Planned(r, a))
    && DistinctKeys(actions)
  }

  lemma NextInSorted(zones: seq<Name>, i: nat)
    requires Sorted(zones) && i < |zones|
    ensures zones[i] !in Elements(zones[..i])
    ensures Elements(zones[..i + 1]) == Elements(zones[..i]) + {zones[i]}
  {
    if zones[i] in zones[..i] {
      var j :| 0 <= j < i && zones[j] == zones[i];
      SortedDistinct(zones, i, j);
    }
    assert zones[..i + 1] == zones[..i] + [zones[i]];
  }

  lemma TransferPlanned(r: Round, done: set<Name>, z: Name, owners: Owners, handled: set<Name>,
                        transferredFrom: map<Name, Name>, actions: seq<Action>, a: Action)
    requires z in r.owners && z !in done && TransferPhase(r, done, owners, handled, transferredFrom, actions)
    requires a.Transfer? && a.zone == z && a.from == r.owners[z].catalog && Moves(r, z) && Planned(r, a)
    requires MovedOwner(r, z) == Ownership(a.catalog, a.uniqueLabel)
    ensures TransferPhase(r, done + {z}, owners[z := Ownership(a.catalog, a.uniqueLabel)], handled + {z},
                          transferredFrom[z := a.from], actions + [a])
  {
  }

  method TransferVisit(ghost r: Round, ghost done: set<Name>, next: Catalogs, z: Name, owners0: Owners,
                       handled0: set<Name>, transferredFrom0: map<Name, Name>, actions0: seq<Action>)
    returns (owners: Owners, handled: set<Name>, transferredFrom: map<Name, Name>, actions: seq<Action>)
    requires next == r.next && z in r.owners && z !in done
    requires TransferPhase(r, done, owners0, handled0, transferredFrom0, actions0)
    ensures TransferPhase(r, done + {z}, owners, handled, transferredFrom, actions)
  {
    owners, handled, transferredFrom, actions := owners0, handled0, transferredFrom0, actions0;
    var owner := owners[z];
    if owner.catalog !in next || z !in next[owner.catalog].members {
      return;
    }
    var oldMember := next[owner.catalog].members[z];
    if oldMember.coo.None? {
      return;
    }
    var destination := oldMember.coo.value;
    if !Publishes(next, destination, z) || destination == owner.catalog {
      return;
    }
    var newMember := MemberOf(next, destination, z);
    var transfer := Transfer(z, destination, owner.catalog, newMember.uniqueLabel, owner.uniqueLabel,
                             owner.uniqueLabel != newMember.uniqueLabel);
    TransferPlanned(r, done, z, owners, handled, transferredFrom, actions, transfer);
    actions := actions + [transfer];
    owners := owners[z := Ownership(destination, newMember.uniqueLabel)];
    transferredFrom := transferredFrom[z := owner.catalog];
    handled := handled + {z};
  }

  method TransferPass(ghost r: Round, next: Catalogs, ownership: Owners)
    returns (owners: Owners, handled: set<Name>, transferredFrom: map<Name, Name>, actions: seq<Action>)
    requires next == r.next && ownership == r.owners
    ensures TransferPhase(r, r.owners.Keys, owners, handled, transferredFrom, actions)
  {
    owners, handled, transferredFrom, actions := ownership, {}, map[], [];
    var zones := SortedKeys(ownership.Keys);
    for i := 0 to |zones|
      invariant TransferPhase(r, Elements(zones[..i]), owners, handled, transferredFrom, actions)
    {
      NextInSorted(zones, i);
      assert zones[i] in Elements(zones);
      owners, handled, transferredFrom, actions :=
        TransferVisit(r, Elements(zones[..i]), next, zones[i], owners, handled, transferredFrom, actions);
    }
    assert zones[..|zones|] == zones;
  }

  /** State of the retain-or-remove pass once the zones in done have been visited. */
  ghost predicate RetainPhase(r: Round, done: set<Name>, handled: set<Name>, actions: seq<Action>) {
    && (forall z :: z in handled <==> Moves(r, z) || z in done)
    && (forall a :: a in actions <==>
          Planned(r, a) && a.zone in r.owners && !a.Conflict? && (a.Transfer? || a.zone in done))
    && DistinctKeys(actions)
  }

  method RetainVisit(ghost r: Round, ghost done: set<Name>, previous: Catalogs, next: Catalogs,
                     z: Name, owner: Ownership,
                     handled0: set<Name>, actions0: seq<Action>)
    returns (handled: set<Name>, actions: seq<Action>)
    requires next == r.next && previous == r.previous && z in r.owners && z !in done && owner == MovedOwner(r, z)
    requires RetainPhase(r, done, handled0, actions0)
    ensures RetainPhase(r, done + {z}, handled, actions)
  {
    handled, actions := handled0, actions0;
    if z in handled {
      return;
    }
    if !Publishes(next, owner.catalog, z) {
      actions := actions + [Remove(z, owner.catalog, owner.uniqueLabel)];
      handled := handled + {z};
      return;
    }
    var nextMember := MemberOf(next, owner.catalog, z);
    if owner.uniqueLabel != nextMember.uniqueLabel {
      actions := actions + [Recreate(z, owner.catalog, nextMember.uniqueLabel, owner.uniqueLabel)];
    } else if Publishes(previous, owner.catalog, z)
        && !MembersEqual(MemberOf(previous, owner.catalog, z), nextMember) {
      actions := actions + [Reconfigure(z, owner.catalog, nextMember.uniqueLabel, owner.uniqueLabel)];
    }
    handled := handled + {z};
  }

  method RetainPass(ghost r: Round, previous: Catalogs, next: Catalogs, owners: Owners,
                    handled0: set<Name>, ghost transferredFrom: map<Name, Name>, actions0: seq<Action>)
    returns (handled: set<Name>, actions: seq<Action>)
    requires next == r.next && previous == r.previous
    requires TransferPhase(r, r.owners.Keys, owners, handled0, transferredFrom, actions0)
    ensures RetainPhase(r, r.owners.Keys, handled, actions)
  {
    handled, actions := handled0, actions0;
    var zones := SortedKeys(owners.Keys);
    for i := 0 to |zones|
      invariant RetainPhase(r, Elements(zones[..i]), handled, actions)
    {
      NextInSorted(zones, i);
      assert zones[i] in Elements(zones);
      handled, actions :=
        RetainVisit(r, Elements(zones[..i]), previous, next, zones[i], owners[zones[i]], handled, actions);
    }
    assert zones[..|zones|] == zones;
  }

  ghost predicate RecordsMoves(r: Round, transferredFrom: map<Name, Name>) {
    && (forall z | Moves(r, z) :: z in transferredFrom)
    && (forall z | z in transferredFrom :: Moves(r, z) && transferredFrom[z] == r.owners[z].catalog)
  }

  predicate AddedSoFar(r: Round, visited: set<(Name, Name)>, z: Name) {
    && z !in r.owners && z !in r.reserved
    && var first := FirstPublisher(r.next, r.order, z);
       first.Some? && (first.value, z) in visited
  }

  /** State of the add-or-conflict pass once the catalog-member pairs in visited have been seen. */
  ghost predicate AddPhase(r: Round, visited: set<(Name, Name)>, handled: set<Name>,
                           claimed: map<Name, Claim>, actions: seq<Action>) {
    && (forall z :: z in handled <==> z in r.owners || AddedSoFar(r, visited, z))
    && (forall z :: z in claimed <==> z in r.owners || z in r.reserved || AddedSoFar(r, visited, z))
    && (forall z | z in claimed :: ClaimOn(r, z) == Some(claimed[z]))
    && (forall a :: a in actions <==>
          Planned(r, a) && (a.Add? || a.Conflict? ==> (a.catalog, a.zone) in visited))
    && DistinctKeys(actions)
  }

  function InitialClaims(owners: Owners, reserved: set<Name>): map<Name, Claim> {
    map z | z in owners.Keys + reserved :: if z in reserved then ByOperator else ByCatalog(owners[z].catalog)
  }

  lemma AddPhaseStarts(r: Round, owners: Owners, handled0: set<Name>, handled: set<Name>,
                       transferredFrom: map<Name, Name>, actions0: seq<Action>, actions: seq<Action>)
    requires r.owners.Keys !! r.reserved
    requires TransferPhase(r, r.owners.Keys, owners, handled0, transferredFrom, actions0)
    requires RetainPhase(r, r.owners.Keys, handled, actions)
    ensures AddPhase(r, {}, handled, InitialClaims(owners, r.reserved), actions)
    ensures RecordsMoves(r, transferredFrom)
  {
    forall a | Planned(r, a) && !a.Add? && !a.Conflict? ensures a.zone in r.owners {
    }
  }

  predicate AddedBy(r: Round, c: Name, z: Name) {
    z !in r.owners && z !in r.reserved && FirstPublisher(r.next, r.order, z) == Some(c)
  }

  lemma NothingPlanned(r: Round, visited: set<(Name, Name)>, c: Name, z: Name,
                       handled: set<Name>, claimed: map<Name, Claim>, actions: seq<Action>)
    requires AddPhase(r, visited, handled, claimed, actions)
    requires !Clashes(r, c, z) && !AddedBy(r, c, z)
    ensures AddPhase(r, visited + {(c, z)}, handled, claimed, actions)
  {
    forall y ensures AddedSoFar(r, visited + {(c, z)}, y) <==> AddedSoFar(r, visited, y) {
    }
  }

  lemma ConflictIsPlanned(r: Round, c: Name, z: Name, claim: Claim)
    requires Clashes(r, c, z) && ClaimOn(r, z) == Some(claim)
    ensures Planned(r, Conflict(z, c, claim)) && !AddedBy(r, c, z)
  {
  }

  lemma ConflictPlanned(r: Round, visited: set<(Name, Name)>, c: Name, z: Name,
                        handled: set<Name>, claimed: map<Name, Claim>, actions: seq<Action>, claim: Claim)
    requires AddPhase(r, visited, handled, claimed, actions) && (c, z) !in visited
    requires Clashes(r, c, z) && ClaimOn(r, z) == Some(claim)
    ensures AddPhase(r, visited + {(c, z)}, handled, claimed, actions + [Conflict(z, c, claim)])
  {
    ConflictIsPlanned(r, c, z, claim);
    forall y ensures AddedSoFar(r, visited + {(c, z)}, y) <==> AddedSoFar(r, visited, y) {
    }
    forall a | Planned(r, a) && (a.Add? || a.Conflict?) && (a.catalog, a.zone) == (c, z)
      ensures a == Conflict(z, c, claim)
    {
    }
  }

  lemma AddPlanned(r: Round, visited: set<(Name, Name)>, c: Name, z: Name,
                   handled: set<Name>, claimed: map<Name, Claim>, actions: seq<Action>)
    requires AddPhase(r, visited, handled, claimed, actions) && (c, z) !in visited
    requires Publishes(r.next, c, z) && AddedBy(r, c, z)
    ensures AddPhase(r, visited + {(c, z)}, handled + {z}, claimed[z := ByCatalog(c)],
                     actions + [Add(z, c, MemberOf(r.next, c, z).uniqueLabel)])
  {
    forall y ensures AddedSoFar(r, visited + {(c, z)}, y) <==> y == z || AddedSoFar(r, visited, y) {
    }
    assert Planned(r, Add(z, c, MemberOf(r.next, c, z).uniqueLabel));
  }

  method VisitMember(ghost r: Round, ghost visited: set<(Name, Name)>, next: Catalogs,
                     transferredFrom: map<Name, Name>, c: Name, z: Name,
                     handled0: set<Name>, claimed0: map<Name, Claim>, actions0: seq<Action>)
    returns (handled: set<Name>, claimed: map<Name, Claim>, actions: seq<Action>)
    requires next == r.next && Publishes(next, c, z) && (c, z) !in visited
    requires r.owners.Keys !! r.reserved
    requires RecordsMoves(r, transferredFrom)
    requires AddPhase(r, visited, handled0, claimed0, actions0)
    requires var first := FirstPublisher(r.next, r.order, z);
             first.Some? && (first.value == c || (first.value, z) in visited)
    ensures AddPhase(r, visited + {(c, z)}, handled, claimed, actions)
  {
    handled, claimed, actions := handled0, claimed0, actions0;
    var member := MemberOf(next, c, z);
    if z in handled {
      if z in transferredFrom && transferredFrom[z] == c {
        NothingPlanned(r, visited, c, z, handled, claimed, actions);
        return;
      }
      if z in claimed && claimed[z] != ByCatalog(c) {
        if member.coo.Some? && claimed[z] == ByCatalog(member.coo.value) {
          NothingPlanned(r, visited, c, z, handled, claimed, actions);
          return;
        }
        ConflictPlanned(r, visited, c, z, handled, claimed, actions, claimed[z]);
        actions := actions + [Conflict(z, c, claimed[z])];
        return;
      }
      NothingPlanned(r, visited, c, z, handled, claimed, actions);
      return;
    }
    if z in claimed {
      if claimed[z] != ByCatalog(c) {
        ConflictPlanned(r, visited, c, z, handled, claimed, actions, claimed[z]);
        actions := actions + [Conflict(z, c, claimed[z])];
        return;
      }
      NothingPlanned(r, visited, c, z, handled, claimed, actions);
      return;
    }
    AddPlanned(r, visited, c, z, handled, claimed, actions);
    actions := actions + [Add(z, c, member.uniqueLabel)];
    claimed := claimed[z := ByCatalog(c)];
    handled := handled + {z};
  }

  lemma {:induction false} FirstPublisherPrecedes(next: Catalogs, order: seq<Name>, z: Name, i: nat)
    requires i < |order| && Publishes(next, order[i], z)
    ensures FirstPublisher(next, order, z).Some?
    ensures FirstPublisher(next, order, z).value in order[..i + 1]
  {
    if !Publishes(next, order[0], z) {
      FirstPublisherPrecedes(next, order[1..], z, i - 1);
      assert order[..i + 1] == [order[0]] + order[1..][..i];
    } else {
      assert order[..i + 1][0] == order[0];
    }
  }

  /** One catalog's turn in the third loop. */
  method AddCatalog(ghost r: Round, ghost visited0: set<(Name, Name)>, next: Catalogs, order: seq<Name>, i: nat,
                    transferredFrom: map<Name, Name>, handled0: set<Name>, claimed0: map<Name, Claim>,
                    actions0: seq<Action>)
    returns (handled: set<Name>, claimed: map<Name, Claim>, actions: seq<Action>, ghost visited: set<(Name, Name)>)
    requires next == r.next && order == r.order && NoDuplicates(order) && Elements(order) == next.Keys && i < |order|
    requires r.owners.Keys !! r.reserved
    requires RecordsMoves(r, transferredFrom)
    requires AddPhase(r, visited0, handled0, claimed0, actions0)
    requires forall c, z :: (c, z) in visited0 <==> c in order[..i] && Publishes(next, c, z)
    ensures AddPhase(r, visited, handled, claimed, actions)
    ensures forall c, z :: (c, z) in visited <==> c in order[..i] + [order[i]] && Publishes(next, c, z)
  {
    handled, claimed, actions, visited := handled0, claimed0, actions0, visited0;
    var c := order[i];
    assert c in Elements(order);
    assert c !in order[..i];
    assert order[..i + 1] == order[..i] + [c];
    var zones := SortedKeys(next[c].members.Keys);
    for j := 0 to |zones|
      invariant forall c', z :: (c', z) in visited <==>
                  (c' in order[..i] && Publishes(next, c', z)) || (c' == c && z in Elements(zones[..j]))
      invariant AddPhase(r, visited, handled, claimed, actions)
    {
      var z := zones[j];
      NextInSorted(zones, j);
      assert z in Elements(zones);
      FirstPublisherPrecedes(next, order, z, i);
      handled, claimed, actions := VisitMember(r, visited, next, transferredFrom, c, z, handled, claimed, actions);
      visited := visited + {(c, z)};
    }
    assert zones[..|zones|] == zones;
  }

  method AddPass(ghost r: Round, next: Catalogs, order: seq<Name>, transferredFrom: map<Name, Name>,
                 handled0: set<Name>, claimed0: map<Name, Claim>, actions0: seq<Action>)
    returns (actions: seq<Action>)
    requires next == r.next && order == r.order && NoDuplicates(order) && Elements(order) == next.Keys
    requires r.owners.Keys !! r.reserved
    requires RecordsMoves(r, transferredFrom)
    requires AddPhase(r, {}, handled0, claimed0, actions0)
    ensures DistinctKeys(actions)
    ensures forall a :: a in actions <==> Planned(r, a)
  {
    var handled, claimed := handled0, claimed0;
    actions := actions0;
    ghost var visited: set<(Name, Name)> := {};
    for i := 0 to |order|
      invariant forall c, z :: (c, z) in visited <==> c in order[..i] && Publishes(next, c, z)
      invariant AddPhase(r, visited, handled, claimed, actions)
    {
      assert order[..i + 1] == order[..i] + [order[i]];
      handled, claimed, actions, visited :=
        AddCatalog(r, visited, next, order, i, transferredFrom, handled, claimed, actions);
    }
    assert order[..|order|] == order;
    forall a | Planned(r, a) && (a.Add? || a.Conflict?) ensures (a.catalog, a.zone) in visited {
      FirstPublisherIsListed(next, order, a.zone);
      assert a.catalog in Elements(order);
    }
  }

  /**
    Plan compares the last accepted catalogs with the newest ones.  It fails only
    on a duplicate in the configured order or on a zone both owned and reserved;
    otherwise it returns exactly the planned actions, each once, in order.
   */
  method Plan(previous: Catalogs, next: Catalogs, ownership: Owners, catalogOrder: seq<Name>, reservedZones: seq<Name>)
    returns (r: Result<seq<Action>, PlanError>)
    ensures r.Ok? <==> NoDuplicates(catalogOrder) && ownership.Keys !! Elements(reservedZones)
    ensures r.Ok? ==>
              IsPlan(Round(previous, next, ownership, CatalogOrder(next.Keys, catalogOrder), Elements(reservedZones)),
                     r.value)
  {
    var ordered := OrderedCatalogNames(next, catalogOrder);
    if ordered.Err? {
      return Err(DuplicateInOrder(ordered.error));
    }
    var order := ordered.value;
    var reserved: set<Name> := {};
    for i := 0 to |reservedZones|
      invariant reserved == Elements(reservedZones[..i]) && ownership.Keys !! reserved
    {
      if reservedZones[i] in ownership {
        assert reservedZones[i] in Elements(reservedZones);
        return Err(ReservedAndOwned(reservedZones[i]));
      }
      assert reservedZones[..i + 1] == reservedZones[..i] + [reservedZones[i]];
      reserved := reserved + {reservedZones[i]};
    }
    assert reservedZones[..|reservedZones|] == reservedZones;
    ghost var round := Round(previous, next, ownership, order, reserved);
    CatalogOrderNoDuplicates(next.Keys, catalogOrder);

    var owners, moved, transferredFrom, transfers := TransferPass(round, next, ownership);
    var handled, retained := RetainPass(round, previous, next, owners, moved, transferredFrom, transfers);
    AddPhaseStarts(round, owners, moved, handled, transferredFrom, transfers, retained);
    var actions := AddPass(round, next, order, transferredFrom, handled, InitialClaims(owners, reserved), retained);
    actions := SortActions(actions, order);
    return Ok(actions);
  }
}
