/**
  The catalog runtime: last accepted state, one reconciliation at a time, and
  what a reconciliation leaves behind when any of its many steps fails.
 */
module CatalogRuntime {
  import opened Wrappers
  import opened ByteOrder
  import opened CatalogModel
  import opened Sequences
  import opened CatalogPlan
  import opened CatalogGraph
  import opened CatalogPlanner
  import opened CatalogBudget
  import opened SerialNumbers

  /** A member zone's data; its contents play no part here. */
  datatype ZoneData = ZoneData(serial: Serial, records: seq<Octets>)

  /** Operator policy for one catalog.  inScope is the suffix policy, hasMasters the transfer one. */
  datatype Source = Source(
    maxMembers: nat,
    maxActions: nat,
    limits: Limits,
    dryRun: bool,
    approvalAbove: nat,
    approvedSerial: Option<Serial>,
    inScope: Name -> bool,
    hasMasters: Member -> bool)

  /** What the outside world does during one reconciliation. */
  datatype World = World(
    now: real,
    attached: bool,
    fetched: Option<map<Name, ZoneData>>,
    persists: bool,
    publishes: bool,
    rollsBack: bool)

  datatype Failure =
    | NotAttached | NoSource | TooManyMembers | ConfiguredAsCatalog | OutOfScope
    | SerialNotAdvanced | BadGraph(graph: GraphError)
    | TooManyActions | DryRun | NeedsApproval | BudgetExhausted | NoMasters
    | DuplicateChange | FetchFailed | NoMemberData | PersistFailed | PublishFailed

  datatype Change = Upsert(zone: Name, resetState: bool) | Withdraw(zone: Name)

  /** The part of the state that is written to disk. */
  datatype Snapshot = Snapshot(catalogs: Catalogs, ownership: Owners, members: map<Name, ZoneData>)

  function CountActions(actions: seq<Action>): nat {
    if actions == [] then 0
    else CountActions(actions[..|actions| - 1]) + (if actions[|actions| - 1].Conflict? then 0 else 1)
  }

  predicate IsDestructive(a: Action) {
    a.Remove? || a.Recreate? || (a.Transfer? && a.resetState)
  }

  function CountDestructive(actions: seq<Action>): nat {
    if actions == [] then 0
    else CountDestructive(actions[..|actions| - 1]) + (if IsDestructive(actions[|actions| - 1]) then 1 else 0)
  }

  /** The number of actions that are not conflict reports. */
  lemma {:induction false} CountIs(actions: seq<Action>)
    ensures CountActions(actions) == |set k | 0 <= k < |actions| && !actions[k].Conflict?|
  {
    var counted := set k | 0 <= k < |actions| && !actions[k].Conflict?;
    if actions == [] {
      assert counted == {};
    } else {
      var n, init := |actions| - 1, actions[..|actions| - 1];
      CountIs(init);
      var before := set k | 0 <= k < |init| && !init[k].Conflict?;
      assert counted == if actions[n].Conflict? then before else before + {n};
    }
  }

  function ChangeFor(a: Action): Change {
    match a
    case Remove(z, _, _) => Withdraw(z)
    case Transfer(z, _, _, _, _, reset) => Upsert(z, reset)
    case Recreate(z, _, _, _) => Upsert(z, true)
    case _ => Upsert(a.zone, false)
  }

  /** The batch: one change for each action that is not a conflict report. */
  function ChangesFor(actions: seq<Action>): seq<Change> {
    if actions == [] then []
    else
      var last := actions[|actions| - 1];
      ChangesFor(actions[..|actions| - 1]) + (if last.Conflict? then [] else [ChangeFor(last)])
  }

  lemma {:induction false} ChangeComesFromAction(actions: seq<Action>, i: nat) returns (k: nat)
    requires i < |ChangesFor(actions)|
    ensures k < |actions| && !actions[k].Conflict? && ChangesFor(actions)[i] == ChangeFor(actions[k])
  {
    var init := actions[..|actions| - 1];
    if i < |ChangesFor(init)| {
      k := ChangeComesFromAction(init, i);
    } else {
      k := |actions| - 1;
    }
  }

  /** The batch asks for exactly what the actions besides conflict reports ask for. */
  lemma {:induction false} ChangesExactly(actions: seq<Action>)
    ensures forall c :: c in ChangesFor(actions) <==> exists a :: a in actions && !a.Conflict? && c == ChangeFor(a)
  {
    if actions != [] {
      var last, init := actions[|actions| - 1], actions[..|actions| - 1];
      ChangesExactly(init);
      assert forall a :: a in actions <==> a in init || a == last;
      forall c
        ensures c in ChangesFor(actions) <==> c in ChangesFor(init) || (!last.Conflict? && c == ChangeFor(last))
      {
      }
    }
  }

  /** The zones a plan configures, and those it removes. */
  ghost function Configured(actions: seq<Action>): set<Name> {
    set a | a in actions && !a.Conflict? && !a.Remove? :: a.zone
  }

  ghost function Dropped(actions: seq<Action>): set<Name> {
    set a | a in actions && a.Remove? :: a.zone
  }

  /** The member data after a plan: what was fetched for configured zones replaces what was there. */
  ghost function MembersAfter(members: map<Name, ZoneData>, actions: seq<Action>, fetched: map<Name, ZoneData>)
    : map<Name, ZoneData>
  {
    members + (map z | z in fetched && z in Configured(actions) :: fetched[z]) - Dropped(actions)
  }

  lemma BatchMembers(actions: seq<Action>, changes: seq<Change>)
    requires changes == ChangesFor(actions)
    ensures (set c | c in changes && c.Upsert? :: c.zone) == Configured(actions)
    ensures (set c | c in changes && c.Withdraw? :: c.zone) == Dropped(actions)
  {
    ChangesExactly(actions);
    forall a | a in actions && !a.Conflict? ensures ChangeFor(a) in changes {
    }
  }

  lemma OneMoreAction(owners: Owners, actions: seq<Action>, k: nat)
    requires k < |actions|
    ensures ApplyActions(owners, actions[..k + 1]) == ApplyAction(ApplyActions(owners, actions[..k]), actions[k])
    ensures ChangesFor(actions[..k + 1])
         == ChangesFor(actions[..k]) + if actions[k].Conflict? then [] else [ChangeFor(actions[k])]
  {
    assert actions[..k + 1][..k] == actions[..k];
  }

  ghost predicate DistinctZones(changes: seq<Change>) {
    forall i, j | 0 <= i < j < |changes| :: changes[i].zone != changes[j].zone
  }

  /** A plan never asks the transfer manager to change one zone twice in a batch. */
  lemma {:induction false} BatchNamesZonesOnce(r: Round, actions: seq<Action>, n: nat)
    requires IsPlan(r, actions) && n <= |actions|
    ensures DistinctZones(ChangesFor(actions[..n]))
  {
    if n > 0 {
      BatchNamesZonesOnce(r, actions, n - 1);
      assert actions[..n][..n - 1] == actions[..n - 1];
      var init := ChangesFor(actions[..n - 1]);
      if !actions[n - 1].Conflict? {
        forall i | 0 <= i < |init| ensures init[i].zone != actions[n - 1].zone {
          var k := ChangeComesFromAction(actions[..n - 1], i);
          if actions[k].zone == actions[n - 1].zone {
            OneActionPerZone(r, actions, k, n - 1);
          }
        }
      }
    }
  }

  /** Every member that the plan configures has masters under its catalog's policy. */
  ghost predicate MastersKnown(sources: map<Name, Source>, next: Catalogs, actions: seq<Action>) {
    forall a | a in actions && !a.Conflict? && !a.Remove?
               && a.catalog in sources && a.catalog in next && a.zone in next[a.catalog].members ::
      sources[a.catalog].hasMasters(next[a.catalog].members[a.zone])
  }

  /** Every zone that ends up owned has data: held already, or fetched because the plan configures it. */
  ghost predicate Furnished(members: map<Name, ZoneData>, owners: Owners, actions: seq<Action>,
                            fetched: map<Name, ZoneData>)
  {
    forall z | z in owners ::
      || z in members
      || (z in fetched && exists a :: a in actions && a.zone == z && !a.Conflict? && !a.Remove?)
  }

  /** What a zone's data is after a plan. */
  lemma MembersAfterAt(members: map<Name, ZoneData>, actions: seq<Action>, fetched: map<Name, ZoneData>, z: Name)
    ensures var after := MembersAfter(members, actions, fetched);
            var data := if z in after then Some(after[z]) else None;
            data == if exists a :: a in actions && a.zone == z && a.Remove? then None
                    else if z in fetched && exists a :: a in actions && a.zone == z && !a.Conflict? && !a.Remove?
                    then Some(fetched[z])
                    else if z in members then Some(members[z]) else None
  {
    if a :| a in actions && a.zone == z && !a.Conflict? && !a.Remove? {
      assert z in Configured(actions);
    }
    if a :| a in actions && a.zone == z && a.Remove? {
      assert z in Dropped(actions);
    }
  }

  /** A zone that the plan removes is not owned afterwards. */
  lemma DroppedIsNotOwned(r: Round, actions: seq<Action>, z: Name)
    requires IsPlan(r, actions) && z in Dropped(actions)
    ensures z !in ApplyActions(r.owners, actions)
  {
    var a :| a in actions && a.Remove? && a.zone == z;
    assert Planned(r, a);
    PlanGivesNextOwner(r, actions, z);
  }

  lemma FurnishedIff(r: Round, actions: seq<Action>, members: map<Name, ZoneData>, fetched: map<Name, ZoneData>)
    requires IsPlan(r, actions)
    ensures var owners := ApplyActions(r.owners, actions);
            Furnished(members, owners, actions, fetched) <==>
            owners.Keys <= MembersAfter(members, actions, fetched).Keys
  {
    var owners := ApplyActions(r.owners, actions);
    forall z | z in owners
      ensures z in MembersAfter(members, actions, fetched) <==>
              || z in members
              || (z in fetched && exists a :: a in actions && a.zone == z && !a.Conflict? && !a.Remove?)
    {
      if z in Dropped(actions) {
        DroppedIsNotOwned(r, actions, z);
      }
      MembersAfterAt(members, actions, fetched, z);
    }
  }

  /** Whether a failure comes before any token is spent, or after the budget was asked. */
  datatype Stage = Checking | Applying

  function StageOf(f: Failure): Stage {
    match f
    case BudgetExhausted => Applying
    case NoMasters => Applying
    case DuplicateChange => Applying
    case FetchFailed => Applying
    case NoMemberData => Applying
    case PersistFailed => Applying
    case PublishFailed => Applying
    case _ => Checking
  }

  method ValidateMemberScope(sources: map<Name, Source>, name: Name, accepted: Catalog)
    returns (failure: Option<Failure>)
    ensures failure.None? ==>
              && name in sources && |accepted.members| <= sources[name].maxMembers
              && forall z | z in accepted.members :: z !in sources && sources[name].inScope(z)
    ensures failure.Some? ==>
              || name !in sources || |accepted.members| > sources[name].maxMembers
              || exists z :: z in accepted.members && (z in sources || !sources[name].inScope(z))
    ensures failure == Some(NoSource) <==> name !in sources
    ensures failure == Some(TooManyMembers) <==> name in sources && |accepted.members| > sources[name].maxMembers
    ensures failure == Some(ConfiguredAsCatalog) ==> exists z :: z in accepted.members && z in sources
    ensures failure == Some(OutOfScope) ==>
              name in sources && exists z :: z in accepted.members && !sources[name].inScope(z)
    ensures failure.Some? ==>
              || failure.value.NoSource? || failure.value.TooManyMembers?
              || failure.value.ConfiguredAsCatalog? || failure.value.OutOfScope?
  {
    if name !in sources {
      return Some(NoSource);
    }
    var source := sources[name];
    if |accepted.members| > source.maxMembers {
      return Some(TooManyMembers);
    }
    var todo := accepted.members.Keys;
    while todo != {}
      invariant todo <= accepted.members.Keys
      invariant forall z | z in accepted.members.Keys - todo :: z !in sources && source.inScope(z)
      decreases |todo|
    {
      var z :| z in todo;
      if z in sources {
        return Some(ConfiguredAsCatalog);
      }
      if !source.inScope(z) {
        return Some(OutOfScope);
      }
      todo := todo - {z};
    }
    return None;
  }

  method CountPlan(actions: seq<Action>) returns (count: nat, destructive: nat)
    ensures count == CountActions(actions) && destructive == CountDestructive(actions)
  {
    count, destructive := 0, 0;
    for i := 0 to |actions|
      invariant count == CountActions(actions[..i]) && destructive == CountDestructive(actions[..i])
    {
      assert actions[..i + 1][..i] == actions[..i];
      if !actions[i].Conflict? {
        count := count + 1;
      }
      if IsDestructive(actions[i]) {
        destructive := destructive + 1;
      }
    }
    assert actions[..|actions|] == actions;
  }

  /** The transfer manager refuses a batch that names a zone twice. */
  method FirstDuplicate(changes: seq<Change>) returns (duplicate: Option<Name>)
    ensures duplicate.None? <==> DistinctZones(changes)
  {
    var seen: set<Name> := {};
    for k := 0 to |changes|
      invariant forall z :: z in seen <==> exists i :: 0 <= i < k && changes[i].zone == z
      invariant forall i, j | 0 <= i < j < k :: changes[i].zone != changes[j].zone
    {
      if changes[k].zone in seen {
        return Some(changes[k].zone);
      }
      seen := seen + {changes[k].zone};
    }
    return None;
  }

  /** The owned zones are the published, unreserved ones, less those the plan removes. */
  ghost predicate OwnsExactly(owners: Owners, catalogs: Catalogs, reserved: set<Name>, actions: seq<Action>) {
    forall z :: z in owners <==>
      && z !in reserved
      && (exists c :: Publishes(catalogs, c, z))
      && !(exists a | a in actions :: a.Remove? && a.zone == z)
  }

  ghost predicate StateOk(sources: set<Name>, reserved: set<Name>, catalogs: Catalogs, owners: Owners,
                          members: map<Name, ZoneData>) {
    && catalogs.Keys <= sources && GraphOk(catalogs, sources)
    && OwnersPublish(catalogs, owners)
    && owners.Keys !! reserved
    && owners.Keys <= members.Keys
  }

  /** A planned action that configures a zone has a member to take the configuration from. */
  lemma ConfiguresMember(r: Round, actions: seq<Action>, k: nat)
    requires IsPlan(r, actions) && k < |actions| && !actions[k].Conflict? && !actions[k].Remove?
    ensures Publishes(r.next, actions[k].catalog, actions[k].zone)
  {
    assert Planned(r, actions[k]);
  }

  /** The part of the state that reconciliations build on. */
  datatype Ledger = Ledger(catalogs: Catalogs, ownership: Owners, budgets: map<Name, Budget>)

  ghost function RoundOf(l: Ledger, order: seq<Name>, reserved: set<Name>, name: Name, accepted: Catalog): Round {
    var next := l.catalogs[name := accepted];
    Round(l.catalogs, next, l.ownership, CatalogOrder(next.Keys, order), reserved)
  }

  /** One reconciliation: success commits and charges exactly the plan, failure costs nothing. */
  ghost predicate Reconciled(sources: map<Name, Source>, order: seq<Name>, reserved: set<Name>, before: Ledger,
                             name: Name, accepted: Catalog, now: real, r: Result<seq<Action>, Failure>, after: Ledger)
  {
    match r
    case Ok(actions) =>
      && name in sources && name in before.budgets
      && after.catalogs == before.catalogs[name := accepted]
      && after.catalogs.Keys <= sources.Keys && GraphOk(after.catalogs, sources.Keys)
      && Committed(RoundOf(before, order, reserved, name, accepted), actions, after.ownership)
      && var taken := Take(before.budgets[name], sources[name].limits, now, CountActions(actions));
         taken.granted && after.budgets == before.budgets[name := taken.budget]
    case Err(_) =>
      && after.catalogs == before.catalogs && after.ownership == before.ownership
      && (after.budgets == before.budgets
          || (name in sources && name in before.budgets && exists count ::
                after.budgets
                == before.budgets[name := Unspent(before.budgets[name], sources[name].limits, now, count)]))
  }

  /** What becomes of a plan that is paid for, and why. */
  ghost predicate ApplyOutcome(sources: map<Name, Source>, next: Catalogs, owners: Owners,
                               members: map<Name, ZoneData>, actions: seq<Action>, world: World,
                               failure: Option<Failure>)
  {
    var masters := MastersKnown(sources, next, actions);
    var data := world.fetched.Some?
                && Furnished(members, ApplyActions(owners, actions), actions, world.fetched.value);
    && (failure.None? <==> masters && data && world.persists && world.publishes)
    && (failure == Some(NoMasters) <==> !masters)
    && (failure == Some(FetchFailed) <==> masters && world.fetched.None?)
    && (failure == Some(NoMemberData) <==> masters && world.fetched.Some? && !data)
    && (failure == Some(PersistFailed) <==> masters && data && !world.persists)
    && (failure == Some(PublishFailed) <==> masters && data && world.persists && !world.publishes)
  }

  /** What becomes of an admitted plan, and why: the first thing that is missing. */
  ghost predicate Outcome(sources: map<Name, Source>, before: Ledger, members: map<Name, ZoneData>, name: Name,
                          accepted: Catalog, actions: seq<Action>, world: World, failure: Option<Failure>)
    requires name in sources && name in before.budgets
  {
    var paid := Covers(before.budgets[name], sources[name].limits, world.now, CountActions(actions));
    && (failure == Some(BudgetExhausted) <==> !paid)
    && (paid ==> ApplyOutcome(sources, before.catalogs[name := accepted], before.ownership, members, actions, world,
                              failure))
  }

  function FailureOf(r: Result<seq<Action>, Failure>): Option<Failure> {
    match r
    case Ok(_) => None
    case Err(f) => Some(f)
  }

  ghost predicate BudgetsOk(sources: map<Name, Source>, budgets: map<Name, Budget>) {
    && budgets.Keys == sources.Keys
    && forall c | c in budgets :: Within(budgets[c], sources[c].limits)
  }

  class Runtime {
    const sources: map<Name, Source>
    const order: seq<Name>
    const reserved: seq<Name>

    var catalogs: Catalogs
    var ownership: Owners
    var memberZone: map<Name, ZoneData>
    var budgets: map<Name, Budget>
    var generation: nat
    var disk: Snapshot

    /** What readers of the runtime see. */
    function View(): (Catalogs, Owners, map<Name, ZoneData>, nat)
      reads this
    {
      (catalogs, ownership, memberZone, generation)
    }

    function Persisted(): Snapshot
      reads this
    {
      Snapshot(catalogs, ownership, map z | z in memberZone && z in ownership :: memberZone[z])
    }

    function Kept(): Ledger
      reads this
    {
      Ledger(catalogs, ownership, budgets)
    }

    ghost predicate Valid()
      reads this
    {
      && NoDuplicates(order) && Elements(order) == sources.Keys && sources.Keys <= Elements(reserved)
      && StateOk(sources.Keys, Elements(reserved), catalogs, ownership, memberZone)
      && BudgetsOk(sources, budgets)
    }

    constructor (sources: map<Name, Source>, order: seq<Name>, reservedZones: seq<Name>, now: real)
      requires NoDuplicates(order) && Elements(order) == sources.Keys
      ensures Valid()
      ensures catalogs == map[] && ownership == map[]
      ensures disk == Persisted()
    {
      this.sources, this.order, this.reserved := sources, order, reservedZones + order;
      catalogs, ownership, memberZone, generation := map[], map[], map[], 0;
      budgets := map c | c in sources :: Budget(sources[c].limits.burst as real, now);
      disk := Snapshot(map[], map[], map[]);
      assert Elements(reservedZones + order) == Elements(reservedZones) + Elements(order);
    }

    ghost function RoundFor(name: Name, accepted: Catalog): Round
      reads this
    {
      RoundOf(Kept(), order, Elements(reserved), name, accepted)
    }

    /** Writes the snapshot, or fails and leaves the file as it was. */
    method Persist(succeeds: bool)
      modifies this`disk
      ensures disk == if succeeds then Persisted() else old(disk)
    {
      if succeeds {
        disk := Persisted();
      }
    }

    /**
      Swaps in the new state, writes it, and publishes it; a failed write or
      publication swaps the old state back.
     */
    method CommitReconciliation(next: Catalogs, finalOwnership: Owners, upserts: map<Name, ZoneData>,
                                removals: set<Name>, world: World)
      returns (failure: Option<Failure>)
      modifies this`catalogs, this`ownership, this`memberZone, this`generation, this`disk
      ensures failure.None? ==>
                && catalogs == next && ownership == finalOwnership && generation == old(generation) + 1
                && memberZone == old(memberZone) + upserts - removals
                && ownership.Keys <= memberZone.Keys
                && disk == Persisted()
                && disk == Snapshot(next, finalOwnership,
                                    map z | z in memberZone && z in finalOwnership :: memberZone[z])
      ensures failure.Some? ==> StageOf(failure.value) == Applying && View() == old(View())
      // what becomes of it, and why
      ensures var complete := finalOwnership.Keys <= (old(memberZone) + upserts - removals).Keys;
              && (failure.None? <==> complete && world.persists && world.publishes)
              && (failure == Some(NoMemberData) <==> !complete)
              && (failure == Some(PersistFailed) <==> complete && !world.persists)
              && (failure == Some(PublishFailed) <==> complete && world.persists && !world.publishes)
      // a rolled back publication is undone on disk too, if that write succeeds
      ensures failure.Some? && failure != Some(PublishFailed) ==> disk == old(disk)
      ensures failure == Some(PublishFailed) ==>
                disk.ownership == if world.rollsBack then ownership else finalOwnership
      ensures failure == Some(PublishFailed) && world.rollsBack ==> disk == Persisted()
    {
      var previousCatalogs, previousOwnership, previousMembers, previousGeneration :=
        catalogs, ownership, memberZone, generation;
      var nextMembers := previousMembers + upserts - removals;
      if !(finalOwnership.Keys <= nextMembers.Keys) {
        return Some(NoMemberData);
      }
      catalogs, ownership, memberZone, generation := next, finalOwnership, nextMembers, generation + 1;
      Persist(world.persists);
      if !world.persists {
        catalogs, ownership, memberZone, generation :=
          previousCatalogs, previousOwnership, previousMembers, previousGeneration;
        return Some(PersistFailed);
      }
      if !world.publishes {
        catalogs, ownership, memberZone, generation :=
          previousCatalogs, previousOwnership, previousMembers, previousGeneration;
        Persist(world.rollsBack);
        return Some(PublishFailed);
      }
      return None;
    }

    /** Turns the plan into a batch of zone changes and the ownership it will commit. */
    method BuildBatch(ghost r: Round, next: Catalogs, actions: seq<Action>)
      returns (failure: Option<Failure>, changes: seq<Change>, finalOwnership: Owners)
      requires next == r.next && ownership == r.owners && next.Keys <= sources.Keys && IsPlan(r, actions)
      ensures failure.None? || failure == Some(NoMasters)
      ensures failure.None? <==> MastersKnown(sources, next, actions)
      ensures failure.None? ==> finalOwnership == ApplyActions(ownership, actions) && changes == ChangesFor(actions)
    {
      changes, finalOwnership := [], ownership;
      for k := 0 to |actions|
        invariant finalOwnership == ApplyActions(ownership, actions[..k]) && changes == ChangesFor(actions[..k])
        invariant MastersKnown(sources, next, actions[..k])
      {
        var a := actions[k];
        OneMoreAction(ownership, actions, k);
        if a.Conflict? {
          continue;
        }
        if !a.Remove? {
          ConfiguresMember(r, actions, k);
          var member := MemberOf(next, a.catalog, a.zone);
          if !sources[a.catalog].hasMasters(member) {
            assert a in actions;
            return Some(NoMasters), [], ownership;
          }
        }
        changes := changes + [ChangeFor(a)];
        finalOwnership := ApplyAction(finalOwnership, a);
      }
      assert actions[..|actions|] == actions;
      failure := None;
    }

    /** Everything that must hold before a token is spent. */
    ghost predicate Admits(name: Name, accepted: Catalog, world: World, actions: seq<Action>)
      reads this
    {
      && world.attached && name in sources
      && |accepted.members| <= sources[name].maxMembers
      && (forall z | z in accepted.members :: z !in sources && sources[name].inScope(z))
      && (name in catalogs ==> SerialGreater(accepted.serial, catalogs[name].serial))
      && GraphOk(catalogs[name := accepted], sources.Keys)
      && IsPlan(RoundFor(name, accepted), actions)
      && |actions| <= sources[name].maxActions
      && !sources[name].dryRun
      && (sources[name].approvalAbove == 0
          || CountDestructive(actions) <= sources[name].approvalAbove
          || sources[name].approvedSerial == Some(accepted.serial))
    }

    /** The plans that are admitted: one, or none. */
    ghost function Admitted(name: Name, accepted: Catalog, world: World): iset<seq<Action>>
      reads this
    {
      iset actions | Admits(name, accepted, world, actions)
    }

    /** What each refusal says. */
    ghost predicate Justified(name: Name, accepted: Catalog, world: World, f: Failure)
      reads this
    {
      match f
      case NotAttached => !world.attached
      case NoSource => name !in sources
      case TooManyMembers => name in sources && |accepted.members| > sources[name].maxMembers
      case ConfiguredAsCatalog => exists z :: z in accepted.members && z in sources
      case OutOfScope => name in sources && exists z :: z in accepted.members && !sources[name].inScope(z)
      case SerialNotAdvanced => name in catalogs && !SerialGreater(accepted.serial, catalogs[name].serial)
      case BadGraph(_) => !GraphOk(catalogs[name := accepted], sources.Keys)
      case TooManyActions =>
        name in sources && forall actions | IsPlan(RoundFor(name, accepted), actions) ::
          |actions| > sources[name].maxActions
      case DryRun => name in sources && sources[name].dryRun
      case NeedsApproval =>
        && name in sources && sources[name].approvedSerial != Some(accepted.serial)
        && forall actions | IsPlan(RoundFor(name, accepted), actions) ::
             CountDestructive(actions) > sources[name].approvalAbove > 0
      case _ => true
    }

    /** The checks that need no plan. */
    method CheckSnapshot(name: Name, accepted: Catalog, world: World) returns (failure: Option<Failure>)
      requires Valid()
      ensures failure.None? <==>
                && world.attached && name in sources
                && |accepted.members| <= sources[name].maxMembers
                && (forall z | z in accepted.members :: z !in sources && sources[name].inScope(z))
                && (name in catalogs ==> SerialGreater(accepted.serial, catalogs[name].serial))
                && GraphOk(catalogs[name := accepted], sources.Keys)
      ensures failure.Some? ==>
                StageOf(failure.value) == Checking && Justified(name, accepted, world, failure.value)
    {
      if !world.attached {
        return Some(NotAttached);
      }
      failure := ValidateMemberScope(sources, name, accepted);
      if failure.Some? {
        return;
      }
      if name in catalogs && !SerialGreater(accepted.serial, catalogs[name].serial) {
        return Some(SerialNotAdvanced);
      }
      var graph := ValidateCatalogGraph(catalogs[name := accepted], sources.Keys);
      if graph.Some? {
        return Some(BadGraph(graph.value));
      }
    }

    lemma OnlyPlan(name: Name, accepted: Catalog, actions: seq<Action>)
      requires IsPlan(RoundFor(name, accepted), actions)
      ensures forall other :: IsPlan(RoundFor(name, accepted), other) <==> other == actions
    {
      forall other | IsPlan(RoundFor(name, accepted), other) ensures other == actions {
        PlanIsDeterministic(RoundFor(name, accepted), other, actions);
      }
    }

    /** Every check that precedes the budget. */
    method Prepare(name: Name, accepted: Catalog, world: World) returns (r: Result<seq<Action>, Failure>)
      requires Valid()
      ensures Admitted(name, accepted, world) == if r.Ok? then iset{r.value} else iset{}
      ensures r.Err? ==> StageOf(r.error) == Checking
      ensures r.Err? ==> Justified(name, accepted, world, r.error)
    {
      var failure := CheckSnapshot(name, accepted, world);
      if failure.Some? {
        return Err(failure.value);
      }
      var planned := Plan(catalogs, catalogs[name := accepted], ownership, order, reserved);
      // a valid runtime gives Plan an order without duplicates and owns no reserved zone
      var actions := planned.value;
      OnlyPlan(name, accepted, actions);
      var source := sources[name];
      if |actions| > source.maxActions {
        return Err(TooManyActions);
      }
      var count, destructive := CountPlan(actions);
      if source.dryRun {
        return Err(DryRun);
      }
      if source.approvalAbove > 0 && destructive > source.approvalAbove
          && source.approvedSerial != Some(accepted.serial) {
        return Err(NeedsApproval);
      }
      return Ok(actions);
    }

    /**
      Reconciles one newly transferred catalog.  Success commits exactly the
      plan, charges its actions to the catalog's budget and restores every
      ownership invariant; failure leaves everything as it was, the budget
      included, up to the passage of time.
     */
    method Reconcile(name: Name, accepted: Catalog, world: World) returns (r: Result<seq<Action>, Failure>)
      requires Valid()
      modifies this
      ensures Valid()
      ensures Reconciled(sources, order, Elements(reserved), old(Kept()), name, accepted, world.now, r, Kept())
      ensures r.Ok? ==>
                && r.value in old(Admitted(name, accepted, world))
                && OwnsExactly(ownership, catalogs, Elements(reserved), r.value)
                && generation == old(generation) + 1
                && disk == Persisted()
      ensures r.Ok? ==> world.fetched.Some? && memberZone == MembersAfter(old(memberZone), r.value, world.fetched.value)
      ensures r.Err? ==> View() == old(View())
      ensures r.Err? && old(disk) == old(Persisted()) ==>
                disk == Persisted() || (r.error == PublishFailed && !world.rollsBack)
      // what becomes of it, and why: the first thing that is missing
      ensures r.Err? ==> r.error != DuplicateChange
      ensures old(Admitted(name, accepted, world)) == iset{} <==> r.Err? && StageOf(r.error) == Checking
      ensures r.Err? && StageOf(r.error) == Checking ==> old(Justified(name, accepted, world, r.error))
      ensures forall actions | actions in old(Admitted(name, accepted, world)) ::
                && name in sources && name in old(budgets)
                && Outcome(sources, old(Kept()), old(memberZone), name, accepted, actions, world, FailureOf(r))
    {
      var prepared := Prepare(name, accepted, world);
      if prepared.Err? {
        return Err(prepared.error);
      }
      var actions := prepared.value;
      ghost var round := RoundFor(name, accepted);
      var failure := ChargeAndApply(name, round, catalogs[name := accepted], actions, world);
      if failure.Some? {
        return Err(failure.value);
      }
      CommitRestoresOwnership(round, actions, ownership, sources.Keys, memberZone);
      return Ok(actions);
    }

    /** Charges the plan to the budget, applies it, and refunds the charge if that fails. */
    method ChargeAndApply(name: Name, ghost r: Round, next: Catalogs, actions: seq<Action>, world: World)
      returns (failure: Option<Failure>)
      requires name in sources && BudgetsOk(sources, budgets)
      requires next == r.next && ownership == r.owners && next.Keys <= sources.Keys && IsPlan(r, actions)
      modifies this
      ensures BudgetsOk(sources, budgets)
      ensures failure.None? ==>
                && catalogs == next && ownership == ApplyActions(r.owners, actions)
                && generation == old(generation) + 1 && ownership.Keys <= memberZone.Keys && disk == Persisted()
                && world.fetched.Some? && memberZone == MembersAfter(old(memberZone), actions, world.fetched.value)
                && var taken := Take(old(budgets)[name], sources[name].limits, world.now, CountActions(actions));
                   taken.granted && budgets == old(budgets)[name := taken.budget]
      ensures var paid := Covers(old(budgets)[name], sources[name].limits, world.now, CountActions(actions));
              && (failure == Some(BudgetExhausted) <==> !paid)
              && (failure != Some(BudgetExhausted) ==>
                    ApplyOutcome(sources, next, old(ownership), old(memberZone), actions, world, failure))
      ensures failure.Some? ==>
                && StageOf(failure.value) == Applying && View() == old(View())
                && (disk == old(disk) || disk == Persisted()
                    || (failure == Some(PublishFailed) && !world.rollsBack))
                && budgets == old(budgets)[name := Unspent(old(budgets)[name], sources[name].limits, world.now,
                                                           CountActions(actions))]
    {
      var count, _ := CountPlan(actions);
      TakeIff(budgets[name], sources[name].limits, world.now, count);
      var granted := TakeReconcileBudget(name, count, world.now);
      if !granted {
        return Some(BudgetExhausted);
      }
      failure := ApplyPlan(r, next, actions, world);
      if failure.Some? {
        RefundReconcileBudget(name, count, old(budgets), world.now);
      }
    }

    method TakeReconcileBudget(name: Name, count: nat, now: real) returns (granted: bool)
      requires name in sources && BudgetsOk(sources, budgets)
      modifies this`budgets
      ensures BudgetsOk(sources, budgets)
      ensures var taken := Take(old(budgets)[name], sources[name].limits, now, count);
              granted == taken.granted && budgets == old(budgets)[name := taken.budget]
      ensures !granted ==> budgets[name] == Unspent(old(budgets)[name], sources[name].limits, now, count)
    {
      RefundIsComplete(budgets[name], sources[name].limits, now, count);
      var taken := Take(budgets[name], sources[name].limits, now, count);
      budgets := budgets[name := taken.budget];
      granted := taken.granted;
    }

    /** Gives back a charge; before are the budgets the charge was taken from. */
    method RefundReconcileBudget(name: Name, count: nat, ghost before: map<Name, Budget>, ghost now: real)
      requires name in sources && BudgetsOk(sources, before)
      requires var taken := Take(before[name], sources[name].limits, now, count);
               taken.granted && budgets == before[name := taken.budget]
      modifies this`budgets
      ensures BudgetsOk(sources, budgets)
      ensures budgets == before[name := Unspent(before[name], sources[name].limits, now, count)]
    {
      RefundIsComplete(before[name], sources[name].limits, now, count);
      RefillStaysWithin(before[name], sources[name].limits, now);
      budgets := budgets[name := Refund(budgets[name], sources[name].limits, count)];
    }

    /** Builds the batch and hands it to the transfer manager, which fetches and then commits. */
    method ApplyPlan(ghost r: Round, next: Catalogs, actions: seq<Action>, world: World)
      returns (failure: Option<Failure>)
      requires next == r.next && ownership == r.owners && next.Keys <= sources.Keys && IsPlan(r, actions)
      modifies this`catalogs, this`ownership, this`memberZone, this`generation, this`disk
      ensures failure.None? ==>
                && catalogs == next && ownership == ApplyActions(r.owners, actions)
                && generation == old(generation) + 1 && ownership.Keys <= memberZone.Keys && disk == Persisted()
                && world.fetched.Some? && memberZone == MembersAfter(old(memberZone), actions, world.fetched.value)
      ensures ApplyOutcome(sources, next, old(ownership), old(memberZone), actions, world, failure)
      ensures failure.Some? ==>
                && StageOf(failure.value) == Applying && View() == old(View())
                && (disk == old(disk) || disk == Persisted()
                    || (failure == Some(PublishFailed) && !world.rollsBack))
    {
      var built, changes, finalOwnership := BuildBatch(r, next, actions);
      if built.Some? {
        return built;
      }
      BatchNamesZonesOnce(r, actions, |actions|);
      assert actions[..|actions|] == actions;
      var duplicate := FirstDuplicate(changes);
      if duplicate.Some? {
        return Some(DuplicateChange);
      }
      if world.fetched.None? {
        return Some(FetchFailed);
      }
      var wanted := set change | change in changes && change.Upsert? :: change.zone;
      var upserts := map z | z in world.fetched.value && z in wanted :: world.fetched.value[z];
      var removals := set change | change in changes && change.Withdraw? :: change.zone;
      BatchMembers(actions, changes);
      FurnishedIff(r, actions, memberZone, world.fetched.value);
      failure := CommitReconciliation(next, finalOwnership, upserts, removals, world);
    }
  }

  lemma CommitRestoresOwnership(r: Round, actions: seq<Action>, after: Owners,
                                sources: set<Name>, members: map<Name, ZoneData>)
    requires Committed(r, actions, after)
    requires r.next.Keys <= sources && GraphOk(r.next, sources) && after.Keys <= members.Keys
    requires Elements(r.order) == r.next.Keys && r.owners.Keys !! r.reserved
    ensures OwnersPublish(r.next, after) && OwnsExactly(after, r.next, r.reserved, actions)
    ensures StateOk(sources, r.reserved, r.next, after, members)
  {
    OwnersPublishAfter(r, actions, after);
    forall z
      ensures z in after <==>
              && z !in r.reserved && (exists c :: Publishes(r.next, c, z))
              && !(exists a | a in actions :: a.Remove? && a.zone == z)
    {
      OwnedIffPublished(r, actions, after, z);
    }
    assert OwnsExactly(after, r.next, r.reserved, actions);
  }
}
