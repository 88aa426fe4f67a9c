/**
  What a planning round decides, zone by zone, with no reference to the loops
  that compute it, and what those decisions guarantee about ownership.
 */
module CatalogPlan {
  import opened Wrappers
  import opened ByteOrder
  import opened CatalogModel

  // ---------- the decision for one zone ----------

  /** The other catalog to which c validly hands z over: both still publish z. */
  function Handoff(next: Catalogs, c: Name, z: Name): Option<Name> {
    if !Publishes(next, c, z) then None
    else match MemberOf(next, c, z).coo
      case None => None
      case Some(d) => if d != c && Publishes(next, d, z) then Some(d) else None
  }

  function FirstPublisher(next: Catalogs, order: seq<Name>, z: Name): (r: Option<Name>)
    ensures r.Some? ==> Publishes(next, r.value, z)
  {
    if order == [] then None
    else if Publishes(next, order[0], z) then Some(order[0])
    else FirstPublisher(next, order[1..], z)
  }

  lemma {:induction false} FirstPublisherIsListed(next: Catalogs, order: seq<Name>, z: Name)
    ensures var r := FirstPublisher(next, order, z);
            if r.Some? then r.value in order else forall c | c in order :: !Publishes(next, c, z)
  {
    if order != [] && !Publishes(next, order[0], z) {
      FirstPublisherIsListed(next, order[1..], z);
    }
  }

  function DecideOwned(previous: Catalogs, next: Catalogs, z: Name, o: Ownership): Option<Action> {
    match Handoff(next, o.catalog, z)
    case Some(d) =>
      var uniqueLabel := MemberOf(next, d, z).uniqueLabel;
      Some(Transfer(z, d, o.catalog, uniqueLabel, o.uniqueLabel, o.uniqueLabel != uniqueLabel))
    case None =>
      if !Publishes(next, o.catalog, z) then Some(Remove(z, o.catalog, o.uniqueLabel))
      else
        var m := MemberOf(next, o.catalog, z);
        if o.uniqueLabel != m.uniqueLabel then Some(Recreate(z, o.catalog, m.uniqueLabel, o.uniqueLabel))
        else if Publishes(previous, o.catalog, z) && !MembersEqual(MemberOf(previous, o.catalog, z), m)
        then Some(Reconfigure(z, o.catalog, m.uniqueLabel, o.uniqueLabel))
        else None
  }

  function DecideUnowned(next: Catalogs, order: seq<Name>, reserved: set<Name>, z: Name): Option<Action> {
    if z in reserved then None
    else match FirstPublisher(next, order, z)
      case None => None
      case Some(c) => Some(Add(z, c, MemberOf(next, c, z).uniqueLabel))
  }

  /** The one action, other than a conflict report, that the round takes on z. */
  function Decide(r: Round, z: Name): Option<Action> {
    if z in r.owners then DecideOwned(r.previous, r.next, z, r.owners[z])
    else DecideUnowned(r.next, r.order, r.reserved, z)
  }

  /** Who holds z once the round is over.  A zone removed this round keeps its old claim. */
  function ClaimOn(r: Round, z: Name): Option<Claim> {
    if z in r.owners then
      match Handoff(r.next, r.owners[z].catalog, z)
      case Some(d) => Some(ByCatalog(d))
      case None => Some(ByCatalog(r.owners[z].catalog))
    else if z in r.reserved then Some(ByOperator)
    else match FirstPublisher(r.next, r.order, z)
      case Some(c) => Some(ByCatalog(c))
      case None => None
  }

  /** c gave z away this round. */
  predicate HandedOffBy(r: Round, c: Name, z: Name) {
    z in r.owners && r.owners[z].catalog == c && Handoff(r.next, c, z).Some?
  }

  /** c publishes z in vain and must be told so. */
  predicate Clashes(r: Round, c: Name, z: Name) {
    && Publishes(r.next, c, z)
    && ClaimOn(r, z).Some?
    && ClaimOn(r, z).value != ByCatalog(c)
    && !HandedOffBy(r, c, z)
    && (MemberOf(r.next, c, z).coo.Some? ==> ClaimOn(r, z).value != ByCatalog(MemberOf(r.next, c, z).coo.value))
  }

  ghost predicate Planned(r: Round, a: Action) {
    if a.Conflict? then Clashes(r, a.catalog, a.zone) && ClaimOn(r, a.zone) == Some(a.claimedBy)
    else Decide(r, a.zone) == Some(a)
  }

  // ---------- the order of the actions ----------

  function KindRank(a: Action): nat {
    match a
    case Transfer(_, _, _, _, _, _) => 0
    case Remove(_, _, _) => 1
    case Recreate(_, _, _, _) => 2
    case Reconfigure(_, _, _, _) => 3
    case Add(_, _, _) => 4
    case Conflict(_, _, _) => 5
  }

  /** Position in the catalog order; names outside it come after all others. */
  function Rank(order: seq<Name>, c: Name): (k: nat)
    ensures k <= |order|
    ensures k < |order| ==> order[k] == c
  {
    if order == [] then 0 else if order[0] == c then 0 else 1 + Rank(order[1..], c)
  }

  function CatalogField(a: Action): Name {
    if a.Remove? then [] else a.catalog
  }

  predicate Before(order: seq<Name>, a: Action, b: Action) {
    if KindRank(a) != KindRank(b) then KindRank(a) < KindRank(b)
    else if a.zone != b.zone then Less(a.zone, b.zone)
    else if Rank(order, CatalogField(a)) != Rank(order, CatalogField(b)) then
      Rank(order, CatalogField(a)) < Rank(order, CatalogField(b))
    else Less(CatalogField(a), CatalogField(b))
  }

  predicate SameKey(a: Action, b: Action) {
    KindRank(a) == KindRank(b) && a.zone == b.zone && CatalogField(a) == CatalogField(b)
  }

  lemma BeforeIsStrictOrder(order: seq<Name>, a: Action, b: Action, c: Action)
    ensures !Before(order, a, a)
    ensures Before(order, a, b) && Before(order, b, c) ==> Before(order, a, c)
    ensures Before(order, a, b) || Before(order, b, a) || SameKey(a, b)
  {
    LessIrreflexive(CatalogField(a));
    LessTotal(a.zone, b.zone);
    LessTotal(CatalogField(a), CatalogField(b));
    if Before(order, a, b) && Before(order, b, c) {
      if Less(a.zone, b.zone) && Less(b.zone, c.zone) {
        LessTransitive(a.zone, b.zone, c.zone);
        LessIrreflexive(a.zone);
      }
      if Less(CatalogField(a), CatalogField(b)) && Less(CatalogField(b), CatalogField(c)) {
        LessTransitive(CatalogField(a), CatalogField(b), CatalogField(c));
      }
      if a.zone == c.zone && Less(a.zone, b.zone) && Less(b.zone, c.zone) {
        LessAsymmetric(a.zone, b.zone);
      }
    }
  }

  ghost predicate InOrder(order: seq<Name>, actions: seq<Action>) {
    forall i, j | 0 <= i < j < |actions| :: Before(order, actions[i], actions[j])
  }

  /** The plan: every planned action once, in the published order. */
  ghost predicate IsPlan(r: Round, actions: seq<Action>) {
    && InOrder(r.order, actions)
    && forall a :: a in actions <==> Planned(r, a)
  }

  /** Two planned actions never tie, so the sort leaves nothing to chance. */
  lemma PlannedKeysDistinct(r: Round, a: Action, b: Action)
    requires Planned(r, a) && Planned(r, b) && SameKey(a, b)
    ensures a == b
  {
  }

  lemma {:induction false} PlanUnique(order: seq<Name>, s: seq<Action>, t: seq<Action>)
    requires InOrder(order, s) && InOrder(order, t)
    requires forall a :: a in s <==> a in t
    ensures s == t
  {
    HasElement(s);
    HasElement(t);
    if s != [] && t != [] {
      assert s[0] in t && t[0] in s;
      if s[0] != t[0] {
        BeforeIsStrictOrder(order, s[0], t[0], s[0]);
      }
      forall a ensures a in s[1..] <==> a in t[1..] {
        InTail(order, s, a);
        InTail(order, t, a);
      }
      PlanUnique(order, s[1..], t[1..]);
      assert s == [s[0]] + s[1..] == t;
    }
  }

  lemma InTail(order: seq<Name>, s: seq<Action>, a: Action)
    requires InOrder(order, s) && s != []
    ensures a in s[1..] <==> a in s && a != s[0]
  {
    if a in s[1..] {
      var i :| 0 <= i < |s[1..]| && s[1..][i] == a;
      assert Before(order, s[0], s[i + 1]);
      BeforeIsStrictOrder(order, a, a, a);
    }
    if a in s && a != s[0] {
      var i :| 0 <= i < |s| && s[i] == a;
      assert s[1..][i - 1] == a;
    }
  }

  /** The whole plan is a function of the inputs, whatever order the maps are ranged in. */
  lemma PlanIsDeterministic(r: Round, s: seq<Action>, t: seq<Action>)
    requires IsPlan(r, s) && IsPlan(r, t)
    ensures s == t
  {
    PlanUnique(r.order, s, t);
  }

  // ---------- what a committed plan does to ownership ----------

  function ApplyAction(owners: Owners, a: Action): Owners {
    match a
    case Remove(z, _, _) => owners - {z}
    case Conflict(_, _, _) => owners
    case _ => owners[a.zone := Ownership(a.catalog, a.uniqueLabel)]
  }

  function ApplyActions(owners: Owners, actions: seq<Action>): Owners {
    if actions == [] then owners
    else ApplyAction(ApplyActions(owners, actions[..|actions| - 1]), actions[|actions| - 1])
  }

  function OwnerOf(owners: Owners, z: Name): Option<Ownership> {
    if z in owners then Some(owners[z]) else None
  }

  /** The owner a decision leaves behind. */
  function OwnerAfter(owner: Option<Ownership>, decision: Option<Action>): Option<Ownership>
    requires decision.Some? ==> !decision.value.Conflict?
  {
    match decision
    case None => owner
    case Some(a) => if a.Remove? then None else Some(Ownership(a.catalog, a.uniqueLabel))
  }

  function NextOwner(r: Round, z: Name): Option<Ownership> {
    OwnerAfter(OwnerOf(r.owners, z), Decide(r, z))
  }

  lemma {:induction false} ApplyActionsOwner(owners: Owners, actions: seq<Action>, z: Name, k: nat)
    requires k < |actions| && actions[k].zone == z && !actions[k].Conflict?
    requires forall i | k < i < |actions| :: actions[i].zone != z || actions[i].Conflict?
    ensures OwnerOf(ApplyActions(owners, actions), z) ==
            if actions[k].Remove? then None else Some(Ownership(actions[k].catalog, actions[k].uniqueLabel))
  {
    if k < |actions| - 1 {
      ApplyActionsOwner(owners, actions[..|actions| - 1], z, k);
    }
  }

  lemma {:induction false} ApplyActionsKeeps(owners: Owners, actions: seq<Action>, z: Name)
    requires forall i | 0 <= i < |actions| :: actions[i].zone != z || actions[i].Conflict?
    ensures OwnerOf(ApplyActions(owners, actions), z) == OwnerOf(owners, z)
  {
    if actions != [] {
      ApplyActionsKeeps(owners, actions[..|actions| - 1], z);
    }
  }

  /** Each zone gets at most one action besides conflict reports. */
  lemma OneActionPerZone(r: Round, actions: seq<Action>, i: nat, j: nat)
    requires IsPlan(r, actions) && i < |actions| && j < |actions|
    requires !actions[i].Conflict? && !actions[j].Conflict? && actions[i].zone == actions[j].zone
    ensures i == j
  {
    assert Planned(r, actions[i]) && Planned(r, actions[j]);
    BeforeIsStrictOrder(r.order, actions[i], actions[i], actions[i]);
  }

  /** Applying the plan's list of actions gives every zone the owner its own decision names. */
  lemma PlanGivesNextOwner(r: Round, actions: seq<Action>, z: Name)
    requires IsPlan(r, actions)
    ensures OwnerOf(ApplyActions(r.owners, actions), z) == NextOwner(r, z)
  {
    match Decide(r, z)
    case None =>
      forall i | 0 <= i < |actions| ensures actions[i].zone != z || actions[i].Conflict? {
        assert Planned(r, actions[i]);
      }
      ApplyActionsKeeps(r.owners, actions, z);
    case Some(a) =>
      assert a.zone == z && !a.Conflict? && Planned(r, a);
      var k :| 0 <= k < |actions| && actions[k] == a;
      forall i | k < i < |actions| ensures actions[i].zone != z || actions[i].Conflict? {
        if actions[i].zone == z && !actions[i].Conflict? {
          OneActionPerZone(r, actions, i, k);
        }
      }
      ApplyActionsOwner(r.owners, actions, z, k);
  }

  // ---------- ownership theorems ----------

  /** Every owned zone is published by its owner under the recorded label. */
  ghost predicate OwnersPublish(catalogs: Catalogs, owners: Owners) {
    forall z | z in owners ::
      && Publishes(catalogs, owners[z].catalog, z)
      && MemberOf(catalogs, owners[z].catalog, z).uniqueLabel == owners[z].uniqueLabel
  }

  ghost predicate Committed(r: Round, actions: seq<Action>, after: Owners) {
    IsPlan(r, actions) && after == ApplyActions(r.owners, actions)
  }

  /** One round restores the ownership invariant from any ownership whatever. */
  lemma OwnersPublishAfter(r: Round, actions: seq<Action>, after: Owners)
    requires Committed(r, actions, after)
    ensures OwnersPublish(r.next, after)
  {
    forall z | z in after
      ensures Publishes(r.next, after[z].catalog, z)
      ensures MemberOf(r.next, after[z].catalog, z).uniqueLabel == after[z].uniqueLabel
    {
      PlanGivesNextOwner(r, actions, z);
      assert OwnerOf(after, z) == Some(after[z]);
    }
  }

  /**
    The owned zones are exactly the published, unreserved zones, less those
    this very plan removes.
   */
  lemma OwnedIffPublished(r: Round, actions: seq<Action>, after: Owners, z: Name)
    requires Committed(r, actions, after)
    requires Elements(r.order) == r.next.Keys && r.owners.Keys !! r.reserved
    ensures z in after <==>
            && z !in r.reserved
            && (exists c :: Publishes(r.next, c, z))
            && !(exists a | a in actions :: a.Remove? && a.zone == z)
  {
    PlanGivesNextOwner(r, actions, z);
    assert z in after <==> NextOwner(r, z).Some?;
    FirstPublisherIsListed(r.next, r.order, z);
    assert forall c | Publishes(r.next, c, z) :: c in Elements(r.order);
    if a :| a in actions && a.Remove? && a.zone == z {
      assert Planned(r, a);
    }
    match Decide(r, z)
    case Some(a) =>
      assert Planned(r, a);
      assert a.zone == z;
      if !a.Remove? {
        assert Publishes(r.next, a.catalog, z);
      }
    case None =>
      if z in r.owners {
        assert Publishes(r.next, r.owners[z].catalog, z);
      }
  }

  /**
    Section 4.4.1 of RFC 9432: a catalog loses a zone only by dropping it or by
    itself naming the new owner, which must publish the zone at the same time.
   */
  lemma OwnershipMovesOnlyByConsent(r: Round, actions: seq<Action>, after: Owners, z: Name)
    requires Committed(r, actions, after) && z in r.owners
    ensures
      var giver := r.owners[z].catalog;
      if z !in after then !Publishes(r.next, giver, z)
      else after[z].catalog != giver ==>
        && Publishes(r.next, giver, z)
        && MemberOf(r.next, giver, z).coo == Some(after[z].catalog)
        && Publishes(r.next, after[z].catalog, z)
  {
    PlanGivesNextOwner(r, actions, z);
  }

  lemma {:induction false} FirstPublisherIsEarliest(next: Catalogs, order: seq<Name>, z: Name, c: Name)
    requires Publishes(next, c, z) && c in order
    ensures FirstPublisher(next, order, z).Some?
    ensures Rank(order, FirstPublisher(next, order, z).value) <= Rank(order, c)
  {
    if !Publishes(next, order[0], z) {
      assert c in order[1..];
      FirstPublisherIsEarliest(next, order[1..], z, c);
    }
  }

  /** A newly owned zone belongs to the earliest catalog in the order that publishes it. */
  lemma NewZonesGoToEarliest(r: Round, actions: seq<Action>, after: Owners, z: Name, c: Name)
    requires Committed(r, actions, after)
    requires z !in r.owners && z in after && Publishes(r.next, c, z) && c in r.order
    ensures Rank(r.order, after[z].catalog) <= Rank(r.order, c)
  {
    PlanGivesNextOwner(r, actions, z);
    FirstPublisherIsEarliest(r.next, r.order, z, c);
  }

  /**
    Nothing is lost silently.  A catalog that publishes a zone ends up owning it,
    or is told of the conflict, or asked for the very outcome, or just dropped
    its claim by handing the zone over.
   */
  lemma EveryPublisherIsAnswered(r: Round, actions: seq<Action>, after: Owners, c: Name, z: Name)
    requires Committed(r, actions, after)
    requires Elements(r.order) == r.next.Keys && Publishes(r.next, c, z)
    ensures
      || (z in after && after[z].catalog == c)
      || (exists a | a in actions :: a.Conflict? && a.zone == z && a.catalog == c)
      || (exists k :: MemberOf(r.next, c, z).coo == Some(k) && ClaimOn(r, z) == Some(ByCatalog(k)))
      || (z in r.owners && r.owners[z].catalog == c && z in after && after[z].catalog != c)
  {
    PlanGivesNextOwner(r, actions, z);
    assert c in Elements(r.order);
    FirstPublisherIsListed(r.next, r.order, z);
    assert ClaimOn(r, z).Some?;
    var claim := ClaimOn(r, z).value;
    if Clashes(r, c, z) {
      var a := Conflict(z, c, claim);
      assert Planned(r, a);
      assert a in actions && a.Conflict? && a.zone == z && a.catalog == c;
    }
  }
}
