/**
  RFC 9432 catalog zones: accepted snapshots, zone ownership, and the actions
  one reconciliation round may take.
 */
module CatalogModel {
  import opened Wrappers
  import opened ByteOrder
  import opened SerialNumbers

  /** A normalised name: lower case, fully qualified, never empty. */
  type Name = Octets

  /** coo is the change-of-ownership target (section 4.4.1 of RFC 9432). */
  datatype Member = Member(
    uniqueLabel: Octets,
    groups: seq<seq<Octets>>,
    coo: Option<Name>,
    extensions: map<Octets, seq<Octets>>)

  /** Catalogs and member zones are keyed by their own names. */
  datatype Catalog = Catalog(serial: Serial, members: map<Name, Member>)

  type Catalogs = map<Name, Catalog>

  datatype Ownership = Ownership(catalog: Name, uniqueLabel: Octets)

  type Owners = map<Name, Ownership>

  datatype Claim = ByCatalog(name: Name) | ByOperator

  datatype Action =
    | Add(zone: Name, catalog: Name, uniqueLabel: Octets)
    | Remove(zone: Name, from: Name, previousLabel: Octets)
    | Reconfigure(zone: Name, catalog: Name, uniqueLabel: Octets, previousLabel: Octets)
    | Recreate(zone: Name, catalog: Name, uniqueLabel: Octets, previousLabel: Octets)
    | Transfer(zone: Name, catalog: Name, from: Name, uniqueLabel: Octets, previousLabel: Octets, resetState: bool)
    | Conflict(zone: Name, catalog: Name, claimedBy: Claim)

  predicate Publishes(catalogs: Catalogs, c: Name, z: Name) {
    c in catalogs && z in catalogs[c].members
  }

  function MemberOf(catalogs: Catalogs, c: Name, z: Name): Member
    requires Publishes(catalogs, c, z)
  {
    catalogs[c].members[z]
  }

  /** Configuration equality; the change-of-ownership property is not part of it. */
  predicate MembersEqual(left: Member, right: Member) {
    left.uniqueLabel == right.uniqueLabel && left.groups == right.groups && left.extensions == right.extensions
  }

  /** Everything one planning round reads. */
  datatype Round = Round(
    previous: Catalogs,
    next: Catalogs,
    owners: Owners,
    order: seq<Name>,
    reserved: set<Name>)
}
