/**
  Denying names from cached NSEC records (RFC 8198), and the validator's own
  reading of the same records.  The cache keeps names as text and compares the
  text; the validator compares octets.  A name stands for its text, which tells it.
 */
module NsecDenial {
  import opened Wrappers
  import opened ByteOrder
  import opened CanonicalNames
  import opened EscapedNames

  type Time = int

  datatype Nsec = Nsec(owner: Name, next: Name, expiresAt: Time, zone: Name)

  /** An NSEC as a response carries it. */
  datatype NsecRecord = NsecRecord(owner: Name, next: Name, ttl: nat)

  // ---------- the two readings ----------

  /** The cache's test, on text: strictly between owner and next, or after the owner of the last record. */
  predicate Denies(rec: Nsec, q: Name) {
    || (TextLess(rec.owner, q) && TextLess(q, rec.next))
    || (TextLess(rec.owner, q) && TextLess(rec.next, rec.owner))
  }

  /** The same test in canonical order. */
  predicate CanonicallyDenies(rec: Nsec, q: Name) {
    || (NameLess(rec.owner, q) && NameLess(q, rec.next))
    || (NameLess(rec.owner, q) && NameLess(rec.next, rec.owner))
  }

  /** The validator's test. */
  predicate NsecCovers(rec: Nsec, q: Name) {
    && q != rec.owner && q != rec.next
    && if NameLess(rec.owner, rec.next) then NameLess(rec.owner, q) && NameLess(q, rec.next)
       else NameLess(rec.owner, q) || NameLess(q, rec.next)
  }

  /**
    In canonical order the validator accepts every denial, and beyond those only
    names before the first owner of a wrapped record, or any other name when a
    record links an owner to itself.
   */
  lemma CoversExactly(rec: Nsec, q: Name)
    ensures NsecCovers(rec, q) <==>
              || CanonicallyDenies(rec, q)
              || (rec.next == rec.owner && q != rec.owner)
              || (NameLess(rec.next, rec.owner) && NameLess(q, rec.next))
  {
    NameLessIsStrictTotalOrder(rec.owner, rec.next, q);
    NameLessIsStrictTotalOrder(rec.owner, q, rec.next);
    NameLessIsStrictTotalOrder(q, rec.owner, rec.next);
    NameLessIsStrictTotalOrder(q, rec.next, rec.owner);
    NameLessIsStrictTotalOrder(rec.next, rec.owner, q);
    NameLessIsStrictTotalOrder(rec.next, q, rec.owner);
  }

  /** Compares two names as the cache does, by their text. */
  method TextIsLess(a: Name, b: Name) returns (less: bool)
    ensures less == TextLess(a, b)
  {
    less := CanonicalLess(Text(a), Text(b));
  }

  method IsDenied(rec: Nsec, q: Name) returns (denies: bool)
    ensures denies == Denies(rec, q)
  {
    var after := TextIsLess(rec.owner, q);
    var before := TextIsLess(q, rec.next);
    if after && before {
      return true;
    }
    var wraps := TextIsLess(rec.next, rec.owner);
    return after && wraps;
  }

  // ---------- the zone behind the records ----------

  /** rec links owner names that are neighbours in the canonical order, the last one to the first. */
  ghost predicate LinksNeighbours(owners: set<Name>, rec: Nsec) {
    && rec.owner in owners && rec.next in owners
    && if NameLess(rec.owner, rec.next)
       then forall o | o in owners :: !(NameLess(rec.owner, o) && NameLess(o, rec.next))
       else forall o | o in owners :: !NameLess(rec.owner, o) && !NameLess(o, rec.next)
  }

  /** The text of the zone's owner names is ordered as the names are. */
  ghost predicate OrderKept(owners: set<Name>) {
    forall a, b | a in owners && b in owners :: KeepsOrder(a, b)
  }

  lemma NeverCanonicallyDeniesOwner(owners: set<Name>, rec: Nsec, q: Name)
    requires LinksNeighbours(owners, rec) && CanonicallyDenies(rec, q)
    ensures q !in owners
  {
    NameLessIsStrictTotalOrder(rec.owner, q, rec.next);
    NameLessIsStrictTotalOrder(rec.owner, rec.next, q);
  }

  /** Where text keeps the owners' order, synthesis never denies a name that owns records. */
  lemma NeverDeniesOwner(owners: set<Name>, rec: Nsec, q: Name)
    requires LinksNeighbours(owners, rec) && OrderKept(owners) && Denies(rec, q)
    ensures q !in owners
  {
    if q in owners {
      TextOrderIff(rec.owner, q);
      TextOrderIff(q, rec.next);
      TextOrderIff(rec.next, rec.owner);
      NeverCanonicallyDeniesOwner(owners, rec, q);
    }
  }

  // ---------- the cache ----------

  function Live(rec: Nsec, now: Time): bool {
    rec.expiresAt >= now
  }

  /** The records synthesis may answer q from. */
  predicate Proves(rec: Nsec, q: Name, now: Time) {
    Live(rec, now) && IsSubDomain(rec.zone, q) && Denies(rec, q)
  }

  method IsProof(rec: Nsec, q: Name, now: Time) returns (proves: bool)
    ensures proves == Proves(rec, q, now)
  {
    if rec.expiresAt < now {
      return false;
    }
    if !IsSubDomain(rec.zone, q) {
      return false;
    }
    proves := IsDenied(rec, q);
  }

  /** The first record that proves q not to exist. */
  function FirstProof(records: seq<Nsec>, q: Name, now: Time): (proof: Option<Nsec>)
    ensures proof.Some? ==> proof.value in records && Proves(proof.value, q, now)
    ensures proof.None? ==> forall rec | rec in records :: !Proves(rec, q, now)
  {
    if records == [] then None
    else if Proves(records[0], q, now) then Some(records[0])
    else FirstProof(records[1..], q, now)
  }

  predicate OwnersUnique(records: seq<Nsec>) {
    forall i, j | 0 <= i < j < |records| :: records[i].owner != records[j].owner
  }

  /** The record for an owner, wherever it is kept. */
  function RecordFor(records: seq<Nsec>, owner: Name): (r: Option<Nsec>)
    ensures r.Some? ==> r.value in records && r.value.owner == owner
    ensures r.None? ==> forall rec | rec in records :: rec.owner != owner
  {
    if records == [] then None
    else if records[0].owner == owner then Some(records[0])
    else RecordFor(records[1..], owner)
  }

  /** The newest record a message carries for an owner. */
  function LastFor(message: seq<NsecRecord>, owner: Name, zone: Name, now: Time): Option<Nsec> {
    if message == [] then None
    else
      var last := message[|message| - 1];
      if last.owner == owner then Some(Nsec(owner, last.next, now + last.ttl, zone))
      else LastFor(message[..|message| - 1], owner, zone, now)
  }

  /** Of several records for an owner the last one counts, and it expires when its time to live is over. */
  lemma {:induction false} LastForIs(message: seq<NsecRecord>, owner: Name, zone: Name, now: Time, i: nat)
    requires i < |message| && message[i].owner == owner
    requires forall j | i < j < |message| :: message[j].owner != owner
    ensures LastFor(message, owner, zone, now) == Some(Nsec(owner, message[i].next, now + message[i].ttl, zone))
  {
    var n := |message| - 1;
    if i < n {
      LastForIs(message[..n], owner, zone, now, i);
    }
  }

  lemma {:induction false} NothingForOthers(message: seq<NsecRecord>, owner: Name, zone: Name, now: Time)
    requires forall j | 0 <= j < |message| :: message[j].owner != owner
    ensures LastFor(message, owner, zone, now) == None
  {
    if message != [] {
      NothingForOthers(message[..|message| - 1], owner, zone, now);
    }
  }

  lemma {:induction false} RecordForReplaced(records: seq<Nsec>, i: nat, rec: Nsec, owner: Name)
    requires OwnersUnique(records) && i < |records| && records[i].owner == rec.owner
    ensures RecordFor(records[i := rec], owner) == if owner == rec.owner then Some(rec) else RecordFor(records, owner)
  {
    if i > 0 {
      assert records[i := rec][1..] == records[1..][i - 1 := rec];
      assert records[i - 1 + 1].owner == records[1..][i - 1].owner;
      RecordForReplaced(records[1..], i - 1, rec, owner);
    } else {
      assert records[i := rec][1..] == records[1..];
    }
  }

  lemma {:induction false} RecordForAppended(records: seq<Nsec>, rec: Nsec, owner: Name)
    requires forall i | 0 <= i < |records| :: records[i].owner != rec.owner
    ensures RecordFor(records + [rec], owner) == if owner == rec.owner then Some(rec) else RecordFor(records, owner)
  {
    if records != [] {
      assert (records + [rec])[1..] == records[1..] + [rec];
      RecordForAppended(records[1..], rec, owner);
    } else {
      assert records + [rec] == [rec];
    }
  }

  class NsecCache {
    var records: seq<Nsec>

    ghost predicate Valid()
      reads this
    {
      OwnersUnique(records)
    }

    constructor ()
      ensures Valid() && records == []
    {
      records := [];
    }

    /** Replaces the record for the same owner, or adds one. */
    method StoreOne(rec: Nsec)
      requires Valid()
      modifies this
      ensures Valid()
      ensures forall owner :: RecordFor(records, owner) ==
                if owner == rec.owner then Some(rec) else RecordFor(old(records), owner)
    {
      for i := 0 to |records|
        invariant forall j | 0 <= j < i :: records[j].owner != rec.owner
        invariant records == old(records)
      {
        if records[i].owner == rec.owner {
          forall owner
            ensures RecordFor(records[i := rec], owner) ==
                    if owner == rec.owner then Some(rec) else RecordFor(records, owner)
          {
            RecordForReplaced(records, i, rec, owner);
          }
          assert forall j | 0 <= j < |records| :: records[i := rec][j].owner == records[j].owner;
          records := records[i := rec];
          return;
        }
      }
      forall owner
        ensures RecordFor(records + [rec], owner) == if owner == rec.owner then Some(rec) else RecordFor(records, owner)
      {
        RecordForAppended(records, rec, owner);
      }
      records := records + [rec];
    }

    /** Stores every NSEC of a validated negative response. */
    method Store(message: seq<NsecRecord>, zone: Name, now: Time)
      requires Valid()
      modifies this
      ensures Valid()
      ensures forall owner :: RecordFor(records, owner) ==
                var last := LastFor(message, owner, zone, now);
                if last.Some? then last else RecordFor(old(records), owner)
    {
      for i := 0 to |message|
        invariant Valid()
        invariant forall owner :: RecordFor(records, owner) ==
                    var last := LastFor(message[..i], owner, zone, now);
                    if last.Some? then last else RecordFor(old(records), owner)
      {
        var nsec := message[i];
        assert message[..i + 1][..i] == message[..i];
        StoreOne(Nsec(nsec.owner, nsec.next, now + nsec.ttl, zone));
      }
      assert message[..|message|] == message;
    }

    /** The record an NXDOMAIN for q is synthesised from, if there is one. */
    method SynthesizeNXDOMAIN(q: Name, now: Time) returns (proof: Option<Nsec>)
      ensures proof == FirstProof(records, q, now)
      ensures proof.Some? ==>
                && proof.value in records && proof.value.expiresAt >= now && IsSubDomain(proof.value.zone, q)
                && TextLess(proof.value.owner, q)
                && (TextLess(q, proof.value.next) || TextLess(proof.value.next, proof.value.owner))
      ensures proof.None? ==>
                forall rec | rec in records && rec.expiresAt >= now && IsSubDomain(rec.zone, q)
                             && TextLess(rec.owner, q) ::
                  !TextLess(q, rec.next) && !TextLess(rec.next, rec.owner)
    {
      assert records[0..] == records;
      for i := 0 to |records|
        invariant FirstProof(records, q, now) == FirstProof(records[i..], q, now)
      {
        assert records[i..][1..] == records[i + 1..];
        var proves := IsProof(records[i], q, now);
        if proves {
          return Some(records[i]);
        }
      }
      return None;
    }
  }

  // ---------- soundness and completeness of synthesis ----------

  /** Every cached record links neighbours among the owner names of its own zone. */
  ghost predicate Faithful(records: seq<Nsec>, ownersOf: map<Name, set<Name>>) {
    forall rec | rec in records :: rec.zone in ownersOf && LinksNeighbours(ownersOf[rec.zone], rec)
  }

  /** No name that owns records is denied by a record of a zone whose owner names keep their order as text. */
  lemma SynthesisIsSound(records: seq<Nsec>, ownersOf: map<Name, set<Name>>, rec: Nsec, q: Name, now: Time)
    requires Faithful(records, ownersOf) && rec in records && Proves(rec, q, now) && OrderKept(ownersOf[rec.zone])
    ensures q !in ownersOf[rec.zone]
  {
    NeverDeniesOwner(ownersOf[rec.zone], rec, q);
  }

  /**
    The validator agrees with a denial exactly when the denied name follows the record's
    owner, and precedes its next name, in canonical order too; after the last owner either
    will do.  Text puts a denied name after the owner, so keeping order tells the first, and
    the second is that text has it before the next name just when it keeps their order.
   */
  lemma ValidatorAgreesIff(rec: Nsec, q: Name)
    requires Denies(rec, q)
    ensures NsecCovers(rec, q) <==>
              var beforeNext := TextLess(q, rec.next) == KeepsOrder(q, rec.next);
              if NameLess(rec.owner, rec.next) then KeepsOrder(rec.owner, q) && beforeNext
              else KeepsOrder(rec.owner, q) || beforeNext
  {
    TextOrderIff(rec.owner, q);
    TextOrderIff(q, rec.next);
    NameLessIsStrictTotalOrder(rec.owner, q, rec.owner);
    NameLessIsStrictTotalOrder(q, rec.next, q);
    TextLessIsStrictTotalOrder(rec.owner, q, rec.owner);
  }

  /** All of a zone's names are at or below its apex, and the apex is one of them. */
  ghost predicate ZoneNames(zone: Name, owners: set<Name>) {
    zone in owners && forall o | o in owners :: IsSubDomain(zone, o)
  }

  lemma ApexFirst(zone: Name, o: Name)
    requires IsSubDomain(zone, o) && o != zone
    ensures NameLess(zone, o) && TextLess(zone, o)
  {
    assert o[0..] == o;
    AncestorFirst(zone, o);
    TextAncestorFirst(zone, o);
  }

  // ---------- names out of order ----------

  /** The first owner name after o in canonical order. */
  lemma {:induction false} FirstAfter(owners: set<Name>, o: Name, some: Name) returns (first: Name)
    requires some in owners && NameLess(o, some)
    ensures first in owners && NameLess(o, first) && forall p | p in owners && NameLess(o, p) :: !NameLess(p, first)
    decreases owners
  {
    first := some;
    NameLessIsStrictTotalOrder(some, some, some);
    var earlier := set p | p in owners && NameLess(o, p) && NameLess(p, some);
    assert some !in earlier && earlier < owners;
    if p :| p in earlier {
      first := FirstAfter(earlier, o, p);
    }
    forall r | r in owners && NameLess(o, r) ensures !NameLess(r, first) {
      NameLessIsStrictTotalOrder(r, first, some);
      assert r in earlier <==> NameLess(r, some);
    }
  }

  /** Somewhere between two names that text puts the wrong way round, it does so to neighbours. */
  lemma {:induction false} Descent(owners: set<Name>, lo: Name, hi: Name) returns (c: Name, d: Name)
    requires lo in owners && hi in owners && NameLess(lo, hi) && TextLess(hi, lo)
    ensures c in owners && d in owners && NameLess(c, d) && TextLess(d, c)
    ensures forall o | o in owners :: !(NameLess(c, o) && NameLess(o, d))
    decreases set o | o in owners && NameLess(lo, o)
  {
    c := lo;
    d := FirstAfter(owners, lo, hi);
    NameLessIsStrictTotalOrder(d, hi, d);
    TextLessIsStrictTotalOrder(hi, lo, d);
    TextLessIsStrictTotalOrder(lo, d, lo);
    if !TextLess(d, lo) {
      assert TextLess(hi, d);
      NameLessIsStrictTotalOrder(lo, d, hi);
      Narrower(owners, lo, d);
      c, d := Descent(owners, d, hi);
    }
  }

  lemma Narrower(owners: set<Name>, lo: Name, d: Name)
    requires d in owners && NameLess(lo, d)
    ensures (set o | o in owners && NameLess(d, o)) < (set o | o in owners && NameLess(lo, o))
  {
    var less, more := set o | o in owners && NameLess(d, o), set o | o in owners && NameLess(lo, o);
    forall o | o in less ensures o in more {
      NameLessIsStrictTotalOrder(lo, d, o);
    }
    NameLessIsStrictTotalOrder(d, d, d);
    assert d in more && d !in less;
  }

  lemma {:induction false} LastOwner(owners: set<Name>, some: Name) returns (last: Name)
    requires some in owners
    ensures last in owners && forall o | o in owners :: !NameLess(last, o)
    decreases set o | o in owners && NameLess(some, o)
  {
    last := some;
    if o :| o in owners && NameLess(some, o) {
      Narrower(owners, some, o);
      last := LastOwner(owners, o);
    }
  }

  /** The last owner name is linked to the apex. */
  lemma LastLinksApex(zone: Name, owners: set<Name>, last: Name)
    requires ZoneNames(zone, owners) && last in owners && last != zone
    requires forall o | o in owners :: !NameLess(last, o)
    ensures LinksNeighbours(owners, Nsec(last, zone, 0, zone)) && TextLess(zone, last)
  {
    ApexFirst(zone, last);
    NameLessIsStrictTotalOrder(zone, last, zone);
    forall o | o in owners ensures !NameLess(o, zone) {
      NameLessIsStrictTotalOrder(zone, o, zone);
      if o != zone {
        ApexFirst(zone, o);
      }
    }
  }

  lemma LastIsNotApex(zone: Name, owners: set<Name>, last: Name, c: Name, d: Name)
    requires ZoneNames(zone, owners) && d in owners && c in owners && NameLess(c, d)
    requires last in owners && forall o | o in owners :: !NameLess(last, o)
    ensures last != c && last != zone
  {
    if d != zone {
      ApexFirst(zone, d);
    } else if c != zone {
      ApexFirst(zone, c);
      NameLessIsStrictTotalOrder(c, d, c);
    }
    NameLessIsStrictTotalOrder(zone, zone, zone);
  }

  /** If text misplaces any two owner names, some record of the chain denies an owner. */
  lemma MisorderDenies(zone: Name, owners: set<Name>, lo: Name, hi: Name) returns (rec: Nsec, q: Name)
    requires ZoneNames(zone, owners) && lo in owners && hi in owners && NameLess(lo, hi) && TextLess(hi, lo)
    ensures LinksNeighbours(owners, rec) && q in owners && Denies(rec, q)
  {
    var c, d := Descent(owners, lo, hi);
    var last := LastOwner(owners, d);
    LastIsNotApex(zone, owners, last, c, d);
    TextLessIsStrictTotalOrder(last, c, last);
    if TextLess(last, c) {
      LastLinksApex(zone, owners, last);
      rec, q := Nsec(last, zone, 0, zone), c;
    } else {
      rec, q := Nsec(c, d, 0, zone), last;
    }
  }

  /** The records of a zone deny no owner name exactly when text keeps the order of the owner names. */
  lemma DeniesNoOwnerIff(zone: Name, owners: set<Name>)
    requires ZoneNames(zone, owners)
    ensures (forall rec, q | LinksNeighbours(owners, rec) && q in owners :: !Denies(rec, q)) <==> OrderKept(owners)
  {
    if OrderKept(owners) {
      forall rec, q | LinksNeighbours(owners, rec) && q in owners ensures !Denies(rec, q) {
        if Denies(rec, q) {
          NeverDeniesOwner(owners, rec, q);
        }
      }
    } else {
      var lo, hi := WrongWayRound(owners);
      var rec, q := MisorderDenies(zone, owners, lo, hi);
    }
  }

  lemma WrongWayRound(owners: set<Name>) returns (lo: Name, hi: Name)
    requires !OrderKept(owners)
    ensures lo in owners && hi in owners && NameLess(lo, hi) && TextLess(hi, lo)
  {
    var a, b :| a in owners && b in owners && !KeepsOrder(a, b);
    TextOrderIff(a, b);
    NameLessIsStrictTotalOrder(a, b, a);
    TextLessIsStrictTotalOrder(a, b, a);
    lo, hi := if NameLess(a, b) then a else b, if NameLess(a, b) then b else a;
  }

  // ---------- complete chains ----------

  ghost predicate HasLiveRecord(records: seq<Nsec>, zone: Name, o: Name, now: Time) {
    exists rec :: rec in records && rec.owner == o && rec.zone == zone && Live(rec, now)
  }

  /** The records of the zone form its whole chain: sound, and a live one for each owner name. */
  ghost predicate Complete(records: seq<Nsec>, zone: Name, owners: set<Name>, now: Time) {
    && (forall rec | rec in records && rec.zone == zone :: LinksNeighbours(owners, rec))
    && (forall o | o in owners :: HasLiveRecord(records, zone, o, now))
  }

  ghost predicate Denied(records: seq<Nsec>, zone: Name, q: Name, now: Time) {
    exists rec :: rec in records && rec.zone == zone && Proves(rec, q, now)
  }

  /** The last owner name before q, as text. */
  lemma {:induction false} LastBefore(owners: set<Name>, q: Name, some: Name) returns (last: Name)
    requires some in owners && TextLess(some, q)
    ensures last in owners && TextLess(last, q)
    ensures forall o | o in owners && TextLess(last, o) :: !TextLess(o, q)
    decreases owners
  {
    last := some;
    var later := set p | p in owners && TextLess(some, p);
    TextLessIsStrictTotalOrder(some, some, some);
    assert some !in later && later < owners;
    if p :| p in later && TextLess(p, q) {
      last := LastBefore(later, q, p);
      forall r | r in owners && TextLess(last, r) ensures !TextLess(r, q) {
        TextLessIsStrictTotalOrder(some, last, r);
      }
    }
  }

  /** A record that links an owner to itself is the whole chain. */
  lemma SelfLinkIsAlone(zone: Name, owners: set<Name>, rec: Nsec)
    requires ZoneNames(zone, owners) && LinksNeighbours(owners, rec) && rec.next == rec.owner
    ensures owners == {zone}
  {
    NameLessIsStrictTotalOrder(rec.owner, rec.owner, rec.owner);
    forall o | o in owners ensures o == rec.owner {
      NameLessIsStrictTotalOrder(rec.owner, o, rec.owner);
    }
  }

  /** The record of the last owner name before q denies q. */
  lemma LastRecordDenies(zone: Name, owners: set<Name>, rec: Nsec, q: Name)
    requires ZoneNames(zone, owners) && owners != {zone} && OrderKept(owners)
    requires LinksNeighbours(owners, rec) && q !in owners && TextLess(rec.owner, q)
    requires forall o | o in owners && TextLess(rec.owner, o) :: !TextLess(o, q)
    ensures Denies(rec, q)
  {
    TextOrderIff(rec.owner, rec.next);
    TextOrderIff(rec.next, rec.owner);
    TextLessIsStrictTotalOrder(q, rec.next, q);
    NameLessIsStrictTotalOrder(rec.owner, rec.next, rec.owner);
    if rec.next == rec.owner {
      SelfLinkIsAlone(zone, owners, rec);
    }
  }

  lemma ChainDenies(records: seq<Nsec>, zone: Name, owners: set<Name>, q: Name, now: Time)
    requires Complete(records, zone, owners, now) && ZoneNames(zone, owners) && owners != {zone} && OrderKept(owners)
    requires IsSubDomain(zone, q) && q !in owners
    ensures Denied(records, zone, q, now)
  {
    ApexFirst(zone, q);
    var last := LastBefore(owners, q, zone);
    assert HasLiveRecord(records, zone, last, now);
    var rec :| rec in records && rec.owner == last && rec.zone == zone && Live(rec, now);
    LastRecordDenies(zone, owners, rec, q);
  }

  lemma NextIsUnique(owners: set<Name>, x: Nsec, y: Nsec)
    requires LinksNeighbours(owners, x) && LinksNeighbours(owners, y) && x.owner == y.owner
    ensures x.next == y.next
  {
    NameLessIsStrictTotalOrder(x.next, y.next, x.next);
  }

  /** Exactly the names of the zone that own nothing are denied. */
  ghost predicate DeniesExactly(records: seq<Nsec>, zone: Name, owners: set<Name>, now: Time) {
    forall q: Name | IsSubDomain(zone, q) :: q !in owners <==> Denied(records, zone, q, now)
  }

  /**
    With the zone's whole chain in the cache and more than one owner name, exactly the
    names without records are denied, if and only if text keeps the owner names' order.
   */
  lemma CompleteChainDeniesExactlyIff(records: seq<Nsec>, zone: Name, owners: set<Name>, now: Time)
    requires Complete(records, zone, owners, now) && ZoneNames(zone, owners) && owners != {zone}
    ensures DeniesExactly(records, zone, owners, now) <==> OrderKept(owners)
  {
    if OrderKept(owners) {
      forall q: Name | IsSubDomain(zone, q) ensures q !in owners <==> Denied(records, zone, q, now) {
        if q !in owners {
          ChainDenies(records, zone, owners, q, now);
        } else if rec :| rec in records && rec.zone == zone && Proves(rec, q, now) {
          NeverDeniesOwner(owners, rec, q);
        }
      }
    } else {
      var lo, hi := WrongWayRound(owners);
      var link, q := MisorderDenies(zone, owners, lo, hi);
      assert HasLiveRecord(records, zone, link.owner, now);
      var rec :| rec in records && rec.owner == link.owner && rec.zone == zone && Live(rec, now);
      NextIsUnique(owners, rec, link);
      assert Proves(rec, q, now) && Denied(records, zone, q, now);
    }
  }

  /** A zone whose apex is its only owner name is never denied anything. */
  lemma LoneApexDeniesNothing(zone: Name, rec: Nsec, q: Name)
    requires LinksNeighbours({zone}, rec)
    ensures !Denies(rec, q)
  {
    TextLessIsStrictTotalOrder(zone, q, zone);
  }

  // ---------- a space in a name ----------

  /** The validator never covers a name that owns records. */
  lemma ValidatorSparesOwners(owners: set<Name>, rec: Nsec, q: Name)
    requires LinksNeighbours(owners, rec) && NsecCovers(rec, q)
    ensures q !in owners
  {
    NameLessIsStrictTotalOrder(rec.owner, q, rec.next);
    NameLessIsStrictTotalOrder(rec.owner, rec.next, rec.owner);
  }

  ghost predicate DeniesAnOwner(zone: Name, owners: set<Name>, rec: Nsec, q: Name) {
    ZoneNames(zone, owners) && LinksNeighbours(owners, rec) && q in owners && Denies(rec, q)
  }

  lemma TwoLabels(x: Octets, y: Octets, z: Octets)
    requires PlainLabel(x) && PlainLabel(y) && PlainLabel(z) && '.' !in x && '.' !in y && '.' !in z
    requires x[0] < y[0]
    ensures NameLess([x, z], [y, z])
    ensures if OctetsKept(x[0], y[0]) then TextLess([x, z], [y, z]) else TextLess([y, z], [x, z])
  {
    var a: Name, b: Name := [x, z], [y, z];
    var r, t := Reversed(a), Reversed(b);
    assert r == [z, x] && t == [z, y];
    assert r[1..] == [x] && t[1..] == [y];
    LessIrreflexive(z);
    assert ListLess(r[1..], t[1..]) && NameLess(a, b);
    assert NameKept(a, b) == ListKept(r[1..], t[1..]) == OctetsKept(x[0], y[0]);
    DotFreeKeepsOrderIff(a, b);
    TextOrderIff(a, b);
    TextLessIsStrictTotalOrder(a, b, a);
  }

  /** The names " z".e and 0.e are in canonical order, but the text of the first follows that of the second. */
  lemma SpaceMoves() returns (space: Name, zero: Name)
    ensures space == [" z", "e"] && zero == ["0", "e"]
    ensures NameLess(space, zero) && TextLess(zero, space)
  {
    space, zero := [" z", "e"], ["0", "e"];
    OctetsKeptIff(' ', '0');
    TwoLabels(" z", "0", "e");
  }

  /** An owner is denied, which the validator would not accept. */
  lemma MisorderMisleads(zone: Name, owners: set<Name>, lo: Name, hi: Name) returns (rec: Nsec, q: Name)
    requires ZoneNames(zone, owners) && lo in owners && hi in owners && NameLess(lo, hi) && TextLess(hi, lo)
    ensures DeniesAnOwner(zone, owners, rec, q) && !NsecCovers(rec, q)
  {
    rec, q := MisorderDenies(zone, owners, lo, hi);
    if NsecCovers(rec, q) {
      ValidatorSparesOwners(owners, rec, q);
    }
  }

  lemma BelowIt(x: Octets, zone: Octets)
    ensures IsSubDomain([zone], [x, zone]) && IsSubDomain([zone], [zone])
  {
    assert [x, zone][1..] == [zone] && [zone][0..] == [zone];
  }

  lemma MisorderInZone(zone: Name, lo: Name, hi: Name) returns (rec: Nsec, q: Name)
    requires IsSubDomain(zone, zone) && IsSubDomain(zone, lo) && IsSubDomain(zone, hi)
    requires NameLess(lo, hi) && TextLess(hi, lo)
    ensures DeniesAnOwner(zone, {zone, lo, hi}, rec, q) && !NsecCovers(rec, q)
  {
    rec, q := MisorderMisleads(zone, {zone, lo, hi}, lo, hi);
  }

  /** So it is in the zone e with these owner names. */
  lemma SpaceMisleads() returns (zone: Name, space: Name, zero: Name, rec: Nsec, q: Name)
    ensures zone == ["e"] && space == [" z", "e"] && zero == ["0", "e"]
    ensures DeniesAnOwner(zone, {zone, space, zero}, rec, q) && !NsecCovers(rec, q)
  {
    space, zero := SpaceMoves();
    zone := ["e"];
    BelowIt(" z", "e");
    BelowIt("0", "e");
    rec, q := MisorderInZone(zone, space, zero);
  }
}
