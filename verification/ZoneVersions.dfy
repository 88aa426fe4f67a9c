/**
  What transfers mean for the versions of a zone: a version is an SOA and a set of
  records, and a delta is the difference of two versions.
 */
module ZoneVersions {
  import opened Wrappers
  import opened ByteOrder
  import opened CanonicalNames
  import opened Sequences
  import opened SerialNumbers
  import opened ZoneRecords
  import opened ZoneTransfer

  datatype Version = Version(soa: RR, records: set<RR>)

  ghost function VersionOf(d: Data): Version
    requires d.soa.Some?
  {
    Version(d.soa.value, Contents(d))
  }

  /** A tidy zone at exactly this version. */
  ghost predicate Carries(r: Option<Data>, origin: Labels, w: Version) {
    && r.Some? && Tidy(r.value) && r.value.origin == origin
    && r.value.soa == Some(w.soa) && Contents(r.value) == w.records
  }

  /** A version a zone can have: its SOA at the apex, no record twice, one time to live for each RRset. */
  ghost predicate Clean(origin: Labels, v: Version) {
    && v.soa.Soa? && v.soa.owner == origin
    && (forall rr | rr in v.records :: rr.Plain? && IsSubDomain(origin, rr.owner))
    && (forall a, b | a in v.records && b in v.records && SameRecord(a, b) :: a == b)
    && (forall a, b | a in v.records && b in v.records && KeyOf(a) == KeyOf(b) :: a.ttl == b.ttl)
  }

  ghost predicate IsDiff(v: Version, w: Version, c: Delta) {
    && c.fromSoa == v.soa && c.toSoa == w.soa
    && Elements(c.deleted) == v.records - w.records && NoDuplicates(c.deleted)
    && Elements(c.added) == w.records - v.records && NoDuplicates(c.added)
  }

  // ---------- accepted replies are chains of deltas ----------

  /** Serials that continue each other from s, always forward. */
  predicate Linked(deltas: seq<Delta>, s: Serial) {
    deltas == [] ||
    (SerialOf(deltas[0].fromSoa) == s
     && SerialGreater(SerialOf(deltas[0].toSoa), s)
     && Linked(deltas[1..], SerialOf(deltas[0].toSoa)))
  }

  function LastSerial(deltas: seq<Delta>, s: Serial): Serial {
    if deltas == [] then s else SerialOf(deltas[|deltas| - 1].toSoa)
  }

  lemma {:induction false} AddAllKeeps(d: Data, list: seq<RR>)
    requires forall rr | rr in list :: rr.Plain?
    ensures var r := AddAll(d, list); r.Some? ==> r.value.soa == d.soa && r.value.origin == d.origin
    decreases |list|
  {
    if list != [] && AddAll(d, list).Some? {
      assert list[0] in list;
      AddAllKeeps(WithRecord(d, list[0]), list[1..]);
    }
  }

  lemma {:induction false} DeleteAllKeeps(d: Data, list: seq<RR>)
    ensures var r := DeleteAll(d, list); r.Some? ==> r.value.origin == d.origin
    decreases |list|
  {
    if list != [] && DeleteAll(d, list).Some? {
      DeleteAllKeeps(WithoutRecord(d, list[0]), list[1..]);
    }
  }

  /** An applied delta leaves its own SOA behind. */
  lemma DeltaSetsSoa(d: Data, c: Delta)
    requires WellFormed(c)
    ensures var r := ApplyDelta(d, c); r.Some? ==> r.value.soa == Some(c.toSoa) && r.value.origin == d.origin
  {
    if ApplyDelta(d, c).Some? {
      DeleteAllKeeps(d, c.deleted);
      AddAllKeeps(NewSoa(DeleteAll(d, c.deleted).value, c.toSoa), c.added);
    }
  }

  lemma {:induction false} AppliedIsLinked(d: Data, deltas: seq<Delta>)
    requires d.soa.Some? && forall c | c in deltas :: WellFormed(c)
    ensures var r := ApplyAll(d, deltas);
            r.Some? ==>
              && Linked(deltas, SerialOf(d.soa.value)) && r.value.origin == d.origin
              && r.value.soa.Some? && SerialOf(r.value.soa.value) == LastSerial(deltas, SerialOf(d.soa.value))
    decreases |deltas|
  {
    if deltas != [] && ApplyAll(d, deltas).Some? {
      assert deltas[0] in deltas;
      DeltaSetsSoa(d, deltas[0]);
      AppliedIsLinked(ApplyDelta(d, deltas[0]).value, deltas[1..]);
    }
  }

  /** The reply is the deltas of a chain between two SOAs of the last serial, and the chain leads to e. */
  ghost predicate Explains(d: Data, records: seq<RR>, deltas: seq<Delta>, e: Data)
    requires d.soa.Some? && |records| >= 2
  {
    var last := |records| - 1;
    && (forall c | c in deltas :: WellFormed(c))
    && records[1..last] == Flatten(deltas)
    && records[last].Soa? && SerialOf(records[last]) == SerialOf(records[0])
    && Linked(deltas, SerialOf(d.soa.value)) && LastSerial(deltas, SerialOf(d.soa.value)) == SerialOf(records[0])
    && ApplyAll(d, deltas) == Some(e)
  }

  /** An incremental reply is accepted exactly when it is a chain of deltas from the current serial to its own. */
  lemma AcceptedIff(d: Data, records: seq<RR>, sound: Data -> bool, e: Data)
    requires d.soa.Some? && |records| >= 2
    ensures Incremental(d, records, sound) == Some(e) <==>
            Valid(e, sound) && exists deltas :: Explains(d, records, deltas, e)
  {
    var last := |records| - 1;
    if Incremental(d, records, sound) == Some(e) {
      var deltas := Deltas(records, 1, last).value;
      FlattenOfDeltas(records, 1, last);
      AppliedIsLinked(d, deltas);
      assert Explains(d, records, deltas, e);
    }
    forall deltas | Valid(e, sound) && Explains(d, records, deltas, e)
      ensures Incremental(d, records, sound) == Some(e)
    {
      DeltasOfFlatten(records, 1, last, deltas);
      AppliedIsLinked(d, deltas);
    }
  }

  // ---------- what a delta does to the records ----------

  ghost function Without(records: set<RR>, list: seq<RR>): set<RR> {
    set x | x in records && forall rr | rr in list :: !SameRecord(x, rr)
  }

  lemma {:induction false} DeleteAllMeaning(d: Data, list: seq<RR>)
    requires Tidy(d) && forall rr | rr in list :: rr.Plain?
    ensures var r := DeleteAll(d, list);
            r.Some? ==>
              && Tidy(r.value) && Contents(r.value) == Without(Contents(d), list)
              && r.value.soa == d.soa && r.value.origin == d.origin
    decreases |list|
  {
    if list == [] {
      assert Without(Contents(d), list) == Contents(d);
    } else if DeleteAll(d, list).Some? {
      var rest := WithoutRecord(d, list[0]);
      DeleteOne(d, list[0]);
      DeleteAllMeaning(rest, list[1..]);
      assert forall rr :: rr in list <==> rr == list[0] || rr in list[1..];
      assert Without(Contents(rest), list[1..]) == Without(Contents(d), list);
    }
  }

  lemma {:induction false} DeleteAllSucceeds(d: Data, list: seq<RR>)
    requires Tidy(d) && NoDuplicates(list) && forall rr | rr in list :: rr in Contents(d)
    ensures DeleteAll(d, list).Some?
    decreases |list|
  {
    if list != [] {
      var rest := WithoutRecord(d, list[0]);
      assert list[0] in Contents(d);
      ContentsByKey(d, list[0]);
      DeleteOne(d, list[0]);
      forall rr | rr in list[1..] ensures rr in Contents(rest) {
        assert rr in list && rr != list[0];
        if SameRecord(rr, list[0]) {
          StoredOnce(d, rr, list[0]);
        }
      }
      DeleteAllSucceeds(rest, list[1..]);
    }
  }

  lemma {:induction false} AddAllMeaning(d: Data, list: seq<RR>)
    requires Neat(d) && forall rr | rr in list :: rr.Plain?
    ensures var r := AddAll(d, list);
            r.Some? ==>
              && Neat(r.value) && Contents(r.value) == Contents(d) + Elements(list)
              && Elements(list) !! Contents(d) && NoDuplicates(list)
    decreases |list|
  {
    if list == [] {
      assert Elements(list) == {};
    } else if AddAll(d, list).Some? {
      var next := WithRecord(d, list[0]);
      AddOne(d, list[0]);
      HasRecordIff(d, list[0]);
      AddAllMeaning(next, list[1..]);
      assert Elements(list) == {list[0]} + Elements(list[1..]);
    }
  }

  lemma {:induction false} AddAllSucceeds(d: Data, list: seq<RR>, w: Version)
    requires Neat(d) && NoDuplicates(list) && Clean(d.origin, w)
    requires Contents(d) + Elements(list) <= w.records && Contents(d) !! Elements(list)
    ensures AddAll(d, list).Some?
    decreases |list|
  {
    if list != [] {
      assert list[0] in Elements(list);
      HasRecordIff(d, list[0]);
      AddOne(d, list[0]);
      assert Elements(list) == {list[0]} + Elements(list[1..]);
      assert list[0] !in Elements(list[1..]);
      AddAllSucceeds(WithRecord(d, list[0]), list[1..], w);
    }
  }

  /** In a tidy zone an applied delta removes what it deletes, adds what it adds, and touches nothing else. */
  lemma ChangeMeaning(d: Data, deleted: seq<RR>, soa: RR, added: seq<RR>)
    requires Tidy(d) && soa.Soa?
    requires (forall rr | rr in deleted :: rr.Plain?) && (forall rr | rr in added :: rr.Plain?)
    ensures var r := Change(d, deleted, soa, added);
            r.Some? ==>
              && Neat(r.value) && r.value.soa == Some(soa) && r.value.origin == d.origin
              && Contents(r.value) == Without(Contents(d), deleted) + Elements(added)
              && Elements(added) !! Without(Contents(d), deleted) && NoDuplicates(added)
  {
    if Change(d, deleted, soa, added).Some? {
      var left := DeleteAll(d, deleted).value;
      DeleteAllMeaning(d, deleted);
      NewApex(left, soa);
      AddAllMeaning(NewSoa(left, soa), added);
      AddAllKeeps(NewSoa(left, soa), added);
    }
  }

  lemma ExactlyWithout(d: Data, list: seq<RR>)
    requires Neat(d) && forall rr | rr in list :: rr in Contents(d)
    ensures Without(Contents(d), list) == Contents(d) - Elements(list)
  {
    forall x | x in Contents(d) ensures (forall rr | rr in list :: !SameRecord(x, rr)) <==> x !in list {
      forall rr | rr in list && SameRecord(x, rr) ensures x == rr {
        StoredOnce(d, x, rr);
      }
    }
  }

  lemma ChangeSucceeds(d: Data, deleted: seq<RR>, added: seq<RR>, w: Version)
    requires Tidy(d) && Clean(d.origin, w)
    requires NoDuplicates(deleted) && Elements(deleted) <= Contents(d)
    requires NoDuplicates(added) && Elements(added) !! Contents(d) - Elements(deleted)
    requires w.records == Contents(d) - Elements(deleted) + Elements(added)
    ensures Carries(Change(d, deleted, w.soa, added), d.origin, w)
  {
    DeletionsSucceed(d, deleted);
    var left := DeleteAll(d, deleted).value;
    NewApex(left, w.soa);
    var base := NewSoa(left, w.soa);
    assert IsSubDomain(d.origin, w.soa.owner);
    AdditionsSucceed(base, added, w);
  }

  lemma {:induction false} AdditionsSucceed(base: Data, added: seq<RR>, w: Version)
    requires Neat(base) && base.soa == Some(w.soa) && Clean(base.origin, w)
    requires NoDuplicates(added) && Elements(added) !! Contents(base)
    requires w.records == Contents(base) + Elements(added)
    ensures Carries(AddAll(base, added), base.origin, w)
  {
    AddAllSucceeds(base, added, w);
    assert forall rr | rr in added :: rr in Elements(added);
    AddAllMeaning(base, added);
    AddAllKeeps(base, added);
    TidyIff(AddAll(base, added).value);
  }

  lemma {:induction false} DeletionsSucceed(d: Data, deleted: seq<RR>)
    requires Tidy(d) && NoDuplicates(deleted) && Elements(deleted) <= Contents(d)
    ensures var r := DeleteAll(d, deleted);
            && r.Some? && Tidy(r.value) && r.value.origin == d.origin
            && Contents(r.value) == Contents(d) - Elements(deleted)
  {
    assert forall rr | rr in deleted :: rr in Elements(deleted);
    forall rr | rr in deleted ensures rr.Plain? {
      ContentsByKey(d, rr);
    }
    DeleteAllSucceeds(d, deleted);
    DeleteAllMeaning(d, deleted);
    ExactlyWithout(d, deleted);
  }

  // ---------- forward: deltas carry one version to the next ----------

  /** A tidy zone with the records of this version and its serial, whatever else its SOA says. */
  ghost predicate Holds(d: Data, v: Version) {
    Tidy(d) && d.soa.Some? && SerialOf(d.soa.value) == SerialOf(v.soa) && Contents(d) == v.records
  }

  lemma DiffMovesVersion(d: Data, v: Version, w: Version, c: Delta)
    requires Holds(d, v) && Clean(d.origin, w)
    requires Step(v, w, c)
    ensures Carries(ApplyDelta(d, c), d.origin, w)
  {
    ChangeSucceeds(d, c.deleted, c.added, w);
  }

  ghost predicate Step(v: Version, w: Version, c: Delta) {
    IsDiff(v, w, c) && SerialGreater(SerialOf(w.soa), SerialOf(v.soa))
  }

  ghost predicate CleanAt(origin: Labels, versions: seq<Version>, i: nat)
    requires i < |versions|
  {
    Clean(origin, versions[i])
  }

  ghost predicate StepAt(versions: seq<Version>, deltas: seq<Delta>, i: nat)
    requires i < |deltas| && i + 1 < |versions|
  {
    Step(versions[i], versions[i + 1], deltas[i])
  }

  /** Deltas that are the differences of consecutive versions, with advancing serials. */
  ghost predicate Tells(origin: Labels, versions: seq<Version>, deltas: seq<Delta>) {
    && |versions| == |deltas| + 1
    && (forall i | 0 <= i < |versions| :: CleanAt(origin, versions, i))
    && forall i | 0 <= i < |deltas| :: StepAt(versions, deltas, i)
  }

  lemma TellsPart(origin: Labels, versions: seq<Version>, deltas: seq<Delta>, a: nat, b: nat)
    requires Tells(origin, versions, deltas) && a <= b <= |deltas|
    ensures Tells(origin, versions[a..b + 1], deltas[a..b])
  {
    var vs, cs := versions[a..b + 1], deltas[a..b];
    forall i | 0 <= i < |vs| ensures CleanAt(origin, vs, i) {
      assert CleanAt(origin, versions, a + i);
    }
    forall i | 0 <= i < |cs| ensures StepAt(vs, cs, i) {
      assert StepAt(versions, deltas, a + i);
    }
  }

  /** A chain of deltas turns the first version into exactly the last. */
  lemma {:induction false} ChainMovesVersion(d: Data, versions: seq<Version>, deltas: seq<Delta>)
    requires Tells(d.origin, versions, deltas) && Holds(d, versions[0])
    requires deltas == [] ==> Carries(Some(d), d.origin, versions[0])
    ensures Carries(ApplyAll(d, deltas), d.origin, versions[|deltas|])
    decreases |deltas|
  {
    if deltas != [] {
      assert StepAt(versions, deltas, 0) && CleanAt(d.origin, versions, 1);
      DiffMovesVersion(d, versions[0], versions[1], deltas[0]);
      TellsPart(d.origin, versions, deltas, 1, |deltas|);
      assert versions[1..|deltas| + 1] == versions[1..] && deltas[1..|deltas|] == deltas[1..];
      ChainMovesVersion(ApplyDelta(d, deltas[0]).value, versions[1..], deltas[1..]);
    }
  }

  lemma DiffIsWellFormed(origin: Labels, v: Version, w: Version, c: Delta)
    requires Clean(origin, v) && Clean(origin, w) && IsDiff(v, w, c)
    ensures WellFormed(c)
  {
    assert forall rr | rr in c.deleted :: rr in Elements(c.deleted);
    assert forall rr | rr in c.added :: rr in Elements(c.added);
  }

  lemma DeltasAreWellFormed(origin: Labels, versions: seq<Version>, deltas: seq<Delta>)
    requires Tells(origin, versions, deltas)
    ensures forall c | c in deltas :: WellFormed(c)
  {
    forall c | c in deltas ensures WellFormed(c) {
      var i :| 0 <= i < |deltas| && deltas[i] == c;
      assert StepAt(versions, deltas, i) && CleanAt(origin, versions, i) && CleanAt(origin, versions, i + 1);
      DiffIsWellFormed(origin, versions[i], versions[i + 1], c);
    }
  }

  /**
    The whole reply: a secondary at the first version that accepts it ends at exactly
    the last.  The SOAs around the deltas only need the last version's serial.
   */
  lemma {:induction false} ReplyMovesVersion(d: Data, name: Labels, versions: seq<Version>, deltas: seq<Delta>,
                                             bound: RR, sound: Data -> bool)
    requires deltas != [] && Tells(d.origin, versions, deltas) && Holds(d, versions[0])
    requires bound.Soa? && SerialOf(bound) == SerialOf(versions[|deltas|].soa)
    ensures var e := ApplyAll(d, deltas);
            && Carries(e, d.origin, versions[|deltas|])
            && Transferred(d, name, Reply(bound, deltas), sound) == if sound(e.value) then e else None
  {
    assert CleanAt(d.origin, versions, |deltas|);
    ChainMovesVersion(d, versions, deltas);
    DeltasAreWellFormed(d.origin, versions, deltas);
    ReplyIsAccepted(d, name, bound, deltas, ApplyAll(d, deltas).value, sound);
  }

  lemma {:induction false} ReplyIsAccepted(d: Data, name: Labels, bound: RR, deltas: seq<Delta>, e: Data,
                                           sound: Data -> bool)
    requires deltas != [] && forall c | c in deltas :: WellFormed(c)
    requires d.soa.Some? && ApplyAll(d, deltas) == Some(e)
    requires bound.Soa? && e.soa.Some? && SerialOf(e.soa.value) == SerialOf(bound) && e.soa.value.owner == e.origin
    ensures Transferred(d, name, Reply(bound, deltas), sound) == if sound(e) then Some(e) else None
  {
    ReplyIsRead(d, bound, deltas);
    OutcomeIsTransferred(d, name, Reply(bound, deltas), bound, e, sound);
  }

  /** An incremental reply between two copies of one SOA, and where it leads. */
  ghost predicate ReadsAs(d: Data, records: seq<RR>, newest: RR, outcome: Option<Data>) {
    && |records| > 2 && records[0] == newest && records[1].Soa? && records[|records| - 1] == newest
    && Outcome(d, records, 1, |records| - 1) == outcome
  }

  lemma {:induction false} ReplyIsRead(d: Data, newest: RR, deltas: seq<Delta>)
    requires deltas != [] && forall c | c in deltas :: WellFormed(c)
    ensures ReadsAs(d, Reply(newest, deltas), newest, ApplyAll(d, deltas))
  {
    var reply := Reply(newest, deltas);
    assert reply[1..|reply| - 1] == Flatten(deltas);
    DeltasOfFlatten(reply, 1, |reply| - 1, deltas);
    RestStartsWithSoa(deltas);
    assert |Block(deltas[0])| >= 2;
    assert reply[1] == Flatten(deltas)[0];
  }

  lemma OutcomeIsTransferred(d: Data, name: Labels, records: seq<RR>, bound: RR, e: Data, sound: Data -> bool)
    requires d.soa.Some? && ReadsAs(d, records, bound, Some(e))
    requires bound.Soa? && e.soa.Some? && SerialOf(e.soa.value) == SerialOf(bound) && e.soa.value.owner == e.origin
    ensures Transferred(d, name, records, sound) == if sound(e) then Some(e) else None
  {
  }

  // ---------- mixed times to live ----------

  /** A neat zone accepts a reply of one delta that deletes rr, and keeps rr. */
  ghost predicate Survives(d: Data, c: Delta, rr: RR) {
    && Neat(d) && d.soa.Some? && WellFormed(c) && c.deleted == [rr] && c.added == []
    && var e := Transferred(d, d.origin, Reply(c.toSoa, [c]), _ => true); e.Some? && rr in Contents(e.value)
  }

  /** Where one RRset mixes times to live, an accepted reply can leave a deleted record in place. */
  lemma DeletedRecordMaySurvive()
    ensures exists d, c, rr :: Survives(d, c, rr)
  {
    var one, two := Soa([], 0, 1, ""), Soa([], 0, 2, "");
    var first, rr := Plain([], 300, 1, "a"), Plain([], 600, 1, "b");
    var key := Key([], Other(1));
    var d := Data([], Some(one), map[key := [first, rr]]);
    assert KeyOf(rr) == key && RecordsAt(d, key) == [first, rr];
    assert !SameRecord(first, rr);
    assert NeatList(d, key);
    assert HasRecord(d, rr) by {
      assert rr in [first, rr];
    }
    assert AtTtl(rr, 300) !in [first, rr];
    assert WithoutRecord(d, rr) == d;
    assert DeleteAll(d, [rr]) == Some(d) by {
      assert [rr][1..] == [];
    }
    var c := Delta(one, two, [rr], []);
    NewApex(d, two);
    var e := NewSoa(d, two);
    assert ApplyDelta(d, c) == Some(e);
    assert ApplyAll(d, [c]) == Some(e) by {
      assert [c][1..] == [];
    }
    ReplyIsAccepted(d, [], two, [c], e, _ => true);
    ContentsByKey(d, rr);
    assert Survives(d, c, rr);
  }
}
