/**
  Serials that repeat.  The range a request is answered with starts at the first version
  of the requested serial, whose records a secondary with that serial need not have.
 */
module ZoneShift {
  import opened Wrappers
  import opened ByteOrder
  import opened CanonicalNames
  import opened SerialNumbers
  import opened ZoneRecords
  import opened ZoneTransfer
  import opened ZoneVersions
  import opened ZoneUndo
  import opened ZoneJournal
  import opened ZoneSync

  /** One time to live for each record set, the same in every version. */
  ghost predicate Timed(records: set<RR>, ttl: Key -> nat) {
    forall rr | rr in records :: rr.ttl == ttl(KeyOf(rr))
  }

  lemma TimedOnce(a: RR, b: RR, ttl: Key -> nat)
    requires SameRecord(a, b) && a.ttl == ttl(KeyOf(a)) && b.ttl == ttl(KeyOf(b))
    ensures a == b
  {
  }

  /** A tidy zone with a serial of its own choice of records. */
  ghost predicate Fits(d: Data, serial: Serial, ttl: Key -> nat) {
    && Tidy(d) && d.soa.Some? && SerialOf(d.soa.value) == serial
    && Timed(Contents(d), ttl) && forall rr | rr in Contents(d) :: rr.Plain? && IsSubDomain(d.origin, rr.owner)
  }

  /** The delta deletes nothing that is missing and adds nothing that is there already. */
  ghost predicate Avoids(c: Delta, missing: set<RR>, extra: set<RR>) {
    Elements(c.deleted) !! missing && Elements(c.added) !! extra
  }

  /** The version with the same records missing and extra. */
  ghost function Shifted(v: Version, missing: set<RR>, extra: set<RR>): Version {
    Version(v.soa, v.records - missing + extra)
  }

  lemma ShiftedIsClean(origin: Labels, d: Data, v: Version, w: Version, ttl: Key -> nat)
    requires Clean(origin, w) && Timed(w.records, ttl) && origin == d.origin && Fits(d, SerialOf(v.soa), ttl)
    ensures Clean(origin, Shifted(w, v.records - Contents(d), Contents(d) - v.records))
  {
    var x := Shifted(w, v.records - Contents(d), Contents(d) - v.records);
    forall a, b | a in x.records && b in x.records && SameRecord(a, b) ensures a == b {
      TimedOnce(a, b, ttl);
    }
  }

  /** An avoiding delta applies, and shifts its version likewise. */
  lemma AvoidingApplies(d: Data, v: Version, w: Version, c: Delta, ttl: Key -> nat)
    requires Fits(d, SerialOf(v.soa), ttl) && Timed(w.records, ttl)
    requires Clean(d.origin, w) && Step(v, w, c)
    requires Avoids(c, v.records - Contents(d), Contents(d) - v.records)
    ensures Carries(ApplyDelta(d, c), d.origin, Shifted(w, v.records - Contents(d), Contents(d) - v.records))
  {
    var s := Contents(d);
    var x := Shifted(w, v.records - s, s - v.records);
    ShiftedIsClean(d.origin, d, v, w, ttl);
    assert Elements(c.deleted) <= s;
    assert x.records == s - Elements(c.deleted) + Elements(c.added);
    ChangeSucceeds(d, c.deleted, c.added, x);
  }

  /** Only avoiding deltas apply. */
  lemma AppliedAvoids(d: Data, v: Version, w: Version, c: Delta, ttl: Key -> nat)
    requires Fits(d, SerialOf(v.soa), ttl) && Timed(v.records, ttl) && Timed(w.records, ttl)
    requires Clean(d.origin, v) && Clean(d.origin, w) && Step(v, w, c) && ApplyDelta(d, c).Some?
    ensures Avoids(c, v.records - Contents(d), Contents(d) - v.records)
  {
    var s := Contents(d);
    DiffIsWellFormed(d.origin, v, w, c);
    assert forall rr | rr in c.deleted :: rr in Elements(c.deleted);
    assert forall rr | rr in c.added :: rr in Elements(c.added);
    forall rr | rr in c.deleted ensures rr in s {
      DeletionsAreStored(d, c.deleted, rr);
      var x :| x in s && SameRecord(x, rr);
      TimedOnce(x, rr, ttl);
    }
    ChangeMeaning(d, c.deleted, c.toSoa, c.added);
    forall rr, x | rr in s - v.records && x in c.deleted ensures !SameRecord(rr, x) {
      if SameRecord(rr, x) {
        TimedOnce(rr, x, ttl);
      }
    }
    assert s - v.records <= Without(s, c.deleted);
  }

  lemma ShiftStays(v: Version, w: Version, c: Delta, s: set<RR>)
    requires IsDiff(v, w, c) && Avoids(c, v.records - s, s - v.records)
    ensures var x := Shifted(w, v.records - s, s - v.records).records;
            w.records - x == v.records - s && x - w.records == s - v.records
  {
    var missing, extra := v.records - s, s - v.records;
    var x := w.records - missing + extra;
    assert w.records == v.records - Elements(c.deleted) + Elements(c.added);
    assert missing <= w.records && extra !! w.records;
  }

  ghost predicate AllAvoid(deltas: seq<Delta>, missing: set<RR>, extra: set<RR>) {
    forall i | 0 <= i < |deltas| :: Avoids(deltas[i], missing, extra)
  }

  ghost predicate AllTimed(versions: seq<Version>, ttl: Key -> nat) {
    forall i | 0 <= i < |versions| :: Timed(versions[i].records, ttl)
  }

  lemma FirstAndRest(deltas: seq<Delta>, missing: set<RR>, extra: set<RR>)
    requires deltas != []
    ensures AllAvoid(deltas, missing, extra) <==>
            Avoids(deltas[0], missing, extra) && AllAvoid(deltas[1..], missing, extra)
  {
    if Avoids(deltas[0], missing, extra) && AllAvoid(deltas[1..], missing, extra) {
      forall i | 0 <= i < |deltas| ensures Avoids(deltas[i], missing, extra) {
        assert i > 0 ==> deltas[i] == deltas[1..][i - 1];
      }
    }
  }

  lemma NextFits(d: Data, v: Version, w: Version, c: Delta, next: Data, ttl: Key -> nat)
    requires Fits(d, SerialOf(v.soa), ttl) && Timed(w.records, ttl) && Clean(d.origin, w)
    requires Carries(Some(next), d.origin, Shifted(w, v.records - Contents(d), Contents(d) - v.records))
    ensures Fits(next, SerialOf(w.soa), ttl)
  {
  }

  /** One delta applies exactly when it avoids the difference, which it then keeps. */
  lemma DeltaShifts(d: Data, v: Version, w: Version, c: Delta, ttl: Key -> nat)
    requires Fits(d, SerialOf(v.soa), ttl) && Timed(v.records, ttl) && Timed(w.records, ttl)
    requires Clean(d.origin, v) && Clean(d.origin, w) && Step(v, w, c)
    ensures var missing, extra, r := v.records - Contents(d), Contents(d) - v.records, ApplyDelta(d, c);
            if !Avoids(c, missing, extra) then r.None?
            else
              && Carries(r, d.origin, Shifted(w, missing, extra)) && Fits(r.value, SerialOf(w.soa), ttl)
              && w.records - Contents(r.value) == missing && Contents(r.value) - w.records == extra
  {
    if Avoids(c, v.records - Contents(d), Contents(d) - v.records) {
      AvoidingApplies(d, v, w, c, ttl);
      ShiftStays(v, w, c, Contents(d));
      NextFits(d, v, w, c, ApplyDelta(d, c).value, ttl);
    } else if ApplyDelta(d, c).Some? {
      AppliedAvoids(d, v, w, c, ttl);
    }
  }

  lemma TellsRest(origin: Labels, versions: seq<Version>, deltas: seq<Delta>, ttl: Key -> nat)
    requires Tells(origin, versions, deltas) && AllTimed(versions, ttl) && deltas != []
    ensures Tells(origin, versions[1..], deltas[1..]) && AllTimed(versions[1..], ttl)
  {
    TellsPart(origin, versions, deltas, 1, |deltas|);
    assert versions[1..|deltas| + 1] == versions[1..] && deltas[1..|deltas|] == deltas[1..];
  }

  ghost predicate ChainLeads(r: Option<Data>, origin: Labels, last: Version, deltas: seq<Delta>,
                             missing: set<RR>, extra: set<RR>) {
    if AllAvoid(deltas, missing, extra) then Carries(r, origin, Shifted(last, missing, extra)) else r.None?
  }

  /** A chain applies to other records exactly when it touches none of the difference, and keeps the difference. */
  lemma {:induction false} ChainShifts(d: Data, versions: seq<Version>, deltas: seq<Delta>, ttl: Key -> nat)
    requires Tells(d.origin, versions, deltas) && AllTimed(versions, ttl) && deltas != []
    requires Fits(d, SerialOf(versions[0].soa), ttl)
    ensures ChainLeads(ApplyAll(d, deltas), d.origin, versions[|deltas|], deltas,
                       versions[0].records - Contents(d), Contents(d) - versions[0].records)
    decreases |deltas|
  {
    var v, w, c := versions[0], versions[1], deltas[0];
    assert StepAt(versions, deltas, 0) && CleanAt(d.origin, versions, 0) && CleanAt(d.origin, versions, 1);
    assert Timed(v.records, ttl) && Timed(w.records, ttl);
    DeltaShifts(d, v, w, c, ttl);
    FirstAndRest(deltas, v.records - Contents(d), Contents(d) - v.records);
    if ApplyDelta(d, c).Some? {
      var next, rest := ApplyDelta(d, c).value, deltas[1..];
      assert ApplyAll(d, deltas) == ApplyAll(next, rest);
      if rest != [] {
        TellsRest(d.origin, versions, deltas, ttl);
        ChainShifts(next, versions[1..], rest, ttl);
      }
    }
  }

  // ---------- requests from such a secondary ----------

  /** d asks with the serial of version a, the first with that serial, whatever records d has. */
  ghost predicate AsksAnyway(d: Data, versions: seq<Version>, h: seq<Delta>, a: nat, ttl: Key -> nat,
                             sound: Data -> bool) {
    && Tells(d.origin, versions, h) && AllTimed(versions, ttl) && a < |h| && FirstOfSerial(versions, a)
    && Fits(d, SerialAt(versions, a), ttl)
    && SerialGreater(SerialAt(versions, |h|), SerialAt(versions, a))
    && forall e | Carries(Some(e), d.origin, versions[|h|]) :: sound(e)
  }

  /** The deltas from a to b leave alone what d has too much and too little of version a, and that makes up for b. */
  ghost predicate LeadsToNewest(d: Data, versions: seq<Version>, h: seq<Delta>, a: nat, b: nat)
    requires a < b <= |h| && |versions| == |h| + 1
  {
    var missing, extra := versions[a].records - Contents(d), Contents(d) - versions[a].records;
    AllAvoid(h[a..b], missing, extra) && Shifted(versions[b], missing, extra) == versions[|h|]
  }

  lemma CarriesOne(e: Data, origin: Labels, x: Version, y: Version)
    requires Carries(Some(e), origin, x)
    ensures Carries(Some(e), origin, y) <==> x == y
  {
  }

  lemma RefusedIsNotTransferred(d: Data, name: Labels, records: seq<RR>, bound: RR, sound: Data -> bool)
    requires d.soa.Some? && ReadsAs(d, records, bound, None)
    ensures Transferred(d, name, records, sound).None?
  {
  }

  lemma {:induction false} RefusedChain(d: Data, name: Labels, bound: RR, deltas: seq<Delta>, sound: Data -> bool)
    requires d.soa.Some? && deltas != [] && (forall c | c in deltas :: WellFormed(c)) && ApplyAll(d, deltas).None?
    ensures Transferred(d, name, Reply(bound, deltas), sound).None?
  {
    var reply := Reply(bound, deltas);
    ReplyIsRead(d, bound, deltas);
    RefusedIsNotTransferred(d, name, reply, bound, sound);
  }

  /** What a range of the journal shifts d to. */
  lemma RangeShifts(d: Data, versions: seq<Version>, h: seq<Delta>, a: nat, b: nat, ttl: Key -> nat)
    requires Tells(d.origin, versions, h) && AllTimed(versions, ttl) && a < b <= |h|
    requires Fits(d, SerialAt(versions, a), ttl)
    ensures forall c | c in h[a..b] :: WellFormed(c)
    ensures ChainLeads(ApplyAll(d, h[a..b]), d.origin, versions[b], h[a..b],
                       versions[a].records - Contents(d), Contents(d) - versions[a].records)
  {
    var vs, cs := versions[a..b + 1], h[a..b];
    TellsPart(d.origin, versions, h, a, b);
    assert vs[0] == versions[a] && vs[|cs|] == versions[b];
    DeltasAreWellFormed(d.origin, vs, cs);
    forall i | 0 <= i < |vs| ensures Timed(vs[i].records, ttl) {
      assert vs[i] == versions[a + i];
    }
    ChainShifts(d, vs, cs, ttl);
  }

  lemma RangeLeadsIff(d: Data, versions: seq<Version>, h: seq<Delta>, a: nat, b: nat, ttl: Key -> nat,
                      sound: Data -> bool)
    requires AsksAnyway(d, versions, h, a, ttl, sound) && a < b <= |h| && FirstNewest(versions, a, b)
    ensures Reaches(d, versions, h, Reply(versions[|h|].soa, h[a..b]), sound) <==> LeadsToNewest(d, versions, h, a, b)
  {
    var newest, cs := versions[|h|], h[a..b];
    RangeShifts(d, versions, h, a, b, ttl);
    assert CleanAt(d.origin, versions, |h|) && CleanAt(d.origin, versions, b);
    ReplyLeadsIff(d, cs, versions[b], newest, versions[a].records - Contents(d), Contents(d) - versions[a].records,
                  sound);
  }

  /** A reply whose deltas lead where the chain does reaches the newest version exactly if that is where it is. */
  lemma ReplyLeadsIff(d: Data, cs: seq<Delta>, last: Version, newest: Version, missing: set<RR>, extra: set<RR>,
                      sound: Data -> bool)
    requires d.soa.Some? && cs != [] && (forall c | c in cs :: WellFormed(c))
    requires ChainLeads(ApplyAll(d, cs), d.origin, last, cs, missing, extra)
    requires newest.soa.Soa? && SerialOf(last.soa) == SerialOf(newest.soa) && last.soa.owner == d.origin
    requires forall e | Carries(Some(e), d.origin, newest) :: sound(e)
    ensures Carries(Transferred(d, d.origin, Reply(newest.soa, cs), sound), d.origin, newest) <==>
            AllAvoid(cs, missing, extra) && Shifted(last, missing, extra) == newest
  {
    var r := ApplyAll(d, cs);
    if r.None? {
      RefusedChain(d, d.origin, newest.soa, cs, sound);
    } else {
      ReplyIsAccepted(d, d.origin, newest.soa, cs, r.value, sound);
      CarriesOne(r.value, d.origin, Shifted(last, missing, extra), newest);
    }
  }

  /** Every first range to the newest serial leads d to the newest version. */
  ghost predicate AllLeadToNewest(d: Data, versions: seq<Version>, h: seq<Delta>, a: nat)
    requires |versions| == |h| + 1
  {
    forall b | a < b <= |h| && FirstNewest(versions, a, b) :: LeadsToNewest(d, versions, h, a, b)
  }

  /**
    Exactly when every reply brings a secondary with this serial and any records up to date,
    if every record set keeps one time to live.
   */
  lemma UpToDateAnywayIff(d: Data, versions: seq<Version>, h: seq<Delta>, a: nat, ttl: Key -> nat, sound: Data -> bool)
    requires AsksAnyway(d, versions, h, a, ttl, sound)
    ensures AlwaysUpToDate(d, versions, h, a, sound) <==>
            versions[|h|].records != {} && AllLeadToNewest(d, versions, h, a)
  {
    var newest, requested := versions[|h|], SerialAt(versions, a);
    assert CleanAt(d.origin, versions, |h|);
    forall records | IsFull(records, newest) ensures Reaches(d, versions, h, records, sound) <==> newest.records != {} {
      FullReplyIff(d, newest, records, sound);
    }
    if AlwaysUpToDate(d, versions, h, a, sound) {
      var full := FullReply(newest);
      assert IsAnswer(full, newest, h, requested);
      forall b | a < b <= |h| && FirstNewest(versions, a, b) ensures LeadsToNewest(d, versions, h, a, b) {
        RangeFromFirst(d.origin, versions, h, a, b);
        assert IsAnswer(Reply(newest.soa, h[a..b]), newest, h, requested);
        RangeLeadsIff(d, versions, h, a, b, ttl, sound);
      }
    }
    if newest.records != {} && AllLeadToNewest(d, versions, h, a) {
      forall records | IsAnswer(records, newest, h, requested) ensures Reaches(d, versions, h, records, sound) {
        AnswerLeads(d, versions, h, a, ttl, sound);
        EitherReaches(d, versions, h, requested, records, sound);
      }
    }
  }

  lemma AnswerLeads(d: Data, versions: seq<Version>, h: seq<Delta>, a: nat, ttl: Key -> nat, sound: Data -> bool)
    requires AsksAnyway(d, versions, h, a, ttl, sound) && AllLeadToNewest(d, versions, h, a)
    ensures forall i: nat, b: nat | IsRange(h, SerialAt(versions, a), SerialAt(versions, |h|), i, b) ::
              Reaches(d, versions, h, Reply(versions[|h|].soa, h[i..b]), sound)
  {
    SerialsTold(d.origin, versions, h);
    forall i: nat, b: nat | IsRange(h, SerialAt(versions, a), SerialAt(versions, |h|), i, b)
      ensures Reaches(d, versions, h, Reply(versions[|h|].soa, h[i..b]), sound)
    {
      assert From(h[a]) == SerialAt(versions, a) && SerialAt(versions, i) == SerialAt(versions, a);
      RangeFromFirst(d.origin, versions, h, a, b);
      RangeLeadsIff(d, versions, h, a, b, ttl, sound);
    }
  }

  // ---------- a reply that is refused ----------

  /** A zone of one record, or none, that has seen serial 0 twice. */
  lemma SerialTwice() returns (versions: seq<Version>, h: seq<Delta>)
    ensures |h| == 5 && Tells([], versions, h) && AllTimed(versions, _ => 300)
    ensures versions[0] == SmallVersion(0, false) && versions[4] == SmallVersion(0, true)
    ensures versions[5] == SmallVersion(1, true) && Plain([], 300, 1, "a") in h[3].added
    ensures FirstNewest(versions, 0, 5)
  {
    versions := [SmallVersion(0, false), SmallVersion(0x4000_0000, false), SmallVersion(0x8000_0000, false),
                 SmallVersion(0xC000_0000, false), SmallVersion(0, true), SmallVersion(1, true)];
    h := [SmallDelta(0, 0x4000_0000, false), SmallDelta(0x4000_0000, 0x8000_0000, false),
          SmallDelta(0x8000_0000, 0xC000_0000, false), SmallDelta(0xC000_0000, 0, true), SmallDelta(0, 1, false)];
    SmallStep(0, 0x4000_0000, false);
    SmallStep(0x4000_0000, 0x8000_0000, false);
    SmallStep(0x8000_0000, 0xC000_0000, false);
    SmallStep(0xC000_0000, 0, true);
    assert Step(SmallVersion(0, true), SmallVersion(1, true), SmallDelta(0, 1, false)) by {
      assert Elements<RR>([]) == {};
    }
    assert StepAt(versions, h, 0) && StepAt(versions, h, 1) && StepAt(versions, h, 2) && StepAt(versions, h, 3)
           && StepAt(versions, h, 4);
  }

  ghost predicate IsRefused(d: Data, versions: seq<Version>, h: seq<Delta>, k: nat, ttl: Key -> nat,
                            sound: Data -> bool) {
    && AsksAnyway(d, versions, h, 0, ttl, sound) && k < |h| && Carries(Some(d), d.origin, versions[k])
    && SerialAt(versions, k) == SerialAt(versions, 0) && versions[|h|].records != {}
    && ApplyAll(d, h).None?
  }

  /** A secondary at the later of two versions with one serial is sent the deltas from the earlier, and refuses them. */
  lemma ReplyMayBeRefused() returns (d: Data, versions: seq<Version>, h: seq<Delta>, k: nat, sound: Data -> bool)
    ensures IsRefused(d, versions, h, k, _ => 300, sound) && !AlwaysUpToDate(d, versions, h, 0, sound)
  {
    versions, h := SerialTwice();
    var rr := Plain([], 300, 1, "a");
    k, sound := 4, e => true;
    d := Data([], Some(versions[4].soa), map[Key([], Other(1)) := [rr]]);
    assert NeatList(d, Key([], Other(1)));
    forall x ensures x in Contents(d) <==> x == rr {
      ContentsByKey(d, x);
    }
    assert rr in Elements(h[3].added) && rr in Contents(d) - versions[0].records;
    assert h[0..5] == h && !AllAvoid(h, versions[0].records - Contents(d), Contents(d) - versions[0].records);
    RangeShifts(d, versions, h, 0, 5, _ => 300);
    assert !LeadsToNewest(d, versions, h, 0, 5);
    UpToDateAnywayIff(d, versions, h, 0, _ => 300, sound);
  }
}
