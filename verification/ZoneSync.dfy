/**
  Primary and secondary together: where the replies of the one take the other.
 */
module ZoneSync {
  import opened Wrappers
  import opened ByteOrder
  import opened CanonicalNames
  import opened Sequences
  import opened SerialNumbers
  import opened ZoneRecords
  import opened ZoneTransfer
  import opened ZoneVersions
  import opened ZoneJournal

  // ---------- full copies ----------

  lemma {:induction false} AddEachKeeps(d: Data, list: seq<RR>)
    requires Neat(d) && NoDuplicates(list) && Elements(list) !! Contents(d)
    requires forall rr | rr in list :: rr.Plain? && IsSubDomain(d.origin, rr.owner)
    requires forall a, b | a in Contents(d) + Elements(list) && b in Contents(d) + Elements(list) && SameRecord(a, b) ::
               a == b
    ensures var r := AddEach(d, list);
            && r.Some? && Neat(r.value) && Contents(r.value) == Contents(d) + Elements(list)
            && r.value.soa == d.soa && r.value.origin == d.origin
    decreases |list|
  {
    if list == [] {
      assert Elements(list) == {};
    } else {
      var next := WithRecord(d, list[0]);
      assert list[0] in list && list[0] in Elements(list);
      HasRecordIff(d, list[0]);
      AddOne(d, list[0]);
      assert Elements(list) == {list[0]} + Elements(list[1..]);
      assert list[0] !in Elements(list[1..]);
      AddEachKeeps(next, list[1..]);
    }
  }

  /** A full transfer builds exactly the version it lists. */
  lemma FullBuildsVersion(origin: Labels, v: Version, records: seq<RR>, sound: Data -> bool)
    requires Clean(origin, v) && IsFull(records, v)
    ensures var e := AddEach(Data(origin, None, map[]), records[..|records| - 1]);
            && Carries(e, origin, v)
            && FromAxfr(origin, records, sound) == if sound(e.value) then e else None
  {
    var empty := Data(origin, None, map[]);
    var last := |records| - 1;
    var body := records[1..last];
    var list := records[..last];
    assert list[1..] == body && list[0] == v.soa;
    var base := WithRecord(empty, v.soa);
    assert forall rr | rr in body :: rr in Elements(body);
    assert Neat(base) && Contents(base) == {};
    AddEachKeeps(base, body);
    TidyIff(AddEach(base, body).value);
  }

  /** A range of the journal leads to the version its last delta names. */
  lemma {:induction false} RangeMovesVersion(d: Data, name: Labels, versions: seq<Version>, h: seq<Delta>, bound: RR,
                          requested: Serial, a: nat, b: nat, sound: Data -> bool)
    requires Tells(d.origin, versions, h) && bound.Soa? && IsRange(h, requested, SerialOf(bound), a, b)
    requires Holds(d, versions[a])
    ensures var e := ApplyAll(d, h[a..b]);
            && Carries(e, d.origin, versions[b])
            && Transferred(d, name, Reply(bound, h[a..b]), sound) == if sound(e.value) then e else None
  {
    assert StepAt(versions, h, b - 1);
    TellsPart(d.origin, versions, h, a, b);
    var vs, cs := versions[a..b + 1], h[a..b];
    assert vs[0] == versions[a] && vs[|cs|] == versions[b];
    ReplyMovesVersion(d, name, vs, cs, bound, sound);
  }

  function SerialAt(versions: seq<Version>, i: nat): Serial
    requires i < |versions|
  {
    SerialOf(versions[i].soa)
  }

  /** No version before k has k's serial. */
  ghost predicate FirstOfSerial(versions: seq<Version>, k: nat)
    requires k < |versions|
  {
    forall i: nat | i < k :: SerialAt(versions, i) != SerialAt(versions, k)
  }

  /** b is the first version after k that has the newest one's serial. */
  ghost predicate FirstNewest(versions: seq<Version>, k: nat, b: nat)
    requires k < b < |versions|
  {
    && SerialAt(versions, b) == SerialAt(versions, |versions| - 1)
    && forall i | k < i < b :: SerialAt(versions, i) != SerialAt(versions, |versions| - 1)
  }

  lemma SerialTold(origin: Labels, versions: seq<Version>, h: seq<Delta>, i: nat)
    requires Tells(origin, versions, h) && i < |h|
    ensures From(h[i]) == SerialAt(versions, i) && To(h[i]) == SerialAt(versions, i + 1)
  {
    assert StepAt(versions, h, i);
  }

  lemma SerialsTold(origin: Labels, versions: seq<Version>, h: seq<Delta>)
    requires Tells(origin, versions, h)
    ensures forall i | 0 <= i < |h| :: From(h[i]) == SerialAt(versions, i)
    ensures h != [] ==> To(h[|h| - 1]) == SerialAt(versions, |h|)
  {
    forall i | 0 <= i < |h| ensures From(h[i]) == SerialAt(versions, i) && To(h[i]) == SerialAt(versions, i + 1) {
      SerialTold(origin, versions, h, i);
    }
  }

  /** A version the history tells of always has a range to the newest one's serial. */
  lemma RangeExists(origin: Labels, versions: seq<Version>, h: seq<Delta>, k: nat) returns (a: nat, b: nat)
    requires Tells(origin, versions, h) && k < |h|
    ensures a <= k && IsRange(h, SerialAt(versions, k), SerialAt(versions, |h|), a, b)
  {
    SerialsTold(origin, versions, h);
    a := 0;
    while From(h[a]) != SerialAt(versions, k)
      invariant a <= k && forall i | 0 <= i < a :: From(h[i]) != SerialAt(versions, k)
      decreases k - a
    {
      a := a + 1;
    }
    b := a + 1;
    while To(h[b - 1]) != SerialAt(versions, |h|)
      invariant a < b <= |h| && forall i | a <= i < b - 1 :: To(h[i]) != SerialAt(versions, |h|)
      decreases |h| - b
    {
      b := b + 1;
    }
  }

  /**
    The range a request is answered with runs from the version asked about to the newest
    exactly when no earlier version has the requested serial and none in between has the
    newest one's.
   */
  lemma RangeIsWhole(origin: Labels, versions: seq<Version>, h: seq<Delta>, k: nat)
    requires Tells(origin, versions, h) && k < |h|
    ensures FirstOfSerial(versions, k) && FirstNewest(versions, k, |h|) <==>
            forall a: nat, b: nat | IsRange(h, SerialAt(versions, k), SerialAt(versions, |h|), a, b) ::
              a == k && b == |h|
  {
    SerialsTold(origin, versions, h);
    var a', b' := RangeExists(origin, versions, h, k);
    forall a: nat, b: nat | IsRange(h, SerialAt(versions, k), SerialAt(versions, |h|), a, b)
      ensures a == a' && b == b'
    {
    }
    if a' == k {
      RangeFromFirst(origin, versions, h, k, b');
    }
    if FirstOfSerial(versions, k) {
      assert SerialAt(versions, a') == SerialAt(versions, k);
    } else {
      var i: nat :| i < k && SerialAt(versions, i) == SerialAt(versions, k);
      assert From(h[i]) == SerialAt(versions, k);
    }
  }

  lemma RangeFromFirst(origin: Labels, versions: seq<Version>, h: seq<Delta>, k: nat, b: nat)
    requires Tells(origin, versions, h) && k < b <= |h| && FirstOfSerial(versions, k)
    ensures IsRange(h, SerialAt(versions, k), SerialAt(versions, |h|), k, b) <==> FirstNewest(versions, k, b)
  {
    SerialsTold(origin, versions, h);
    SerialTold(origin, versions, h, b - 1);
    if IsRange(h, SerialAt(versions, k), SerialAt(versions, |h|), k, b) {
      forall i | k < i < b ensures SerialAt(versions, i) != SerialAt(versions, |h|) {
        SerialTold(origin, versions, h, i - 1);
      }
    }
    if FirstNewest(versions, k, b) {
      forall i | k <= i < b - 1 ensures To(h[i]) != SerialAt(versions, |h|) {
        SerialTold(origin, versions, h, i);
      }
    }
  }

  /**
    What the lemmas below share: k is the first version with the requested serial, d has the
    records of that version, and d accepts the newest version when it gets there.
   */
  ghost predicate Asks(d: Data, versions: seq<Version>, h: seq<Delta>, k: nat, sound: Data -> bool) {
    && Tells(d.origin, versions, h) && k < |h| && FirstOfSerial(versions, k)
    && Holds(d, versions[k])
    && SerialGreater(SerialAt(versions, |h|), SerialAt(versions, k))
    && forall e | Carries(Some(e), d.origin, versions[|h|]) :: sound(e)
  }

  ghost predicate Reaches(d: Data, versions: seq<Version>, h: seq<Delta>, records: seq<RR>, sound: Data -> bool)
    requires |versions| == |h| + 1 && d.soa.Some?
  {
    Carries(Transferred(d, d.origin, records, sound), d.origin, versions[|h|])
  }

  lemma RangeReplyIff(d: Data, versions: seq<Version>, h: seq<Delta>, k: nat, a: nat, b: nat, sound: Data -> bool)
    requires Asks(d, versions, h, k, sound) && IsRange(h, SerialAt(versions, k), SerialAt(versions, |h|), a, b)
    ensures a == k && FirstNewest(versions, k, b)
    ensures Reaches(d, versions, h, Reply(versions[|h|].soa, h[a..b]), sound) <==> versions[b] == versions[|h|]
  {
    SerialsTold(d.origin, versions, h);
    assert From(h[k]) == SerialAt(versions, k) && SerialAt(versions, a) == SerialAt(versions, k);
    RangeFromFirst(d.origin, versions, h, k, b);
    assert CleanAt(d.origin, versions, |h|);
    RangeMovesVersion(d, d.origin, versions, h, versions[|h|].soa, SerialAt(versions, k), a, b, sound);
  }

  lemma FullReaches(d: Data, versions: seq<Version>, h: seq<Delta>, k: nat, records: seq<RR>, sound: Data -> bool)
    requires Asks(d, versions, h, k, sound) && IsFull(records, versions[|h|])
    ensures Reaches(d, versions, h, records, sound) <==> versions[|h|].records != {}
  {
    assert CleanAt(d.origin, versions, |h|);
    FullReplyIff(d, versions[|h|], records, sound);
  }

  /** An answer is one of two kinds. */
  lemma EitherReaches(d: Data, versions: seq<Version>, h: seq<Delta>, requested: Serial, records: seq<RR>,
                      sound: Data -> bool)
    requires |versions| == |h| + 1 && d.soa.Some? && SerialGreater(SerialAt(versions, |h|), requested)
    requires IsAnswer(records, versions[|h|], h, requested)
    requires IsFull(records, versions[|h|]) ==> Reaches(d, versions, h, records, sound)
    requires forall a: nat, b: nat | IsRange(h, requested, SerialAt(versions, |h|), a, b) ::
               Reaches(d, versions, h, Reply(versions[|h|].soa, h[a..b]), sound)
    ensures Reaches(d, versions, h, records, sound)
  {
  }

  /** Every reply the primary may choose takes d to the newest version. */
  ghost predicate AlwaysUpToDate(d: Data, versions: seq<Version>, h: seq<Delta>, k: nat, sound: Data -> bool)
    requires |versions| == |h| + 1 && k < |versions| && d.soa.Some?
  {
    forall records | IsAnswer(records, versions[|h|], h, SerialAt(versions, k)) ::
      Reaches(d, versions, h, records, sound)
  }

  /** The first version after k with the newest one's serial is the newest one. */
  ghost predicate NewestComesFirst(versions: seq<Version>, k: nat)
    requires versions != []
  {
    forall b | k < b < |versions| && FirstNewest(versions, k, b) :: versions[b] == versions[|versions| - 1]
  }

  /**
    Exactly when, for a secondary with the records of the first version of its serial: the
    newest version has records besides the SOA, and the first later version with its serial
    is the same.
   */
  lemma UpToDateIff(d: Data, versions: seq<Version>, h: seq<Delta>, k: nat, sound: Data -> bool)
    requires Asks(d, versions, h, k, sound)
    ensures AlwaysUpToDate(d, versions, h, k, sound) <==> versions[|h|].records != {} && NewestComesFirst(versions, k)
  {
    if AlwaysUpToDate(d, versions, h, k, sound) {
      UpToDateNeeds(d, versions, h, k, sound);
    }
    if versions[|h|].records != {} && NewestComesFirst(versions, k) {
      forall a: nat, b: nat | IsRange(h, SerialAt(versions, k), SerialAt(versions, |h|), a, b)
        ensures Reaches(d, versions, h, Reply(versions[|h|].soa, h[a..b]), sound)
      {
        RangeReplyIff(d, versions, h, k, a, b, sound);
      }
      forall records | IsAnswer(records, versions[|h|], h, SerialAt(versions, k))
        ensures Reaches(d, versions, h, records, sound)
      {
        if IsFull(records, versions[|h|]) {
          FullReaches(d, versions, h, k, records, sound);
        }
        EitherReaches(d, versions, h, SerialAt(versions, k), records, sound);
      }
    }
  }

  lemma UpToDateNeeds(d: Data, versions: seq<Version>, h: seq<Delta>, k: nat, sound: Data -> bool)
    requires Asks(d, versions, h, k, sound) && AlwaysUpToDate(d, versions, h, k, sound)
    ensures versions[|h|].records != {} && NewestComesFirst(versions, k)
  {
    var newest, requested := versions[|h|], SerialAt(versions, k);
    var full := FullReply(newest);
    assert IsAnswer(full, newest, h, requested);
    FullReaches(d, versions, h, k, full, sound);
    forall b | k < b < |versions| && FirstNewest(versions, k, b) ensures versions[b] == newest {
      RangeFromFirst(d.origin, versions, h, k, b);
      assert IsAnswer(Reply(newest.soa, h[k..b]), newest, h, requested);
      RangeReplyIff(d, versions, h, k, k, b, sound);
    }
  }

  /**
    Primary and secondary together: whichever reply the primary chooses, a secondary
    that holds the version it asked from ends at exactly the primary's version.
   */
  lemma AnswerBringsUpToDate(d: Data, versions: seq<Version>, h: seq<Delta>, k: nat, sound: Data -> bool)
    requires Asks(d, versions, h, k, sound) && FirstNewest(versions, k, |h|)
    requires versions[|h|].records != {}
    ensures AlwaysUpToDate(d, versions, h, k, sound)
  {
    forall b | k < b < |versions| && FirstNewest(versions, k, b) ensures versions[b] == versions[|h|] {
      assert SerialAt(versions, b) == SerialAt(versions, |h|);
    }
    UpToDateIff(d, versions, h, k, sound);
  }

  lemma FirstNewestUnique(versions: seq<Version>, k: nat, b: nat)
    requires k < b < |versions| && FirstNewest(versions, k, b)
    ensures NewestComesFirst(versions, k) <==> versions[b] == versions[|versions| - 1]
  {
    forall c | k < c < |versions| && FirstNewest(versions, k, c) ensures c == b {
    }
  }

  /**
    What the primary with the newest version p does send: a full copy brings such a
    secondary up to date exactly when it lists a record, a range exactly when the first
    later version with the newest serial is the newest one.
   */
  lemma SentReachesIff(d: Data, versions: seq<Version>, h: seq<Delta>, k: nat, p: Data, records: seq<RR>,
                       allowFallback: bool, size: seq<RR> -> nat, sound: Data -> bool)
    requires Asks(d, versions, h, k, sound) && Neat(p) && p.soa.Some? && VersionOf(p) == versions[|h|]
    requires IsSent(records, p, h, SerialAt(versions, k), allowFallback, size)
    ensures Reaches(d, versions, h, records, sound) <==>
            if IsCopy(records, p) then versions[|h|].records != {} else NewestComesFirst(versions, k)
  {
    if IsCopy(records, p) {
      CopyIsFull(records, p);
      FullReaches(d, versions, h, k, records, sound);
    } else {
      var requested, newest := SerialAt(versions, k), versions[|h|];
      assert SentRange(records, p, h, requested, allowFallback, size);
      var a: nat, b: nat :| IsRange(h, requested, SerialOf(newest.soa), a, b) && records == Reply(newest.soa, h[a..b]);
      RangeReplyIff(d, versions, h, k, a, b, sound);
      FirstNewestUnique(versions, k, b);
    }
  }

  /** So under the conditions of UpToDateIff nothing the primary sends fails to. */
  lemma SentBringsUpToDate(d: Data, versions: seq<Version>, h: seq<Delta>, k: nat, p: Data, records: seq<RR>,
                           allowFallback: bool, size: seq<RR> -> nat, sound: Data -> bool)
    requires Asks(d, versions, h, k, sound) && Neat(p) && p.soa.Some? && VersionOf(p) == versions[|h|]
    requires versions[|h|].records != {} && NewestComesFirst(versions, k)
    requires IsSent(records, p, h, SerialAt(versions, k), allowFallback, size)
    ensures Reaches(d, versions, h, records, sound)
  {
    UpToDateIff(d, versions, h, k, sound);
    SentIsAnswer(records, p, h, SerialAt(versions, k), allowFallback, size);
  }

  /** A secondary with the primary's serial keeps its zone, and one that is ahead refuses the reply. */
  lemma NothingNewerToSend(d: Data, p: Data, h: seq<Delta>, records: seq<RR>, allowFallback: bool,
                           size: seq<RR> -> nat, sound: Data -> bool)
    requires d.soa.Some? && p.soa.Some? && p.soa.value.Soa?
    requires IsSent(records, p, h, SerialOf(d.soa.value), allowFallback, size)
    requires !SerialGreater(SerialOf(p.soa.value), SerialOf(d.soa.value))
    ensures Transferred(d, d.origin, records, sound) ==
              if SerialOf(p.soa.value) == SerialOf(d.soa.value) then Some(d) else None
  {
    SingleSoaReply(d, d.origin, p.soa.value, sound);
  }

  lemma FullReply(v: Version) returns (records: seq<RR>)
    ensures IsFull(records, v)
  {
    var body := AnyList(v.records);
    records := [v.soa] + body + [v.soa];
    assert records[1..|records| - 1] == body;
  }

  lemma AnyList(records: set<RR>) returns (list: seq<RR>)
    ensures Elements(list) == records && NoDuplicates(list)
  {
    if records == {} {
      list := [];
    } else {
      var rr :| rr in records;
      var rest := AnyList(records - {rr});
      list := [rr] + rest;
      assert Elements(list) == {rr} + Elements(rest);
      assert forall x | x in rest :: x in Elements(rest);
    }
  }

  lemma NoElements(list: seq<RR>)
    ensures Elements(list) == {} ==> list == []
  {
    if list != [] {
      assert list[0] in Elements(list);
    }
  }

  /** A full reply brings a secondary with an older serial up to date exactly when it lists a record. */
  lemma FullReplyIff(d: Data, v: Version, records: seq<RR>, sound: Data -> bool)
    requires d.soa.Some? && SerialOf(d.soa.value) != SerialOf(v.soa)
    requires Clean(d.origin, v) && IsFull(records, v) && forall e | Carries(Some(e), d.origin, v) :: sound(e)
    ensures Carries(Transferred(d, d.origin, records, sound), d.origin, v) <==> v.records != {}
  {
    FullBuildsVersion(d.origin, v, records, sound);
    if v.records != {} {
      FullIsNotIncremental(d, v, records, sound);
    } else {
      NoElements(records[1..|records| - 1]);
      assert Outcome(d, records, 1, 1) == Some(d);
    }
  }

  lemma FullIsNotIncremental(d: Data, v: Version, records: seq<RR>, sound: Data -> bool)
    requires d.soa.Some? && IsFull(records, v) && v.records != {} && v.soa.Soa?
    requires forall rr | rr in v.records :: rr.Plain?
    ensures Transferred(d, d.origin, records, sound) == FromAxfr(d.origin, records, sound)
  {
    var body := records[1..|records| - 1];
    var rr :| rr in v.records;
    assert rr in Elements(body);
    assert body[0] in Elements(body) && records[1] == body[0];
  }

  // ---------- a reply that stops early ----------

  /** A version whose only other content is whether it has a record. */
  function SmallVersion(serial: Serial, full: bool): Version {
    Version(Soa([], 0, serial, ""), if full then {Plain([], 300, 1, "a")} else {})
  }

  function SmallDelta(from: Serial, to: Serial, filled: bool): Delta {
    Delta(Soa([], 0, from, ""), Soa([], 0, to, ""), [], if filled then [Plain([], 300, 1, "a")] else [])
  }

  lemma SmallStep(from: Serial, to: Serial, filled: bool)
    requires SerialGreater(to, from)
    ensures Step(SmallVersion(from, false), SmallVersion(to, filled), SmallDelta(from, to, filled))
  {
    assert Elements<RR>([]) == {} && Elements([Plain([], 300, 1, "a")]) == {Plain([], 300, 1, "a")};
  }

  /** Serials that go once round the circle, with a record only at the end. */
  lemma RoundIsTold() returns (versions: seq<Version>, h: seq<Delta>)
    ensures |h| == 4 && Tells([], versions, h)
    ensures versions[0] == SmallVersion(0, false) && versions[1] == SmallVersion(1, false)
    ensures versions[4] == SmallVersion(1, true)
  {
    versions := [SmallVersion(0, false), SmallVersion(1, false), SmallVersion(0x8000_0000, false),
                 SmallVersion(0xC000_0000, false), SmallVersion(1, true)];
    h := [SmallDelta(0, 1, false), SmallDelta(1, 0x8000_0000, false),
          SmallDelta(0x8000_0000, 0xC000_0000, false), SmallDelta(0xC000_0000, 1, true)];
    SmallStep(0, 1, false);
    SmallStep(1, 0x8000_0000, false);
    SmallStep(0x8000_0000, 0xC000_0000, false);
    SmallStep(0xC000_0000, 1, true);
    assert StepAt(versions, h, 0) && StepAt(versions, h, 1) && StepAt(versions, h, 2) && StepAt(versions, h, 3);
  }

  /** Once serials have gone round the circle, a delta of the history can end at the newest serial too early. */
  lemma ReplyMayStopEarly()
    ensures exists d, versions, h, sound :: StopsEarly(d, versions, h, sound)
  {
    var versions, h := RoundIsTold();
    var d, sound := Data([], Some(versions[0].soa), map[]), (e: Data) => true;
    assert Contents(d) == {};
    assert FirstNewest(versions, 0, 1);
    UpToDateIff(d, versions, h, 0, sound);
    assert Plain([], 300, 1, "a") in versions[4].records;
    assert StopsEarly(d, versions, h, sound);
  }

  ghost predicate StopsEarly(d: Data, versions: seq<Version>, h: seq<Delta>, sound: Data -> bool) {
    Asks(d, versions, h, 0, sound) && versions[|h|].records != {} && !AlwaysUpToDate(d, versions, h, 0, sound)
  }
}
