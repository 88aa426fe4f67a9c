/**
  Taking back a delta: applying it with its additions and deletions swapped.  What
  decides is the time to live, which acceptance of a delta leaves out of account.
 */
module ZoneUndo {
  import opened Wrappers
  import opened ByteOrder
  import opened CanonicalNames
  import opened Sequences
  import opened ZoneRecords
  import opened ZoneTransfer
  import opened ZoneVersions

  /** What swapping the additions and deletions of a delta makes of the zone it led to. */
  function Swapped(d: Data, c: Delta): Option<Data>
    requires d.soa.Some?
  {
    var e := ApplyDelta(d, c);
    if e.None? then None else Change(e.value, c.added, d.soa.value, c.deleted)
  }

  /** The additions share the time to live of the records that stay beside them. */
  ghost predicate Suits(d: Data, c: Delta) {
    forall a, x | a in c.added && x in Without(Contents(d), c.deleted) && KeyOf(a) == KeyOf(x) :: a.ttl == x.ttl
  }

  // ---------- additions at the end of their lists ----------

  /** The records of a list that belong to one record set, in order. */
  function OfKey(list: seq<RR>, key: Key): seq<RR> {
    if list == [] then [] else (if KeyOf(list[0]) == key then [list[0]] else []) + OfKey(list[1..], key)
  }

  ghost predicate Extends(d: Data, base: Data, list: seq<RR>) {
    forall key :: RecordsAt(d, key) == RecordsAt(base, key) + OfKey(list, key)
  }

  lemma {:induction false} OfKeyHas(list: seq<RR>, key: Key, rr: RR)
    ensures rr in OfKey(list, key) <==> rr in list && KeyOf(rr) == key
  {
    if list != [] {
      OfKeyHas(list[1..], key, rr);
    }
  }

  lemma {:induction false} AdditionsFollow(d: Data, list: seq<RR>)
    ensures var r := AddAll(d, list); r.Some? ==> Extends(r.value, d, list)
    decreases |list|
  {
    if list != [] && AddAll(d, list).Some? {
      var next := WithRecord(d, list[0]);
      AdditionsFollow(next, list[1..]);
      var end := AddAll(d, list).value;
      forall key ensures RecordsAt(end, key) == RecordsAt(d, key) + OfKey(list, key) {
        var head := if KeyOf(list[0]) == key then [list[0]] else [];
        assert RecordsAt(next, key) == RecordsAt(d, key) + head;
        Associate(RecordsAt(d, key), head, OfKey(list[1..], key));
      }
    }
  }

  // ---------- taking them off again ----------

  lemma SameLists(d: Data, e: Data)
    requires Neat(d) && Neat(e) && forall key :: RecordsAt(d, key) == RecordsAt(e, key)
    ensures Contents(d) == Contents(e)
  {
    forall rr ensures rr in Contents(d) <==> rr in Contents(e) {
      ContentsByKey(d, rr);
      ContentsByKey(e, rr);
    }
  }

  /** Deleting keeps a zone neat, and takes out nothing but the record asked for. */
  lemma DeleteKeepsNeat(d: Data, rr: RR)
    requires Neat(d) && rr.Plain?
    ensures var e := WithoutRecord(d, rr);
            Neat(e) && e.origin == d.origin && forall key | key != KeyOf(rr) :: RecordsAt(e, key) == RecordsAt(d, key)
  {
    var key := KeyOf(rr);
    var s := RecordsAt(d, key);
    if s != [] {
      assert NeatList(d, key);
      var k := IndexOf(s, AtTtl(rr, s[0].ttl));
      if k < |s| {
        var e := WithList(d, key, s[..k] + s[k + 1..]);
        assert WithoutRecord(d, rr) == e;
        forall other | other in e.sets && other.kind != SOA ensures NeatList(e, other) {
          assert other != key ==> NeatList(d, other);
        }
      }
    }
  }

  /** What stands at the end of a list after other records is found there. */
  lemma FoundAfter(old': seq<RR>, a: RR, rest: seq<RR>)
    requires a !in old'
    ensures var s := old' + ([a] + rest);
            IndexOf(s, a) == |old'| && s[..|old'|] + s[|old'| + 1..] == old' + rest
  {
    MiddleTaken(old', a, rest);
    FirstAfter(old', [a] + rest, a);
  }

  lemma MiddleTaken(old': seq<RR>, a: RR, rest: seq<RR>)
    ensures var s := old' + ([a] + rest); s[..|old'|] == old' && s[|old'| + 1..] == rest
  {
  }

  lemma {:induction false} FirstAfter(old': seq<RR>, tail: seq<RR>, a: RR)
    requires a !in old' && tail != [] && tail[0] == a
    ensures IndexOf(old' + tail, a) == |old'|
  {
    if old' == [] {
      assert old' + tail == tail;
    } else {
      assert (old' + tail)[1..] == old'[1..] + tail;
      FirstAfter(old'[1..], tail, a);
    }
  }

  lemma ListsWithout(d: Data, rr: RR, other: Key)
    requires rr.Plain? && RecordsAt(d, KeyOf(rr)) != []
    ensures var s := RecordsAt(d, KeyOf(rr));
            var k := IndexOf(s, AtTtl(rr, s[0].ttl));
            RecordsAt(WithoutRecord(d, rr), other) ==
              if other == KeyOf(rr) && k < |s| then s[..k] + s[k + 1..] else RecordsAt(d, other)
  {
  }

  /** The first addition goes when it leads its list or shares the time to live of the record that does. */
  lemma FirstAdditionGoes(d: Data, base: Data, list: seq<RR>)
    requires Neat(d) && Extends(d, base, list) && list != [] && list[0].Plain?
    requires forall x | x in RecordsAt(base, KeyOf(list[0])) :: x.ttl == list[0].ttl
    ensures HasRecord(d, list[0]) && Extends(WithoutRecord(d, list[0]), base, list[1..])
  {
    var a, key := list[0], KeyOf(list[0]);
    var s, old', rest := RecordsAt(d, key), RecordsAt(base, key), OfKey(list[1..], key);
    assert s == old' + ([a] + rest);
    assert s[|old'|] == a && a in s;
    assert NeatList(d, key);
    LedByItsTtl(s, old', a);
    FoundAfter(old', a, rest);
    var e := WithoutRecord(d, a);
    forall other ensures RecordsAt(e, other) == RecordsAt(base, other) + OfKey(list[1..], other) {
      ListsWithout(d, a, other);
      if other != key {
        assert OfKey(list, other) == OfKey(list[1..], other);
      }
    }
  }

  lemma LedByItsTtl(s: seq<RR>, old': seq<RR>, a: RR)
    requires |old'| < |s| && old' <= s && s[|old'|] == a && Distinct(s) && forall x | x in old' :: x.ttl == a.ttl
    ensures AtTtl(a, s[0].ttl) == a && a !in old'
  {
    assert old' == [] ==> s[0] == a;
    assert old' != [] ==> s[0] == old'[0];
    assert forall i | 0 <= i < |old'| :: s[i] == old'[i] && !SameRecord(s[i], s[|old'|]);
  }

  lemma {:induction false} AdditionsGo(d: Data, base: Data, list: seq<RR>)
    requires Neat(d) && Extends(d, base, list) && forall rr | rr in list :: rr.Plain?
    requires forall a, x | a in list && x in RecordsAt(base, KeyOf(a)) :: x.ttl == a.ttl
    ensures var r := DeleteAll(d, list);
            r.Some? && Neat(r.value) && r.value.origin == d.origin && Extends(r.value, base, [])
    decreases |list|
  {
    if list != [] {
      assert list[0] in list;
      FirstAdditionGoes(d, base, list);
      DeleteKeepsNeat(d, list[0]);
      AdditionsGo(WithoutRecord(d, list[0]), base, list[1..]);
    }
  }

  /** Suitable additions come off again in their own order, even where they mix times to live. */
  lemma SwappedIfSuited(d: Data, c: Delta)
    requires Tidy(d) && d.soa.Some? && Clean(d.origin, VersionOf(d)) && WellFormed(c)
    requires ApplyDelta(d, c).Some? && Elements(c.deleted) <= Contents(d) && Suits(d, c)
    ensures Carries(Swapped(d, c), d.origin, VersionOf(d))
  {
    var left := DeleteAll(d, c.deleted).value;
    DeleteAllMeaning(d, c.deleted);
    DeletionsDiffer(d, c.deleted);
    NewApex(left, c.toSoa);
    var base := NewSoa(left, c.toSoa);
    var e := ApplyDelta(d, c).value;
    AddAllMeaning(base, c.added);
    AdditionsFollow(base, c.added);
    forall a, x | a in c.added && x in RecordsAt(base, KeyOf(a)) ensures x.ttl == a.ttl {
      ContentsByKey(base, x);
      assert NeatList(base, KeyOf(a));
    }
    AdditionsGo(e, base, c.added);
    var g := DeleteAll(e, c.added).value;
    SameLists(g, base);
    AddAllKeeps(base, c.added);
    NewApex(g, d.soa.value);
    assert forall rr | rr in c.deleted :: rr in Elements(c.deleted);
    ExactlyWithout(d, c.deleted);
    assert Contents(g) + Elements(c.deleted) == Contents(d);
    assert IsSubDomain(d.origin, d.soa.value.owner);
    AdditionsSucceed(NewSoa(g, d.soa.value), c.deleted, VersionOf(d));
  }

  ghost predicate Stored(records: set<RR>, rr: RR) {
    exists x :: x in records && SameRecord(x, rr)
  }

  lemma {:induction false} DeletionsAreStored(d: Data, list: seq<RR>, rr: RR)
    requires Tidy(d) && DeleteAll(d, list).Some? && rr in list && forall x | x in list :: x.Plain?
    ensures Stored(Contents(d), rr)
    decreases |list|
  {
    HasRecordIff(d, list[0]);
    if rr != list[0] {
      DeleteOne(d, list[0]);
      DeletionsAreStored(WithoutRecord(d, list[0]), list[1..], rr);
    }
  }

  /** An accepted list of deletions repeats no record. */
  lemma {:induction false} DeletionsDiffer(d: Data, list: seq<RR>)
    requires Tidy(d) && DeleteAll(d, list).Some? && forall rr | rr in list :: rr.Plain?
    ensures NoDuplicates(list)
    decreases |list|
  {
    if list != [] {
      var rest := WithoutRecord(d, list[0]);
      assert list[0] in list;
      DeleteOne(d, list[0]);
      assert !Stored(Contents(rest), list[0]);
      if list[0] in list[1..] {
        DeletionsAreStored(rest, list[1..], list[0]);
      }
      DeletionsDiffer(rest, list[1..]);
    }
  }

  // ---------- additions that stay ----------

  /** The list of a's record set starts with records of another time to live, and a follows them. */
  ghost predicate Stuck(d: Data, a: RR, old': seq<RR>) {
    && Neat(d) && a.Plain? && old' != [] && old'[0].ttl != a.ttl
    && old' <= RecordsAt(d, KeyOf(a)) && a in RecordsAt(d, KeyOf(a))
  }

  lemma StuckStays(d: Data, a: RR, old': seq<RR>, rr: RR)
    requires Stuck(d, a, old') && rr.Plain? && forall x | x in old' :: !SameRecord(x, rr)
    ensures Stuck(WithoutRecord(d, rr), a, old')
  {
    DeleteKeepsNeat(d, rr);
    var key := KeyOf(a);
    if KeyOf(rr) == key {
      var s := RecordsAt(d, key);
      assert s[0] == old'[0];
      var target := AtTtl(rr, s[0].ttl);
      var k := IndexOf(s, target);
      if k < |s| {
        assert SameRecord(s[k], rr) && forall i | 0 <= i < |old'| :: s[i] in old';
        var left := s[..k] + s[k + 1..];
        assert RecordsAt(WithoutRecord(d, rr), key) == left;
        var i :| 0 <= i < |s| && s[i] == a;
        assert i != k;
        assert left[if i < k then i else i - 1] == a;
        assert left[..|old'|] == s[..|old'|];
      }
    }
  }

  lemma {:induction false} StuckStaysThroughout(d: Data, a: RR, old': seq<RR>, list: seq<RR>)
    requires Stuck(d, a, old') && DeleteAll(d, list).Some?
    requires forall rr | rr in list :: rr.Plain? && forall x | x in old' :: !SameRecord(x, rr)
    ensures Stuck(DeleteAll(d, list).value, a, old') && DeleteAll(d, list).value.origin == d.origin
    decreases |list|
  {
    if list != [] {
      assert list[0] in list;
      StuckStays(d, a, old', list[0]);
      StuckStaysThroughout(WithoutRecord(d, list[0]), a, old', list[1..]);
    }
  }

  /** Records of one tidy list live equally long, and a new SOA changes no list. */
  lemma ListLivesAlike(left: Data, soa: RR, x: RR)
    requires Tidy(left) && soa.Soa? && x in Contents(left)
    ensures Neat(NewSoa(left, soa)) && x in RecordsAt(NewSoa(left, soa), KeyOf(x))
    ensures forall y | y in RecordsAt(NewSoa(left, soa), KeyOf(x)) :: y.ttl == x.ttl
  {
    NewApex(left, soa);
    ContentsByKey(left, x);
    assert OneTtl(left.sets[KeyOf(x)]);
    assert RecordsAt(NewSoa(left, soa), KeyOf(x)) == RecordsAt(left, KeyOf(x));
  }

  lemma FollowsOthers(base: Data, added: seq<RR>, a: RR, x: RR)
    requires Neat(base) && (forall rr | rr in added :: rr.Plain?) && AddAll(base, added).Some?
    requires a in added && x in RecordsAt(base, KeyOf(a)) && a.ttl != x.ttl
    requires forall y | y in RecordsAt(base, KeyOf(a)) :: y.ttl == x.ttl
    ensures Stuck(AddAll(base, added).value, a, RecordsAt(base, KeyOf(a)))
    ensures forall rr, y | rr in added && y in RecordsAt(base, KeyOf(a)) :: !SameRecord(y, rr)
  {
    var e, key := AddAll(base, added).value, KeyOf(a);
    AddAllMeaning(base, added);
    AdditionsFollow(base, added);
    OfKeyHas(added, key, a);
    assert RecordsAt(e, key) == RecordsAt(base, key) + OfKey(added, key);
    forall rr, y | rr in added && y in RecordsAt(base, key) ensures !SameRecord(y, rr) {
      OldAndNewDiffer(base, e, added, key, y, rr);
    }
  }

  /** An addition beside records of another time to live is not taken off, so the version before does not come back. */
  lemma NotSwappedUnlessSuited(d: Data, c: Delta)
    requires Tidy(d) && d.soa.Some? && d.soa.value.Soa? && WellFormed(c) && ApplyDelta(d, c).Some? && !Suits(d, c)
    ensures !Carries(Swapped(d, c), d.origin, VersionOf(d))
  {
    var a, x :| a in c.added && x in Without(Contents(d), c.deleted) && KeyOf(a) == KeyOf(x) && a.ttl != x.ttl;
    var left := DeleteAll(d, c.deleted).value;
    DeleteAllMeaning(d, c.deleted);
    ListLivesAlike(left, c.toSoa, x);
    var base := NewSoa(left, c.toSoa);
    FollowsOthers(base, c.added, a, x);
    if Swapped(d, c).Some? {
      var e := ApplyDelta(d, c).value;
      StuckStaysThroughout(e, a, RecordsAt(base, KeyOf(a)), c.added);
      var h := DeleteAll(e, c.added).value;
      ContentsByKey(h, a);
      StuckIsExtra(d, c, h, a);
    }
  }

  lemma OldAndNewDiffer(base: Data, e: Data, added: seq<RR>, key: Key, y: RR, rr: RR)
    requires Neat(base) && Neat(e) && Contents(e) == Contents(base) + Elements(added)
    requires Elements(added) !! Contents(base) && key.kind != SOA
    requires rr in added && y in RecordsAt(base, key)
    ensures !SameRecord(y, rr)
  {
    assert NeatList(base, key);
    ContentsByKey(base, y);
    assert rr in Elements(added);
    if SameRecord(y, rr) {
      StoredOnce(e, y, rr);
    }
  }

  lemma StuckIsExtra(d: Data, c: Delta, h: Data, a: RR)
    requires Tidy(d) && d.soa.Some? && d.soa.value.Soa? && WellFormed(c) && ApplyDelta(d, c).Some?
    requires DeleteAll(ApplyDelta(d, c).value, c.added) == Some(h) && Neat(h) && a in Contents(h) && a in c.added
    ensures !Carries(Swapped(d, c), d.origin, VersionOf(d))
  {
    var r := Swapped(d, c);
    NewApex(h, d.soa.value);
    if Carries(r, d.origin, VersionOf(d)) {
      AddAllMeaning(NewSoa(h, d.soa.value), c.deleted);
      ChangeMeaning(d, c.deleted, c.toSoa, c.added);
      assert a in Elements(c.added) && a !in Without(Contents(d), c.deleted) && a in Contents(d);
      var rr :| rr in c.deleted && SameRecord(a, rr);
      assert rr in Elements(c.deleted);
      StoredOnce(r.value, a, rr);
    }
  }

  // ---------- exactly when ----------

  /**
    Swapping takes an accepted delta back exactly when its deletions name the stored
    records with their times to live, and its additions share the time to live of the
    records that stay beside them.
   */
  lemma UndoneBySwappingIff(d: Data, c: Delta)
    requires Tidy(d) && d.soa.Some? && Clean(d.origin, VersionOf(d)) && WellFormed(c) && ApplyDelta(d, c).Some?
    ensures Carries(Swapped(d, c), d.origin, VersionOf(d)) <==> Elements(c.deleted) <= Contents(d) && Suits(d, c)
  {
    if !Suits(d, c) {
      NotSwappedUnlessSuited(d, c);
    } else if Elements(c.deleted) <= Contents(d) {
      SwappedIfSuited(d, c);
    } else if Carries(Swapped(d, c), d.origin, VersionOf(d)) {
      DeletionsComeBack(d, c);
    }
  }

  /** What comes back is what the delta deletes, with the times to live the delta gives. */
  lemma DeletionsComeBack(d: Data, c: Delta)
    requires Tidy(d) && d.soa.Some? && d.soa.value.Soa? && WellFormed(c) && ApplyDelta(d, c).Some?
    requires Swapped(d, c).Some?
    ensures Elements(c.deleted) <= Contents(Swapped(d, c).value)
  {
    var e := ApplyDelta(d, c).value;
    ChangeMeaning(d, c.deleted, c.toSoa, c.added);
    DeletionsKeepNeat(e, c.added);
    var h := DeleteAll(e, c.added).value;
    NewApex(h, d.soa.value);
    AddAllMeaning(NewSoa(h, d.soa.value), c.deleted);
  }

  lemma {:induction false} DeletionsKeepNeat(d: Data, list: seq<RR>)
    requires Neat(d) && forall rr | rr in list :: rr.Plain?
    ensures var r := DeleteAll(d, list); r.Some? ==> Neat(r.value)
    decreases |list|
  {
    if list != [] && DeleteAll(d, list).Some? {
      assert list[0] in list;
      DeleteKeepsNeat(d, list[0]);
      DeletionsKeepNeat(WithoutRecord(d, list[0]), list[1..]);
    }
  }

  /** The difference of two versions can always be taken back. */
  lemma DiffIsUndone(d: Data, v: Version, w: Version, c: Delta)
    requires Carries(Some(d), d.origin, v) && Clean(d.origin, v) && Clean(d.origin, w) && Step(v, w, c)
    ensures Carries(Swapped(d, c), d.origin, v)
  {
    DiffMovesVersion(d, v, w, c);
    DiffIsWellFormed(d.origin, v, w, c);
    assert forall rr | rr in c.deleted :: rr in Elements(c.deleted);
    assert forall rr | rr in c.added :: rr in Elements(c.added);
    ExactlyWithout(d, c.deleted);
    assert Suits(d, c);
    UndoneBySwappingIff(d, c);
  }

  /** A deletion is accepted whatever its time to live, and swapping then brings back another record. */
  lemma SwappingMayFail()
    ensures exists d: Data, c: Delta ::
      && Tidy(d) && d.soa.Some? && Clean(d.origin, VersionOf(d)) && WellFormed(c) && ApplyDelta(d, c).Some?
      && !Carries(Swapped(d, c), d.origin, VersionOf(d))
  {
    var d, c := OtherTtlNamed();
    UndoneBySwappingIff(d, c);
  }

  /** A deletion that is accepted although it names another time to live than the stored record's. */
  lemma OtherTtlNamed() returns (d: Data, c: Delta)
    ensures Tidy(d) && d.soa.Some? && Clean(d.origin, VersionOf(d)) && WellFormed(c) && ApplyDelta(d, c).Some?
    ensures !(Elements(c.deleted) <= Contents(d))
  {
    var one, two := Soa([], 0, 1, ""), Soa([], 0, 2, "");
    var stored, asked := Plain([], 300, 1, "a"), Plain([], 600, 1, "a");
    var key := Key([], Other(1));
    d := Data([], Some(one), map[key := [stored]]);
    assert KeyOf(asked) == key && RecordsAt(d, key) == [stored] && NeatList(d, key);
    assert stored in RecordsAt(d, KeyOf(asked)) && SameRecord(stored, asked);
    forall rr ensures rr in Contents(d) <==> rr == stored {
      ContentsByKey(d, rr);
    }
    c := Delta(one, two, [asked], []);
    assert DeleteAll(d, [asked]).Some? by {
      assert [asked][1..] == [];
    }
    assert Change(d, [asked], two, []).Some?;
    assert asked in Elements(c.deleted);
  }
}
