/**
  A zone's records as the server stores them: a list for each owner and type.
  Deleting compares whole records after giving the request the time to live of
  the first record in the list, which is why that time matters here.
 */
module ZoneRecords {
  import opened Wrappers
  import opened CanonicalNames
  import opened SerialNumbers

  datatype RR =
    | Soa(owner: Labels, ttl: nat, serial: Serial, text: string)
    | Plain(owner: Labels, ttl: nat, code: nat, text: string)

  datatype Kind = SOA | Other(code: nat)

  datatype Key = Key(owner: Labels, kind: Kind)

  function KeyOf(rr: RR): Key {
    Key(rr.owner, if rr.Soa? then SOA else Other(rr.code))
  }

  function AtTtl(rr: RR, ttl: nat): RR {
    match rr
    case Soa(owner, _, serial, text) => Soa(owner, ttl, serial, text)
    case Plain(owner, _, code, text) => Plain(owner, ttl, code, text)
  }

  /** Equal up to time to live. */
  predicate SameRecord(a: RR, b: RR) {
    AtTtl(a, 0) == AtTtl(b, 0)
  }

  lemma SameRecordIff(a: RR, b: RR)
    ensures SameRecord(a, b) <==> a == b.(ttl := a.ttl)
  {
  }

  /** Records share a list when they have one owner and one type. */
  lemma SameListIff(a: RR, b: RR)
    ensures KeyOf(a) == KeyOf(b) <==>
              a.owner == b.owner && ((a.Soa? && b.Soa?) || (a.Plain? && b.Plain? && a.code == b.code))
  {
  }

  /** The contents of a zone object.  Lists are never empty. */
  datatype Data = Data(origin: Labels, soa: Option<RR>, sets: map<Key, seq<RR>>)

  function RecordsAt(d: Data, key: Key): seq<RR> {
    if key in d.sets then d.sets[key] else []
  }

  predicate HasRecord(d: Data, rr: RR) {
    exists e :: e in RecordsAt(d, KeyOf(rr)) && SameRecord(e, rr)
  }

  function WithRecord(d: Data, rr: RR): Data {
    Data(d.origin, if rr.Soa? then Some(rr) else d.soa,
         d.sets[KeyOf(rr) := RecordsAt(d, KeyOf(rr)) + [rr]])
  }

  function IndexOf(s: seq<RR>, rr: RR): (k: nat)
    ensures k <= |s|
    ensures k < |s| ==> s[k] == rr
    ensures forall j | 0 <= j < k :: s[j] != rr
    ensures k == |s| <==> rr !in s
  {
    if s == [] then 0 else if s[0] == rr then 0 else IndexOf(s[1..], rr) + 1
  }

  function WithList(d: Data, key: Key, list: seq<RR>): Data {
    d.(sets := if list == [] then d.sets - {key} else d.sets[key := list])
  }

  /** What deletion leaves: nothing changes unless the adjusted request equals a stored record. */
  function WithoutRecord(d: Data, rr: RR): Data {
    var existing := RecordsAt(d, KeyOf(rr));
    if existing == [] then d
    else
      var k := IndexOf(existing, AtTtl(rr, existing[0].ttl));
      if k == |existing| then d
      else
        var left := WithList(d, KeyOf(rr), existing[..k] + existing[k + 1..]);
        if rr.Soa? then left.(soa := None) else left
  }

  class Zone {
    const origin: Labels
    var soa: Option<RR>
    var sets: map<Key, seq<RR>>

    function View(): Data
      reads this
    {
      Data(origin, soa, sets)
    }

    constructor (origin: Labels)
      ensures View() == Data(origin, None, map[])
    {
      this.origin, soa, sets := origin, None, map[];
    }

    method Clone() returns (clone: Zone)
      ensures fresh(clone) && clone.View() == View()
    {
      clone := new Zone(origin);
      clone.soa, clone.sets := soa, sets;
    }

    method AddRecord(rr: RR) returns (ok: bool)
      modifies this
      ensures ok <==> IsSubDomain(origin, rr.owner)
      ensures View() == if ok then WithRecord(old(View()), rr) else old(View())
    {
      if !IsSubDomain(origin, rr.owner) {
        return false;
      }
      var key := KeyOf(rr);
      if key !in sets {
        sets := sets[key := []];
      }
      sets := sets[key := sets[key] + [rr]];
      if rr.Soa? {
        soa := Some(rr);
      }
      return true;
    }

    static method Find(existing: seq<RR>, target: RR) returns (found: int)
      ensures found == if target in existing then IndexOf(existing, target) else -1
    {
      var i := 0;
      while i < |existing|
        invariant 0 <= i <= |existing|
        invariant forall j | 0 <= j < i :: existing[j] != target
      {
        if existing[i] == target {
          return i;
        }
        i := i + 1;
      }
      return -1;
    }

    method DeleteRecord(rr: RR)
      modifies this
      ensures View() == WithoutRecord(old(View()), rr)
    {
      var key := KeyOf(rr);
      if key !in sets || sets[key] == [] {
        return;
      }
      var existing := sets[key];
      var target := AtTtl(rr, existing[0].ttl);
      var found := Find(existing, target);
      if found == -1 {
        return;
      }
      var updated := existing[..found] + existing[found + 1..];
      if |updated| == 0 {
        sets := sets - {key};
      } else {
        sets := sets[key := updated];
      }
      if rr.Soa? {
        soa := None;
      }
    }

    method DeleteRRSet(owner: Labels, kind: Kind)
      modifies this
      ensures View() == old(View()).(sets := old(sets) - {Key(owner, kind)})
    {
      sets := sets - {Key(owner, kind)};
    }

    method Has(candidate: RR) returns (has: bool)
      ensures has == HasRecord(View(), candidate)
    {
      var list := RecordsAt(View(), KeyOf(candidate));
      for i := 0 to |list|
        invariant forall j | 0 <= j < i :: !SameRecord(list[j], candidate)
      {
        if SameRecord(list[i], candidate) {
          assert list[i] in list;
          return true;
        }
      }
      return false;
    }
  }

  // ---------- zones in order ----------

  ghost predicate Distinct(s: seq<RR>) {
    forall i, j | 0 <= i < j < |s| :: !SameRecord(s[i], s[j])
  }

  /** One time to live for a whole RRset (section 5.2 of RFC 2181). */
  ghost predicate OneTtl(s: seq<RR>) {
    forall a, b | a in s && b in s :: a.ttl == b.ttl
  }

  ghost predicate NeatList(d: Data, key: Key)
    requires key in d.sets
  {
    var s := d.sets[key];
    s != [] && Distinct(s) && forall rr | rr in s :: KeyOf(rr) == key
  }

  /** Every list is filed under its key and repeats no record. */
  ghost predicate Neat(d: Data) {
    forall key | key in d.sets && key.kind != SOA :: NeatList(d, key)
  }

  /** Neat, with one time to live for each RRset. */
  ghost predicate Tidy(d: Data) {
    Neat(d) && forall key | key in d.sets && key.kind != SOA :: OneTtl(d.sets[key])
  }

  /** The records other than the SOA. */
  function Contents(d: Data): set<RR> {
    set key, rr | key in d.sets && key.kind != SOA && rr in d.sets[key] :: rr
  }

  lemma ContentsByKey(d: Data, rr: RR)
    requires Neat(d)
    ensures rr in Contents(d) <==> rr.Plain? && rr in RecordsAt(d, KeyOf(rr))
  {
    if rr in Contents(d) {
      var key :| key in d.sets && key.kind != SOA && rr in d.sets[key];
      assert NeatList(d, key);
    }
  }

  lemma ContentsChange(d: Data, e: Data, key: Key)
    requires Neat(d) && Neat(e) && key.kind != SOA
    requires forall k | k != key :: RecordsAt(e, k) == RecordsAt(d, k)
    ensures forall rr | KeyOf(rr) != key :: rr in Contents(e) <==> rr in Contents(d)
    ensures forall rr | KeyOf(rr) == key :: rr in Contents(d) <==> rr in RecordsAt(d, key)
    ensures forall rr | KeyOf(rr) == key :: rr in Contents(e) <==> rr in RecordsAt(e, key)
  {
    forall rr ensures rr in Contents(d) <==> rr.Plain? && rr in RecordsAt(d, KeyOf(rr)) {
      ContentsByKey(d, rr);
    }
    forall rr ensures rr in Contents(e) <==> rr.Plain? && rr in RecordsAt(e, KeyOf(rr)) {
      ContentsByKey(e, rr);
    }
  }

  /** Two stored records that differ only in time to live are one. */
  lemma StoredOnce(d: Data, a: RR, b: RR)
    requires Neat(d) && a in Contents(d) && b in Contents(d) && SameRecord(a, b)
    ensures a == b
  {
    ContentsByKey(d, a);
    ContentsByKey(d, b);
    assert NeatList(d, KeyOf(a));
  }

  lemma HasRecordIff(d: Data, rr: RR)
    requires Neat(d) && rr.Plain?
    ensures HasRecord(d, rr) <==> exists x :: x in Contents(d) && SameRecord(x, rr)
  {
    forall x | SameRecord(x, rr) ensures x in Contents(d) <==> x in RecordsAt(d, KeyOf(rr)) {
      ContentsByKey(d, x);
    }
  }

  /** A neat zone is tidy when no two records of one RRset differ in time to live. */
  lemma TidyIff(d: Data)
    requires Neat(d)
    ensures Tidy(d) <==> forall a, b | a in Contents(d) && b in Contents(d) && KeyOf(a) == KeyOf(b) :: a.ttl == b.ttl
  {
    forall rr ensures rr in Contents(d) <==> rr.Plain? && rr in RecordsAt(d, KeyOf(rr)) {
      ContentsByKey(d, rr);
    }
    if forall a, b | a in Contents(d) && b in Contents(d) && KeyOf(a) == KeyOf(b) :: a.ttl == b.ttl {
      forall key | key in d.sets && key.kind != SOA ensures OneTtl(d.sets[key]) {
        assert NeatList(d, key);
      }
    }
  }

  /** Deleting a record that is there takes it out exactly when its time to live is the first one's. */
  lemma DeletionWorksIff(d: Data, e: RR, rr: RR)
    requires e in RecordsAt(d, KeyOf(rr)) && SameRecord(e, rr) && Distinct(RecordsAt(d, KeyOf(rr)))
    ensures !HasRecord(WithoutRecord(d, rr), rr) <==> e.ttl == RecordsAt(d, KeyOf(rr))[0].ttl
  {
    var key := KeyOf(rr);
    var s := RecordsAt(d, key);
    var target := AtTtl(rr, s[0].ttl);
    var k := IndexOf(s, target);
    if k < |s| {
      var i :| 0 <= i < |s| && s[i] == e;
      assert i == k;
      var left := s[..k] + s[k + 1..];
      assert RecordsAt(WithoutRecord(d, rr), key) == left;
      forall x | x in left ensures !SameRecord(x, rr) {
        var j :| 0 <= j < |s| && j != k && s[j] == x;
      }
    } else {
      assert WithoutRecord(d, rr) == d;
      assert e != target;
    }
  }

  lemma CutOut(s: seq<RR>, rr: RR, k: nat)
    requires Distinct(s) && OneTtl(s) && k < |s| && s[k] == rr
    ensures var left := s[..k] + s[k + 1..];
            Distinct(left) && OneTtl(left) && forall x :: x in left <==> x in s && x != rr
  {
    var left := s[..k] + s[k + 1..];
    forall x ensures x in left <==> x in s && x != rr {
      if x in s && x != rr {
        var j :| 0 <= j < |s| && s[j] == x;
        assert left[if j < k then j else j - 1] == x;
      }
    }
  }

  /** What a set of records keeps when one is deleted. */
  ghost function AllBut(records: set<RR>, rr: RR): set<RR> {
    set x | x in records && !SameRecord(x, rr)
  }

  lemma ReplaceList(d: Data, key: Key, list: seq<RR>)
    requires Tidy(d) && key.kind != SOA
    requires Distinct(list) && OneTtl(list) && forall rr | rr in list :: KeyOf(rr) == key
    ensures Tidy(WithList(d, key, list))
  {
    var e := WithList(d, key, list);
    forall other | other in e.sets && other.kind != SOA ensures NeatList(e, other) && OneTtl(e.sets[other]) {
      assert other != key ==> NeatList(d, other);
    }
  }

  /** What deletion leaves of the list it looks into. */
  lemma DeletedList(d: Data, rr: RR) returns (list: seq<RR>)
    requires Tidy(d) && rr.Plain? && HasRecord(d, rr)
    ensures WithoutRecord(d, rr) == WithList(d, KeyOf(rr), list)
    ensures Distinct(list) && OneTtl(list)
    ensures forall x :: x in list <==> x in RecordsAt(d, KeyOf(rr)) && !SameRecord(x, rr)
  {
    var key := KeyOf(rr);
    assert NeatList(d, key);
    var s := d.sets[key];
    var x :| x in s && SameRecord(x, rr);
    assert x == AtTtl(rr, s[0].ttl);
    var k := IndexOf(s, x);
    list := s[..k] + s[k + 1..];
    CutOut(s, x, k);
  }

  /** In a tidy zone deletion takes out the one matching record and keeps the zone tidy. */
  lemma DeleteOne(d: Data, rr: RR)
    requires Tidy(d) && rr.Plain? && HasRecord(d, rr)
    ensures var e := WithoutRecord(d, rr);
            Tidy(e) && Contents(e) == AllBut(Contents(d), rr) && e.origin == d.origin && e.soa == d.soa
  {
    var key := KeyOf(rr);
    assert NeatList(d, key);
    var list := DeletedList(d, rr);
    ReplaceList(d, key, list);
    ContentsChange(d, WithList(d, key, list), key);
  }

  lemma AddOne(d: Data, rr: RR)
    requires Neat(d) && rr.Plain? && !HasRecord(d, rr)
    ensures var e := WithRecord(d, rr);
            Neat(e) && Contents(e) == Contents(d) + {rr} && e.origin == d.origin && e.soa == d.soa
  {
    var key := KeyOf(rr);
    var e := WithRecord(d, rr);
    assert key in d.sets ==> NeatList(d, key);
    forall other | other in e.sets && other.kind != SOA ensures NeatList(e, other) {
      assert other != key ==> NeatList(d, other);
    }
    ContentsChange(d, e, key);
  }

  /** Replacing the apex SOA leaves the other records alone. */
  lemma NewApex(d: Data, soa: RR)
    requires Neat(d) && soa.Soa?
    ensures var e := WithRecord(d.(sets := d.sets - {Key(d.origin, SOA)}, soa := None), soa);
            Neat(e) && Contents(e) == Contents(d) && e.origin == d.origin && e.soa == Some(soa)
  {
    var e := WithRecord(d.(sets := d.sets - {Key(d.origin, SOA)}, soa := None), soa);
    forall key: Key | key.kind != SOA ensures key in e.sets <==> key in d.sets {
    }
    forall key | key in e.sets && key.kind != SOA ensures NeatList(e, key) {
      assert NeatList(d, key);
    }
  }
}
