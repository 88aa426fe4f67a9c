/**
  The primary's side of incremental transfer: a bounded journal of deltas, and the
  replies built from it.
 */
module ZoneJournal {
  import opened Wrappers
  import opened ByteOrder
  import opened CanonicalNames
  import opened Sequences
  import opened SerialNumbers
  import opened ZoneRecords
  import opened ZoneTransfer
  import opened ZoneVersions

  // ---------- differences ----------

  /** The records of a set, in some order. */
  method ListOf(records: set<RR>) returns (list: seq<RR>)
    ensures Elements(list) == records && NoDuplicates(list)
  {
    list := [];
    var todo := records;
    while todo != {}
      invariant todo <= records && Elements(list) == records - todo && NoDuplicates(list)
      decreases |todo|
    {
      var rr :| rr in todo;
      assert rr !in Elements(list);
      assert Elements(list + [rr]) == Elements(list) + {rr};
      list := list + [rr];
      todo := todo - {rr};
    }
  }

  method Diff(previous: Zone, next: Zone) returns (delta: Delta)
    requires previous.soa.Some? && next.soa.Some?
    ensures IsDiff(VersionOf(previous.View()), VersionOf(next.View()), delta)
  {
    var before, after := Contents(previous.View()), Contents(next.View());
    var deleted := ListOf(before - after);
    var added := ListOf(after - before);
    delta := Delta(previous.soa.value, next.soa.value, deleted, added);
  }

  // ---------- histories ----------

  function From(c: Delta): Serial {
    SerialOf(c.fromSoa)
  }

  function To(c: Delta): Serial {
    SerialOf(c.toSoa)
  }

  ghost predicate Contiguous(h: seq<Delta>) {
    forall i, j | 0 <= i < |h| && j == i + 1 < |h| :: To(h[i]) == From(h[j])
  }

  function LastOnes<T>(s: seq<T>, limit: nat): seq<T> {
    if |s| > limit then s[|s| - limit..] else s
  }

  /** The history once a delta is recorded: a gap starts it afresh, a full one drops its oldest delta. */
  function HistoryAfter(h: seq<Delta>, c: Delta, limit: nat): seq<Delta> {
    var kept := if h != [] && To(h[|h| - 1]) != From(c) then [] else h;
    LastOnes(kept + [c], limit)
  }

  lemma HistoryStaysContiguous(h: seq<Delta>, c: Delta, limit: nat)
    requires Contiguous(h) && limit > 0
    ensures var r := HistoryAfter(h, c, limit); Contiguous(r) && 0 < |r| <= limit && r[|r| - 1] == c
  {
  }

  /** The history after recording deltas one by one. */
  function HistoryOf(deltas: seq<Delta>, limit: nat): seq<Delta> {
    if deltas == [] then [] else HistoryAfter(HistoryOf(deltas[..|deltas| - 1], limit), deltas[|deltas| - 1], limit)
  }

  lemma SuccessiveVersionsMeet(origin: Labels, versions: seq<Version>, deltas: seq<Delta>)
    requires Tells(origin, versions, deltas)
    ensures Contiguous(deltas)
  {
    forall i, j | 0 <= i < |deltas| && j == i + 1 < |deltas| ensures To(deltas[i]) == From(deltas[j]) {
      assert StepAt(versions, deltas, i) && StepAt(versions, deltas, j);
    }
  }

  lemma OneMoreRecorded(front: seq<Delta>, last: Delta, limit: nat)
    ensures HistoryOf(front + [last], limit) == HistoryAfter(HistoryOf(front, limit), last, limit)
  {
    assert (front + [last])[..|front|] == front;
  }

  lemma ContiguousFront(front: seq<Delta>, last: Delta)
    requires Contiguous(front + [last])
    ensures Contiguous(front) && (front != [] ==> To(front[|front| - 1]) == From(last))
  {
    var all, n := front + [last], |front|;
    assert n > 0 ==> To(all[n - 1]) == From(all[n]);
    forall i, j | 0 <= i < n && j == i + 1 < n ensures To(front[i]) == From(front[j]) {
      assert all[i] == front[i] && all[j] == front[j];
    }
  }

  lemma {:induction false} HistoryIsTail(deltas: seq<Delta>, limit: nat)
    requires Contiguous(deltas) && limit > 0
    ensures HistoryOf(deltas, limit) == LastOnes(deltas, limit)
  {
    if deltas != [] {
      var front, last := deltas[..|deltas| - 1], deltas[|deltas| - 1];
      assert deltas == front + [last];
      ContiguousFront(front, last);
      HistoryIsTail(front, limit);
      OneMoreRecorded(front, last, limit);
      OneMoreDelta(front, last, limit);
    }
  }

  /** Over any run of successive versions the journal holds exactly the most recent deltas. */
  lemma HistoryIsMostRecent(origin: Labels, versions: seq<Version>, deltas: seq<Delta>, limit: nat)
    requires Tells(origin, versions, deltas) && limit > 0
    ensures var kept := if |deltas| < limit then |deltas| else limit;
            HistoryOf(deltas, limit) == deltas[|deltas| - kept..]
  {
    SuccessiveVersionsMeet(origin, versions, deltas);
    HistoryIsTail(deltas, limit);
  }

  lemma LastOfMore<T>(front: seq<T>, last: T, limit: nat)
    requires limit > 0
    ensures LastOnes(LastOnes(front, limit) + [last], limit) == LastOnes(front + [last], limit)
  {
    var n := |front|;
    if n >= limit {
      var kept := front[n - limit..];
      assert LastOnes(front, limit) == kept;
      assert (kept + [last])[1..] == kept[1..] + [last] && kept[1..] == front[n - limit + 1..];
      assert (front + [last])[n + 1 - limit..] == front[n + 1 - limit..] + [last];
    }
  }

  lemma OneMoreDelta(front: seq<Delta>, last: Delta, limit: nat)
    requires limit > 0 && (front != [] ==> To(front[|front| - 1]) == From(last))
    ensures HistoryAfter(LastOnes(front, limit), last, limit) == LastOnes(front + [last], limit)
  {
    var kept := LastOnes(front, limit);
    assert kept != [] ==> front != [] && kept[|kept| - 1] == front[|front| - 1];
    LastOfMore(front, last, limit);
  }

  /** Deltas a to b lead from one serial to the other, by the first of each. */
  ghost predicate IsRange(h: seq<Delta>, from: Serial, to: Serial, a: nat, b: nat) {
    && a < b <= |h|
    && From(h[a]) == from && (forall i | 0 <= i < a :: From(h[i]) != from)
    && To(h[b - 1]) == to && forall i | a <= i < b - 1 :: To(h[i]) != to
  }

  /** after is the history before with the difference of the two versions recorded. */
  ghost predicate Recorded(v: Version, w: Version, before: seq<Delta>, after: seq<Delta>, limit: nat) {
    exists c :: IsDiff(v, w, c) && after == HistoryAfter(before, c, limit)
  }

  class Journal {
    const maxDeltas: nat
    var zones: map<Labels, seq<Delta>>

    ghost predicate Valid()
      reads this
    {
      maxDeltas > 0 && forall name | name in zones :: Contiguous(zones[name]) && 0 < |zones[name]| <= maxDeltas
    }

    constructor (limit: int)
      ensures Valid() && zones == map[]
      ensures maxDeltas == if limit <= 0 then 100 else limit
    {
      maxDeltas := if limit <= 0 then 100 else limit;
      zones := map[];
    }

    method Reset(name: Labels)
      requires Valid()
      modifies this
      ensures Valid() && zones == old(zones) - {name}
    {
      zones := zones - {name};
    }

    /** A version that does not follow the last one forgets the history. */
    method Record(previous: Zone, next: Zone)
      requires Valid()
      modifies this
      ensures Valid()
      ensures var ok := previous.soa.Some? && next.soa.Some? && previous.origin == next.origin
                        && SerialGreater(SerialOf(next.soa.value), SerialOf(previous.soa.value));
              if !ok then zones == old(zones) - {next.origin}
              else
                && next.origin in zones && zones == old(zones)[next.origin := zones[next.origin]]
                && Recorded(VersionOf(previous.View()), VersionOf(next.View()),
                            if next.origin in old(zones) then old(zones)[next.origin] else [],
                            zones[next.origin], maxDeltas)
    {
      if previous.soa.None? || next.soa.None? || previous.origin != next.origin
        || !SerialGreater(SerialOf(next.soa.value), SerialOf(previous.soa.value)) {
        Reset(next.origin);
        return;
      }
      var delta := Diff(previous, next);
      var history := if next.origin in zones then zones[next.origin] else [];
      HistoryStaysContiguous(history, delta, maxDeltas);
      if |history| > 0 && To(history[|history| - 1]) != From(delta) {
        history := [];
      }
      history := history + [delta];
      if |history| > maxDeltas {
        history := history[|history| - maxDeltas..];
      }
      zones := zones[next.origin := history];
      assert IsDiff(VersionOf(previous.View()), VersionOf(next.View()), delta);
    }

    /** The deltas from one serial to another, oldest first. */
    method Changes(name: Labels, from: Serial, to: Serial) returns (result: Option<seq<Delta>>)
      requires Valid()
      ensures var h := if name in zones then zones[name] else [];
              if result.None? then forall a: nat, b: nat :: !IsRange(h, from, to, a, b)
              else exists a: nat, b: nat :: IsRange(h, from, to, a, b) && result.value == h[a..b]
    {
      var history := if name in zones then zones[name] else [];
      var start := 0;
      while start < |history| && From(history[start]) != from
        invariant 0 <= start <= |history|
        invariant forall i | 0 <= i < start :: From(history[i]) != from
      {
        start := start + 1;
      }
      if start == |history| {
        return None;
      }
      var deltas: seq<Delta> := [];
      var expected := from;
      var k := start;
      while k < |history|
        invariant start <= k <= |history|
        invariant deltas == history[start..k]
        invariant k < |history| ==> expected == From(history[k])
        invariant forall i | start <= i < k :: To(history[i]) != to
      {
        var delta := history[k];
        if From(delta) != expected {
          return None;
        }
        deltas := deltas + [delta];
        expected := To(delta);
        if expected == to {
          assert IsRange(history, from, to, start, k + 1);
          return Some(deltas);
        }
        k := k + 1;
      }
      return None;
    }
  }

  // ---------- replies ----------

  /** A full transfer: every record once, between two copies of the SOA. */
  ghost predicate IsFull(records: seq<RR>, v: Version) {
    && |records| >= 2 && records[0] == v.soa && records[|records| - 1] == v.soa
    && var body := records[1..|records| - 1]; Elements(body) == v.records && NoDuplicates(body)
  }

  /** The records of the lists under these keys, list after list, without those of type SOA. */
  function Listed(d: Data, order: seq<Key>): seq<RR>
    requires forall key | key in order :: key in d.sets
  {
    if order == [] then []
    else
      var last := order[|order| - 1];
      Listed(d, order[..|order| - 1]) + if last.kind == SOA then [] else d.sets[last]
  }

  /** Every key of the zone once. */
  ghost predicate IsOrder(d: Data, order: seq<Key>) {
    NoDuplicates(order) && Elements(order) == d.sets.Keys
  }

  /** What the primary sends as a full copy: every list as it stands, between two copies of the SOA. */
  ghost predicate IsCopy(records: seq<RR>, d: Data)
    requires d.soa.Some?
  {
    exists order ::
      IsOrder(d, order) && (forall key | key in order :: key in d.sets)
      && records == [d.soa.value] + Listed(d, order) + [d.soa.value]
  }

  ghost predicate PartlyListed(d: Data, order: seq<Key>, done: set<Key>, body: seq<RR>) {
    && NoDuplicates(order) && Elements(order) == done && (forall key | key in order :: key in d.sets)
    && body == Listed(d, order)
  }

  lemma OneMoreList(d: Data, order: seq<Key>, done: set<Key>, body: seq<RR>, key: Key)
    requires PartlyListed(d, order, done, body) && key in d.sets && key !in done
    ensures PartlyListed(d, order + [key], done + {key}, body + if key.kind == SOA then [] else d.sets[key])
  {
    assert (order + [key])[..|order|] == order;
    assert forall k | k in order :: k in Elements(order);
  }

  method FullTransfer(z: Zone) returns (records: seq<RR>)
    requires z.soa.Some?
    ensures IsCopy(records, z.View())
  {
    ghost var d, order := z.View(), [];
    var body: seq<RR> := [];
    var todo := z.sets.Keys;
    while todo != {}
      invariant todo <= d.sets.Keys && PartlyListed(d, order, d.sets.Keys - todo, body)
      decreases |todo|
    {
      var key :| key in todo;
      OneMoreList(d, order, d.sets.Keys - todo, body, key);
      order := order + [key];
      body := body + if key.kind == SOA then [] else z.sets[key];
      assert d.sets.Keys - (todo - {key}) == d.sets.Keys - todo + {key};
      todo := todo - {key};
    }
    assert d.sets.Keys - todo == d.sets.Keys && IsOrder(d, order);
    records := [z.soa.value] + body + [z.soa.value];
  }

  lemma JoinedDiffer(s: seq<RR>, t: seq<RR>)
    requires NoDuplicates(s) && NoDuplicates(t) && forall rr | rr in s :: rr !in t
    ensures NoDuplicates(s + t)
  {
    var u, n := s + t, |s|;
    forall i, j | 0 <= i < j < |u| ensures u[i] != u[j] {
      if n <= i {
        assert u[i] == t[i - n] && u[j] == t[j - n];
      } else if n <= j {
        assert u[i] == s[i] && s[i] in s && u[j] == t[j - n] && t[j - n] in t;
      } else {
        assert u[i] == s[i] && u[j] == s[j];
      }
    }
  }

  lemma {:induction false} ListedExactly(d: Data, order: seq<Key>)
    requires Neat(d) && NoDuplicates(order) && forall key | key in order :: key in d.sets
    ensures forall rr :: rr in Listed(d, order) <==> exists key :: key in order && key.kind != SOA && rr in d.sets[key]
    ensures NoDuplicates(Listed(d, order))
  {
    if order != [] {
      var front, last := order[..|order| - 1], order[|order| - 1];
      ListedExactly(d, front);
      assert order == front + [last];
      if last.kind != SOA {
        assert NeatList(d, last);
        forall rr | rr in Listed(d, front) ensures rr !in d.sets[last] {
          var key :| key in front && key.kind != SOA && rr in d.sets[key];
          assert NeatList(d, key) && key != last;
        }
        JoinedDiffer(Listed(d, front), d.sets[last]);
      }
    }
  }

  /** In a zone that repeats no record, the copy lists each record of the version once. */
  lemma CopyIsFull(records: seq<RR>, d: Data)
    requires Neat(d) && d.soa.Some? && IsCopy(records, d)
    ensures IsFull(records, VersionOf(d))
  {
    var order :| IsOrder(d, order) && (forall key | key in order :: key in d.sets)
                 && records == [d.soa.value] + Listed(d, order) + [d.soa.value];
    ListedExactly(d, order);
    assert records[1..|records| - 1] == Listed(d, order);
    assert forall key :: key in order <==> key in Elements(order);
    assert Elements(Listed(d, order)) == Contents(d);
  }

  ghost predicate IsAnswer(records: seq<RR>, v: Version, h: seq<Delta>, requested: Serial) {
    if !SerialGreater(SerialOf(v.soa), requested) then records == [v.soa]
    else
      || IsFull(records, v)
      || exists a: nat, b: nat :: IsRange(h, requested, SerialOf(v.soa), a, b) && records == Reply(v.soa, h[a..b])
  }

  ghost predicate SentFull(records: seq<RR>, d: Data, h: seq<Delta>, requested: Serial, allowFallback: bool,
                           size: seq<RR> -> nat)
    requires d.soa.Some?
  {
    && allowFallback && IsCopy(records, d)
    && forall a: nat, b: nat | IsRange(h, requested, SerialOf(d.soa.value), a, b) ::
         size(Reply(d.soa.value, h[a..b])) >= size(records)
  }

  ghost predicate SentRange(records: seq<RR>, d: Data, h: seq<Delta>, requested: Serial, allowFallback: bool,
                            size: seq<RR> -> nat)
    requires d.soa.Some?
  {
    && (exists a: nat, b: nat ::
          IsRange(h, requested, SerialOf(d.soa.value), a, b) && records == Reply(d.soa.value, h[a..b]))
    && (allowFallback ==> exists full :: IsCopy(full, d) && size(records) < size(full))
  }

  /** A range is sent when it is smaller than a full copy or none is allowed, else a full copy. */
  ghost predicate IsSent(records: seq<RR>, d: Data, h: seq<Delta>, requested: Serial, allowFallback: bool,
                         size: seq<RR> -> nat)
    requires d.soa.Some?
  {
    if !SerialGreater(SerialOf(d.soa.value), requested) then records == [d.soa.value]
    else SentFull(records, d, h, requested, allowFallback, size)
         || SentRange(records, d, h, requested, allowFallback, size)
  }

  lemma SentIsAnswer(records: seq<RR>, d: Data, h: seq<Delta>, requested: Serial, allowFallback: bool,
                     size: seq<RR> -> nat)
    requires Neat(d) && d.soa.Some? && IsSent(records, d, h, requested, allowFallback, size)
    ensures IsAnswer(records, VersionOf(d), h, requested)
  {
    if IsCopy(records, d) {
      CopyIsFull(records, d);
    }
  }

  lemma OneRange(h: seq<Delta>, from: Serial, to: Serial, a: nat, b: nat, c: nat, d: nat)
    requires IsRange(h, from, to, a, b) && IsRange(h, from, to, c, d)
    ensures a == c && b == d
  {
  }

  /** What the primary sends back to a request for the changes since a serial. */
  datatype Response = Records(records: seq<RR>) | FormatError | NotImplemented

  /** A request without a readable serial is malformed; a forbidden full copy is refused when only it would do. */
  method Answer(z: Zone, journal: Journal, requested: Option<Serial>, allowFallback: bool, size: seq<RR> -> nat)
    returns (r: Response)
    requires journal.Valid() && z.soa.Some?
    ensures r == FormatError <==> requested.None?
    ensures var h := if z.origin in journal.zones then journal.zones[z.origin] else [];
            && (r.Records? ==> IsSent(r.records, z.View(), h, requested.value, allowFallback, size))
            && (r == NotImplemented ==>
                  && !allowFallback && SerialGreater(SerialOf(z.soa.value), requested.value)
                  && forall a: nat, b: nat :: !IsRange(h, requested.value, SerialOf(z.soa.value), a, b))
  {
    if requested.None? {
      return FormatError;
    }
    var soa := z.soa.value;
    ghost var d := z.View();
    ghost var h := if z.origin in journal.zones then journal.zones[z.origin] else [];
    var full := FullTransfer(z);
    if !SerialGreater(SerialOf(soa), requested.value) {
      return Records([soa]);
    }
    var deltas := journal.Changes(z.origin, requested.value, SerialOf(soa));
    if deltas.Some? {
      var incremental := Reply(soa, deltas.value);
      if !allowFallback || size(incremental) < size(full) {
        assert SentRange(incremental, d, h, requested.value, allowFallback, size);
        return Records(incremental);
      }
      forall a: nat, b: nat | IsRange(h, requested.value, SerialOf(soa), a, b)
        ensures Reply(soa, h[a..b]) == incremental
      {
        var i: nat, j: nat :| IsRange(h, requested.value, SerialOf(soa), i, j) && deltas.value == h[i..j];
        OneRange(h, requested.value, SerialOf(soa), a, b, i, j);
      }
    } else if !allowFallback {
      return NotImplemented;
    }
    assert SentFull(full, d, h, requested.value, allowFallback, size);
    return Records(full);
  }
}
