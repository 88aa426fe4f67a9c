/**
  Applying a transfer reply to a secondary's copy of a zone: a sequence of deltas
  (section 4 of RFC 1995), a full copy, or one SOA that says nothing changed.
 */
module ZoneTransfer {
  import opened Wrappers
  import opened CanonicalNames
  import opened Sequences
  import opened SerialNumbers
  import opened ZoneRecords

  /** One serial-to-serial change. */
  datatype Delta = Delta(fromSoa: RR, toSoa: RR, deleted: seq<RR>, added: seq<RR>)

  predicate WellFormed(c: Delta) {
    && c.fromSoa.Soa? && c.toSoa.Soa?
    && (forall rr | rr in c.deleted :: rr.Plain?)
    && (forall rr | rr in c.added :: rr.Plain?)
  }

  // ---------- the shape of a reply ----------

  function Block(c: Delta): seq<RR> {
    [c.fromSoa] + c.deleted + [c.toSoa] + c.added
  }

  /** The records of a list of deltas, in the order of a reply. */
  function Flatten(deltas: seq<Delta>): seq<RR> {
    if deltas == [] then [] else Block(deltas[0]) + Flatten(deltas[1..])
  }

  /** An incremental reply: the deltas between two copies of the newest SOA. */
  function Reply(newest: RR, deltas: seq<Delta>): seq<RR> {
    [newest] + Flatten(deltas) + [newest]
  }

  /** The first SOA in [i, end), or end. */
  function Span(records: seq<RR>, i: nat, end: nat): (j: nat)
    requires i <= end <= |records|
    ensures i <= j <= end
    ensures forall k | i <= k < j :: records[k].Plain?
    ensures j < end ==> records[j].Soa?
    decreases end - i
  {
    if i == end || records[i].Soa? then i else Span(records, i + 1, end)
  }

  lemma {:induction false} SpanIs(records: seq<RR>, i: nat, end: nat, j: nat)
    requires i <= j <= end <= |records|
    requires forall k | i <= k < j :: records[k].Plain?
    requires j < end ==> records[j].Soa?
    ensures Span(records, i, end) == j
    decreases j - i
  {
    if i < j {
      SpanIs(records, i + 1, end, j);
    }
  }

  function DeltaAt(records: seq<RR>, i: nat, j: nat, k: nat): Delta
    requires i < j < k <= |records|
  {
    Delta(records[i], records[j], records[i + 1..j], records[j + 1..k])
  }

  /** Reads [i, end) as a list of deltas. */
  function Deltas(records: seq<RR>, i: nat, end: nat): Option<seq<Delta>>
    requires i <= end <= |records|
    decreases end - i
  {
    if i == end then Some([])
    else if !records[i].Soa? then None
    else
      var j := Span(records, i + 1, end);
      if j == end then None
      else
        var k := Span(records, j + 1, end);
        var rest := Deltas(records, k, end);
        if rest.None? then None else Some([DeltaAt(records, i, j, k)] + rest.value)
  }

  lemma BlockOfDelta(records: seq<RR>, i: nat, j: nat, k: nat)
    requires i < j < k <= |records|
    ensures Block(DeltaAt(records, i, j, k)) == records[i..k]
  {
  }

  lemma FlattenCons(c: Delta, rest: seq<Delta>)
    ensures Flatten([c] + rest) == Block(c) + Flatten(rest)
  {
    assert ([c] + rest)[1..] == rest;
  }

  /** What is read is what was there. */
  lemma {:induction false} FlattenOfDeltas(records: seq<RR>, i: nat, end: nat)
    requires i <= end <= |records|
    ensures var r := Deltas(records, i, end);
            r.Some? ==> Flatten(r.value) == records[i..end] && forall c | c in r.value :: WellFormed(c)
    decreases end - i
  {
    var r := Deltas(records, i, end);
    if i < end && r.Some? {
      var j := Span(records, i + 1, end);
      var k := Span(records, j + 1, end);
      FlattenOfDeltas(records, k, end);
      BlockOfDelta(records, i, j, k);
      var c, rest := DeltaAt(records, i, j, k), Deltas(records, k, end).value;
      FlattenCons(c, rest);
      assert WellFormed(c);
      SplitAt(records, i, k, end);
    }
  }

  lemma BlockParts(c: Delta, rest: seq<RR>)
    ensures var n, m := |c.deleted|, |c.added|;
            var all := Block(c) + rest;
            && |all| == 2 + n + m + |rest|
            && all[0] == c.fromSoa && all[1..1 + n] == c.deleted && all[1 + n] == c.toSoa
            && all[2 + n..2 + n + m] == c.added && all[2 + n + m..] == rest
  {
  }

  lemma BlockStart(records: seq<RR>, i: nat, end: nat, c: Delta, rest: seq<RR>)
    returns (j: nat, k: nat)
    requires i <= end <= |records| && records[i..end] == Block(c) + rest
    ensures i < j < k <= end && DeltaAt(records, i, j, k) == c && records[k..end] == rest
  {
    BlockParts(c, rest);
    var n, m := 1 + |c.deleted|, 2 + |c.deleted| + |c.added|;
    SliceOfSlice(records, i, end, 1, n);
    SliceOfSlice(records, i, end, n + 1, m);
    SliceOfSlice(records, i, end, m, end - i);
    assert records[i..end][0] == records[i] && records[i..end][n] == records[i + n];
    j, k := i + n, i + m;
  }

  lemma SpansOfBlock(records: seq<RR>, i: nat, j: nat, k: nat, end: nat)
    requires i < j < k <= end <= |records| && WellFormed(DeltaAt(records, i, j, k))
    requires k < end ==> records[k].Soa?
    ensures Span(records, i + 1, end) == j && Span(records, j + 1, end) == k
  {
    var c := DeltaAt(records, i, j, k);
    forall x | i + 1 <= x < j ensures records[x].Plain? {
      assert records[x] == c.deleted[x - i - 1];
    }
    forall x | j + 1 <= x < k ensures records[x].Plain? {
      assert records[x] == c.added[x - j - 1];
    }
    SpanIs(records, i + 1, end, j);
    SpanIs(records, j + 1, end, k);
  }

  /** Reading inverts writing. */
  lemma {:induction false} DeltasOfFlatten(records: seq<RR>, i: nat, end: nat, deltas: seq<Delta>)
    requires i <= end <= |records| && records[i..end] == Flatten(deltas)
    requires forall c | c in deltas :: WellFormed(c)
    ensures Deltas(records, i, end) == Some(deltas)
    decreases |deltas|
  {
    if deltas == [] {
    } else {
      var c, rest := deltas[0], Flatten(deltas[1..]);
      assert WellFormed(c);
      var j, k := BlockStart(records, i, end, c, rest);
      NextIsSoa(records, k, end, deltas[1..]);
      DeltasOfFlatten(records, k, end, deltas[1..]);
      DeltasFromBlock(records, i, j, k, end);
      Rejoined(deltas);
    }
  }

  lemma NextIsSoa(records: seq<RR>, k: nat, end: nat, deltas: seq<Delta>)
    requires k <= end <= |records| && records[k..end] == Flatten(deltas)
    requires forall c | c in deltas :: WellFormed(c)
    ensures k < end ==> records[k].Soa?
  {
    RestStartsWithSoa(deltas);
    if k < end {
      assert records[k] == records[k..end][0];
    }
  }

  lemma Rejoined(deltas: seq<Delta>)
    requires deltas != []
    ensures [deltas[0]] + deltas[1..] == deltas
  {
  }

  lemma DeltasFromBlock(records: seq<RR>, i: nat, j: nat, k: nat, end: nat)
    requires i < j < k <= end <= |records| && WellFormed(DeltaAt(records, i, j, k))
    requires k < end ==> records[k].Soa?
    ensures var rest := Deltas(records, k, end);
            Deltas(records, i, end) == if rest.None? then None else Some([DeltaAt(records, i, j, k)] + rest.value)
  {
    SpansOfBlock(records, i, j, k, end);
  }

  lemma RestStartsWithSoa(deltas: seq<Delta>)
    requires forall c | c in deltas :: WellFormed(c)
    ensures Flatten(deltas) != [] ==> Flatten(deltas)[0].Soa?
  {
    if deltas != [] {
      assert WellFormed(deltas[0]);
    }
  }

  // ---------- what deltas do to a zone ----------

  function SerialOf(soa: RR): Serial {
    if soa.Soa? then soa.serial else 0
  }

  function DeleteAll(d: Data, list: seq<RR>): Option<Data>
    decreases |list|
  {
    if list == [] then Some(d)
    else if !HasRecord(d, list[0]) then None
    else DeleteAll(WithoutRecord(d, list[0]), list[1..])
  }

  function AddAll(d: Data, list: seq<RR>): Option<Data>
    decreases |list|
  {
    if list == [] then Some(d)
    else if HasRecord(d, list[0]) || !IsSubDomain(d.origin, list[0].owner) then None
    else AddAll(WithRecord(d, list[0]), list[1..])
  }

  function NewSoa(d: Data, soa: RR): Data {
    WithRecord(d.(sets := d.sets - {Key(d.origin, SOA)}, soa := None), soa)
  }

  /** Deletions, the new SOA, additions. */
  function Change(d: Data, deleted: seq<RR>, soa: RR, added: seq<RR>): Option<Data> {
    var left := DeleteAll(d, deleted);
    if left.None? || !IsSubDomain(d.origin, soa.owner) then None
    else AddAll(NewSoa(left.value, soa), added)
  }

  function ApplyDelta(d: Data, c: Delta): Option<Data> {
    if d.soa.None? || SerialOf(c.fromSoa) != SerialOf(d.soa.value) then None
    else if !SerialGreater(SerialOf(c.toSoa), SerialOf(c.fromSoa)) then None
    else Change(d, c.deleted, c.toSoa, c.added)
  }

  function ApplyAll(d: Data, deltas: seq<Delta>): Option<Data>
    decreases |deltas|
  {
    if deltas == [] then Some(d)
    else
      var next := ApplyDelta(d, deltas[0]);
      if next.None? then None else ApplyAll(next.value, deltas[1..])
  }

  /** Reading [i, end) and applying it. */
  function Outcome(d: Data, records: seq<RR>, i: nat, end: nat): Option<Data>
    requires i <= end <= |records|
  {
    var deltas := Deltas(records, i, end);
    if deltas.None? then None else ApplyAll(d, deltas.value)
  }

  lemma OutcomeStep(d: Data, records: seq<RR>, i: nat, j: nat, k: nat, end: nat)
    requires i < j < k <= end <= |records|
    requires records[i].Soa? && j == Span(records, i + 1, end) && k == Span(records, j + 1, end)
    ensures var next := ApplyDelta(d, DeltaAt(records, i, j, k));
            Outcome(d, records, i, end) == if next.None? then None else Outcome(next.value, records, k, end)
  {
    var rest := Deltas(records, k, end);
    if rest.Some? {
      ApplyFirst(d, DeltaAt(records, i, j, k), rest.value);
    }
  }

  lemma {:induction false} ApplyFirst(d: Data, c: Delta, rest: seq<Delta>)
    ensures var next := ApplyDelta(d, c);
            ApplyAll(d, [c] + rest) == if next.None? then None else ApplyAll(next.value, rest)
  {
    assert ([c] + rest)[1..] == rest;
  }

  lemma WrongSerialFails(d: Data, records: seq<RR>, i: nat, end: nat)
    requires i < end <= |records|
    requires !records[i].Soa? || d.soa.None? || SerialOf(records[i]) != SerialOf(d.soa.value)
    ensures Outcome(d, records, i, end).None?
  {
    if records[i].Soa? && Span(records, i + 1, end) < end {
      var j := Span(records, i + 1, end);
      OutcomeStep(d, records, i, j, Span(records, j + 1, end), end);
    }
  }

  /** Apex SOA, and whatever else the zone's own validation asks. */
  predicate Valid(d: Data, sound: Data -> bool) {
    d.soa.Some? && d.soa.value.owner == d.origin && sound(d)
  }

  /** The zone an incremental reply of several records leads to. */
  function Incremental(d: Data, records: seq<RR>, sound: Data -> bool): Option<Data>
    requires |records| >= 2
  {
    var last := |records| - 1;
    if !records[last].Soa? || SerialOf(records[last]) != SerialOf(records[0]) then None
    else
      var work := Outcome(d, records, 1, last);
      if work.None? || work.value.soa.None? || SerialOf(work.value.soa.value) != SerialOf(records[0])
        || !Valid(work.value, sound) then None
      else work
  }

  function AddEach(d: Data, list: seq<RR>): Option<Data>
    decreases |list|
  {
    if list == [] then Some(d)
    else if !IsSubDomain(d.origin, list[0].owner) then None
    else AddEach(WithRecord(d, list[0]), list[1..])
  }

  /** The zone a full copy leads to. */
  function FromAxfr(name: Labels, records: seq<RR>, sound: Data -> bool): Option<Data> {
    var last := |records| - 1;
    if last < 1 || !records[0].Soa? || !records[last].Soa? || SerialOf(records[0]) != SerialOf(records[last]) then None
    else
      var full := AddEach(Data(name, None, map[]), records[..last]);
      if full.None? || !Valid(full.value, sound) then None else full
  }

  /** The zone any reply leads to. */
  function Transferred(d: Data, name: Labels, records: seq<RR>, sound: Data -> bool): Option<Data>
    requires d.soa.Some?
  {
    if records == [] || !records[0].Soa? then None
    else if |records| == 1 then (if SerialOf(records[0]) == SerialOf(d.soa.value) then Some(d) else None)
    else if !records[1].Soa? then FromAxfr(name, records, sound)
    else Incremental(d, records, sound)
  }

  /** The usual reply, a single SOA, keeps the zone if it has the zone's serial, and is refused otherwise. */
  lemma SingleSoaReply(d: Data, name: Labels, first: RR, sound: Data -> bool)
    requires d.soa.Some?
    ensures Transferred(d, name, [first], sound) ==
              if first.Soa? && SerialOf(first) == SerialOf(d.soa.value) then Some(d) else None
  {
  }

  /** A reply of several records is refused unless it stands between two SOAs of one serial. */
  lemma UnboundedReplyIsRefused(d: Data, name: Labels, records: seq<RR>, sound: Data -> bool)
    requires d.soa.Some?
    ensures var last := |records| - 1;
            (last < 0 || !records[0].Soa? || !records[last].Soa? || SerialOf(records[0]) != SerialOf(records[last]))
            ==> Transferred(d, name, records, sound) == None
  {
  }

  lemma {:induction false} AddEachIff(d: Data, list: seq<RR>)
    ensures AddEach(d, list).Some? <==> forall rr | rr in list :: IsSubDomain(d.origin, rr.owner)
    decreases |list|
  {
    if list != [] {
      assert forall rr :: rr in list <==> rr == list[0] || rr in list[1..];
      AddEachIff(WithRecord(d, list[0]), list[1..]);
    }
  }

  /** A full copy is accepted exactly if it is bounded so, its records are in the zone, and what it builds is valid. */
  lemma FullCopyIff(d: Data, name: Labels, records: seq<RR>, sound: Data -> bool)
    requires d.soa.Some? && |records| >= 2 && records[0].Soa? && records[1].Plain?
    ensures var last := |records| - 1;
            var built := AddEach(Data(name, None, map[]), records[..last]);
            Transferred(d, name, records, sound).Some? <==>
              && records[last].Soa? && SerialOf(records[0]) == SerialOf(records[last])
              && (forall rr | rr in records[..last] :: IsSubDomain(name, rr.owner))
              && built.Some? && built.value.soa.Some? && built.value.soa.value.owner == built.value.origin
              && sound(built.value)
  {
    AddEachIff(Data(name, None, map[]), records[..|records| - 1]);
  }

  // ---------- the routines ----------

  method DeleteRecords(work: Zone, deleted: seq<RR>) returns (ok: bool)
    modifies work
    ensures var r := DeleteAll(old(work.View()), deleted);
            (ok <==> r.Some?) && (ok ==> work.View() == r.value)
  {
    for i := 0 to |deleted|
      invariant DeleteAll(old(work.View()), deleted) == DeleteAll(work.View(), deleted[i..])
    {
      assert deleted[i..][1..] == deleted[i + 1..];
      var present := work.Has(deleted[i]);
      if !present {
        return false;
      }
      work.DeleteRecord(deleted[i]);
    }
    return true;
  }

  method AddRecords(work: Zone, added: seq<RR>) returns (ok: bool)
    modifies work
    ensures var r := AddAll(old(work.View()), added);
            (ok <==> r.Some?) && (ok ==> work.View() == r.value)
  {
    for i := 0 to |added|
      invariant AddAll(old(work.View()), added) == AddAll(work.View(), added[i..])
    {
      assert added[i..][1..] == added[i + 1..];
      var present := work.Has(added[i]);
      if present {
        return false;
      }
      var stored := work.AddRecord(added[i]);
      if !stored {
        return false;
      }
    }
    return true;
  }

  method ApplyChange(work: Zone, deleted: seq<RR>, newSoa: RR, added: seq<RR>) returns (ok: bool)
    requires newSoa.Soa?
    modifies work
    ensures var r := Change(old(work.View()), deleted, newSoa, added);
            (ok <==> r.Some?) && (ok ==> work.View() == r.value)
  {
    ok := DeleteRecords(work, deleted);
    if !ok {
      return;
    }
    assert work.View().origin == work.origin;
    work.DeleteRRSet(work.origin, SOA);
    work.soa := None;
    ok := work.AddRecord(newSoa);
    if !ok {
      return;
    }
    ok := AddRecords(work, added);
  }

  /** The records before the next SOA. */
  method ReadPlain(records: seq<RR>, start: nat, end: nat) returns (list: seq<RR>, index: nat)
    requires start <= end <= |records|
    ensures index == Span(records, start, end) && list == records[start..index]
  {
    list, index := [], start;
    while index < end
      invariant start <= index <= end
      invariant Span(records, start, end) == Span(records, index, end)
      invariant list == records[start..index]
    {
      if records[index].Soa? {
        return;
      }
      list := list + [records[index]];
      index := index + 1;
    }
  }

  /** Reads and applies the delta that starts at start. */
  method ApplyNext(work: Zone, records: seq<RR>, start: nat, end: nat) returns (ok: bool, index: nat)
    requires start < end <= |records|
    modifies work
    ensures start < index <= end
    ensures Outcome(old(work.View()), records, start, end)
         == if ok then Outcome(work.View(), records, index, end) else None
  {
    index := start + 1;
    var oldSoa := records[start];
    if !oldSoa.Soa? || work.soa.None? || SerialOf(oldSoa) != SerialOf(work.soa.value) {
      WrongSerialFails(work.View(), records, start, end);
      return false, index;
    }
    var deleted, middle := ReadPlain(records, index, end);
    if middle >= end {
      return false, index;
    }
    var newSoa := records[middle];
    var added;
    added, index := ReadPlain(records, middle + 1, end);
    ghost var next := ApplyDelta(work.View(), Delta(oldSoa, newSoa, deleted, added));
    assert DeltaAt(records, start, middle, index) == Delta(oldSoa, newSoa, deleted, added);
    OutcomeStep(work.View(), records, start, middle, index, end);
    if !SerialGreater(SerialOf(newSoa), SerialOf(oldSoa)) {
      assert next.None?;
      return false, index;
    }
    assert next == Change(work.View(), deleted, newSoa, added);
    ok := ApplyChange(work, deleted, newSoa, added);
  }

  /** Walks the deltas over a copy of the zone. */
  method ApplyDeltas(work: Zone, records: seq<RR>, end: nat) returns (ok: bool)
    requires 1 <= end <= |records|
    modifies work
    ensures var r := Outcome(old(work.View()), records, 1, end);
            (ok <==> r.Some?) && (ok ==> work.View() == r.value)
  {
    var index := 1;
    while index < end
      invariant 1 <= index <= end
      invariant Outcome(old(work.View()), records, 1, end) == Outcome(work.View(), records, index, end)
    {
      ok, index := ApplyNext(work, records, index, end);
      if !ok {
        return;
      }
    }
    return true;
  }

  method ZoneFromAxfr(name: Labels, records: seq<RR>, sound: Data -> bool) returns (result: Option<Zone>)
    ensures var r := FromAxfr(name, records, sound);
            (result.Some? <==> r.Some?) && (result.Some? ==> fresh(result.value) && result.value.View() == r.value)
  {
    if |records| < 2 {
      return None;
    }
    var last := |records| - 1;
    if !records[0].Soa? || !records[last].Soa? || SerialOf(records[0]) != SerialOf(records[last]) {
      return None;
    }
    var zone := new Zone(name);
    var list := records[..last];
    for i := 0 to last
      invariant fresh(zone) && zone.origin == name
      invariant AddEach(Data(name, None, map[]), list) == AddEach(zone.View(), list[i..])
    {
      assert list[i..][1..] == list[i + 1..];
      var ok := zone.AddRecord(list[i]);
      if !ok {
        return None;
      }
    }
    if !Valid(zone.View(), sound) {
      return None;
    }
    return Some(zone);
  }

  /** The current zone is only read: every result is a new object. */
  method ApplyTransfer(current: Zone, name: Labels, records: seq<RR>, sound: Data -> bool)
    returns (replacement: Option<Zone>, incremental: bool)
    requires current.soa.Some?
    ensures var r := Transferred(current.View(), name, records, sound);
            (replacement.Some? <==> r.Some?) && (r.Some? ==> replacement.value.View() == r.value)
    ensures replacement.Some? ==> fresh(replacement.value)
    ensures replacement.Some? ==> (incremental <==> |records| == 1 || records[1].Soa?)
  {
    if |records| == 0 {
      return None, false;
    }
    var target := records[0];
    if !target.Soa? {
      return None, false;
    }
    if |records| == 1 {
      if SerialOf(target) != SerialOf(current.soa.value) {
        return None, true;
      }
      var copy := current.Clone();
      return Some(copy), true;
    }
    if !records[1].Soa? {
      var full := ZoneFromAxfr(name, records, sound);
      return full, false;
    }
    var last := |records| - 1;
    if !records[last].Soa? || SerialOf(records[last]) != SerialOf(target) {
      return None, true;
    }
    var work := current.Clone();
    var ok := ApplyDeltas(work, records, last);
    if !ok || work.soa.None? || SerialOf(work.soa.value) != SerialOf(target) || !Valid(work.View(), sound) {
      return None, true;
    }
    return Some(work), true;
  }
}
