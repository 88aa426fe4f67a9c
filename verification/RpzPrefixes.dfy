/**
  Address triggers of a policy zone: per-length prefix tables, proved to answer
  like a linear scan over everything ever inserted, and the choice of one rule
  over a set of answer records.
 */
module RpzPrefixes {
  import opened Wrappers

  datatype Action = NoAction | NXDomain | NoData | Passthru | Drop | Rewrite

  datatype Rule = Rule(trigger: string, action: Action, rewriteTarget: string, source: string,
                       descendantsOnly: bool)

  /** The bits of an address, most significant first, one '0' or '1' to a bit. */
  type Bits = string

  datatype Address = Address(v4: bool, bits: Bits)

  /** The leading bits that addresses of one family share. */
  datatype Prefix = Prefix(v4: bool, bits: Bits)

  datatype Insertion = Insertion(prefix: Prefix, rule: Rule)

  function Width(v4: bool): nat {
    if v4 then 32 else 128
  }

  predicate IsAddress(a: Address) {
    |a.bits| == Width(a.v4)
  }

  predicate Contains(p: Prefix, a: Address) {
    p.v4 == a.v4 && p.bits <= a.bits
  }

  function Zeros(n: nat): (z: Bits)
    ensures |z| == n
  {
    seq(n, _ => '0')
  }

  /** The address a prefix masks to. */
  function Padded(bits: Bits, width: nat): (r: Bits)
    requires |bits| <= width
    ensures |r| == width && r[..|bits|] == bits
  {
    bits + Zeros(width - |bits|)
  }

  // ---------- what a list of insertions means ----------

  /** The rule in force for exactly one prefix: the last one inserted for it. */
  function Latest(h: seq<Insertion>, p: Prefix): Option<Rule> {
    if h == [] then None
    else if h[|h| - 1].prefix == p then Some(h[|h| - 1].rule)
    else Latest(h[..|h| - 1], p)
  }

  function Prefixes(h: seq<Insertion>): (r: set<Prefix>) {
    set x | x in h :: x.prefix
  }

  /** The linear scan: the longest prefix over the address, the last rule given for it. */
  function Scan(h: seq<Insertion>, a: Address): Option<Insertion> {
    if h == [] then None
    else
      var last := h[|h| - 1];
      var before := Scan(h[..|h| - 1], a);
      if Contains(last.prefix, a) && (before.None? || |last.prefix.bits| >= |before.value.prefix.bits|)
      then Some(last)
      else before
  }

  /** A hit covers the address, is the rule in force for its prefix, and no longer prefix covers the address. */
  ghost predicate IsLongestMatch(h: seq<Insertion>, a: Address, hit: Insertion) {
    && Contains(hit.prefix, a)
    && Latest(h, hit.prefix) == Some(hit.rule)
    && forall p | Contains(p, a) && Latest(h, p).Some? :: |p.bits| <= |hit.prefix.bits|
  }

  lemma {:induction false} ScanIsLongestMatch(h: seq<Insertion>, a: Address)
    ensures Scan(h, a).None? <==> (forall p | Contains(p, a) :: Latest(h, p).None?)
    ensures forall hit :: Scan(h, a) == Some(hit) <==> IsLongestMatch(h, a, hit)
  {
    if h != [] {
      var last, rest := h[|h| - 1], h[..|h| - 1];
      ScanIsLongestMatch(rest, a);
      assert Latest(h, last.prefix).Some?;
      if Scan(h, a).Some? {
        assert IsLongestMatch(h, a, Scan(h, a).value);
      }
    }
    forall x, y | IsLongestMatch(h, a, x) && IsLongestMatch(h, a, y) ensures x == y {
      assert x.prefix.bits == a.bits[..|x.prefix.bits|];
      assert y.prefix.bits == a.bits[..|y.prefix.bits|];
    }
  }

  lemma {:induction false} LatestExactly(h: seq<Insertion>, p: Prefix)
    ensures Latest(h, p).Some? <==> p in Prefixes(h)
  {
    if h != [] {
      var last, rest := h[|h| - 1], h[..|h| - 1];
      LatestExactly(rest, p);
      assert h == rest + [last];
    }
  }

  // ---------- the tables ----------

  type Table = map<Bits, Rule>

  /** One family's tables hold, under each length, exactly the rules in force for it. */
  ghost predicate TableHolds(t: Table, v4: bool, n: nat, h: seq<Insertion>)
    requires n <= Width(v4)
  {
    forall bits: Bits | |bits| == n ::
      var r := Latest(h, Prefix(v4, bits));
      (r.Some? <==> Padded(bits, Width(v4)) in t) && (r.Some? ==> t[Padded(bits, Width(v4))] == r.value)
  }

  ghost predicate Descending(s: seq<nat>) {
    forall i, j | 0 <= i < j < |s| :: s[i] > s[j]
  }

  ghost predicate LengthsFit(tables: seq<Table>, lengths: seq<nat>) {
    && Descending(lengths)
    && (forall n | n in lengths :: 1 <= n < |tables|)
    && (forall n | 0 <= n < |tables| :: n in lengths <==> tables[n] != map[])
  }

  ghost predicate FamilyHolds(tables: seq<Table>, lengths: seq<nat>, v4: bool, h: seq<Insertion>) {
    && |tables| == Width(v4) + 1
    && LengthsFit(tables, lengths)
    && forall n | 0 <= n <= Width(v4) :: TableHolds(tables[n], v4, n, h)
  }

  /** Appending a length and sorting in reverse puts it where a descending list wants it. */
  function InsertDescending(lengths: seq<nat>, n: nat): (r: seq<nat>)
    ensures forall x :: x in r <==> x in lengths || x == n
  {
    if lengths == [] || lengths[0] < n then [n] + lengths
    else [lengths[0]] + InsertDescending(lengths[1..], n)
  }

  lemma {:induction false} InsertStaysDescending(lengths: seq<nat>, n: nat)
    requires n !in lengths
    requires Descending(lengths)
    ensures Descending(InsertDescending(lengths, n))
  {
    if lengths == [] || lengths[0] < n {
    } else {
      InsertStaysDescending(lengths[1..], n);
      var rest := InsertDescending(lengths[1..], n);
      forall x | x in rest ensures lengths[0] > x {
        assert x in lengths[1..] ==> x in lengths;
        assert lengths[0] in lengths;
        if x in lengths[1..] {
          var j :| 0 <= j < |lengths| - 1 && lengths[1..][j] == x;
          assert lengths[j + 1] == x;
        }
      }
      assert forall j | 0 <= j < |rest| :: rest[j] in rest;
    }
  }

  lemma LengthsStayFit(tables: seq<Table>, lengths: seq<nat>, n: nat, t: Table)
    requires LengthsFit(tables, lengths) && 1 <= n < |tables| && t != map[]
    ensures LengthsFit(tables[n := t], if tables[n] == map[] then InsertDescending(lengths, n) else lengths)
  {
    assert n in lengths <==> tables[n] != map[];
    var tables' := tables[n := t];
    var lengths' := if tables[n] == map[] then InsertDescending(lengths, n) else lengths;
    if tables[n] == map[] {
      InsertStaysDescending(lengths, n);
    }
    forall m: nat | m < |tables| ensures m in lengths' <==> tables'[m] != map[] {
      assert m in lengths <==> tables[m] != map[];
    }
  }

  lemma TableAfterInsertion(t: Table, v4: bool, n: nat, h: seq<Insertion>, bits: Bits, rule: Rule)
    requires n <= Width(v4) && |bits| == n && TableHolds(t, v4, n, h)
    ensures TableHolds(t[Padded(bits, Width(v4)) := rule], v4, n, h + [Insertion(Prefix(v4, bits), rule)])
  {
    var h' := h + [Insertion(Prefix(v4, bits), rule)];
    var t' := t[Padded(bits, Width(v4)) := rule];
    assert h'[..|h|] == h;
    forall b: Bits | |b| == n
      ensures var r := Latest(h', Prefix(v4, b));
              (r.Some? <==> Padded(b, Width(v4)) in t') && (r.Some? ==> t'[Padded(b, Width(v4))] == r.value)
    {
      assert Latest(h, Prefix(v4, b)).Some? <==> Padded(b, Width(v4)) in t;
      if b != bits {
        assert Padded(b, Width(v4))[..n] != Padded(bits, Width(v4))[..n];
      }
    }
  }

  lemma OtherTableAfterInsertion(t: Table, v4: bool, n: nat, h: seq<Insertion>, x: Insertion)
    requires n <= Width(v4) && TableHolds(t, v4, n, h)
    requires x.prefix.v4 != v4 || |x.prefix.bits| != n
    ensures TableHolds(t, v4, n, h + [x])
  {
    var h' := h + [x];
    assert h'[..|h|] == h;
    forall b: Bits | |b| == n
      ensures var r := Latest(h', Prefix(v4, b));
              (r.Some? <==> Padded(b, Width(v4)) in t) && (r.Some? ==> t[Padded(b, Width(v4))] == r.value)
    {
      assert Latest(h, Prefix(v4, b)).Some? <==> Padded(b, Width(v4)) in t;
    }
  }

  /** Inserting into the right table keeps the family's tables exact. */
  lemma FamilyAfterInsertion(tables: seq<Table>, lengths: seq<nat>, h: seq<Insertion>, p: Prefix, rule: Rule)
    requires FamilyHolds(tables, lengths, p.v4, h) && 1 <= |p.bits| <= Width(p.v4)
    ensures var n := |p.bits|;
            FamilyHolds(tables[n := tables[n][Padded(p.bits, Width(p.v4)) := rule]],
                        if tables[n] == map[] then InsertDescending(lengths, n) else lengths,
                        p.v4, h + [Insertion(p, rule)])
  {
    var n := |p.bits|;
    var t := tables[n][Padded(p.bits, Width(p.v4)) := rule];
    assert Padded(p.bits, Width(p.v4)) in t;
    LengthsStayFit(tables, lengths, n, t);
    var tables' := tables[n := t];
    forall m | 0 <= m <= Width(p.v4) ensures TableHolds(tables'[m], p.v4, m, h + [Insertion(p, rule)]) {
      if m == n {
        TableAfterInsertion(tables[n], p.v4, n, h, p.bits, rule);
      } else {
        OtherTableAfterInsertion(tables[m], p.v4, m, h, Insertion(p, rule));
      }
    }
  }

  lemma OtherFamilyAfterInsertion(tables: seq<Table>, lengths: seq<nat>, v4: bool, h: seq<Insertion>, x: Insertion)
    requires FamilyHolds(tables, lengths, v4, h) && x.prefix.v4 != v4
    ensures FamilyHolds(tables, lengths, v4, h + [x])
  {
    forall m | 0 <= m <= Width(v4) ensures TableHolds(tables[m], v4, m, h + [x]) {
      OtherTableAfterInsertion(tables[m], v4, m, h, x);
    }
  }

  /** No rule in force has a length that is not listed. */
  lemma UnlistedLengthsAreEmpty(tables: seq<Table>, lengths: seq<nat>, v4: bool, h: seq<Insertion>, p: Prefix)
    requires FamilyHolds(tables, lengths, v4, h) && p.v4 == v4
    requires Latest(h, p).Some? && |p.bits| <= Width(v4)
    ensures |p.bits| in lengths
  {
    assert TableHolds(tables[|p.bits|], v4, |p.bits|, h);
    assert Padded(p.bits, Width(v4)) in tables[|p.bits|];
  }

  lemma SizeAfterInsertion(h: seq<Insertion>, p: Prefix, rule: Rule)
    ensures |Prefixes(h + [Insertion(p, rule)])| == |Prefixes(h)| + if p in Prefixes(h) then 0 else 1
  {
    var h' := h + [Insertion(p, rule)];
    assert Insertion(p, rule) in h';
    assert forall x :: x in h' <==> x in h || x == Insertion(p, rule);
    assert Prefixes(h') == Prefixes(h) + {p};
  }

  class PrefixTables {
    const v4: array<Table>
    const v6: array<Table>
    var v4Lengths: seq<nat>
    var v6Lengths: seq<nat>
    var rules: nat
    /** Every accepted insertion so far, oldest first. */
    ghost var history: seq<Insertion>

    ghost predicate Valid()
      reads this, v4, v6
    {
      && v4 != v6
      && FamilyHolds(v4[..], v4Lengths, true, history)
      && FamilyHolds(v6[..], v6Lengths, false, history)
      && rules == |Prefixes(history)|
    }

    constructor ()
      ensures Valid() && history == []
      ensures fresh(v4) && fresh(v6)
    {
      v4 := new Table[33](_ => map[]);
      v6 := new Table[129](_ => map[]);
      v4Lengths, v6Lengths, rules, history := [], [], 0, [];
    }

    /** Rejects a prefix of no bits or too many; otherwise records the masked prefix. */
    method Add(a: Address, bits: int, rule: Rule) returns (ok: bool)
      requires Valid() && IsAddress(a)
      modifies this, v4, v6
      ensures Valid()
      ensures ok <==> 1 <= bits <= |a.bits|
      ensures history == if ok then old(history) + [Insertion(Prefix(a.v4, a.bits[..bits]), rule)] else old(history)
    {
      if bits < 1 || (a.v4 && bits > 32) || (!a.v4 && bits > 128) {
        return false;
      }
      ghost var p := Prefix(a.v4, a.bits[..bits]);
      OtherFamilyAfterInsertion(if a.v4 then v6[..] else v4[..], if a.v4 then v6Lengths else v4Lengths, !a.v4,
                                history, Insertion(p, rule));
      SizeAfterInsertion(history, p, rule);
      var added;
      if a.v4 {
        v4Lengths, added := Insert(v4, v4Lengths, a, bits, rule, history);
      } else {
        v6Lengths, added := Insert(v6, v6Lengths, a, bits, rule, history);
      }
      if added {
        rules := rules + 1;
      }
      history := history + [Insertion(p, rule)];
      return true;
    }

    static method Insert(table: array<Table>, lengths: seq<nat>, a: Address, bits: nat, rule: Rule,
                         ghost history: seq<Insertion>)
      returns (lengths': seq<nat>, added: bool)
      requires IsAddress(a) && FamilyHolds(table[..], lengths, a.v4, history) && 1 <= bits <= |a.bits|
      modifies table
      ensures FamilyHolds(table[..], lengths', a.v4, history + [Insertion(Prefix(a.v4, a.bits[..bits]), rule)])
      ensures added <==> Prefix(a.v4, a.bits[..bits]) !in Prefixes(history)
    {
      ghost var p := Prefix(a.v4, a.bits[..bits]);
      ghost var before := table[..];
      var key := Padded(a.bits[..bits], Width(a.v4));
      FamilyAfterInsertion(before, lengths, history, p, rule);
      assert TableHolds(before[bits], a.v4, bits, history);
      LatestExactly(history, p);
      lengths' := lengths;
      if table[bits] == map[] {
        lengths' := InsertDescending(lengths, bits);
      }
      added := key !in table[bits];
      table[bits] := table[bits][key := rule];
      assert table[..] == before[bits := before[bits][key := rule]];
    }

    /** Walks the family's lengths downwards and answers like the linear scan. */
    method Match(a: Address) returns (hit: Option<Insertion>)
      requires Valid() && IsAddress(a)
      ensures hit == Scan(history, a)
    {
      if a.v4 {
        hit := MatchFamily(v4, v4Lengths, a, history);
      } else {
        hit := MatchFamily(v6, v6Lengths, a, history);
      }
    }

    static method MatchFamily(table: array<Table>, lengths: seq<nat>, a: Address, ghost history: seq<Insertion>)
      returns (hit: Option<Insertion>)
      requires IsAddress(a) && FamilyHolds(table[..], lengths, a.v4, history)
      ensures hit == Scan(history, a)
    {
      var i := 0;
      while i < |lengths|
        invariant 0 <= i <= |lengths|
        invariant forall j | 0 <= j < i ::
                    lengths[j] in lengths && Latest(history, Prefix(a.v4, a.bits[..lengths[j]])).None?
      {
        var bits := lengths[i];
        assert bits in lengths;
        var key := Padded(a.bits[..bits], Width(a.v4));
        EntryHolds(table[..], lengths, a, bits, history);
        if key in table[bits] {
          FoundIsScan(table[..], lengths, a, i, history);
          return Some(Insertion(Prefix(a.v4, a.bits[..bits]), table[bits][key]));
        }
        i := i + 1;
      }
      ScanIsLongestMatch(history, a);
      NoLongerPrefix(table[..], lengths, a, |lengths|, history);
      return None;
    }
  }

  lemma EntryHolds(tables: seq<Table>, lengths: seq<nat>, a: Address, bits: nat, h: seq<Insertion>)
    requires IsAddress(a) && FamilyHolds(tables, lengths, a.v4, h) && bits <= Width(a.v4)
    ensures var key, rule := Padded(a.bits[..bits], Width(a.v4)), Latest(h, Prefix(a.v4, a.bits[..bits]));
            rule == if key in tables[bits] then Some(tables[bits][key]) else None
  {
    assert TableHolds(tables[bits], a.v4, bits, h);
  }

  lemma FoundIsScan(tables: seq<Table>, lengths: seq<nat>, a: Address, i: nat, h: seq<Insertion>)
    requires IsAddress(a) && FamilyHolds(tables, lengths, a.v4, h) && i < |lengths| && lengths[i] <= Width(a.v4)
    requires forall j | 0 <= j < i :: lengths[j] in lengths && Latest(h, Prefix(a.v4, a.bits[..lengths[j]])).None?
    requires Latest(h, Prefix(a.v4, a.bits[..lengths[i]])).Some?
    ensures var p := Prefix(a.v4, a.bits[..lengths[i]]); Scan(h, a) == Some(Insertion(p, Latest(h, p).value))
  {
    var p := Prefix(a.v4, a.bits[..lengths[i]]);
    NoLongerPrefix(tables, lengths, a, i, h);
    ScanIsLongestMatch(h, a);
    assert IsLongestMatch(h, a, Insertion(p, Latest(h, p).value));
  }

  /** When the first i lengths held nothing, a rule over the address has one of the later lengths. */
  lemma NoLongerPrefix(tables: seq<Table>, lengths: seq<nat>, a: Address, i: nat, h: seq<Insertion>)
    requires IsAddress(a) && FamilyHolds(tables, lengths, a.v4, h) && i <= |lengths|
    requires forall j | 0 <= j < i :: lengths[j] in lengths && Latest(h, Prefix(a.v4, a.bits[..lengths[j]])).None?
    ensures forall p | Contains(p, a) && Latest(h, p).Some? :: i < |lengths| && |p.bits| <= lengths[i]
  {
    forall p | Contains(p, a) && Latest(h, p).Some? ensures i < |lengths| && |p.bits| <= lengths[i] {
      UnlistedLengthsAreEmpty(tables, lengths, a.v4, h, p);
      var j :| 0 <= j < |lengths| && lengths[j] == |p.bits|;
      assert p == Prefix(a.v4, a.bits[..lengths[j]]);
    }
  }
}
