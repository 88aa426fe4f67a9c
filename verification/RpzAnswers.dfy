/**
  Choosing one address rule for a whole set of answer records: the longest
  prefix wins, counted over the 128-bit address space, then the lowest address.
 */
module RpzAnswers {
  import opened Wrappers
  import opened ByteOrder
  import opened RpzPrefixes

  /** An answer record; the octets of an address record may have any length. */
  datatype Record = A(ip: Bits) | AAAA(ip: Bits) | Other

  /** The 96 bits that mark an IPv4 address inside IPv6. */
  function MappedPrefix(): (r: Bits)
    ensures |r| == 96
  {
    Zeros(80) + seq(16, _ => '1')
  }

  function Unmap(a: Address): (r: Address)
    requires IsAddress(a)
    ensures IsAddress(r)
    ensures r == a || (r.v4 && a == Address(false, MappedPrefix() + r.bits))
    ensures r.v4 || !(MappedPrefix() <= r.bits)
  {
    if !a.v4 && MappedPrefix() <= a.bits then
      assert a.bits == MappedPrefix() + a.bits[96..];
      Address(true, a.bits[96..])
    else a
  }

  /** An A record counts in either 4- or 16-octet form; an AAAA record is taken as it stands. */
  function AddressOf(r: Record): (a: Option<Address>)
    ensures a.Some? ==> IsAddress(a.value)
  {
    match r
    case A(ip) =>
      if |ip| == 32 then Some(Address(true, ip))
      else if |ip| == 128 && MappedPrefix() <= ip then Some(Address(true, ip[96..]))
      else None
    case AAAA(ip) =>
      if |ip| == 32 then Some(Address(true, ip))
      else if |ip| == 128 then Some(Address(false, ip))
      else None
    case Other => None
  }

  function HitOf(h: seq<Insertion>, r: Record): Option<Insertion> {
    var a := AddressOf(r);
    if a.None? then None else Scan(h, a.value)
  }

  /** The hits of all records, in record order. */
  function Hits(h: seq<Insertion>, records: seq<Record>): seq<Insertion> {
    if records == [] then []
    else
      var hit := HitOf(h, records[|records| - 1]);
      Hits(h, records[..|records| - 1]) + if hit.Some? then [hit.value] else []
  }

  // ---------- precedence between prefixes ----------

  datatype Key = Key(bits: nat, address: Bits)

  function KeyOf(p: Prefix): Key {
    if |p.bits| > Width(p.v4) then Key(0, [])
    else if p.v4 then Key(|p.bits| + 96, Zeros(96) + Padded(p.bits, 32))
    else Key(|p.bits|, Padded(p.bits, 128))
  }

  predicate Better(a: Key, b: Key) {
    a.bits > b.bits || (a.bits == b.bits && Less(a.address, b.address))
  }

  lemma BetterIsStrictOrder(a: Key, b: Key, c: Key)
    ensures !Better(a, a)
    ensures Better(a, b) && Better(b, c) ==> Better(a, c)
    ensures Better(a, b) || a == b || Better(b, a)
    ensures Better(a, b) ==> !Better(b, a)
  {
    LessIrreflexive(a.address);
    LessTotal(a.address, b.address);
    if Less(a.address, b.address) && Less(b.address, c.address) {
      LessTransitive(a.address, b.address, c.address);
    }
    if Less(a.address, b.address) {
      LessAsymmetric(a.address, b.address);
    }
  }

  function Best(hits: seq<Insertion>): Option<Insertion> {
    if hits == [] then None
    else
      var last := hits[|hits| - 1];
      var before := Best(hits[..|hits| - 1]);
      if before.None? || Better(KeyOf(last.prefix), KeyOf(before.value.prefix)) then Some(last) else before
  }

  ghost predicate Top(hits: seq<Insertion>, x: Insertion) {
    forall y | y in hits :: !Better(KeyOf(y.prefix), KeyOf(x.prefix))
  }

  /** The first hit among those no other hit is better than. */
  ghost predicate IsFirstTop(hits: seq<Insertion>, i: nat) {
    && i < |hits|
    && Top(hits, hits[i])
    && forall j | 0 <= j < i :: Better(KeyOf(hits[i].prefix), KeyOf(hits[j].prefix))
  }

  lemma {:induction false} BestIsFirstTop(hits: seq<Insertion>) returns (i: nat)
    requires hits != []
    ensures IsFirstTop(hits, i) && Best(hits) == Some(hits[i])
  {
    var last, front := hits[|hits| - 1], hits[..|hits| - 1];
    var key := KeyOf(last.prefix);
    BetterIsStrictOrder(key, key, key);
    assert hits == front + [last];
    if front == [] {
      i := 0;
    } else {
      i := BestIsFirstTop(front);
      var top := KeyOf(front[i].prefix);
      if Better(key, top) {
        forall y | y in front
          ensures Better(key, KeyOf(y.prefix)) && !Better(KeyOf(y.prefix), key)
        {
          BetterIsStrictOrder(top, KeyOf(y.prefix), key);
          BetterIsStrictOrder(key, top, KeyOf(y.prefix));
          BetterIsStrictOrder(key, KeyOf(y.prefix), key);
        }
        i := |front|;
      }
    }
  }

  function RuleOf(hit: Option<Insertion>): Option<Rule> {
    if hit.None? then None else Some(hit.value.rule)
  }

  /** The rule chosen for a list of records. */
  function Chosen(h: seq<Insertion>, records: seq<Record>): Option<Rule> {
    RuleOf(Best(Hits(h, records)))
  }

  lemma OneMoreRecord(h: seq<Insertion>, records: seq<Record>, i: nat)
    requires i < |records|
    ensures var before, hit := Best(Hits(h, records[..i])), HitOf(h, records[i]);
            Best(Hits(h, records[..i + 1]))
            == if hit.Some? && (before.None? || Better(KeyOf(hit.value.prefix), KeyOf(before.value.prefix)))
               then hit else before
  {
    var hits, hit := Hits(h, records[..i]), HitOf(h, records[i]);
    assert records[..i + 1][..i] == records[..i];
    if hit.Some? {
      assert (hits + [hit.value])[..|hits|] == hits;
    } else {
      assert hits + [] == hits;
    }
  }

  method BestRule(tables: PrefixTables, records: seq<Record>) returns (best: Option<Rule>)
    requires tables.Valid()
    ensures best == Chosen(tables.history, records)
  {
    best := None;
    var bestKey := Key(0, []);
    for i := 0 to |records|
      invariant var b := Best(Hits(tables.history, records[..i]));
                best == RuleOf(b) && (b.Some? ==> bestKey == KeyOf(b.value.prefix))
    {
      OneMoreRecord(tables.history, records, i);
      var address := AddressOf(records[i]);
      if address.None? {
        continue;
      }
      var hit := tables.Match(address.value);
      if hit.None? {
        continue;
      }
      var key := KeyOf(hit.value.prefix);
      if best.None? || Better(key, bestKey) {
        best, bestKey := Some(hit.value.rule), key;
      }
    }
    assert records[..|records|] == records;
  }

  // ---------- the order of the records ----------

  lemma {:induction false} HitsAreHitsOf(h: seq<Insertion>, records: seq<Record>)
    ensures forall x :: x in Hits(h, records) <==> exists r :: r in records && HitOf(h, r) == Some(x)
  {
    if records != [] {
      var last, front := records[|records| - 1], records[..|records| - 1];
      HitsAreHitsOf(h, front);
      assert records == front + [last];
      forall x ensures x in Hits(h, records) <==> exists r :: r in records && HitOf(h, r) == Some(x) {
        assert x in Hits(h, records) <==> x in Hits(h, front) || HitOf(h, last) == Some(x);
      }
    }
  }

  lemma {:induction false} HitsOfFirst(h: seq<Insertion>, r: Record, rest: seq<Record>)
    requires HitOf(h, r).Some?
    ensures Hits(h, [r] + rest) == [HitOf(h, r).value] + Hits(h, rest)
  {
    if rest == [] {
      assert [r] + rest == [r] && [r][..0] == [];
    } else {
      HitsOfFirst(h, r, rest[..|rest| - 1]);
      assert ([r] + rest)[..|rest|] == [r] + rest[..|rest| - 1];
    }
  }

  /** The winning prefix length and address depend only on which records there are. */
  lemma WinningKeyIgnoresOrder(h: seq<Insertion>, records: seq<Record>, others: seq<Record>)
    requires Elements(records) == Elements(others)
    ensures var x, y := Best(Hits(h, records)), Best(Hits(h, others));
            (x.Some? <==> y.Some?) && (x.Some? ==> KeyOf(x.value.prefix) == KeyOf(y.value.prefix))
  {
    var s, t := Hits(h, records), Hits(h, others);
    assert forall r :: r in records <==> r in Elements(records);
    assert forall r :: r in others <==> r in Elements(others);
    HitsAreHitsOf(h, records);
    HitsAreHitsOf(h, others);
    assert forall x :: x in s <==> x in t;
    HasElement(s);
    HasElement(t);
    if s != [] && t != [] {
      var i := BestIsFirstTop(s);
      var j := BestIsFirstTop(t);
      assert s[i] in t && t[j] in s;
      BetterIsStrictOrder(KeyOf(s[i].prefix), KeyOf(t[j].prefix), KeyOf(s[i].prefix));
    }
  }

  /** Two of the hits tie for best and carry different rules. */
  ghost predicate Ambiguous(h: seq<Insertion>, records: seq<Record>) {
    var hits := Hits(h, records);
    exists x, y :: x in hits && y in hits && Top(hits, x) && Top(hits, y) && x.rule != y.rule
  }

  /** The chosen rule survives every reordering of the records exactly when no two rules tie for best. */
  lemma ChoiceIgnoresOrderIff(h: seq<Insertion>, records: seq<Record>)
    ensures (forall others | multiset(others) == multiset(records) :: Chosen(h, others) == Chosen(h, records))
       <==> !Ambiguous(h, records)
  {
    var hits := Hits(h, records);
    if Ambiguous(h, records) {
      var x, y :| x in hits && y in hits && Top(hits, x) && Top(hits, y) && x.rule != y.rule;
      var z := if Chosen(h, records) == Some(x.rule) then y else x;
      var others := BringForward(h, records, z);
    } else {
      forall others | multiset(others) == multiset(records) ensures Chosen(h, others) == Chosen(h, records) {
        assert forall r :: r in others <==> r in multiset(others);
        assert forall r :: r in records <==> r in multiset(records);
        HitsAreHitsOf(h, records);
        HitsAreHitsOf(h, others);
        var hits' := Hits(h, others);
        assert forall x :: x in hits <==> x in hits';
        HasElement(hits);
        HasElement(hits');
        if hits != [] && hits' != [] {
          var i := BestIsFirstTop(hits);
          var j := BestIsFirstTop(hits');
          assert Top(hits, hits'[j]) && hits'[j] in hits;
        }
      }
    }
  }

  /** Any best hit is the one chosen once its record comes first. */
  lemma BringForward(h: seq<Insertion>, records: seq<Record>, z: Insertion) returns (others: seq<Record>)
    requires z in Hits(h, records) && Top(Hits(h, records), z)
    ensures multiset(others) == multiset(records)
    ensures Chosen(h, others) == Some(z.rule)
  {
    HitsAreHitsOf(h, records);
    var k :| 0 <= k < |records| && HitOf(h, records[k]) == Some(z);
    var rest := records[..k] + records[k + 1..];
    others := [records[k]] + rest;
    assert records == records[..k] + [records[k]] + records[k + 1..];
    HitsOfFirst(h, records[k], rest);
    HitsAreHitsOf(h, others);
    assert forall r :: r in others <==> r in records;
    var i := BestIsFirstTop(Hits(h, others));
    assert Hits(h, others)[0] == z && Top(Hits(h, others), z);
    assert Hits(h, others)[i] in Hits(h, others);
  }

  /** A tie needs an IPv4 rule and an IPv6 rule for the same 128-bit prefix, with different contents. */
  lemma AmbiguityNeedsBothFamilies(h: seq<Insertion>, records: seq<Record>)
    requires Ambiguous(h, records)
    ensures exists bits: Bits ::
      var v4, v6 := Latest(h, Prefix(true, bits)), Latest(h, Prefix(false, Zeros(96) + bits));
      v4.Some? && v6.Some? && v4 != v6
  {
    var hits := Hits(h, records);
    var x, y :| x in hits && y in hits && Top(hits, x) && Top(hits, y) && x.rule != y.rule;
    HitIsInForce(h, records, x);
    HitIsInForce(h, records, y);
    BetterIsStrictOrder(KeyOf(x.prefix), KeyOf(y.prefix), KeyOf(x.prefix));
    SameKey(x.prefix, y.prefix);
    SameKey(y.prefix, x.prefix);
    var p, q := if x.prefix.v4 then x.prefix else y.prefix, if x.prefix.v4 then y.prefix else x.prefix;
    assert p == Prefix(true, p.bits) && q == Prefix(false, Zeros(96) + p.bits);
  }

  /** Any such pair of rules makes the choice depend on the order of two records. */
  lemma BothFamiliesMakeAmbiguity(bits: Bits, four: Rule, six: Rule) returns (h: seq<Insertion>, records: seq<Record>)
    requires |bits| <= 32 && four != six
    ensures h == [Insertion(Prefix(true, bits), four), Insertion(Prefix(false, Zeros(96) + bits), six)]
    ensures |records| == 2 && Ambiguous(h, records)
    ensures exists others :: multiset(others) == multiset(records) && Chosen(h, others) != Chosen(h, records)
  {
    var x, y := Insertion(Prefix(true, bits), four), Insertion(Prefix(false, Zeros(96) + bits), six);
    var tail := Padded(bits, 32);
    var a, b := A(tail), AAAA(Zeros(96) + tail);
    h, records := [x, y], [a, b];
    TwoInsertions(x, y, Address(true, tail));
    TwoInsertions(x, y, Address(false, Zeros(96) + tail));
    PaddedAfterZeros(bits);
    TwoTie(h, a, b, x, y);
    ChoiceIgnoresOrderIff(h, records);
  }

  /** An IPv4 prefix and the IPv6 prefix of the same 128 bits mask to one address and have one key. */
  lemma PaddedAfterZeros(bits: Bits)
    requires |bits| <= 32
    ensures Padded(Zeros(96) + bits, 128) == Zeros(96) + Padded(bits, 32)
    ensures Zeros(96) + bits <= Zeros(96) + Padded(bits, 32)
    ensures KeyOf(Prefix(true, bits)) == KeyOf(Prefix(false, Zeros(96) + bits))
  {
  }

  lemma TwoTie(h: seq<Insertion>, a: Record, b: Record, x: Insertion, y: Insertion)
    requires HitOf(h, a) == Some(x) && HitOf(h, b) == Some(y)
    requires KeyOf(x.prefix) == KeyOf(y.prefix) && x.rule != y.rule
    ensures Ambiguous(h, [a, b])
  {
    var records := [a, b];
    assert records[..1] == [a] && [a][..0] == [];
    assert Hits(h, [a]) == [x];
    var hits := Hits(h, records);
    assert hits == [x, y];
    BetterIsStrictOrder(KeyOf(x.prefix), KeyOf(x.prefix), KeyOf(x.prefix));
    assert x in hits && y in hits && Top(hits, x) && Top(hits, y);
  }

  lemma TwoInsertions(x: Insertion, y: Insertion, a: Address)
    requires x.prefix.v4 && !y.prefix.v4
    ensures Scan([x, y], a) ==
            if Contains(y.prefix, a) then Some(y) else if Contains(x.prefix, a) then Some(x) else None
  {
    assert [x][..0] == [];
    assert Scan([x], a) == if Contains(x.prefix, a) then Some(x) else None;
    assert [x, y][..1] == [x];
  }

  lemma HitIsInForce(h: seq<Insertion>, records: seq<Record>, x: Insertion)
    requires x in Hits(h, records)
    ensures |x.prefix.bits| <= Width(x.prefix.v4) && Latest(h, x.prefix) == Some(x.rule)
  {
    HitsAreHitsOf(h, records);
    var r :| r in records && HitOf(h, r) == Some(x);
    ScanIsLongestMatch(h, AddressOf(r).value);
    assert IsLongestMatch(h, AddressOf(r).value, x);
  }

  lemma SameKey(p: Prefix, q: Prefix)
    requires |p.bits| <= Width(p.v4) && |q.bits| <= Width(q.v4) && KeyOf(p) == KeyOf(q)
    ensures p.v4 == q.v4 ==> p == q
    ensures p.v4 && !q.v4 ==> q.bits == Zeros(96) + p.bits
  {
    var address := KeyOf(p).address;
    if p.v4 == q.v4 {
      assert Padded(p.bits, Width(p.v4)) == Padded(q.bits, Width(q.v4)) by {
        if p.v4 {
          assert address[96..] == Padded(p.bits, 32) && KeyOf(q).address[96..] == Padded(q.bits, 32);
        }
      }
      assert p.bits == Padded(p.bits, Width(p.v4))[..|p.bits|];
      assert q.bits == Padded(q.bits, Width(q.v4))[..|q.bits|];
    } else if p.v4 {
      assert q.bits == address[..|q.bits|];
      assert address == Zeros(96) + (p.bits + Zeros(32 - |p.bits|)) == (Zeros(96) + p.bits) + Zeros(32 - |p.bits|);
      assert Zeros(96) + p.bits == address[..96 + |p.bits|];
    }
  }
}
