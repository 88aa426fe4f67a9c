/**
  Which rule wins, told in the names, lengths and addresses of the rules themselves.
 */
module RpzPrecedence {
  import opened Wrappers
  import opened ByteOrder
  import opened CanonicalNames
  import opened RpzPrefixes
  import opened RpzAnswers
  import opened RpzPolicy

  // ---------- addresses ----------

  /** The rule in force for a prefix is the one inserted last. */
  lemma {:induction false} LatestIsLast(h: seq<Insertion>, p: Prefix, rule: Rule)
    ensures Latest(h, p) == Some(rule) <==>
              exists i :: 0 <= i < |h| && h[i] == Insertion(p, rule) && forall j | i < j < |h| :: h[j].prefix != p
  {
    if h != [] {
      var n, rest := |h| - 1, h[..|h| - 1];
      if h[n].prefix == p {
        assert h[n].rule == rule ==> h[n] == Insertion(p, rule);
      } else {
        LatestIsLast(rest, p, rule);
        if i :| 0 <= i < |rest| && rest[i] == Insertion(p, rule) && forall j | i < j < |rest| :: rest[j].prefix != p {
          assert h[i] == Insertion(p, rule) && forall j | i < j < n :: h[j] == rest[j];
        }
        if i :| 0 <= i < |h| && h[i] == Insertion(p, rule) && forall j | i < j < |h| :: h[j].prefix != p {
          assert i < n && rest[i] == h[i] && forall j | i < j < n :: h[j] == rest[j];
        }
      }
    }
  }

  /** An IPv4 address of 32 bits, as IPv6 has it: after 80 zeros and 16 ones. */
  predicate IsMapped(bits: Bits) {
    |bits| == 128 && bits[..80] == Zeros(80) && bits[80..96] == "1111111111111111"
  }

  lemma MappedIff(bits: Bits)
    requires |bits| == 128
    ensures MappedPrefix() <= bits <==> IsMapped(bits)
  {
    var ones := seq(16, _ => '1');
    assert ones == "1111111111111111";
    if MappedPrefix() <= bits {
      assert bits[..96] == MappedPrefix();
      assert bits[..80] == bits[..96][..80] && bits[80..96] == bits[..96][80..];
    }
    if IsMapped(bits) {
      assert bits[..96] == bits[..80] + bits[80..96];
    }
  }

  /** An A record counts as IPv4 in either form; an AAAA record counts as what its length says. */
  lemma AddressOfIs(ip: Bits)
    ensures AddressOf(A(ip)) ==
              if |ip| == 32 then Some(Address(true, ip))
              else if IsMapped(ip) then Some(Address(true, ip[96..])) else None
    ensures AddressOf(AAAA(ip)) ==
              if |ip| == 32 then Some(Address(true, ip))
              else if |ip| == 128 then Some(Address(false, ip)) else None
    ensures AddressOf(Other) == None
  {
    if |ip| == 128 {
      MappedIff(ip);
    }
  }

  /** A client's or nameserver's mapped address counts as IPv4. */
  lemma UnmapIs(a: Address)
    requires IsAddress(a)
    ensures Unmap(a) == if !a.v4 && IsMapped(a.bits) then Address(true, a.bits[96..]) else a
  {
    if !a.v4 {
      MappedIff(a.bits);
    }
  }

  /** How deep a prefix lies in the IPv6 address space, IPv4 counting as its last 32 bits. */
  function Depth(p: Prefix): nat {
    if p.v4 then 96 + |p.bits| else |p.bits|
  }

  /** The lowest address under a prefix, as 128 bits. */
  function Lowest(p: Prefix): Bits
    requires Depth(p) <= 128
  {
    (if p.v4 then Zeros(96) else []) + p.bits + Zeros(128 - Depth(p))
  }

  lemma {:induction false} HitsFit(h: seq<Insertion>, records: seq<Record>, x: Insertion)
    requires x in Hits(h, records)
    ensures Depth(x.prefix) <= 128
    ensures exists r :: r in records && AddressOf(r).Some? && Contains(x.prefix, AddressOf(r).value)
  {
    var last, front := records[|records| - 1], records[..|records| - 1];
    if x in Hits(h, front) {
      HitsFit(h, front, x);
      var r :| r in front && AddressOf(r).Some? && Contains(x.prefix, AddressOf(r).value);
      assert r in records;
    } else {
      assert HitOf(h, last) == Some(x) && last in records;
      ScanIsLongestMatch(h, AddressOf(last).value);
    }
  }

  /** Of all matches the longest prefix wins, and of equally long ones the lowest address. */
  lemma LongestPrefixWins(h: seq<Insertion>, records: seq<Record>, hit: Insertion, other: Insertion)
    requires Best(Hits(h, records)) == Some(hit) && other in Hits(h, records)
    ensures hit in Hits(h, records) && Depth(other.prefix) <= Depth(hit.prefix) <= 128
    ensures Depth(other.prefix) == Depth(hit.prefix) ==> !Less(Lowest(other.prefix), Lowest(hit.prefix))
  {
    var hits := Hits(h, records);
    var i := BestIsFirstTop(hits);
    HitsFit(h, records, hit);
    HitsFit(h, records, other);
    LowestIs(hit.prefix);
    LowestIs(other.prefix);
  }

  lemma LowestIs(p: Prefix)
    requires |p.bits| <= Width(p.v4)
    ensures KeyOf(p) == Key(Depth(p), Lowest(p))
  {
    if p.v4 {
      assert Zeros(96) + (p.bits + Zeros(32 - |p.bits|)) == Zeros(96) + p.bits + Zeros(32 - |p.bits|);
    } else {
      assert [] + p.bits == p.bits;
    }
  }

  // ---------- nameserver names ----------

  /** A wildcard matches a proper ancestor of the name, of so many labels. */
  ghost predicate WildcardOver(z: Zone, name: Labels, labels: nat) {
    labels < |name| && labels > 0 && name[|name| - labels..] in z.nsWildcards
  }

  /**
    Exact rules come before wildcards, then more labels before fewer; of equals, the name that
    is last in the order of names.
   */
  lemma LongestNameWins(z: Zone, names: seq<Labels>, hit: NameHit, n: Labels)
    requires BestName(z, names) == Some(hit) && n in names
    ensures hit.name in names
    ensures n in z.nsExact ==>
              && hit.name in z.nsExact && hit.rule == z.nsExact[hit.name] && |n| <= |hit.name|
              && (|n| == |hit.name| ==> !NameLess(hit.name, n))
    ensures forall labels: nat | n !in z.nsExact && WildcardOver(z, n, labels) ::
              || hit.name in z.nsExact
              || (&& WildcardOver(z, hit.name, hit.labels) && labels <= hit.labels
                  && hit.rule == z.nsWildcards[hit.name[|hit.name| - hit.labels..]])
  {
    BestNameOutranksAll(z, names);
    NameLessIsStrictTotalOrder(hit.name, n, hit.name);
    var other := NameMatch(z, n);
    if n !in z.nsExact {
      forall labels: nat | WildcardOver(z, n, labels)
        ensures other.Some? && !other.value.exact && labels <= other.value.labels
      {
        var i := |n| - labels;
        assert Eligible(z.nsWildcards, n, i, true);
      }
    }
    if hit.name !in z.nsExact {
      var i := Closest(z.nsWildcards, hit.name, 0, true);
      assert Eligible(z.nsWildcards, hit.name, i, true) && i > 0;
      assert hit.labels == |hit.name| - i;
    }
  }

  // ---------- the triggers of one zone ----------

  /**
    The client's address comes first, then the name asked for, the addresses answered, the
    nameservers' names and their addresses.  A client or name rule without an action is
    passed over; a later one without an action ends the matter undecided.
   */
  lemma TriggersInOrder(z: Zone, name: Labels, client: Option<Ip>, msg: seq<Record>, ns: Nameservers)
    ensures var r := OnEverything(z, name, client, msg, Some(ns));
      && (!z.enabled ==> r.None?)
      && (Acts(CheckClient(z, client)) ==> r == CheckClient(z, client))
      && (!Acts(CheckClient(z, client)) && Acts(CheckName(z, name)) ==> r == CheckName(z, name))
      && (z.enabled && !Acts(CheckClient(z, client)) && !Acts(CheckName(z, name)) ==>
            var later := if Chosen(z.response, msg).Some? then Chosen(z.response, msg)
                         else if BestName(z, ns.names).Some? then Some(BestName(z, ns.names).value.rule)
                         else Chosen(z.nameserver, RecordsOf(ns.addresses));
            r == if Acts(later) then later else None)
      && (r.Some? ==> r.value.action != NoAction)
  {
  }

  /** What a zone may have to wait for: nameserver data if it has such triggers, the response for any later trigger. */
  lemma WaitsFor(z: Zone)
    ensures NeedsNameservers(z) <==>
              z.enabled && (|z.nsExact| > 0 || |z.nsWildcards| > 0 || |z.nameserver| > 0)
    ensures DependsOnResponse(z) <==>
              z.enabled && (|z.response| > 0 || |z.nsExact| > 0 || |z.nsWildcards| > 0 || |z.nameserver| > 0)
  {
    assert |z.nsExact| == 0 <==> z.nsExact == map[];
    assert |z.nsWildcards| == 0 <==> z.nsWildcards == map[];
  }

  /** A client rule is the longest match over the client's address. */
  lemma ClientRuleIs(z: Zone, client: Ip, rule: Rule)
    requires z.enabled
    ensures CheckClient(z, Some(client)) == Some(rule) <==>
              exists hit :: IsLongestMatch(z.client, Unmap(client), hit) && hit.rule == rule
  {
    ScanIsLongestMatch(z.client, Unmap(client));
  }
}
