/** Policy zones as the server holds them: rules are added in place, checks walk the tables. */
module RpzZones {
  import opened Wrappers
  import opened CanonicalNames
  import opened RpzPrefixes
  import opened RpzAnswers
  import opened RpzPolicy

  lemma NoPrefixesNoHistory(h: seq<Insertion>)
    ensures |Prefixes(h)| == 0 <==> h == []
  {
    if h != [] {
      assert h[0] in h;
      assert h[0].prefix in Prefixes(h);
    }
  }

  lemma KeyCount(m: map<Labels, Rule>, name: Labels, rule: Rule)
    ensures |m[name := rule]| == |m| + if name in m then 0 else 1
  {
    assert m[name := rule].Keys == m.Keys + {name};
    assert |m[name := rule].Keys| == |m[name := rule]| && |m.Keys| == |m|;
  }

  class PolicyZone {
    var enabled: bool
    var rules: map<Labels, Rule>
    var wildcards: map<Labels, Rule>
    var regex: seq<Pattern>
    var nsDNameRules: map<Labels, Rule>
    var nsDNameWildcards: map<Labels, Rule>
    var nsDNameRuleCount: nat
    const client: PrefixTables
    const response: PrefixTables
    const nsIP: PrefixTables

    ghost function Repr(): set<object> {
      {this, client, response, nsIP} + {client.v4, client.v6, response.v4, response.v6, nsIP.v4, nsIP.v6}
    }

    ghost predicate Valid()
      reads Repr()
    {
      && client != response && client != nsIP && response != nsIP
      && {client.v4, client.v6} !! {response.v4, response.v6}
      && {client.v4, client.v6} !! {nsIP.v4, nsIP.v6}
      && {response.v4, response.v6} !! {nsIP.v4, nsIP.v6}
      && client.Valid() && response.Valid() && nsIP.Valid()
      && nsDNameRuleCount == |nsDNameRules| + |nsDNameWildcards|
    }

    ghost function View(): Zone
      reads Repr()
    {
      Zone(enabled, rules, wildcards, regex, nsDNameRules, nsDNameWildcards,
           client.history, response.history, nsIP.history)
    }

    constructor ()
      ensures Valid() && fresh(Repr())
      ensures View() == Zone(true, map[], map[], [], map[], map[], [], [], [])
    {
      enabled, rules, wildcards, regex := true, map[], map[], [];
      nsDNameRules, nsDNameWildcards, nsDNameRuleCount := map[], map[], 0;
      client := new PrefixTables();
      response := new PrefixTables();
      nsIP := new PrefixTables();
    }

    method SetEnabled(on: bool)
      requires Valid()
      modifies this
      ensures Valid() && View() == old(View()).(enabled := on)
    {
      enabled := on;
    }

    method AddRule(trigger: Labels, rule: Rule, wildcard: bool)
      requires Valid()
      modifies this
      ensures Valid()
      ensures View() == if wildcard then old(View()).(wildcards := old(wildcards)[trigger := rule])
                        else old(View()).(exact := old(rules)[trigger := rule])
    {
      if wildcard {
        wildcards := wildcards[trigger := rule];
        return;
      }
      rules := rules[trigger := rule];
    }

    method AddPattern(pattern: Pattern)
      requires Valid()
      modifies this
      ensures Valid() && View() == old(View()).(patterns := old(regex) + [pattern])
    {
      regex := regex + [pattern];
    }

    method AddNSDNameRule(trigger: Labels, rule: Rule, wildcard: bool)
      requires Valid()
      modifies this
      ensures Valid()
      ensures View() == if wildcard then old(View()).(nsWildcards := old(nsDNameWildcards)[trigger := rule])
                        else old(View()).(nsExact := old(nsDNameRules)[trigger := rule])
    {
      KeyCount(nsDNameWildcards, trigger, rule);
      KeyCount(nsDNameRules, trigger, rule);
      var table := if wildcard then nsDNameWildcards else nsDNameRules;
      if trigger !in table {
        nsDNameRuleCount := nsDNameRuleCount + 1;
      }
      if wildcard {
        nsDNameWildcards := table[trigger := rule];
      } else {
        nsDNameRules := table[trigger := rule];
      }
    }

    method AddClientIPRule(a: Ip, bits: int, rule: Rule) returns (ok: bool)
      requires Valid()
      modifies client, client.v4, client.v6
      ensures Valid() && (ok <==> 1 <= bits <= |a.bits|)
      ensures View() == if ok
        then old(View()).(client := old(client.history) + [Insertion(Prefix(a.v4, a.bits[..bits]), rule)])
        else old(View())
    {
      ok := client.Add(a, bits, rule);
    }

    method AddResponseIPRule(a: Ip, bits: int, rule: Rule) returns (ok: bool)
      requires Valid()
      modifies response, response.v4, response.v6
      ensures Valid() && (ok <==> 1 <= bits <= |a.bits|)
      ensures View() == if ok
        then old(View()).(response := old(response.history) + [Insertion(Prefix(a.v4, a.bits[..bits]), rule)])
        else old(View())
    {
      ok := response.Add(a, bits, rule);
    }

    method AddNSIPRule(a: Ip, bits: int, rule: Rule) returns (ok: bool)
      requires Valid()
      modifies nsIP, nsIP.v4, nsIP.v6
      ensures Valid() && (ok <==> 1 <= bits <= |a.bits|)
      ensures View() == if ok
        then old(View()).(nameserver := old(nsIP.history) + [Insertion(Prefix(a.v4, a.bits[..bits]), rule)])
        else old(View())
    {
      ok := nsIP.Add(a, bits, rule);
    }

    method CheckName(name: Labels) returns (rule: Option<Rule>)
      requires Valid()
      ensures rule == RpzPolicy.CheckName(View(), name)
    {
      if !enabled {
        return None;
      }
      if name in rules {
        return Some(rules[name]);
      }
      var i := 0;
      while i < |name|
        invariant 0 <= i <= |name|
        invariant Closest(wildcards, name, 0, false) == Closest(wildcards, name, i, false)
      {
        var wildcard := name[i..];
        if wildcard in wildcards {
          if !(wildcards[wildcard].descendantsOnly && i == 0) {
            assert name[0..] == name;
            return Some(wildcards[wildcard]);
          }
        }
        i := i + 1;
      }
      i := 0;
      while i < |regex|
        invariant 0 <= i <= |regex|
        invariant FirstPattern(regex, name) == FirstPattern(regex[i..], name)
      {
        if regex[i].matches(name) {
          return Some(regex[i].rule);
        }
        i := i + 1;
      }
      return None;
    }

    method CheckClientIP(address: Option<Ip>) returns (rule: Option<Rule>)
      requires Valid()
      ensures rule == CheckClient(View(), address)
    {
      NoPrefixesNoHistory(client.history);
      if address.None? || !enabled || client.rules == 0 {
        return None;
      }
      var hit := client.Match(Unmap(address.value));
      return RuleOf(hit);
    }

    method MatchResponseIP(msg: seq<Record>) returns (best: Option<Rule>)
      requires Valid()
      ensures best == Chosen(View().response, msg)
    {
      NoPrefixesNoHistory(response.history);
      if response.rules == 0 {
        NoRulesNoHits(msg);
        return None;
      }
      best := BestRule(response, msg);
    }

    method MatchName(name: Labels) returns (hit: Option<NameHit>)
      requires Valid()
      ensures hit == NameMatch(View(), name)
    {
      if name in nsDNameRules {
        return Some(NameHit(nsDNameRules[name], true, |name|, name));
      }
      var i := 0;
      while i < |name|
        invariant 0 <= i <= |name|
        invariant Closest(nsDNameWildcards, name, 0, true) == Closest(nsDNameWildcards, name, i, true)
      {
        var suffix := name[i..];
        if suffix in nsDNameWildcards && suffix != name {
          return Some(NameHit(nsDNameWildcards[suffix], false, |suffix|, name));
        }
        i := i + 1;
      }
      return None;
    }

    method MatchNSDName(names: seq<Labels>) returns (best: Option<Rule>)
      requires Valid()
      ensures var b := BestName(View(), names); best == if b.Some? then Some(b.value.rule) else None
    {
      if nsDNameRuleCount == 0 {
        assert |nsDNameRules| == 0 && |nsDNameWildcards| == 0;
        NoNamesNoHits(View(), names);
        return None;
      }
      var bestHit: Option<NameHit> := None;
      for i := 0 to |names|
        invariant bestHit == BestName(View(), names[..i])
      {
        assert names[..i + 1][..i] == names[..i];
        var hit := MatchName(names[i]);
        if hit.Some? {
          var precedes := false;
          if bestHit.Some? {
            precedes := RpzCanonicalNameLess(bestHit.value.name, hit.value.name);
          }
          if bestHit.None?
            || (hit.value.exact && !bestHit.value.exact)
            || (hit.value.exact == bestHit.value.exact && hit.value.labels > bestHit.value.labels)
            || (hit.value.exact == bestHit.value.exact && hit.value.labels == bestHit.value.labels && precedes) {
            bestHit := hit;
          }
        }
      }
      assert names[..|names|] == names;
      return if bestHit.Some? then Some(bestHit.value.rule) else None;
    }

    method MatchNSIP(addresses: seq<Option<Ip>>) returns (best: Option<Rule>)
      requires Valid()
      ensures best == Chosen(View().nameserver, RecordsOf(addresses))
    {
      NoPrefixesNoHistory(nsIP.history);
      if nsIP.rules == 0 {
        NoRulesNoHits(RecordsOf(addresses));
        return None;
      }
      var records: seq<Record> := [];
      for i := 0 to |addresses|
        invariant records == RecordsOf(addresses[..i])
      {
        assert addresses[..i + 1][..i] == addresses[..i];
        if addresses[i].None? {
          continue;
        }
        records := records + [RecordOf(Unmap(addresses[i].value))];
      }
      assert addresses[..|addresses|] == addresses;
      best := BestRule(nsIP, records);
    }

    method CheckResponseWithNameservers(name: Labels, msg: seq<Record>, nameservers: Option<Nameservers>)
      returns (rule: Option<Rule>)
      requires Valid()
      ensures rule == CheckResponse(View(), name, msg, nameservers)
    {
      rule := CheckName(name);
      if Acts(rule) {
        return;
      }
      if !enabled {
        return None;
      }
      rule := MatchResponseIP(msg);
      if rule.Some? || nameservers.None? {
        return;
      }
      rule := MatchNSDName(nameservers.value.names);
      if rule.Some? {
        return;
      }
      rule := MatchNSIP(nameservers.value.addresses);
    }

    /** The triggers decided by the request alone. */
    method MatchRequest(name: Labels, address: Option<Ip>) returns (rule: Option<Rule>)
      requires Valid()
      ensures rule == OnRequest(View(), name, address)
    {
      rule := CheckClientIP(address);
      if Acts(rule) {
        return;
      }
      rule := CheckName(name);
      if !Acts(rule) {
        return None;
      }
    }

    /** All triggers, client address first. */
    method MatchEverything(name: Labels, address: Option<Ip>, msg: seq<Record>, nameservers: Option<Nameservers>)
      returns (rule: Option<Rule>)
      requires Valid()
      ensures rule == OnEverything(View(), name, address, msg, nameservers)
    {
      rule := CheckClientIP(address);
      if Acts(rule) {
        return;
      }
      rule := CheckResponseWithNameservers(name, msg, nameservers);
      if !Acts(rule) {
        return None;
      }
    }

    method NameserverRequirements() returns (names: bool, addresses: bool)
      requires Valid()
      ensures names || addresses <==> NeedsNameservers(View())
      ensures addresses <==> enabled && nsIP.history != []
      ensures names <==> enabled && (nsDNameRules != map[] || nsDNameWildcards != map[])
    {
      NoPrefixesNoHistory(nsIP.history);
      assert |nsDNameRules| == 0 <==> nsDNameRules == map[];
      assert |nsDNameWildcards| == 0 <==> nsDNameWildcards == map[];
      return enabled && nsDNameRuleCount != 0, enabled && nsIP.rules != 0;
    }

    method HasResponseDependentRules() returns (dependent: bool)
      requires Valid()
      ensures dependent <==> DependsOnResponse(View())
    {
      NoPrefixesNoHistory(response.history);
      var names, addresses := NameserverRequirements();
      return (enabled && response.rules != 0) || names || addresses;
    }
  }

  ghost function Views(zones: seq<PolicyZone>, repr: set<object>): (v: seq<Zone>)
    requires forall z | z in zones :: z.Repr() <= repr
    reads repr
    ensures |v| == |zones| && forall i | 0 <= i < |zones| :: v[i] == zones[i].View()
  {
    if zones == [] then [] else Views(zones[..|zones| - 1], repr) + [zones[|zones| - 1].View()]
  }

  ghost predicate AllValid(zones: seq<PolicyZone>, repr: set<object>)
    reads repr
  {
    forall z | z in zones :: z.Repr() <= repr && z.Valid()
  }

  lemma OneMoreZone(zones: seq<PolicyZone>, z: PolicyZone, repr: set<object>)
    requires AllValid(zones, repr) && z.Valid()
    ensures AllValid(zones + [z], repr + z.Repr())
    ensures Views(zones + [z], repr + z.Repr()) == Views(zones, repr) + [z.View()]
  {
    assert (zones + [z])[..|zones|] == zones;
  }

  class PolicyAggregate {
    var zones: seq<PolicyZone>
    ghost var repr: set<object>

    ghost predicate Valid()
      reads this, repr
    {
      this !in repr && AllValid(zones, repr)
    }

    ghost function View(): (v: seq<Zone>)
      requires Valid()
      reads this, repr
      ensures |v| == |zones| && forall i | 0 <= i < |zones| :: v[i] == zones[i].View()
    {
      Views(zones, repr)
    }

    constructor ()
      ensures Valid() && View() == []
    {
      zones, repr := [], {};
    }

    method AddZone(z: PolicyZone)
      requires Valid() && z.Valid() && this !in z.Repr()
      modifies this
      ensures Valid() && View() == old(View()) + [z.View()]
    {
      OneMoreZone(zones, z, repr);
      zones, repr := zones + [z], repr + z.Repr();
    }

    method RequestTriggers(i: nat, ghost all: seq<Zone>, name: Labels, client: Option<Ip>)
      returns (rule: Option<Rule>, dependent: bool)
      requires Valid() && all == View() && i < |zones|
      ensures rule == OnRequest(all[i], name, client)
      ensures rule.None? ==> dependent == DependsOnResponse(all[i])
    {
      dependent := false;
      rule := zones[i].MatchRequest(name, client);
      if rule.None? {
        dependent := zones[i].HasResponseDependentRules();
      }
    }

    method ResponseTriggers(i: nat, ghost all: seq<Zone>, name: Labels, client: Option<Ip>, msg: seq<Record>)
      returns (rule: Option<Rule>, needsNameservers: bool)
      requires Valid() && all == View() && i < |zones|
      ensures rule == var request := OnRequest(all[i], name, client);
                      if request.Some? then request else Chosen(all[i].response, msg)
      ensures rule.None? ==> needsNameservers == NeedsNameservers(all[i])
    {
      needsNameservers := false;
      rule := zones[i].MatchRequest(name, client);
      if rule.None? {
        rule := zones[i].MatchResponseIP(msg);
        var names, addresses := zones[i].NameserverRequirements();
        needsNameservers := names || addresses;
      }
    }

    method AllTriggers(i: nat, ghost all: seq<Zone>, name: Labels, client: Option<Ip>, msg: seq<Record>,
                       nameservers: Option<Nameservers>)
      returns (rule: Option<Rule>)
      requires Valid() && all == View() && i < |zones|
      ensures rule == OnEverything(all[i], name, client, msg, nameservers)
    {
      rule := zones[i].MatchEverything(name, client, msg, nameservers);
    }

    method CheckRequestShortcut(name: Labels, client: Option<Ip>) returns (v: Verdict)
      requires Valid()
      ensures v == RequestStage(View(), 0, false, name, client)
    {
      ghost var all := View();
      var priorResponseRules := false;
      for i := 0 to |zones|
        invariant RequestStage(all, 0, false, name, client) == RequestStage(all, i, priorResponseRules, name, client)
      {
        var rule, dependent := RequestTriggers(i, all, name, client);
        if rule.Some? {
          return if priorResponseRules then Undecided else Decided(Some(Hit(i, rule.value)));
        }
        if dependent {
          priorResponseRules := true;
        }
      }
      return if priorResponseRules then Undecided else Decided(None);
    }

    method CheckRequestResponseShortcut(name: Labels, client: Option<Ip>, msg: seq<Record>) returns (v: Verdict)
      requires Valid()
      ensures v == ResponseStage(View(), 0, name, client, msg)
    {
      ghost var all := View();
      for i := 0 to |zones|
        invariant ResponseStage(all, 0, name, client, msg) == ResponseStage(all, i, name, client, msg)
      {
        var rule, needsNameservers := ResponseTriggers(i, all, name, client, msg);
        if rule.Some? {
          return Decided(Some(Hit(i, rule.value)));
        }
        if needsNameservers {
          return Undecided;
        }
      }
      return Decided(None);
    }

    method CheckRequestResponseWithNameservers(name: Labels, client: Option<Ip>, msg: seq<Record>,
                                               nameservers: Option<Nameservers>)
      returns (hit: Option<Hit>)
      requires Valid()
      ensures hit == Full(View(), 0, name, client, msg, nameservers)
    {
      ghost var all := View();
      for i := 0 to |zones|
        invariant Full(all, 0, name, client, msg, nameservers) == Full(all, i, name, client, msg, nameservers)
      {
        var rule := AllTriggers(i, all, name, client, msg, nameservers);
        if rule.Some? {
          return Some(Hit(i, rule.value));
        }
      }
      return None;
    }

    /** The recursive path of the server: each later stage only when the earlier one could not decide. */
    method Answer(name: Labels, client: Option<Ip>, msg: seq<Record>, nameservers: Option<Nameservers>)
      returns (hit: Option<Hit>)
      requires Valid()
      ensures hit == Staged(View(), name, client, msg, nameservers)
      ensures AllActive(View()) ==> hit == Full(View(), 0, name, client, msg, nameservers)
    {
      ghost var all := View();
      if AllActive(all) {
        StagedIsFull(all, name, client, msg, nameservers);
      }
      var v := CheckRequestShortcut(name, client);
      if v.Decided? {
        return v.hit;
      }
      v := CheckRequestResponseShortcut(name, client, msg);
      if v.Decided? {
        return v.hit;
      }
      hit := CheckRequestResponseWithNameservers(name, client, msg, nameservers);
    }
  }
}
