/**
  What policy zones mean, and why the two cheap evaluation stages may be trusted:
  whatever they decide is what the full evaluation decides.  The labels of names are
  in presentation format here, which is how the policy engine compares them.
 */
module RpzPolicy {
  import opened Wrappers
  import opened ByteOrder
  import opened CanonicalNames
  import opened RpzPrefixes
  import opened RpzAnswers

  /** A regular expression, known only by the names it matches. */
  datatype Pattern = Pattern(matches: Labels -> bool, rule: Rule)

  /** Everything a zone was given; address triggers as the list of their insertions. */
  datatype Zone = Zone(
    enabled: bool,
    exact: map<Labels, Rule>,
    wildcards: map<Labels, Rule>,
    patterns: seq<Pattern>,
    nsExact: map<Labels, Rule>,
    nsWildcards: map<Labels, Rule>,
    client: seq<Insertion>,
    response: seq<Insertion>,
    nameserver: seq<Insertion>)

  type Ip = a: Address | IsAddress(a) witness Address(true, Zeros(32))

  /** The nameserver data path of an answer; an address may be absent. */
  datatype Nameservers = Nameservers(names: seq<Labels>, addresses: seq<Option<Ip>>)

  // ---------- names ----------

  /** Suffix i of a name has a wildcard that applies: never to the name itself if strict. */
  predicate Eligible(wildcards: map<Labels, Rule>, name: Labels, i: nat, strict: bool)
    requires i < |name|
  {
    name[i..] in wildcards && (i > 0 || (!strict && !wildcards[name[0..]].descendantsOnly))
  }

  /** The walk up the label tree: the first eligible suffix from i on. */
  function Closest(wildcards: map<Labels, Rule>, name: Labels, i: nat, strict: bool): (k: nat)
    requires i <= |name|
    ensures i <= k <= |name|
    ensures k < |name| ==> Eligible(wildcards, name, k, strict)
    ensures forall j | i <= j < k :: !Eligible(wildcards, name, j, strict)
    decreases |name| - i
  {
    if i == |name| || Eligible(wildcards, name, i, strict) then i
    else Closest(wildcards, name, i + 1, strict)
  }

  function FirstPattern(patterns: seq<Pattern>, name: Labels): Option<Rule> {
    if patterns == [] then None
    else if patterns[0].matches(name) then Some(patterns[0].rule)
    else FirstPattern(patterns[1..], name)
  }

  function CheckName(z: Zone, name: Labels): Option<Rule> {
    if !z.enabled then None
    else if name in z.exact then Some(z.exact[name])
    else
      var i := Closest(z.wildcards, name, 0, false);
      if i < |name| then Some(z.wildcards[name[i..]]) else FirstPattern(z.patterns, name)
  }

  ghost predicate IsFirstPattern(patterns: seq<Pattern>, name: Labels, k: nat) {
    && k < |patterns|
    && patterns[k].matches(name)
    && forall j | 0 <= j < k :: !patterns[j].matches(name)
  }

  lemma {:induction false} FirstPatternIsFirst(patterns: seq<Pattern>, name: Labels, rule: Rule)
    ensures FirstPattern(patterns, name) == Some(rule) <==>
            exists k: nat :: IsFirstPattern(patterns, name, k) && patterns[k].rule == rule
  {
    if patterns != [] {
      var rest := patterns[1..];
      FirstPatternIsFirst(rest, name, rule);
      if patterns[0].matches(name) {
        assert IsFirstPattern(patterns, name, 0);
      } else {
        forall k: nat | k < |rest| ensures IsFirstPattern(patterns, name, k + 1) <==> IsFirstPattern(rest, name, k) {
          assert forall j | 0 <= j < k :: rest[j] == patterns[j + 1];
        }
        if FirstPattern(rest, name) == Some(rule) {
          var k: nat :| IsFirstPattern(rest, name, k) && rest[k].rule == rule;
          assert IsFirstPattern(patterns, name, k + 1);
        }
      }
    }
  }

  /** A wildcard covers the name from its i-th label on; covering the whole name may be ruled out. */
  ghost predicate Covers(z: Zone, name: Labels, i: nat) {
    && i < |name| && name[i..] in z.wildcards
    && (i == 0 ==> !z.wildcards[name[i..]].descendantsOnly)
  }

  /** An exact rule, else the wildcard of the longest suffix it may apply to, else the first pattern. */
  lemma NamePrecedence(z: Zone, name: Labels, rule: Rule)
    requires z.enabled
    ensures CheckName(z, name) == Some(rule) <==>
            if name in z.exact then z.exact[name] == rule
            else if exists i: nat :: Covers(z, name, i) then
              exists i: nat :: Covers(z, name, i) && z.wildcards[name[i..]] == rule
                && forall j: nat | Covers(z, name, j) :: |name[j..]| <= |name[i..]|
            else exists k: nat :: IsFirstPattern(z.patterns, name, k) && z.patterns[k].rule == rule
  {
    FirstPatternIsFirst(z.patterns, name, rule);
    var i := Closest(z.wildcards, name, 0, false);
    assert name[0..] == name;
    forall j: nat ensures Covers(z, name, j) <==> j < |name| && Eligible(z.wildcards, name, j, false) {
    }
  }

  // ---------- nameserver names ----------

  datatype NameHit = NameHit(rule: Rule, exact: bool, labels: nat, name: Labels)

  function NameMatch(z: Zone, name: Labels): (hit: Option<NameHit>)
    ensures hit.Some? ==> hit.value.name == name
  {
    if name in z.nsExact then Some(NameHit(z.nsExact[name], true, |name|, name))
    else
      var i := Closest(z.nsWildcards, name, 0, true);
      if i < |name| then Some(NameHit(z.nsWildcards[name[i..]], false, |name| - i, name)) else None
  }

  /** Exact before wildcard, then more labels, then the name that comes last. */
  predicate Outranks(a: NameHit, b: NameHit) {
    || (a.exact && !b.exact)
    || (a.exact == b.exact && a.labels > b.labels)
    || (a.exact == b.exact && a.labels == b.labels && NameLess(b.name, a.name))
  }

  function BestName(z: Zone, names: seq<Labels>): Option<NameHit> {
    if names == [] then None
    else
      var before, hit := BestName(z, names[..|names| - 1]), NameMatch(z, names[|names| - 1]);
      if hit.Some? && (before.None? || Outranks(hit.value, before.value)) then hit else before
  }

  /** A hit of one of the names that outranks every other one. */
  ghost predicate IsBestName(z: Zone, names: seq<Labels>, hit: NameHit) {
    && hit.name in names
    && NameMatch(z, hit.name) == Some(hit)
    && forall n | n in names && NameMatch(z, n).Some? ::
         var other := NameMatch(z, n).value; other == hit || Outranks(hit, other)
  }

  lemma OutranksIsStrictOrder(a: NameHit, b: NameHit, c: NameHit)
    ensures !Outranks(a, a)
    ensures Outranks(a, b) && Outranks(b, c) ==> Outranks(a, c)
    ensures a.name != b.name ==> Outranks(a, b) || Outranks(b, a)
    ensures !(Outranks(a, b) && Outranks(b, a))
  {
    NameLessIsStrictTotalOrder(a.name, b.name, a.name);
    NameLessIsStrictTotalOrder(c.name, b.name, a.name);
  }

  lemma {:induction false} BestNameOutranksAll(z: Zone, names: seq<Labels>)
    ensures BestName(z, names).None? ==> forall n | n in names :: NameMatch(z, n).None?
    ensures BestName(z, names).Some? ==> IsBestName(z, names, BestName(z, names).value)
  {
    if names != [] {
      var last, front := names[|names| - 1], names[..|names| - 1];
      BestNameOutranksAll(z, front);
      assert names == front + [last];
      var before, hit := BestName(z, front), NameMatch(z, last);
      if before.Some? && hit.Some? {
        OutranksIsStrictOrder(hit.value, before.value, hit.value);
        forall n | n in front && NameMatch(z, n).Some? {
          OutranksIsStrictOrder(hit.value, before.value, NameMatch(z, n).value);
        }
      }
    }
  }

  /** The nameserver rule depends only on which names there are, never on their order. */
  lemma NameserverNamesIgnoreOrder(z: Zone, names: seq<Labels>, others: seq<Labels>)
    requires Elements(names) == Elements(others)
    ensures BestName(z, names) == BestName(z, others)
  {
    assert forall n :: n in names <==> n in Elements(names);
    assert forall n :: n in others <==> n in Elements(others);
    BestNameOutranksAll(z, names);
    BestNameOutranksAll(z, others);
    var a, b := BestName(z, names), BestName(z, others);
    if a.Some? && b.Some? {
      OutranksIsStrictOrder(a.value, b.value, a.value);
    }
  }

  /** Nameserver addresses as the records they are matched as. */
  function RecordsOf(addresses: seq<Option<Ip>>): (r: seq<Record>) {
    if addresses == [] then []
    else
      var last := addresses[|addresses| - 1];
      RecordsOf(addresses[..|addresses| - 1]) + if last.None? then [] else [RecordOf(Unmap(last.value))]
  }

  function RecordOf(a: Address): Record {
    if a.v4 then A(a.bits) else AAAA(a.bits)
  }

  // ---------- one zone ----------

  /** A rule that settles the matter: one whose action is not the empty action. */
  predicate Acts(rule: Option<Rule>) {
    rule.Some? && rule.value.action != NoAction
  }

  function CheckClient(z: Zone, client: Option<Ip>): Option<Rule> {
    if client.None? || !z.enabled then None else RuleOf(Scan(z.client, Unmap(client.value)))
  }

  function NameserverRule(z: Zone, ns: Nameservers): Option<Rule> {
    var best := BestName(z, ns.names);
    if best.Some? then Some(best.value.rule) else Chosen(z.nameserver, RecordsOf(ns.addresses))
  }

  function CheckResponse(z: Zone, name: Labels, msg: seq<Record>, ns: Option<Nameservers>): Option<Rule> {
    if Acts(CheckName(z, name)) then CheckName(z, name)
    else if !z.enabled then None
    else if Chosen(z.response, msg).Some? then Chosen(z.response, msg)
    else if ns.None? then None
    else NameserverRule(z, ns.value)
  }

  /** What a zone decides from the request alone. */
  function OnRequest(z: Zone, name: Labels, client: Option<Ip>): Option<Rule> {
    if Acts(CheckClient(z, client)) then CheckClient(z, client)
    else if Acts(CheckName(z, name)) then CheckName(z, name)
    else None
  }

  /** What a zone decides with everything known. */
  function OnEverything(z: Zone, name: Labels, client: Option<Ip>, msg: seq<Record>, ns: Option<Nameservers>)
    : Option<Rule>
  {
    if Acts(CheckClient(z, client)) then CheckClient(z, client)
    else if Acts(CheckResponse(z, name, msg, ns)) then CheckResponse(z, name, msg, ns)
    else None
  }

  predicate NeedsNameservers(z: Zone) {
    z.enabled && (z.nsExact != map[] || z.nsWildcards != map[] || z.nameserver != [])
  }

  predicate DependsOnResponse(z: Zone) {
    (z.enabled && z.response != []) || NeedsNameservers(z)
  }

  // ---------- all zones, highest precedence first ----------

  /** A rule together with the zone that supplied it. */
  datatype Hit = Hit(zone: nat, rule: Rule)

  datatype Verdict = Decided(hit: Option<Hit>) | Undecided

  function Full(zones: seq<Zone>, i: nat, name: Labels, client: Option<Ip>, msg: seq<Record>, ns: Option<Nameservers>)
    : Option<Hit>
    requires i <= |zones|
    decreases |zones| - i
  {
    if i == |zones| then None
    else
      var rule := OnEverything(zones[i], name, client, msg, ns);
      if rule.Some? then Some(Hit(i, rule.value)) else Full(zones, i + 1, name, client, msg, ns)
  }

  function RequestStage(zones: seq<Zone>, i: nat, prior: bool, name: Labels, client: Option<Ip>): Verdict
    requires i <= |zones|
    decreases |zones| - i
  {
    if i == |zones| then (if prior then Undecided else Decided(None))
    else
      var rule := OnRequest(zones[i], name, client);
      if rule.Some? then (if prior then Undecided else Decided(Some(Hit(i, rule.value))))
      else RequestStage(zones, i + 1, prior || DependsOnResponse(zones[i]), name, client)
  }

  function ResponseStage(zones: seq<Zone>, i: nat, name: Labels, client: Option<Ip>, msg: seq<Record>): Verdict
    requires i <= |zones|
    decreases |zones| - i
  {
    if i == |zones| then Decided(None)
    else
      var rule := OnRequest(zones[i], name, client);
      if rule.Some? then Decided(Some(Hit(i, rule.value)))
      else if Chosen(zones[i].response, msg).Some? then Decided(Some(Hit(i, Chosen(zones[i].response, msg).value)))
      else if NeedsNameservers(zones[i]) then Undecided
      else ResponseStage(zones, i + 1, name, client, msg)
  }

  /** The server's three stages: request, then response, then everything. */
  function Staged(zones: seq<Zone>, name: Labels, client: Option<Ip>, msg: seq<Record>, ns: Option<Nameservers>)
    : Option<Hit>
  {
    match RequestStage(zones, 0, false, name, client)
    case Decided(hit) => hit
    case Undecided =>
      match ResponseStage(zones, 0, name, client, msg)
      case Decided(hit) => hit
      case Undecided => Full(zones, 0, name, client, msg, ns)
  }

  // ---------- zone precedence ----------

  /** The full evaluation answers with the first zone that decides anything. */
  lemma {:induction false} FullIsFirstZone(zones: seq<Zone>, i: nat, name: Labels, client: Option<Ip>,
                                           msg: seq<Record>, ns: Option<Nameservers>, hit: Hit)
    requires i <= |zones|
    ensures Full(zones, i, name, client, msg, ns) == Some(hit) <==>
            && i <= hit.zone < |zones|
            && OnEverything(zones[hit.zone], name, client, msg, ns) == Some(hit.rule)
            && forall j | i <= j < hit.zone :: OnEverything(zones[j], name, client, msg, ns).None?
    decreases |zones| - i
  {
    if i < |zones| && OnEverything(zones[i], name, client, msg, ns).None? {
      FullIsFirstZone(zones, i + 1, name, client, msg, ns, hit);
    }
  }

  // ---------- a zone without the triggers cannot use the data ----------

  lemma {:induction false} NoRulesNoHits(records: seq<Record>)
    ensures Chosen([], records) == None
  {
    if records != [] {
      NoRulesNoHits(records[..|records| - 1]);
      assert Hits([], records) == Hits([], records[..|records| - 1]);
    }
  }

  lemma {:induction false} NoNamesNoHits(z: Zone, names: seq<Labels>)
    requires z.nsExact == map[] && z.nsWildcards == map[]
    ensures BestName(z, names) == None
  {
    if names != [] {
      NoNamesNoHits(z, names[..|names| - 1]);
    }
  }

  /** A request-stage match is final for its zone. */
  lemma RequestMatchIsFinal(z: Zone, name: Labels, client: Option<Ip>, msg: seq<Record>, ns: Option<Nameservers>)
    ensures OnRequest(z, name, client).Some? ==>
              OnEverything(z, name, client, msg, ns) == OnRequest(z, name, client)
    ensures OnRequest(z, name, client).Some? ==> z.enabled && Acts(OnRequest(z, name, client))
  {
  }

  /** Without nameserver triggers, a zone with no response match decides from the request. */
  lemma NoDataNeeded(z: Zone, name: Labels, client: Option<Ip>, msg: seq<Record>, ns: Option<Nameservers>)
    requires !NeedsNameservers(z) && (z.enabled ==> Chosen(z.response, msg).None?)
    ensures OnEverything(z, name, client, msg, ns) == OnRequest(z, name, client)
  {
    if z.enabled && ns.Some? {
      NoNamesNoHits(z, ns.value.names);
      NoRulesNoHits(RecordsOf(ns.value.addresses));
    }
  }

  // ---------- the request stage ----------

  /** A decision made from the request alone holds for every response and all nameserver data. */
  lemma {:induction false} RequestDecisionIsFinal(zones: seq<Zone>, i: nat, prior: bool, name: Labels,
                                                  client: Option<Ip>, msg: seq<Record>, ns: Option<Nameservers>)
    requires i <= |zones|
    ensures var v := RequestStage(zones, i, prior, name, client);
            v.Decided? ==> !prior && Full(zones, i, name, client, msg, ns) == v.hit
    decreases |zones| - i
  {
    if i < |zones| {
      var z := zones[i];
      RequestMatchIsFinal(z, name, client, msg, ns);
      if OnRequest(z, name, client).None? {
        RequestDecisionIsFinal(zones, i + 1, prior || DependsOnResponse(z), name, client, msg, ns);
        if !DependsOnResponse(z) {
          NoRulesNoHits(msg);
          NoDataNeeded(z, name, client, msg, ns);
        }
      }
    }
  }

  /** Zone k needs the response, and no zone from i up to it matches the request. */
  ghost predicate AwaitsResponse(zones: seq<Zone>, i: nat, k: nat, name: Labels, client: Option<Ip>)
    requires k < |zones|
  {
    DependsOnResponse(zones[k]) && forall j | i <= j <= k :: OnRequest(zones[j], name, client).None?
  }

  /** The request stage waits exactly when a zone that needs the response precedes every request match. */
  lemma {:induction false} RequestWaitsIff(zones: seq<Zone>, i: nat, prior: bool, name: Labels, client: Option<Ip>)
    requires i <= |zones|
    ensures RequestStage(zones, i, prior, name, client).Undecided? <==>
            prior || exists k | i <= k < |zones| :: AwaitsResponse(zones, i, k, name, client)
    decreases |zones| - i
  {
    if i < |zones| {
      var dependent := DependsOnResponse(zones[i]);
      if OnRequest(zones[i], name, client).None? {
        var next := i + 1;
        RequestWaitsIff(zones, next, prior || dependent, name, client);
        assert dependent <==> AwaitsResponse(zones, i, i, name, client);
        assert forall k | next <= k < |zones| ::
            AwaitsResponse(zones, i, k, name, client) <==> AwaitsResponse(zones, next, k, name, client);
      }
    }
  }

  // ---------- the response stage ----------

  /** A decision that comes from an enabled zone and an acting rule, or from no zone at all. */
  predicate Sound(zones: seq<Zone>, hit: Option<Hit>) {
    hit.Some? ==> hit.value.zone < |zones| && zones[hit.value.zone].enabled && hit.value.rule.action != NoAction
  }

  /**
    A decision of the response stage holds for all nameserver data exactly when it is
    sound: the stage also reports address rules of disabled zones and rules without an
    action, which the full evaluation passes over.
   */
  lemma {:induction false} ResponseDecisionIsFinalIff(zones: seq<Zone>, i: nat, name: Labels, client: Option<Ip>,
                                                      msg: seq<Record>, ns: Option<Nameservers>)
    requires i <= |zones|
    ensures var v := ResponseStage(zones, i, name, client, msg);
            v.Decided? ==>
              && (v.hit.Some? ==> i <= v.hit.value.zone < |zones|)
              && (Full(zones, i, name, client, msg, ns) == v.hit <==> Sound(zones, v.hit))
    decreases |zones| - i
  {
    if i < |zones| {
      var z := zones[i];
      RequestMatchIsFinal(z, name, client, msg, ns);
      if OnRequest(z, name, client).None? {
        if Chosen(z.response, msg).Some? {
          PassedOverIffUnsound(zones, i, name, client, msg, ns);
        } else if !NeedsNameservers(z) {
          PassedOver(zones, i, name, client, msg, ns);
          ResponseDecisionIsFinalIff(zones, i + 1, name, client, msg, ns);
        }
      }
    }
  }

  /** Both evaluations go on past a zone that matches nothing and needs no nameserver data. */
  lemma PassedOver(zones: seq<Zone>, i: nat, name: Labels, client: Option<Ip>,
                   msg: seq<Record>, ns: Option<Nameservers>)
    requires i < |zones| && OnRequest(zones[i], name, client).None?
    requires Chosen(zones[i].response, msg).None? && !NeedsNameservers(zones[i])
    ensures Full(zones, i, name, client, msg, ns) == Full(zones, i + 1, name, client, msg, ns)
    ensures ResponseStage(zones, i, name, client, msg) == ResponseStage(zones, i + 1, name, client, msg)
  {
    NoDataNeeded(zones[i], name, client, msg, ns);
  }

  lemma PassedOverIffUnsound(zones: seq<Zone>, i: nat, name: Labels, client: Option<Ip>,
                             msg: seq<Record>, ns: Option<Nameservers>)
    requires i < |zones| && OnRequest(zones[i], name, client).None? && Chosen(zones[i].response, msg).Some?
    ensures var hit := Some(Hit(i, Chosen(zones[i].response, msg).value));
            Full(zones, i, name, client, msg, ns) == hit <==> Sound(zones, hit)
  {
    var hit := Hit(i, Chosen(zones[i].response, msg).value);
    FullIsFirstZone(zones, i, name, client, msg, ns, hit);
    if !Sound(zones, Some(hit)) {
      assert OnEverything(zones[i], name, client, msg, ns) != Some(hit.rule);
    }
  }

  /** Zones i to k match neither the request nor the response's addresses. */
  ghost predicate Unmatched(zones: seq<Zone>, i: nat, k: nat, name: Labels, client: Option<Ip>, msg: seq<Record>)
    requires k < |zones|
  {
    forall j | i <= j <= k :: OnRequest(zones[j], name, client).None? && Chosen(zones[j].response, msg).None?
  }

  /** The response stage waits exactly when nameserver data is needed before anything else matches. */
  lemma {:induction false} ResponseWaitsIff(zones: seq<Zone>, i: nat, name: Labels, client: Option<Ip>,
                                          msg: seq<Record>)
    requires i <= |zones|
    ensures ResponseStage(zones, i, name, client, msg).Undecided? <==>
            exists k | i <= k < |zones| :: NeedsNameservers(zones[k]) && Unmatched(zones, i, k, name, client, msg)
    decreases |zones| - i
  {
    if i < |zones| && OnRequest(zones[i], name, client).None? && Chosen(zones[i].response, msg).None? {
      if NeedsNameservers(zones[i]) {
        assert Unmatched(zones, i, i, name, client, msg);
      } else {
        ResponseWaitsIff(zones, i + 1, name, client, msg);
        assert forall k | i < k < |zones| ::
            Unmatched(zones, i, k, name, client, msg) <==> Unmatched(zones, i + 1, k, name, client, msg);
      }
    }
  }

  // ---------- the stages together ----------

  /**
    Zone k is the first of those from i on to match, it matches by an address rule that
    the full evaluation passes over, and no zone before it waits for nameserver data.
   */
  ghost predicate Misleads(zones: seq<Zone>, i: nat, k: nat, name: Labels, client: Option<Ip>, msg: seq<Record>)
    requires k < |zones|
  {
    && Chosen(zones[k].response, msg).Some?
    && (!zones[k].enabled || Chosen(zones[k].response, msg).value.action == NoAction)
    && (forall j | i <= j <= k :: OnRequest(zones[j], name, client).None?)
    && forall j | i <= j < k :: Chosen(zones[j].response, msg).None? && !NeedsNameservers(zones[j])
  }

  lemma MisleadsFurtherOn(zones: seq<Zone>, i: nat, next: nat, name: Labels, client: Option<Ip>, msg: seq<Record>)
    requires next == i + 1 <= |zones| && OnRequest(zones[i], name, client).None?
    requires Chosen(zones[i].response, msg).None? && !NeedsNameservers(zones[i])
    ensures (exists k | i <= k < |zones| :: Misleads(zones, i, k, name, client, msg)) <==>
            (exists k | next <= k < |zones| :: Misleads(zones, next, k, name, client, msg))
  {
    forall k | next <= k < |zones|
      ensures Misleads(zones, i, k, name, client, msg) <==> Misleads(zones, next, k, name, client, msg)
    {
    }
  }

  /** The response stage decides unsoundly exactly when some zone misleads it. */
  lemma {:induction false} DecidesUnsoundlyIff(zones: seq<Zone>, i: nat, name: Labels, client: Option<Ip>,
                                               msg: seq<Record>)
    requires i <= |zones|
    ensures var v := ResponseStage(zones, i, name, client, msg);
            v.Decided? && !Sound(zones, v.hit) <==>
            exists k | i <= k < |zones| :: Misleads(zones, i, k, name, client, msg)
    decreases |zones| - i
  {
    if i < |zones| {
      var z := zones[i];
      RequestMatchIsFinal(z, name, client, msg, None);
      if OnRequest(z, name, client).None? {
        assert Misleads(zones, i, i, name, client, msg) <==>
            Chosen(z.response, msg).Some? && !Sound(zones, Some(Hit(i, Chosen(z.response, msg).value)));
        if Chosen(z.response, msg).Some? || NeedsNameservers(z) {
          assert forall k | i < k < |zones| :: !Misleads(zones, i, k, name, client, msg);
        } else {
          DecidesUnsoundlyIff(zones, i + 1, name, client, msg);
          MisleadsFurtherOn(zones, i, i + 1, name, client, msg);
        }
      }
    }
  }

  /** The staged evaluation is the full one, except when a zone awaits the response and a zone misleads that stage. */
  lemma StagedIsFullIff(zones: seq<Zone>, name: Labels, client: Option<Ip>, msg: seq<Record>, ns: Option<Nameservers>)
    ensures Staged(zones, name, client, msg, ns) == Full(zones, 0, name, client, msg, ns) <==>
            || (forall k | 0 <= k < |zones| :: !AwaitsResponse(zones, 0, k, name, client))
            || (forall k | 0 <= k < |zones| :: !Misleads(zones, 0, k, name, client, msg))
  {
    RequestDecisionIsFinal(zones, 0, false, name, client, msg, ns);
    RequestWaitsIff(zones, 0, false, name, client);
    ResponseDecisionIsFinalIff(zones, 0, name, client, msg, ns);
    DecidesUnsoundlyIff(zones, 0, name, client, msg);
  }

  /** A configuration in which no address rule can be reported unsoundly. */
  ghost predicate Active(z: Zone) {
    z.response != [] ==> z.enabled && forall x | x in z.response :: x.rule.action != NoAction
  }

  ghost predicate AllActive(zones: seq<Zone>) {
    forall z | z in zones :: Active(z)
  }

  lemma ChosenComesFromRules(h: seq<Insertion>, records: seq<Record>)
    ensures Chosen(h, records).Some? ==> exists x :: x in h && Some(x.rule) == Chosen(h, records)
  {
    HitsAreHitsOf(h, records);
    if Chosen(h, records).Some? {
      var i := BestIsFirstTop(Hits(h, records));
      var x := Hits(h, records)[i];
      assert x in Hits(h, records);
      var r :| r in records && HitOf(h, r) == Some(x);
      ScanFindsInsertion(h, AddressOf(r).value);
    }
  }

  lemma {:induction false} ScanFindsInsertion(h: seq<Insertion>, a: Address)
    ensures Scan(h, a).Some? ==> Scan(h, a).value in h
  {
    if h != [] {
      ScanFindsInsertion(h[..|h| - 1], a);
    }
  }

  lemma {:induction false} ActiveZonesDecideSoundly(zones: seq<Zone>, i: nat, name: Labels, client: Option<Ip>,
                                                    msg: seq<Record>)
    requires i <= |zones| && AllActive(zones)
    ensures var v := ResponseStage(zones, i, name, client, msg); v.Decided? ==> Sound(zones, v.hit)
    decreases |zones| - i
  {
    if i < |zones| {
      var z := zones[i];
      assert z in zones;
      RequestMatchIsFinal(z, name, client, msg, None);
      ChosenComesFromRules(z.response, msg);
      ActiveZonesDecideSoundly(zones, i + 1, name, client, msg);
    }
  }

  /** With such zones only, the three stages always equal the full evaluation. */
  lemma StagedIsFull(zones: seq<Zone>, name: Labels, client: Option<Ip>, msg: seq<Record>, ns: Option<Nameservers>)
    requires AllActive(zones)
    ensures Staged(zones, name, client, msg, ns) == Full(zones, 0, name, client, msg, ns)
  {
    ActiveZonesDecideSoundly(zones, 0, name, client, msg);
    DecidesUnsoundlyIff(zones, 0, name, client, msg);
    StagedIsFullIff(zones, name, client, msg, ns);
  }

  lemma OneRuleMatches() returns (h: seq<Insertion>, msg: seq<Record>)
    ensures h != [] && Chosen(h, msg).Some?
  {
    var insertion := Insertion(Prefix(true, "1"), Rule("1.in-addr", Drop, "", "", false));
    var address := "1" + Zeros(31);
    h, msg := [insertion], [A(address)];
    assert Scan(h, Address(true, address)) == Some(insertion);
    assert msg[..0] == [];
    assert Hits(h, msg) == [insertion];
    assert Best([insertion]) == Some(insertion) by {
      assert [insertion][..0] == [];
    }
  }

  /** A zone whose only rules are for addresses in responses. */
  function AddressZone(enabled: bool, h: seq<Insertion>): Zone {
    Zone(enabled, map[], map[], [], map[], map[], [], h, [])
  }

  lemma NothingOnRequest(enabled: bool, h: seq<Insertion>)
    ensures OnRequest(AddressZone(enabled, h), [], None) == None
  {
  }

  /** A disabled zone above an enabled one: the response stage answers for the disabled zone. */
  lemma DisabledZoneStillAnswers()
    ensures exists zones: seq<Zone>, name: Labels, msg: seq<Record> ::
              Staged(zones, name, None, msg, None) != Full(zones, 0, name, None, msg, None)
  {
    var h, msg := OneRuleMatches();
    var zones := [AddressZone(false, h), AddressZone(true, h)];
    NothingOnRequest(false, h);
    NothingOnRequest(true, h);
    assert AwaitsResponse(zones, 0, 1, [], None) && Misleads(zones, 0, 0, [], None, msg);
    StagedIsFullIff(zones, [], None, msg, None);
    assert Staged(zones, [], None, msg, None) != Full(zones, 0, [], None, msg, None);
  }
}
