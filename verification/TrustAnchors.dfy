/**
  RFC 5011 trust-anchor maintenance: the state of each key, the pass one
  DNSKEY response makes over them, and what holds over any series of responses.
  Times are in seconds.
 */
module TrustAnchors {
  import opened Wrappers

  /** A key's identity: everything but its REVOKE bit. */
  type KeyId = nat

  const ADD_HOLD_DOWN := 30 * 24 * 3600
  const REMOVE_HOLD_DOWN := 30 * 24 * 3600

  datatype State = Valid | AddPending | Missing | Revoked | Removed

  datatype KeyState = KeyState(
    state: State,
    firstSeen: int,
    stateSince: int,
    holdDown: int,
    validatedBy: set<KeyId>)

  type Keys = map<KeyId, KeyState>

  /** One DNSKEY record of a response.  selfSigned: the RRset carries a good signature by this very key. */
  datatype DnsKey = DnsKey(id: KeyId, revoked: bool, selfSigned: bool, rootSep: bool, disabled: bool, ttl: nat)

  /** signedBy: the identities whose unrevoked key has a good signature over the RRset. */
  datatype Response = Response(records: seq<DnsKey>, signedBy: set<KeyId>)

  predicate Usable(s: KeyState) {
    s.state.Valid? || s.state.Missing?
  }

  function UsableAnchors(keys: Keys): set<KeyId> {
    set id | id in keys && Usable(keys[id])
  }

  function Validators(keys: Keys, r: Response): set<KeyId> {
    UsableAnchors(keys) * r.signedBy
  }

  /** The record that stands for an identity: the last one in the response. */
  function Present(records: seq<DnsKey>): map<KeyId, DnsKey> {
    if records == [] then map[]
    else
      var last := records[|records| - 1];
      Present(records[..|records| - 1])[last.id := last]
  }

  // ---------- revocation ----------

  predicate ProvesRevocation(k: DnsKey, id: KeyId) {
    k.id == id && k.revoked && k.selfSigned
  }

  predicate RevokedBy(keys: Keys, records: seq<DnsKey>, id: KeyId) {
    id in keys && Usable(keys[id]) && exists k :: k in records && ProvesRevocation(k, id)
  }

  function AfterRevocations(keys: Keys, records: seq<DnsKey>, now: int): Keys {
    map id | id in keys ::
      if RevokedBy(keys, records, id) then keys[id].(state := Revoked, stateSince := now) else keys[id]
  }

  // ---------- the pass over known keys ----------

  predicate AnyValidatorRemaining(ids: set<KeyId>, keys: Keys) {
    exists id :: id in ids && id in keys && Usable(keys[id])
  }

  /** What an authenticated response makes of one known key; None forgets it. */
  function Advanced(keys: Keys, id: KeyId, present: map<KeyId, DnsKey>, now: int): Option<KeyState>
    requires id in keys
  {
    var s := keys[id];
    match s.state
    case AddPending =>
      if id !in present || present[id].revoked || !AnyValidatorRemaining(s.validatedBy, keys) then None
      else if now >= s.firstSeen + s.holdDown then Some(s.(state := Valid, stateSince := now, validatedBy := {}))
      else Some(s)
    case Valid =>
      Some(if id !in present then s.(state := Missing, stateSince := now) else s)
    case Missing =>
      Some(if id in present then s.(state := Valid, stateSince := now) else s)
    case Revoked =>
      Some(if id !in present && now >= s.stateSince + REMOVE_HOLD_DOWN then s.(state := Removed, stateSince := now)
           else s)
    case Removed =>
      Some(s)
  }

  /** All known keys advanced at once, from the states they had to begin with. */
  function AdvanceAll(keys: Keys, present: map<KeyId, DnsKey>, now: int): Keys {
    map id | id in keys && Advanced(keys, id, present, now).Some? :: Advanced(keys, id, present, now).value
  }

  /** One turn of the loop, which reads the states earlier turns have already changed. */
  function SweepOne(keys: Keys, id: KeyId, present: map<KeyId, DnsKey>, now: int): Keys
    requires id in keys
  {
    match Advanced(keys, id, present, now)
    case None => keys - {id}
    case Some(s) => keys[id := s]
  }

  function Sweep(keys: Keys, order: seq<KeyId>, present: map<KeyId, DnsKey>, now: int): (r: Keys)
    requires forall i | 0 <= i < |order| :: order[i] in keys
    requires forall i, j | 0 <= i < j < |order| :: order[i] != order[j]
    ensures forall id | id in keys && id !in order :: id in r && r[id] == keys[id]
    ensures r.Keys <= keys.Keys
    decreases |order|
  {
    if order == [] then keys
    else
      var before := Sweep(keys, order[..|order| - 1], present, now);
      SweepOne(before, order[|order| - 1], present, now)
  }

  /** A pending key rests only on validators that are known and not pending themselves. */
  predicate WellFounded(keys: Keys) {
    forall id, v | id in keys && keys[id].state.AddPending? && v in keys[id].validatedBy ::
      v in keys && !keys[v].state.AddPending?
  }

  /** What the state file must satisfy to be read at start-up. */
  predicate Loadable(keys: Keys) {
    forall id | id in keys && keys[id].state.AddPending? ::
      keys[id].holdDown >= ADD_HOLD_DOWN && keys[id].validatedBy != {}
  }

  /** part is a partial sweep of keys: each key is as it was or already advanced. */
  predicate Between(keys: Keys, part: Keys, present: map<KeyId, DnsKey>, now: int) {
    forall id | id in keys ::
      || (id in part && part[id] == keys[id])
      || (if id in part then Advanced(keys, id, present, now) == Some(part[id])
          else Advanced(keys, id, present, now).None?)
  }

  /** Turns already taken cannot change the outcome of a later one. */
  lemma TurnsDoNotInterfere(keys: Keys, part: Keys, id: KeyId, present: map<KeyId, DnsKey>, now: int)
    requires WellFounded(keys) && Between(keys, part, present, now) && part.Keys <= keys.Keys
    requires id in keys && id in part && part[id] == keys[id]
    ensures Advanced(part, id, present, now) == Advanced(keys, id, present, now)
  {
    if keys[id].state.AddPending? {
      forall v | v in keys[id].validatedBy
        ensures v in part && Usable(part[v]) == Usable(keys[v])
      {
        assert v in keys && !keys[v].state.AddPending?;
      }
    }
  }

  lemma TurnTaken(keys: Keys, part: Keys, id: KeyId, present: map<KeyId, DnsKey>, now: int)
    requires WellFounded(keys) && Between(keys, part, present, now) && part.Keys <= keys.Keys
    requires id in keys && id in part && part[id] == keys[id]
    ensures Between(keys, SweepOne(part, id, present, now), present, now)
    ensures OptionAt(SweepOne(part, id, present, now), id) == Advanced(keys, id, present, now)
    ensures forall x | x != id :: OptionAt(SweepOne(part, id, present, now), x) == OptionAt(part, x)
  {
    TurnsDoNotInterfere(keys, part, id, present, now);
  }

  /** Each key ends up as it would have from the initial states, whatever order the keys are ranged in. */
  lemma {:induction false} SweepIsOrderIndependent(keys: Keys, order: seq<KeyId>, present: map<KeyId, DnsKey>, now: int)
    requires WellFounded(keys)
    requires forall i | 0 <= i < |order| :: order[i] in keys
    requires forall i, j | 0 <= i < j < |order| :: order[i] != order[j]
    ensures Between(keys, Sweep(keys, order, present, now), present, now)
    ensures forall id | id in order ::
              OptionAt(Sweep(keys, order, present, now), id) == Advanced(keys, id, present, now)
    decreases |order|
  {
    if order != [] {
      var init, last := order[..|order| - 1], order[|order| - 1];
      SweepIsOrderIndependent(keys, init, present, now);
      var part := Sweep(keys, init, present, now);
      assert last !in init;
      TurnTaken(keys, part, last, present, now);
      assert order == init + [last];
    }
  }

  /** The pass has the same result whatever order the keys are ranged in. */
  lemma SweepIsAdvanceAll(keys: Keys, order: seq<KeyId>, present: map<KeyId, DnsKey>, now: int)
    requires WellFounded(keys)
    requires forall i | 0 <= i < |order| :: order[i] in keys
    requires forall i, j | 0 <= i < j < |order| :: order[i] != order[j]
    requires forall id | id in keys :: id in order
    ensures Sweep(keys, order, present, now) == AdvanceAll(keys, present, now)
  {
    SweepIsOrderIndependent(keys, order, present, now);
    SameKeys(Sweep(keys, order, present, now), AdvanceAll(keys, present, now), keys, present, now);
  }

  function OptionAt(keys: Keys, id: KeyId): Option<KeyState> {
    if id in keys then Some(keys[id]) else None
  }

  lemma SameKeys(a: Keys, b: Keys, keys: Keys, present: map<KeyId, DnsKey>, now: int)
    requires a.Keys <= keys.Keys && b == AdvanceAll(keys, present, now)
    requires forall id | id in keys :: OptionAt(a, id) == Advanced(keys, id, present, now)
    ensures a == b
  {
    forall id ensures id in a <==> id in b {
      if id in keys {
        assert OptionAt(a, id) == Advanced(keys, id, present, now);
      }
    }
    forall id | id in a ensures a[id] == b[id] {
      assert OptionAt(a, id) == Advanced(keys, id, present, now);
    }
  }

  lemma SweepLast(keys: Keys, order: seq<KeyId>, id: KeyId, present: map<KeyId, DnsKey>, now: int)
    requires forall i | 0 <= i < |order| :: order[i] in keys
    requires forall i, j | 0 <= i < j < |order| :: order[i] != order[j]
    requires id in keys && id !in order
    ensures Sweep(keys, order + [id], present, now) == SweepOne(Sweep(keys, order, present, now), id, present, now)
  {
    assert (order + [id])[..|order|] == order;
  }

  /** Were one pending key to rest on another, it would matter which of the two came first. */
  lemma OrderMattersIfPendingRestsOnPending(keys: Keys, old': KeyId, young: KeyId,
                                            present: map<KeyId, DnsKey>, now: int)
    requires old' != young && old' in keys && young in keys && old' in present && young in present
    requires keys[old'].state.AddPending? && keys[young].state.AddPending?
    requires !present[old'].revoked && !present[young].revoked
    requires AnyValidatorRemaining(keys[old'].validatedBy, keys) && keys[young].validatedBy == {old'}
    requires keys[old'].firstSeen + keys[old'].holdDown <= now < keys[young].firstSeen + keys[young].holdDown
    ensures !WellFounded(keys)
    ensures young in SweepOne(SweepOne(keys, old', present, now), young, present, now)
    ensures young !in SweepOne(SweepOne(keys, young, present, now), old', present, now)
  {
    assert old' in keys[young].validatedBy;
    var grown := SweepOne(keys, old', present, now);
    assert old' in grown[young].validatedBy && Usable(grown[old']);
    assert !AnyValidatorRemaining(keys[young].validatedBy, keys);
  }

  // ---------- learning new keys ----------

  function Max(a: int, b: int): int { if a > b then a else b }

  predicate Learnable(k: DnsKey) {
    k.rootSep && !k.disabled && !k.revoked
  }

  /** Thirty days, or the time to live the key was first seen with if that is longer. */
  function HoldDown(k: DnsKey): int {
    Max(ADD_HOLD_DOWN, k.ttl)
  }

  function NewKey(k: DnsKey, validators: set<KeyId>, now: int): KeyState {
    KeyState(AddPending, now, now, HoldDown(k), validators)
  }

  function LearnNew(keys: Keys, present: map<KeyId, DnsKey>, validators: set<KeyId>, now: int): Keys {
    map id | id in keys.Keys + present.Keys && (id in keys || Learnable(present[id])) ::
      if id in keys then keys[id]
      else NewKey(present[id], validators, now)
  }

  // ---------- one response ----------

  datatype Manager = Manager(keys: Keys, published: set<KeyId>)

  /** What becomes of a write: the file is untouched, or replaced but not known to be durable, or saved. */
  datatype Save = Failed | Unsynced | Saved

  /** A response, the moment it is processed, and what becomes of each of the two possible writes. */
  datatype Event = Event(response: Response, now: int, savesRevocation: Save, saves: Save)

  predicate Revokes(keys: Keys, e: Event) {
    exists id :: id in keys && RevokedBy(keys, e.response.records, id)
  }

  /** The response is authenticated and no failed write stops it short. */
  predicate Observed(keys: Keys, e: Event) {
    Validators(keys, e.response) != {} && (Revokes(keys, e) ==> e.savesRevocation.Saved?)
  }

  function KeysAfter(keys: Keys, e: Event): Keys {
    var revoked := AfterRevocations(keys, e.response.records, e.now);
    if !Observed(keys, e) then revoked
    else
      var present := Present(e.response.records);
      LearnNew(AdvanceAll(revoked, present, e.now), present, Validators(keys, e.response), e.now)
  }

  function Step(m: Manager, e: Event): Manager {
    var keys := KeysAfter(m.keys, e);
    var live := if Revokes(m.keys, e) then UsableAnchors(AfterRevocations(m.keys, e.response.records, e.now))
                else m.published;
    Manager(keys, if Observed(m.keys, e) && e.saves.Saved? then UsableAnchors(keys) else live)
  }

  /** Whether one of the writes a response leads to reaches the file. */
  predicate Writes(keys: Keys, e: Event) {
    (Revokes(keys, e) && !e.savesRevocation.Failed?) || (Observed(keys, e) && !e.saves.Failed?)
  }

  /** The state file after a response: what the last write to reach it put there. */
  function DiskAfter(disk: Keys, keys: Keys, e: Event): Keys {
    if Observed(keys, e) && !e.saves.Failed? then KeysAfter(keys, e)
    else if Revokes(keys, e) && !e.savesRevocation.Failed? then AfterRevocations(keys, e.response.records, e.now)
    else disk
  }

  class AnchorManager {
    var keys: Keys
    var published: set<KeyId>
    var disk: Keys

    function View(): Manager
      reads this
    {
      Manager(keys, published)
    }

    /** A manager of the given keys, with a state file that may differ. */
    constructor (keys: Keys, disk: Keys)
      ensures View() == Restarted(keys) && this.disk == disk
    {
      this.keys, this.disk, published := keys, disk, UsableAnchors(keys);
    }

    /** Starts from the state file, or from the configured anchors when there is none. */
    static method Start(saved: Option<Keys>, bootstrap: set<KeyId>, rootSep: KeyId -> bool, now: int, outcome: Save)
      returns (r: Option<AnchorManager>)
      ensures r.Some? <==>
                if saved.Some? then
                  && (forall id | id in saved.value :: rootSep(id))
                  && forall id | id in saved.value && saved.value[id].state.AddPending? ::
                       saved.value[id].holdDown >= 2592000 && saved.value[id].validatedBy != {}
                else bootstrap != {} && (forall id | id in bootstrap :: rootSep(id)) && outcome.Saved?
      ensures r.Some? ==>
                && fresh(r.value) && r.value.disk == r.value.keys
                && r.value.View() == if saved.Some? then Restarted(saved.value) else Bootstrap(bootstrap, now)
      ensures r.Some? && (saved.Some? ==> WellFounded(saved.value)) ==> Sound(r.value.View())
    {
      if saved.Some? {
        var unchecked := saved.value.Keys;
        while unchecked != {}
          invariant unchecked <= saved.value.Keys && forall id | id in saved.value.Keys - unchecked :: rootSep(id)
          decreases |unchecked|
        {
          var id :| id in unchecked;
          unchecked := unchecked - {id};
          if !rootSep(id) {
            return None;
          }
        }
        if !Loadable(saved.value) {
          return None;
        }
        var manager := new AnchorManager(saved.value, saved.value);
        return Some(manager);
      }
      if bootstrap == {} {
        return None;
      }
      var todo, keys: Keys := bootstrap, map[];
      while todo != {}
        invariant todo <= bootstrap && forall id | id in bootstrap - todo :: rootSep(id)
        invariant keys == map id | id in bootstrap - todo :: KeyState(Valid, now, now, 0, {})
        decreases |todo|
      {
        var id :| id in todo;
        todo := todo - {id};
        if !rootSep(id) {
          return None;
        }
        keys := keys[id := KeyState(Valid, now, now, 0, {})];
      }
      var manager := new AnchorManager(keys, map[]);
      var written := manager.Persist(outcome);
      if !written {
        return None;
      }
      assert UsableAnchors(keys) == bootstrap;
      return Some(manager);
    }

    /** Writes a new file beside the old one, renames it, and syncs the directory; each step may fail. */
    method Persist(outcome: Save) returns (ok: bool)
      modifies this`disk
      ensures ok == outcome.Saved? && disk == if outcome.Failed? then old(disk) else keys
    {
      if outcome.Failed? {
        return false;
      }
      disk := keys;
      ok := outcome.Saved?;
    }

    method PublishAnchors()
      modifies this`published
      ensures published == UsableAnchors(keys)
    {
      published := UsableAnchors(keys);
    }

    /** Marks every usable key that the response proves revoked. */
    method RevokeKeys(records: seq<DnsKey>, now: int) returns (present: map<KeyId, DnsKey>, revoked: bool)
      modifies this`keys
      ensures keys == AfterRevocations(old(keys), records, now)
      ensures present == Present(records)
      ensures revoked <==> exists id :: RevokedBy(old(keys), records, id)
    {
      present, revoked := map[], false;
      for i := 0 to |records|
        invariant present == Present(records[..i])
        invariant keys == AfterRevocations(old(keys), records[..i], now)
        invariant revoked <==> exists id :: RevokedBy(old(keys), records[..i], id)
      {
        var k := records[i];
        assert records[..i + 1][..i] == records[..i];
        RevocationStep(old(keys), records[..i], k, now);
        assert records[..i + 1] == records[..i] + [k];
        present := present[k.id := k];
        if k.id in keys && Usable(keys[k.id]) && k.revoked && k.selfSigned {
          keys := keys[k.id := keys[k.id].(state := Revoked, stateSince := now)];
          revoked := true;
        }
      }
      assert records[..|records|] == records;
    }

    method AdvanceKey(id: KeyId, present: map<KeyId, DnsKey>, now: int)
      requires id in keys
      modifies this`keys
      ensures keys == SweepOne(old(keys), id, present, now)
    {
      var item := keys[id];
      match item.state {
        case AddPending =>
          if id !in present || present[id].revoked || !AnyValidatorRemaining(item.validatedBy, keys) {
            keys := keys - {id};
          } else if now >= item.firstSeen + item.holdDown {
            keys := keys[id := item.(state := Valid, stateSince := now, validatedBy := {})];
          }
        case Valid =>
          if id !in present {
            keys := keys[id := item.(state := Missing, stateSince := now)];
          }
        case Missing =>
          if id in present {
            keys := keys[id := item.(state := Valid, stateSince := now)];
          }
        case Revoked =>
          if id !in present && now >= item.stateSince + REMOVE_HOLD_DOWN {
            keys := keys[id := item.(state := Removed, stateSince := now)];
          }
        case Removed =>
      }
    }

    /** Advances every known key, ranging over them in no particular order. */
    method AdvanceKeys(present: map<KeyId, DnsKey>, now: int)
      requires WellFounded(keys)
      modifies this`keys
      ensures keys == AdvanceAll(old(keys), present, now)
    {
      var todo := keys.Keys;
      ghost var order: seq<KeyId> := [];
      while todo != {}
        invariant todo <= old(keys).Keys
        invariant forall i | 0 <= i < |order| :: order[i] in old(keys)
        invariant forall i, j | 0 <= i < j < |order| :: order[i] != order[j]
        invariant forall id | id in old(keys) :: id in todo <==> id !in order
        invariant keys == Sweep(old(keys), order, present, now)
        decreases |todo|
      {
        var id :| id in todo;
        SweepLast(old(keys), order, id, present, now);
        AdvanceKey(id, present, now);
        todo := todo - {id};
        order := order + [id];
      }
      SweepIsAdvanceAll(old(keys), order, present, now);
    }

    method LearnKey(id: KeyId, k: DnsKey, validators: set<KeyId>, now: int)
      modifies this`keys
      ensures keys ==
              if id in old(keys) || !Learnable(k) then old(keys) else old(keys)[id := NewKey(k, validators, now)]
    {
      if id in keys || !k.rootSep || k.disabled || k.revoked {
        return;
      }
      var holdDown := if k.ttl > ADD_HOLD_DOWN then k.ttl else ADD_HOLD_DOWN;
      keys := keys[id := KeyState(AddPending, now, now, holdDown, validators)];
    }

    method LearnKeys(present: map<KeyId, DnsKey>, validators: set<KeyId>, now: int)
      modifies this`keys
      ensures keys == LearnNew(old(keys), present, validators, now)
    {
      var todo := present.Keys;
      while todo != {}
        invariant todo <= present.Keys
        invariant PartlyLearned(old(keys), keys, present, present.Keys - todo, validators, now)
        decreases |todo|
      {
        var id :| id in todo;
        todo := todo - {id};
        LearnKey(id, present[id], validators, now);
      }
      FullyLearned(old(keys), keys, present, validators, now);
    }

    /**
      Processes one DNSKEY response.  A proven revocation takes effect at once,
      whatever becomes of the state file; everything else needs an RRset signed
      by a current anchor.
     */
    method Process(e: Event) returns (ok: bool)
      requires Sound(View())
      modifies this
      ensures Sound(View()) && View() == Step(old(View()), e) && disk == DiskAfter(old(disk), old(keys), e)
      ensures ok <==>
                if Validators(old(keys), e.response) != {} then Observed(old(keys), e) && e.saves.Saved?
                else Revokes(old(keys), e) && e.savesRevocation.Saved?
      ensures ok ==> disk == keys && published == UsableAnchors(keys)
    {
      ghost var before := View();
      var validators := Validators(keys, e.response);
      var present, revoked := RevokeKeys(e.response.records, e.now);
      StepStaysSound(before, e);
      if revoked {
        var saved := Persist(e.savesRevocation);
        PublishAnchors();
        if !saved {
          return false;
        }
      }
      if validators == {} {
        return revoked;
      }
      RevocationKeepsWellFounded(before.keys, e.response.records, e.now);
      AdvanceKeys(present, e.now);
      LearnKeys(present, validators, e.now);
      var saved := Persist(e.saves);
      if !saved {
        return false;
      }
      PublishAnchors();
      return true;
    }
  }

  /** The records in done have been learned from, and no others. */
  ghost predicate PartlyLearned(before: Keys, after: Keys, present: map<KeyId, DnsKey>, done: set<KeyId>,
                                validators: set<KeyId>, now: int) {
    && (forall id | id in before :: id in after && after[id] == before[id])
    && (forall id | id in after && id !in before ::
          id in done && id in present && after[id] == NewKey(present[id], validators, now))
    && (forall id | id in done && id in present && id !in before :: id in after <==> Learnable(present[id]))
  }

  lemma FullyLearned(before: Keys, after: Keys, present: map<KeyId, DnsKey>, validators: set<KeyId>, now: int)
    requires PartlyLearned(before, after, present, present.Keys, validators, now)
    ensures after == LearnNew(before, present, validators, now)
  {
  }

  lemma RevocationStep(keys: Keys, records: seq<DnsKey>, k: DnsKey, now: int)
    ensures forall id :: RevokedBy(keys, records + [k], id) <==>
              RevokedBy(keys, records, id) || (id in keys && Usable(keys[id]) && ProvesRevocation(k, id))
  {
    forall id | id in keys && Usable(keys[id])
      ensures RevokedBy(keys, records + [k], id) <==> RevokedBy(keys, records, id) || ProvesRevocation(k, id)
    {
      if ProvesRevocation(k, id) {
        assert k in records + [k];
      }
      if x :| x in records && ProvesRevocation(x, id) {
        assert x in records + [k];
      }
    }
  }

  lemma RevocationKeepsWellFounded(keys: Keys, records: seq<DnsKey>, now: int)
    requires WellFounded(keys)
    ensures WellFounded(AfterRevocations(keys, records, now))
  {
  }

  function Bootstrap(anchors: set<KeyId>, now: int): Manager {
    Manager(map id | id in anchors :: KeyState(Valid, now, now, 0, {}), anchors)
  }

  /** Configured anchors are trusted and live at once. */
  lemma BootstrapIs(anchors: set<KeyId>, now: int, id: KeyId)
    ensures var m := Bootstrap(anchors, now);
            && (id in m.published <==> id in anchors)
            && (id in m.keys <==> id in anchors)
            && (id in anchors ==> m.keys[id].state == Valid)
  {
  }

  /** The manager that a state file leads to. */
  function Restarted(disk: Keys): Manager {
    Manager(disk, UsableAnchors(disk))
  }

  /** What every run keeps: keys that could be saved and read back, and no live anchor beyond the usable ones. */
  ghost predicate Sound(m: Manager) {
    WellFounded(m.keys) && Loadable(m.keys) && m.published <= UsableAnchors(m.keys)
  }

  lemma AdvanceKeepsWellFounded(keys: Keys, present: map<KeyId, DnsKey>, now: int)
    requires WellFounded(keys) && Loadable(keys)
    ensures WellFounded(AdvanceAll(keys, present, now)) && Loadable(AdvanceAll(keys, present, now))
    ensures forall v | v in keys && !keys[v].state.AddPending? ::
              v in AdvanceAll(keys, present, now) && !AdvanceAll(keys, present, now)[v].state.AddPending?
    ensures UsableAnchors(keys) <= UsableAnchors(AdvanceAll(keys, present, now))
  {
    var after := AdvanceAll(keys, present, now);
    forall id, v | id in after && after[id].state.AddPending? && v in after[id].validatedBy
      ensures v in after && !after[v].state.AddPending?
    {
      assert v in keys && !keys[v].state.AddPending?;
    }
  }

  lemma StepStaysSound(m: Manager, e: Event)
    requires Sound(m)
    ensures Sound(Step(m, e))
  {
    var revoked := AfterRevocations(m.keys, e.response.records, e.now);
    RevocationKeepsWellFounded(m.keys, e.response.records, e.now);
    if !Revokes(m.keys, e) {
      assert revoked == m.keys;
    }
    if Observed(m.keys, e) {
      var present := Present(e.response.records);
      AdvanceKeepsWellFounded(revoked, present, e.now);
      var validators := Validators(m.keys, e.response);
      forall v | v in validators ensures v in revoked && !revoked[v].state.AddPending? {
        assert v in m.keys && Usable(m.keys[v]);
      }
      LearnKeepsWellFounded(AdvanceAll(revoked, present, e.now), present, validators, e.now);
    }
  }

  lemma LearnKeepsWellFounded(keys: Keys, present: map<KeyId, DnsKey>, validators: set<KeyId>, now: int)
    requires WellFounded(keys) && Loadable(keys) && validators != {}
    requires forall v | v in validators :: v in keys && !keys[v].state.AddPending?
    ensures WellFounded(LearnNew(keys, present, validators, now)) && Loadable(LearnNew(keys, present, validators, now))
    ensures UsableAnchors(LearnNew(keys, present, validators, now)) == UsableAnchors(keys)
  {
  }

  // ---------- what one response can do ----------

  /** A key loses trust only by proving its own revocation, and then at once. */
  lemma TrustLostOnlyByRevocation(m: Manager, e: Event, id: KeyId)
    requires id in UsableAnchors(m.keys)
    ensures id in UsableAnchors(Step(m, e).keys) <==> !RevokedBy(m.keys, e.response.records, id)
    ensures RevokedBy(m.keys, e.response.records, id) ==> id !in Step(m, e).published && Tombstoned(Step(m, e).keys, id)
  {
  }

  /** An RRset no current anchor has signed changes nothing but what it proves revoked. */
  lemma UnauthenticatedOnlyRevokes(m: Manager, e: Event)
    requires Validators(m.keys, e.response) == {}
    ensures Step(m, e).keys == AfterRevocations(m.keys, e.response.records, e.now)
    ensures !Revokes(m.keys, e) ==> Step(m, e) == m
  {
    if !Revokes(m.keys, e) {
      assert AfterRevocations(m.keys, e.response.records, e.now) == m.keys;
    }
  }

  predicate Tombstoned(keys: Keys, id: KeyId) {
    id in keys && (keys[id].state.Revoked? || keys[id].state.Removed?)
  }

  // ---------- whole runs ----------

  /** The manager's state before the n-th response. */
  function StateAt(m: Manager, events: seq<Event>, n: nat): Manager
    requires n <= |events|
  {
    if n == 0 then m else Step(StateAt(m, events, n - 1), events[n - 1])
  }

  lemma {:induction false} RunStaysSound(m: Manager, events: seq<Event>, n: nat)
    requires Sound(m) && n <= |events|
    ensures Sound(StateAt(m, events, n))
  {
    if n > 0 {
      RunStaysSound(m, events, n - 1);
      StepStaysSound(StateAt(m, events, n - 1), events[n - 1]);
    }
  }

  lemma TombstoneStays(m: Manager, e: Event, id: KeyId)
    requires Tombstoned(m.keys, id)
    ensures Tombstoned(Step(m, e).keys, id)
  {
  }

  /** A revoked key is never trusted again, in any continuation of the run. */
  lemma {:induction false} RevokedForever(m: Manager, events: seq<Event>, id: KeyId, n: nat)
    requires Sound(m) && Tombstoned(m.keys, id) && n <= |events|
    ensures Tombstoned(StateAt(m, events, n).keys, id) && id !in StateAt(m, events, n).published
  {
    RunStaysSound(m, events, n);
    if n > 0 {
      RevokedForever(m, events, id, n - 1);
      TombstoneStays(StateAt(m, events, n - 1), events[n - 1], id);
    }
  }

  // ---------- hold-downs ----------

  function KeysBefore(m: Manager, events: seq<Event>, k: nat): Keys
    requires k <= |events|
  {
    StateAt(m, events, k).keys
  }

  predicate CarriedUnrevoked(e: Event, id: KeyId) {
    id in Present(e.response.records) && !Present(e.response.records)[id].revoked
  }

  /** Which responses of the run are observed. */
  ghost function Observations(m: Manager, events: seq<Event>): (r: seq<bool>)
    ensures |r| == |events|
  {
    seq(|events|, k requires 0 <= k < |events| => Observed(KeysBefore(m, events, k), events[k]))
  }

  /** In every observed response from the i-th up to the n-th, id is there, unrevoked. */
  ghost predicate SeenThroughout(observed: seq<bool>, events: seq<Event>, id: KeyId, i: nat, n: nat) {
    && |observed| == |events| && i < n <= |events| && observed[i]
    && forall k | i <= k < n :: observed[k] ==> CarriedUnrevoked(events[k], id)
  }

  lemma SeenAgain(observed: seq<bool>, events: seq<Event>, id: KeyId, i: nat, n: nat)
    requires n < |events| && SeenThroughout(observed, events, id, i, n)
    requires observed[n] ==> CarriedUnrevoked(events[n], id)
    ensures SeenThroughout(observed, events, id, i, n + 1)
  {
  }

  lemma SeenOnce(observed: seq<bool>, events: seq<Event>, id: KeyId, i: nat)
    requires |observed| == |events| && i < |events| && observed[i] && CarriedUnrevoked(events[i], id)
    ensures SeenThroughout(observed, events, id, i, i + 1)
  {
  }

  /** A key found pending was either learned just now or pending already. */
  lemma PendingStep(keys: Keys, e: Event, id: KeyId) returns (learned: bool)
    requires id in KeysAfter(keys, e) && KeysAfter(keys, e)[id].state.AddPending?
    ensures Observed(keys, e) ==> CarriedUnrevoked(e, id)
    ensures learned ==> Observed(keys, e) && KeysAfter(keys, e)[id].firstSeen == e.now
                        && KeysAfter(keys, e)[id].holdDown == HoldDown(Present(e.response.records)[id])
    ensures !learned ==> id in keys && keys[id].state.AddPending? && KeysAfter(keys, e)[id] == keys[id]
    ensures !learned && Observed(keys, e) ==>
              AnyValidatorRemaining(keys[id].validatedBy, AfterRevocations(keys, e.response.records, e.now))
  {
    var revoked := AfterRevocations(keys, e.response.records, e.now);
    assert id in keys ==> revoked[id] == keys[id] || revoked[id].state.Revoked?;
    learned := Observed(keys, e) && id !in AdvanceAll(revoked, Present(e.response.records), e.now);
  }

  /** In every observed response before the n-th, id is there, unrevoked. */
  ghost predicate CarriedSinceStart(observed: seq<bool>, events: seq<Event>, id: KeyId, n: nat) {
    && |observed| == |events| && n <= |events|
    && forall k | 0 <= k < n :: observed[k] ==> CarriedUnrevoked(events[k], id)
  }

  lemma CarriedAgain(observed: seq<bool>, events: seq<Event>, id: KeyId, n: nat)
    requires n < |events| && CarriedSinceStart(observed, events, id, n)
    requires observed[n] ==> CarriedUnrevoked(events[n], id)
    ensures CarriedSinceStart(observed, events, id, n + 1)
  {
  }

  predicate PendingAt(keys: Keys, id: KeyId) {
    id in keys && keys[id].state.AddPending?
  }

  /** A pending key was first seen in the i-th response, which set its hold-down, and has been there ever since. */
  ghost predicate LearnedAt(observed: seq<bool>, events: seq<Event>, id: KeyId, s: KeyState, n: nat, i: nat) {
    && SeenThroughout(observed, events, id, i, n) && CarriedUnrevoked(events[i], id)
    && s.firstSeen == events[i].now && s.holdDown == HoldDown(Present(events[i].response.records)[id])
  }

  /** A pending key was pending at the start, and has been there ever since. */
  ghost predicate PendingSinceStart(observed: seq<bool>, events: seq<Event>, start: Keys, id: KeyId, s: KeyState,
                                    n: nat) {
    PendingAt(start, id) && s == start[id] && CarriedSinceStart(observed, events, id, n)
  }

  /** Where a pending key comes from: the i-th response of the run, or before it. */
  ghost predicate Origin(observed: seq<bool>, events: seq<Event>, start: Keys, id: KeyId, s: KeyState, n: nat,
                         learned: bool, i: nat) {
    if learned then LearnedAt(observed, events, id, s, n, i) else PendingSinceStart(observed, events, start, id, s, n)
  }

  lemma OriginStays(observed: seq<bool>, events: seq<Event>, start: Keys, id: KeyId, s: KeyState, n: nat,
                    learned: bool, i: nat)
    requires n < |events| && Origin(observed, events, start, id, s, n, learned, i)
    requires observed[n] ==> CarriedUnrevoked(events[n], id)
    ensures Origin(observed, events, start, id, s, n + 1, learned, i)
  {
    if learned {
      SeenAgain(observed, events, id, i, n);
    } else {
      CarriedAgain(observed, events, id, n);
    }
  }

  /** The response before the n-th state either taught a pending key or found it pending. */
  lemma PendingBefore(m: Manager, events: seq<Event>, id: KeyId, k: nat, n: nat) returns (learned: bool)
    requires n == k + 1 <= |events| && PendingAt(KeysBefore(m, events, n), id)
    ensures Observations(m, events)[k] ==> CarriedUnrevoked(events[k], id)
    ensures if learned then LearnedAt(Observations(m, events), events, id, KeysBefore(m, events, n)[id], n, k)
            else PendingAt(KeysBefore(m, events, k), id) && KeysBefore(m, events, k)[id] == KeysBefore(m, events, n)[id]
  {
    assert KeysBefore(m, events, n) == KeysAfter(KeysBefore(m, events, k), events[k]);
    learned := PendingStep(KeysBefore(m, events, k), events[k], id);
    if learned {
      SeenOnce(Observations(m, events), events, id, k);
    }
  }

  /** A pending key was learned from some response of the run or pending before it, and in every observed one since. */
  lemma {:induction false} PendingHistory(m: Manager, events: seq<Event>, id: KeyId, n: nat)
    returns (learned: bool, i: nat)
    requires n <= |events| && PendingAt(KeysBefore(m, events, n), id)
    ensures Origin(Observations(m, events), events, m.keys, id, KeysBefore(m, events, n)[id], n, learned, i)
  {
    if n == 0 {
      learned, i := false, 0;
    } else {
      i := n - 1;
      learned := PendingBefore(m, events, id, i, n);
      if !learned {
        var k := i;
        learned, i := PendingHistory(m, events, id, k);
        OriginStays(Observations(m, events), events, m.keys, id, KeysBefore(m, events, n)[id], k, learned, i);
      }
    }
  }

  /** A key enters the usable anchors only from a pending state whose hold-down is over. */
  lemma Graduates(m: Manager, e: Event, id: KeyId)
    requires Sound(m) && id !in UsableAnchors(m.keys) && id in UsableAnchors(Step(m, e).keys)
    ensures id in m.keys && m.keys[id].state.AddPending?
    ensures e.now - m.keys[id].firstSeen >= m.keys[id].holdDown >= ADD_HOLD_DOWN
    ensures Observed(m.keys, e) && CarriedUnrevoked(e, id)
    ensures AnyValidatorRemaining(m.keys[id].validatedBy, AfterRevocations(m.keys, e.response.records, e.now))
  {
    var revoked := AfterRevocations(m.keys, e.response.records, e.now);
    assert id in m.keys ==> revoked[id] == m.keys[id];
  }

  /** The j-th response ends the hold-down of a key learned from the i-th, or pending at the start. */
  ghost predicate HeldDown(m: Manager, events: seq<Event>, id: KeyId, learned: bool, i: nat, j: nat)
    requires j < |events|
  {
    var observed := Observations(m, events);
    if learned then
      && i < j && SeenThroughout(observed, events, id, i, j + 1) && CarriedUnrevoked(events[i], id)
      && events[j].now - events[i].now >= HoldDown(Present(events[i].response.records)[id])
    else
      && PendingAt(m.keys, id) && observed[j] && CarriedSinceStart(observed, events, id, j + 1)
      && events[j].now - m.keys[id].firstSeen >= m.keys[id].holdDown
  }

  lemma EnteredJustNow(m: Manager, events: seq<Event>, id: KeyId, n: nat) returns (learned: bool, i: nat)
    requires n < |events| && Sound(m)
    requires id !in UsableAnchors(KeysBefore(m, events, n)) && id in UsableAnchors(KeysBefore(m, events, n + 1))
    ensures HeldDown(m, events, id, learned, i, n)
  {
    RunStaysSound(m, events, n);
    Graduates(StateAt(m, events, n), events[n], id);
    learned, i := PendingHistory(m, events, id, n);
    OriginStays(Observations(m, events), events, m.keys, id, KeysBefore(m, events, n)[id], n, learned, i);
  }

  /**
    Sections 2.4.1 and 4 of RFC 5011 over a whole run: an anchor that was not trusted at
    the start became one only at the end of a hold-down, thirty days or the time to live it
    was first seen with if that is longer, throughout which every observed RRset carried it,
    unrevoked.  The hold-down of a key that was pending at the start may have begun earlier.
   */
  lemma {:induction false} TrustNeedsHoldDown(m: Manager, events: seq<Event>, id: KeyId, n: nat)
    returns (learned: bool, i: nat, j: nat)
    requires n <= |events| && Sound(m)
    requires id !in UsableAnchors(m.keys) && id in UsableAnchors(KeysBefore(m, events, n))
    ensures j < n && HeldDown(m, events, id, learned, i, j)
  {
    if n > 0 && id !in UsableAnchors(KeysBefore(m, events, n - 1)) {
      learned, i := EnteredJustNow(m, events, id, n - 1);
      j := n - 1;
    } else {
      learned, i, j := TrustNeedsHoldDown(m, events, id, n - 1);
    }
  }
}
