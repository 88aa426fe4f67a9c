/**
  Trust anchors across restarts.  A server that starts again knows what the last write
  to reach the state file put there, which may be older than what it last knew.
 */
module AnchorRestarts {
  import opened TrustAnchors

  datatype System = System(live: Manager, disk: Keys)

  datatype Happening = Heard(event: Event) | Restart

  function Next(s: System, h: Happening): System {
    match h
    case Heard(e) => System(Step(s.live, e), DiskAfter(s.disk, s.live.keys, e))
    case Restart => System(Restarted(s.disk), s.disk)
  }

  function SystemAfter(s: System, hs: seq<Happening>): System
    decreases |hs|
  {
    if hs == [] then s else SystemAfter(Next(s, hs[0]), hs[1..])
  }

  ghost predicate SoundSystem(s: System) {
    Sound(s.live) && Sound(Restarted(s.disk))
  }

  lemma NextIsSound(s: System, h: Happening)
    requires SoundSystem(s)
    ensures SoundSystem(Next(s, h))
  {
    if h.Heard? {
      StepStaysSound(s.live, h.event);
      RevocationKeepsWellFounded(s.live.keys, h.event.response.records, h.event.now);
    }
  }

  /** Soundness over every run with restarts: whatever is on disk can be read back and leads to a sound manager. */
  lemma {:induction false} SystemStaysSound(s: System, hs: seq<Happening>)
    requires SoundSystem(s)
    ensures SoundSystem(SystemAfter(s, hs)) && Loadable(SystemAfter(s, hs).disk)
    decreases |hs|
  {
    if hs != [] {
      NextIsSound(s, hs[0]);
      SystemStaysSound(Next(s, hs[0]), hs[1..]);
    }
  }

  // ---------- revocations across restarts ----------

  /** Whether a write of the run reaches the file. */
  predicate EverWritten(s: System, hs: seq<Happening>)
    decreases |hs|
  {
    hs != [] && ((hs[0].Heard? && Writes(s.live.keys, hs[0].event)) || EverWritten(Next(s, hs[0]), hs[1..]))
  }

  lemma WriteSavesRevocation(disk: Keys, m: Manager, e: Event, id: KeyId)
    requires Tombstoned(m.keys, id)
    ensures Tombstoned(DiskAfter(disk, m.keys, e), id) <==> Tombstoned(disk, id) || Writes(m.keys, e)
  {
    TombstoneStays(m, e, id);
  }

  /**
    A revocation outlives a restart after any number of responses exactly when the state
    file already had it or a write has reached the file since.
   */
  lemma {:induction false} RevocationSurvivesIff(s: System, hs: seq<Happening>, id: KeyId)
    requires Tombstoned(s.live.keys, id) && forall h | h in hs :: h.Heard?
    ensures Tombstoned(Next(SystemAfter(s, hs), Restart).live.keys, id) <==>
            Tombstoned(s.disk, id) || EverWritten(s, hs)
    decreases |hs|
  {
    if hs != [] {
      assert hs[0] in hs;
      WriteSavesRevocation(s.disk, s.live, hs[0].event, id);
      TombstoneStays(s.live, hs[0].event, id);
      RevocationSurvivesIff(Next(s, hs[0]), hs[1..], id);
    }
  }

  /** A revocation that does not reach the file takes effect at once, and a restart before any other write undoes it. */
  lemma UnsavedRevocationIsUndone(s: System, e: Event, id: KeyId)
    requires SoundSystem(s) && RevokedBy(s.live.keys, e.response.records, id)
    ensures id !in Next(s, Heard(e)).live.published
    ensures Tombstoned(Next(s, Heard(e)).disk, id) <==> !e.savesRevocation.Failed? || Tombstoned(s.disk, id)
    ensures id in Next(Next(s, Heard(e)), Restart).live.published <==>
            e.savesRevocation.Failed? && id in UsableAnchors(s.disk)
  {
    TrustLostOnlyByRevocation(s.live, e, id);
  }

  lemma {:induction false} SavedRevocationStays(s: System, hs: seq<Happening>, id: KeyId)
    requires Tombstoned(s.live.keys, id) && Tombstoned(s.disk, id)
    ensures Tombstoned(SystemAfter(s, hs).live.keys, id) && Tombstoned(SystemAfter(s, hs).disk, id)
    decreases |hs|
  {
    if hs != [] {
      if hs[0].Heard? {
        TombstoneStays(s.live, hs[0].event, id);
      }
      SavedRevocationStays(Next(s, hs[0]), hs[1..], id);
    }
  }

  ghost predicate NeverTrustedAgain(s: System, id: KeyId) {
    forall hs :: Tombstoned(SystemAfter(s, hs).live.keys, id)
  }

  lemma OneRestart(s: System)
    ensures SystemAfter(s, [Restart]) == Next(s, Restart)
  {
    assert [Restart][1..] == [];
  }

  /** With restarts, a revoked key stays revoked whatever happens exactly when the file has the revocation. */
  lemma RevokedForeverIff(s: System, id: KeyId)
    requires Tombstoned(s.live.keys, id)
    ensures NeverTrustedAgain(s, id) <==> Tombstoned(s.disk, id)
  {
    if Tombstoned(s.disk, id) {
      forall hs ensures Tombstoned(SystemAfter(s, hs).live.keys, id) {
        SavedRevocationStays(s, hs, id);
      }
    }
    OneRestart(s);
    assert NeverTrustedAgain(s, id) ==> Tombstoned(SystemAfter(s, [Restart]).live.keys, id);
  }

  // ---------- hold-downs across restarts ----------

  /** The responses of a run with restarts. */
  function Responses(hs: seq<Happening>): seq<Event> {
    if hs == [] then [] else (if hs[0].Heard? then [hs[0].event] else []) + Responses(hs[1..])
  }

  /** At every restart the file holds what the server knew. */
  ghost predicate LosesNothing(s: System, hs: seq<Happening>)
    decreases |hs|
  {
    hs == [] || ((hs[0].Restart? ==> s.disk == s.live.keys) && LosesNothing(Next(s, hs[0]), hs[1..]))
  }

  /** Only the keys matter to the keys that follow. */
  lemma {:induction false} SameKeysSameRun(m: Manager, k: Manager, events: seq<Event>, n: nat)
    requires n <= |events| && m.keys == k.keys
    ensures KeysBefore(m, events, n) == KeysBefore(k, events, n)
  {
    if n > 0 {
      SameKeysSameRun(m, k, events, n - 1);
    }
  }

  lemma {:induction false} FirstResponseFirst(m: Manager, e: Event, rest: seq<Event>, k: nat, n: nat)
    requires n == k + 1 && k <= |rest|
    ensures StateAt(m, [e] + rest, n) == StateAt(Step(m, e), rest, k)
    decreases k
  {
    var all := [e] + rest;
    assert StateAt(m, all, n) == Step(StateAt(m, all, k), all[k]);
    if k > 0 {
      var j := k - 1;
      FirstResponseFirst(m, e, rest, j, k);
      assert StateAt(Step(m, e), rest, k) == Step(StateAt(Step(m, e), rest, j), rest[j]);
      assert all[k] == rest[j];
    }
  }

  /** Restarts that lose nothing leave the keys as the responses alone would. */
  lemma {:induction false} HarmlessRestarts(s: System, hs: seq<Happening>)
    requires LosesNothing(s, hs)
    ensures SystemAfter(s, hs).live.keys == KeysBefore(s.live, Responses(hs), |Responses(hs)|)
    decreases |hs|
  {
    if hs != [] {
      var next, rest := Next(s, hs[0]), Responses(hs[1..]);
      HarmlessRestarts(next, hs[1..]);
      if hs[0].Heard? {
        FirstResponseFirst(s.live, hs[0].event, rest, |rest|, |rest| + 1);
      } else {
        SameKeysSameRun(s.live, next.live, rest, |rest|);
        assert Responses(hs) == [] + rest == rest;
      }
    }
  }

  // ---------- hold-downs across restarts, key by key ----------

  /** When the hold-down of a pending key is over. */
  function Due(s: KeyState): int {
    s.firstSeen + s.holdDown
  }

  /** A pending key that some response may make trusted. */
  predicate Promising(keys: Keys, id: KeyId) {
    PendingAt(keys, id) && AnyValidatorRemaining(keys[id].validatedBy, keys)
  }

  /** To an untrusted key: what the file says of it is no nearer to trust than what the server knows. */
  predicate RestartHarmless(s: System, id: KeyId) {
    || id in UsableAnchors(s.live.keys)
    || (id !in UsableAnchors(s.disk)
        && (Promising(s.disk, id) ==> PendingAt(s.live.keys, id) && Due(s.live.keys[id]) <= Due(s.disk[id])))
  }

  /** The system before the k-th happening of a run. */
  function Before(s: System, hs: seq<Happening>, k: nat): System
    requires k <= |hs|
  {
    SystemAfter(s, hs[..k])
  }

  lemma {:induction false} OneMoreHappening(s: System, hs: seq<Happening>, h: Happening)
    ensures SystemAfter(s, hs + [h]) == Next(SystemAfter(s, hs), h)
    decreases |hs|
  {
    if hs == [] {
      assert hs + [h] == [h] && [h][1..] == [];
    } else {
      assert (hs + [h])[0] == hs[0] && (hs + [h])[1..] == hs[1..] + [h];
      OneMoreHappening(Next(s, hs[0]), hs[1..], h);
    }
  }

  lemma BeforeNext(s: System, hs: seq<Happening>, k: nat, n: nat)
    requires n == k + 1 <= |hs|
    ensures Before(s, hs, n) == Next(Before(s, hs, k), hs[k])
  {
    OneMoreHappening(s, hs[..k], hs[k]);
    assert hs[..n] == hs[..k] + [hs[k]];
  }

  /** No restart of the run brings id nearer to trust. */
  ghost predicate HarmlessTo(s: System, hs: seq<Happening>, id: KeyId) {
    forall k | 0 <= k < |hs| && hs[k].Restart? :: RestartHarmless(Before(s, hs, k), id)
  }

  /** Restarts at which nothing is lost are harmless to every key. */
  lemma {:induction false} NothingLostIsHarmless(s: System, hs: seq<Happening>, id: KeyId)
    requires LosesNothing(s, hs)
    ensures HarmlessTo(s, hs, id)
    decreases |hs|
  {
    if hs != [] {
      var next, rest := Next(s, hs[0]), hs[1..];
      NothingLostIsHarmless(next, rest, id);
      forall k | 0 <= k < |hs| && hs[k].Restart? ensures RestartHarmless(Before(s, hs, k), id) {
        if k > 0 {
          assert hs[..k][1..] == rest[..k - 1];
          assert Before(s, hs, k) == Before(next, rest, k - 1) && hs[k] == rest[k - 1];
        }
      }
    }
  }

  ghost function ObservedIn(s: System, hs: seq<Happening>): (r: seq<bool>)
    ensures |r| == |hs|
  {
    seq(|hs|, k requires 0 <= k < |hs| => hs[k].Heard? && Observed(Before(s, hs, k).live.keys, hs[k].event))
  }

  predicate CarriedBy(h: Happening, id: KeyId) {
    h.Heard? && CarriedUnrevoked(h.event, id)
  }

  /** Every observed response from the i-th happening up to the n-th carries id, unrevoked. */
  ghost predicate CarriedFrom(observed: seq<bool>, hs: seq<Happening>, id: KeyId, i: nat, n: nat) {
    && |observed| == |hs| && i <= n <= |hs|
    && forall k | i <= k < n :: observed[k] ==> CarriedBy(hs[k], id)
  }

  /**
    A hold-down that is over at the moment due began with the i-th happening, which id was
    learned from, or with a pending state at the start; every observed response since has
    carried id.
   */
  ghost predicate Begun(observed: seq<bool>, hs: seq<Happening>, start: Keys, id: KeyId, due: int, n: nat,
                        learned: bool, i: nat) {
    if learned then
      && i < n && CarriedFrom(observed, hs, id, i, n) && observed[i] && CarriedBy(hs[i], id)
      && hs[i].event.now + HoldDown(Present(hs[i].event.response.records)[id]) <= due
    else
      PendingAt(start, id) && Due(start[id]) <= due && CarriedFrom(observed, hs, id, 0, n)
  }

  lemma BegunStill(observed: seq<bool>, hs: seq<Happening>, start: Keys, id: KeyId, due: int, k: nat, n: nat,
                   learned: bool, i: nat, later: int)
    requires n == k + 1 <= |hs| && due <= later && Begun(observed, hs, start, id, due, k, learned, i)
    requires observed[k] ==> CarriedBy(hs[k], id)
    ensures Begun(observed, hs, start, id, later, n, learned, i)
  {
  }

  /** The j-th happening is an observed response that carries id when such a hold-down is over. */
  ghost predicate HeldDownIn(s: System, hs: seq<Happening>, id: KeyId, learned: bool, i: nat, j: nat) {
    && j < |hs| && ObservedIn(s, hs)[j] && CarriedBy(hs[j], id)
    && Begun(ObservedIn(s, hs), hs, s.live.keys, id, hs[j].event.now, j, learned, i)
  }

  lemma TrustedByResponse(s: System, e: Event, id: KeyId)
    requires SoundSystem(s) && id !in UsableAnchors(s.live.keys) && id in UsableAnchors(KeysAfter(s.live.keys, e))
    ensures Promising(s.live.keys, id) && Due(s.live.keys[id]) <= e.now
    ensures Observed(s.live.keys, e) && CarriedUnrevoked(e, id)
  {
    Graduates(s.live, e, id);
    RevocationsOnlyTakeAway(s.live.keys, e.response.records, e.now, s.live.keys[id].validatedBy);
  }

  lemma RevocationsOnlyTakeAway(keys: Keys, records: seq<DnsKey>, now: int, ids: set<KeyId>)
    requires AnyValidatorRemaining(ids, AfterRevocations(keys, records, now))
    ensures AnyValidatorRemaining(ids, keys)
  {
  }

  /** A pending key that may yet be trusted, or come back from the file so, was learned just now or was so before. */
  lemma PendingStill(s: System, e: Event, id: KeyId) returns (learned: bool)
    requires PendingAt(KeysAfter(s.live.keys, e), id)
    requires var next := Next(s, Heard(e)); Promising(next.live.keys, id) || Promising(next.disk, id)
    ensures Observed(s.live.keys, e) ==> CarriedUnrevoked(e, id)
    ensures learned ==>
              && Observed(s.live.keys, e)
              && Due(KeysAfter(s.live.keys, e)[id]) == e.now + HoldDown(Present(e.response.records)[id])
    ensures !learned ==>
              && PendingAt(s.live.keys, id) && KeysAfter(s.live.keys, e)[id] == s.live.keys[id]
              && (Promising(s.live.keys, id) || Promising(s.disk, id))
  {
    learned := PendingStep(s.live.keys, e, id);
    if !learned {
      var ids, revoked := s.live.keys[id].validatedBy, AfterRevocations(s.live.keys, e.response.records, e.now);
      if Observed(s.live.keys, e) || Promising(revoked, id) {
        assert AnyValidatorRemaining(ids, revoked);
        RevocationsOnlyTakeAway(s.live.keys, e.response.records, e.now, ids);
      }
    }
  }

  /** id is trusted, or it is pending and may yet be, if only as the file has it. */
  predicate Concerned(s: System, id: KeyId) {
    || id in UsableAnchors(s.live.keys)
    || (PendingAt(s.live.keys, id) && (Promising(s.live.keys, id) || Promising(s.disk, id)))
  }

  /** What explains a concerned key: a hold-down that has ended, or one that has begun. */
  datatype Account = Account(ended: bool, learned: bool, i: nat, j: nat)

  ghost predicate Explains(s: System, hs: seq<Happening>, id: KeyId, n: nat, a: Account)
    requires n <= |hs|
  {
    if a.ended then HeldDownIn(s, hs, id, a.learned, a.i, a.j) && a.j < n
    else
      var keys := Before(s, hs, n).live.keys;
      && id !in UsableAnchors(keys) && PendingAt(keys, id)
      && Begun(ObservedIn(s, hs), hs, s.live.keys, id, Due(keys[id]), n, a.learned, a.i)
  }

  lemma ExplainsAfterRestart(s: System, hs: seq<Happening>, id: KeyId, k: nat, n: nat, a: Account)
    requires n == k + 1 <= |hs| && hs[k].Restart? && RestartHarmless(Before(s, hs, k), id)
    requires Explains(s, hs, id, k, a) && Concerned(Before(s, hs, n), id)
    ensures Explains(s, hs, id, n, a)
  {
    var b := Before(s, hs, k);
    BeforeNext(s, hs, k, n);
    if !a.ended {
      BegunStill(ObservedIn(s, hs), hs, s.live.keys, id, Due(b.live.keys[id]), k, n, a.learned, a.i, Due(b.disk[id]));
    }
  }

  lemma ConcernedBeforeRestart(b: System, id: KeyId)
    requires RestartHarmless(b, id) && Concerned(Next(b, Restart), id)
    ensures Concerned(b, id)
  {
  }

  /** What explains a key after a response, from what explains it before. */
  lemma ExplainedByResponse(s: System, hs: seq<Happening>, id: KeyId, k: nat, n: nat, before: Account)
    returns (a: Account)
    requires n == k + 1 <= |hs| && hs[k].Heard? && SoundSystem(Before(s, hs, k)) && Concerned(Before(s, hs, n), id)
    requires Concerned(Before(s, hs, k), id) ==> Explains(s, hs, id, k, before)
    ensures Explains(s, hs, id, n, a)
  {
    var b, e, observed := Before(s, hs, k), hs[k].event, ObservedIn(s, hs);
    BeforeNext(s, hs, k, n);
    a := before;
    if id in UsableAnchors(KeysAfter(b.live.keys, e)) {
      if id !in UsableAnchors(b.live.keys) {
        TrustedByResponse(b, e, id);
        if !before.ended {
          a := Account(true, before.learned, before.i, k);
        }
      }
    } else {
      var learned := PendingStill(b, e, id);
      if learned {
        a := Account(false, true, k, 0);
      } else if !before.ended {
        var due := Due(b.live.keys[id]);
        BegunStill(observed, hs, s.live.keys, id, due, k, n, before.learned, before.i, due);
      }
    }
  }

  lemma {:induction false} ConcernedIsExplained(s: System, hs: seq<Happening>, id: KeyId, n: nat)
    returns (a: Account)
    requires n <= |hs| && SoundSystem(s) && HarmlessTo(s, hs, id) && id !in UsableAnchors(s.live.keys)
    requires Concerned(Before(s, hs, n), id)
    ensures Explains(s, hs, id, n, a)
  {
    a := Account(false, false, 0, 0);
    if n == 0 {
      assert hs[..0] == [];
    } else {
      var k := n - 1;
      BeforeNext(s, hs, k, n);
      if Concerned(Before(s, hs, k), id) {
        a := ConcernedIsExplained(s, hs, id, k);
      }
      if hs[k].Restart? {
        ConcernedBeforeRestart(Before(s, hs, k), id);
        ExplainsAfterRestart(s, hs, id, k, n, a);
      } else {
        SystemStaysSound(s, hs[..k]);
        a := ExplainedByResponse(s, hs, id, k, n, a);
      }
    }
  }

  /** The hold-down is kept across restarts that bring the key no nearer to trust. */
  lemma TrustNeedsHoldDownAcrossRestarts(s: System, hs: seq<Happening>, id: KeyId)
    returns (learned: bool, i: nat, j: nat)
    requires SoundSystem(s) && HarmlessTo(s, hs, id)
    requires id !in UsableAnchors(s.live.keys) && id in UsableAnchors(SystemAfter(s, hs).live.keys)
    ensures HeldDownIn(s, hs, id, learned, i, j)
  {
    assert hs[..|hs|] == hs;
    var a := ConcernedIsExplained(s, hs, id, |hs|);
    learned, i, j := a.learned, a.i, a.j;
  }

  // ---------- which restarts are harmless ----------

  ghost predicate EndsHoldDown(s: System, hs: seq<Happening>, id: KeyId) {
    exists learned: bool, i: nat, j: nat :: HeldDownIn(s, hs, id, learned, i, j)
  }

  /** Whatever responses follow a restart, they make id trusted only at the end of a hold-down. */
  ghost predicate RestartKeepsHoldDown(s: System, id: KeyId) {
    forall events: seq<Happening> | (forall h | h in events :: h.Heard?)
                                    && id in UsableAnchors(SystemAfter(s, [Restart] + events).live.keys) ::
      EndsHoldDown(s, [Restart] + events, id)
  }

  /** A restart keeps the hold-down of a key that is not trusted exactly when it is harmless to it. */
  lemma RestartKeepsHoldDownIff(s: System, id: KeyId)
    requires SoundSystem(s) && id !in UsableAnchors(s.live.keys)
    ensures RestartKeepsHoldDown(s, id) <==> RestartHarmless(s, id)
  {
    if RestartHarmless(s, id) {
      forall events: seq<Happening> | (forall h | h in events :: h.Heard?)
                                      && id in UsableAnchors(SystemAfter(s, [Restart] + events).live.keys)
        ensures EndsHoldDown(s, [Restart] + events, id)
      {
        OnlyRestart(s, events, id);
        var learned, i, j := TrustNeedsHoldDownAcrossRestarts(s, [Restart] + events, id);
      }
    } else {
      HarmfulRestart(s, id);
    }
  }

  lemma OnlyRestart(s: System, events: seq<Happening>, id: KeyId)
    requires RestartHarmless(s, id) && forall h | h in events :: h.Heard?
    ensures HarmlessTo(s, [Restart] + events, id)
  {
    var hs := [Restart] + events;
    forall k | 0 < k < |hs| ensures hs[k].Heard? {
      assert hs[k] in events;
    }
    assert hs[..0] == [];
  }

  /** A response that carries just id, signed by v, at the moment the file has its hold-down end. */
  function Hasty(disk: Keys, id: KeyId, v: KeyId): Event
    requires id in disk
  {
    Event(Response([DnsKey(id, false, false, true, false, 0)], {v}), Due(disk[id]), Saved, Saved)
  }

  lemma HastyIsObserved(disk: Keys, id: KeyId, v: KeyId)
    requires PendingAt(disk, id) && v in disk[id].validatedBy && v in UsableAnchors(disk)
    ensures Observed(disk, Hasty(disk, id, v)) && CarriedUnrevoked(Hasty(disk, id, v), id)
    ensures id in UsableAnchors(KeysAfter(disk, Hasty(disk, id, v)))
  {
    var e := Hasty(disk, id, v);
    PresentIn([], e.response.records[0]);
    assert [] + e.response.records == e.response.records;
    assert v in Validators(disk, e.response);
    assert forall k | k in e.response.records :: !k.revoked;
    assert AfterRevocations(disk, e.response.records, e.now) == disk;
  }

  lemma HarmfulRestart(s: System, id: KeyId)
    requires SoundSystem(s) && !RestartHarmless(s, id)
    ensures !RestartKeepsHoldDown(s, id)
  {
    OneRestart(s);
    if id in UsableAnchors(s.disk) {
      assert [Restart] + [] == [Restart];
      assert forall learned, i, j :: !HeldDownIn(s, [Restart], id, learned, i, j);
      assert !EndsHoldDown(s, [Restart] + [], id);
    } else {
      var v :| v in s.disk[id].validatedBy && v in s.disk && Usable(s.disk[v]);
      var e := Hasty(s.disk, id, v);
      HastyIsObserved(s.disk, id, v);
      var events := [Heard(e)];
      OneMoreHappening(s, [Restart], Heard(e));
      NothingLearned(s, e, id);
    }
  }

  lemma NothingLearned(s: System, e: Event, id: KeyId)
    requires !(PendingAt(s.live.keys, id) && Due(s.live.keys[id]) <= e.now)
    ensures !EndsHoldDown(s, [Restart] + [Heard(e)], id)
  {
  }

  /** A key that turns trusted although an observed response left it out. */
  ghost predicate TrustedDespiteAbsence(s: System, first: Event, second: Event, id: KeyId) {
    && SoundSystem(s) && s.disk == s.live.keys && PendingAt(s.live.keys, id)
    && Observed(s.live.keys, first) && !CarriedUnrevoked(first, id)
    && id in UsableAnchors(Next(Next(Next(s, Heard(first)), Restart), Heard(second)).live.keys)
  }

  lemma PresentIn(records: seq<DnsKey>, last: DnsKey)
    ensures Present(records + [last]) == Present(records)[last.id := last]
  {
    assert (records + [last])[..|records|] == records;
  }

  /** One anchor, and one key pending since time 0 on its word. */
  function AnchorAndPending(): Keys {
    map[0 := KeyState(Valid, 0, 0, 0, {}), 1 := KeyState(AddPending, 0, 0, ADD_HOLD_DOWN, {0})]
  }

  lemma AnchorAndPendingIsSound()
    ensures Sound(Restarted(AnchorAndPending()))
  {
  }

  /** A response of keys that are neither revoked nor new, signed by the anchor. */
  lemma PlainResponse(keys: Keys, e: Event)
    requires keys == AnchorAndPending() && e.response.signedBy == {0}
    requires forall k | k in e.response.records :: !k.revoked && k.id in keys
    ensures Observed(keys, e) && !Revokes(keys, e) && AfterRevocations(keys, e.response.records, e.now) == keys
  {
    assert 0 in UsableAnchors(keys) && 0 in Validators(keys, e.response);
  }

  lemma GraduatesNow(keys: Keys, e: Event)
    requires keys == AnchorAndPending() && Observed(keys, e)
    requires AfterRevocations(keys, e.response.records, e.now) == keys
    requires e.now == ADD_HOLD_DOWN && CarriedUnrevoked(e, 1)
    ensures 1 in UsableAnchors(KeysAfter(keys, e))
  {
    assert 0 in keys[1].validatedBy && AnyValidatorRemaining(keys[1].validatedBy, keys);
  }

  /** Without the pending key, a write that fails leaves the file as it was. */
  lemma AbsentButOnDisk(keys: Keys, e: Event)
    requires keys == AnchorAndPending() && Observed(keys, e) && e.saves.Failed?
    requires AfterRevocations(keys, e.response.records, e.now) == keys && !Revokes(keys, e)
    ensures Next(Next(System(Restarted(keys), keys), Heard(e)), Restart) == System(Restarted(keys), keys)
  {
  }

  lemma OnlySecondCarries(first: Event, second: Event, anchor: DnsKey, young: DnsKey)
    requires first.response.records == [anchor] && second.response.records == [anchor, young]
    requires anchor.id != young.id && !young.revoked
    ensures CarriedUnrevoked(second, young.id) && !CarriedUnrevoked(first, young.id)
  {
    PresentIn([], anchor);
    PresentIn([anchor], young);
    assert [] + [anchor] == [anchor] && [anchor] + [young] == [anchor, young];
  }

  /** A restart after a failed write brings a pending key back, hold-down and all, that a response had left out. */
  lemma RestartForgetsAbsence() returns (s: System, first: Event, second: Event, id: KeyId)
    ensures TrustedDespiteAbsence(s, first, second, id)
  {
    id := 1;
    var keys := AnchorAndPending();
    s := System(Restarted(keys), keys);
    var anchor, young := DnsKey(0, false, true, true, false, 0), DnsKey(1, false, true, true, false, 0);
    first := Event(Response([anchor], {0}), 1, Failed, Failed);
    second := Event(Response([anchor, young], {0}), ADD_HOLD_DOWN, Saved, Saved);
    PlainResponse(keys, first);
    PlainResponse(keys, second);
    OnlySecondCarries(first, second, anchor, young);
    AbsentButOnDisk(keys, first);
    assert Next(Next(s, Heard(first)), Restart) == s;
    GraduatesNow(keys, second);
    AnchorAndPendingIsSound();
  }
}
