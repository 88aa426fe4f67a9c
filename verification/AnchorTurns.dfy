/**
  What a response does to each key, told in the fields of its records: which keys
  may be learned, and what becomes of the known ones.
 */
module AnchorTurns {
  import opened TrustAnchors
  import opened AnchorRestarts

  const THIRTY_DAYS := 2592000

  // ---------- what a response shows ----------

  /** Of several records of one key, the last one counts. */
  ghost predicate LastRecord(records: seq<DnsKey>, id: KeyId, k: DnsKey) {
    k.id == id && exists i :: 0 <= i < |records| && records[i] == k
                              && forall j | i < j < |records| :: records[j].id != id
  }

  lemma {:induction false} PresentIff(records: seq<DnsKey>, id: KeyId, k: DnsKey)
    ensures id in Present(records) && Present(records)[id] == k <==> LastRecord(records, id, k)
    ensures id in Present(records) <==> exists i :: 0 <= i < |records| && records[i].id == id
  {
    if records != [] {
      var n, init := |records| - 1, records[..|records| - 1];
      PresentIff(init, id, k);
      assert records[n].id == id ==> (LastRecord(records, id, k) <==> records[n] == k);
      if records[n].id != id {
        assert LastRecord(init, id, k) <==> LastRecord(records, id, k) by {
          assert forall i | 0 <= i < n :: init[i] == records[i];
        }
        assert forall i | 0 <= i < n :: init[i] == records[i];
      }
    }
  }

  ghost predicate Trusted(keys: Keys, id: KeyId) {
    id in keys && (keys[id].state == Valid || keys[id].state == Missing)
  }

  /** A trusted key appears revoked, under its own signature. */
  ghost predicate Retracts(keys: Keys, records: seq<DnsKey>, id: KeyId) {
    Trusted(keys, id) && exists k :: k in records && k.id == id && k.revoked && k.selfSigned
  }

  /** A trusted key has signed the response, and if it retracts any key, that has been saved. */
  ghost predicate Heeded(keys: Keys, e: Event) {
    && (exists v :: v in e.response.signedBy && Trusted(keys, v))
    && ((exists id :: Retracts(keys, e.response.records, id)) ==> e.savesRevocation == Saved)
  }

  lemma HeededIff(keys: Keys, e: Event)
    ensures Observed(keys, e) <==> Heeded(keys, e)
    ensures forall id :: RevokedBy(keys, e.response.records, id) <==> Retracts(keys, e.response.records, id)
  {
    forall id ensures RevokedBy(keys, e.response.records, id) <==> Retracts(keys, e.response.records, id) {
      if k :| k in e.response.records && k.id == id && k.revoked && k.selfSigned {
        assert ProvesRevocation(k, id);
      }
    }
    if v :| v in e.response.signedBy && Trusted(keys, v) {
      assert v in Validators(keys, e.response);
    }
    if v :| v in Validators(keys, e.response) {
      assert v in e.response.signedBy && Trusted(keys, v);
    }
  }

  // ---------- the turn of one key ----------

  /** The record may be learned: a secure entry point of a usable algorithm, not revoked. */
  ghost predicate MayBeLearned(records: seq<DnsKey>, id: KeyId) {
    exists k :: LastRecord(records, id, k) && k.rootSep && !k.disabled && !k.revoked
  }

  ghost predicate CarriesUnrevoked(records: seq<DnsKey>, id: KeyId) {
    exists k :: LastRecord(records, id, k) && !k.revoked
  }

  ghost predicate Mentions(records: seq<DnsKey>, id: KeyId) {
    exists i :: 0 <= i < |records| && records[i].id == id
  }

  /** An unknown key is learned exactly from a heeded response with such a record, for a whole hold-down. */
  lemma UnknownKeyTurn(keys: Keys, e: Event, id: KeyId)
    requires id !in keys
    ensures id in KeysAfter(keys, e) <==> Heeded(keys, e) && MayBeLearned(e.response.records, id)
    ensures forall k | id in KeysAfter(keys, e) && LastRecord(e.response.records, id, k) ::
              KeysAfter(keys, e)[id] ==
                KeyState(AddPending, e.now, e.now, if k.ttl > THIRTY_DAYS then k.ttl else THIRTY_DAYS,
                         set v | v in e.response.signedBy && Trusted(keys, v))
  {
    HeededIff(keys, e);
    var present := Present(e.response.records);
    forall k ensures id in present && present[id] == k <==> LastRecord(e.response.records, id, k) {
      PresentIff(e.response.records, id, k);
    }
    if id in present {
      assert LastRecord(e.response.records, id, present[id]);
    }
    assert Validators(keys, e.response) == set v | v in e.response.signedBy && Trusted(keys, v);
  }

  /** A key that vouched for a pending one is trusted, and stays so in this response. */
  ghost predicate VoucherLeft(keys: Keys, e: Event, id: KeyId)
    requires id in keys
  {
    exists v :: v in keys[id].validatedBy && Trusted(keys, v) && !Retracts(keys, e.response.records, v)
  }

  /**
    A pending key waits out its hold-down in heeded responses that carry it unrevoked, while
    a key that vouched for it is left; in any other heeded response it is forgotten, if only
    to be learned anew.
   */
  lemma PendingKeyTurn(keys: Keys, e: Event, id: KeyId)
    requires id in keys && keys[id].state == AddPending
    ensures var s, after := keys[id], KeysAfter(keys, e);
            var stays := CarriesUnrevoked(e.response.records, id) && VoucherLeft(keys, e, id);
            if !Heeded(keys, e) then id in after && after[id] == s
            else if !stays then
              id in after ==> MayBeLearned(e.response.records, id) && after[id].state == AddPending
                              && after[id].firstSeen == e.now
            else if e.now < s.firstSeen + s.holdDown then id in after && after[id] == s
            else id in after && after[id].state == Valid && after[id].stateSince == e.now
  {
    HeededIff(keys, e);
    var records := e.response.records;
    var present, revoked := Present(records), AfterRevocations(keys, records, e.now);
    assert revoked[id] == keys[id];
    forall k ensures id in present && present[id] == k <==> LastRecord(records, id, k) {
      PresentIff(records, id, k);
    }
    if id in present {
      assert LastRecord(records, id, present[id]);
    }
    VoucherIff(keys, e, id);
  }

  lemma VoucherIff(keys: Keys, e: Event, id: KeyId)
    requires id in keys
    ensures AnyValidatorRemaining(keys[id].validatedBy, AfterRevocations(keys, e.response.records, e.now))
            <==> VoucherLeft(keys, e, id)
  {
    HeededIff(keys, e);
    var revoked := AfterRevocations(keys, e.response.records, e.now);
    forall v | v in keys ensures Usable(revoked[v]) <==> Trusted(keys, v) && !Retracts(keys, e.response.records, v) {
    }
    if v :| v in keys[id].validatedBy && Trusted(keys, v) && !Retracts(keys, e.response.records, v) {
      assert v in revoked && Usable(revoked[v]);
    }
  }

  /** A trusted key is revoked as soon as it retracts itself; else a heeded response finds it valid or missing. */
  lemma TrustedKeyTurn(keys: Keys, e: Event, id: KeyId)
    requires Trusted(keys, id)
    ensures var after := KeysAfter(keys, e);
            && id in after
            && if Retracts(keys, e.response.records, id) then
                 after[id].state == Revoked && after[id].stateSince == e.now
               else if !Heeded(keys, e) then after[id] == keys[id]
               else after[id].state == if Mentions(e.response.records, id) then Valid else Missing
  {
    HeededIff(keys, e);
    PresentIff(e.response.records, id, DnsKey(id, false, false, false, false, 0));
    var revoked := AfterRevocations(keys, e.response.records, e.now);
    if Retracts(keys, e.response.records, id) {
      var k :| k in e.response.records && k.id == id && k.revoked && k.selfSigned;
      assert Mentions(e.response.records, id) by {
        var i :| 0 <= i < |e.response.records| && e.response.records[i] == k;
      }
      assert revoked[id].state == Revoked && id in Present(e.response.records);
    }
  }

  /** A revoked key is removed exactly by a heeded response without it, thirty days later; it is never anything else. */
  lemma RevokedKeyTurn(keys: Keys, e: Event, id: KeyId)
    requires id in keys && (keys[id].state == Revoked || keys[id].state == Removed)
    ensures var s, after := keys[id], KeysAfter(keys, e);
            && id in after
            && after[id].state ==
                 if s.state == Removed || (Heeded(keys, e) && !Mentions(e.response.records, id)
                                           && e.now >= s.stateSince + THIRTY_DAYS)
                 then Removed else Revoked
  {
    HeededIff(keys, e);
    PresentIff(e.response.records, id, DnsKey(id, false, false, false, false, 0));
  }

  /** After a heeded response that is saved, exactly the trusted keys are live. */
  lemma LiveAnchors(m: Manager, e: Event)
    requires Heeded(m.keys, e) && e.saves == Saved
    ensures forall id :: id in Step(m, e).published <==> Trusted(Step(m, e).keys, id)
  {
    HeededIff(m.keys, e);
  }

  lemma RetractedIsNotLive(m: Manager, e: Event, id: KeyId)
    requires Retracts(m.keys, e.response.records, id)
    ensures id !in Step(m, e).published
  {
    HeededIff(m.keys, e);
    TrustLostOnlyByRevocation(m, e, id);
  }

  // ---------- whole runs ----------

  /** A key that was not known at the start was learned from a heeded response that carried it as a fit record. */
  lemma {:induction false} KnownWasLearned(m: Manager, events: seq<Event>, id: KeyId, n: nat) returns (j: nat)
    requires n <= |events| && id !in m.keys && id in KeysBefore(m, events, n)
    ensures j < n && Heeded(KeysBefore(m, events, j), events[j])
    ensures MayBeLearned(events[j].response.records, id)
  {
    j := n - 1;
    if id in KeysBefore(m, events, j) {
      j := KnownWasLearned(m, events, id, j);
    } else {
      UnknownKeyTurn(KeysBefore(m, events, j), events[j], id);
    }
  }

  /** The same across restarts, for a key that neither the server nor the file knew. */
  lemma {:induction false} KnownWasLearnedAcrossRestarts(s: System, hs: seq<Happening>, id: KeyId, n: nat)
    returns (j: nat)
    requires n <= |hs| && id !in s.live.keys && id !in s.disk
    requires id in Before(s, hs, n).live.keys || id in Before(s, hs, n).disk
    ensures j < n && hs[j].Heard? && Heeded(Before(s, hs, j).live.keys, hs[j].event)
    ensures MayBeLearned(hs[j].event.response.records, id)
  {
    assert hs[..0] == [];
    j := n - 1;
    var b := Before(s, hs, j);
    BeforeNext(s, hs, j, n);
    if id in b.live.keys || id in b.disk {
      j := KnownWasLearnedAcrossRestarts(s, hs, id, j);
    } else {
      UnknownKeyTurn(b.live.keys, hs[j].event, id);
    }
  }

  /**
    The state file after a response: all keys, if they were saved; else, if the revocations
    were, the keys with just those made; else what it was.
   */
  lemma FileAfter(disk: Keys, keys: Keys, e: Event)
    ensures var after, retracts := DiskAfter(disk, keys, e), (exists id :: Retracts(keys, e.response.records, id));
      if Heeded(keys, e) && e.saves != Failed then after == KeysAfter(keys, e)
      else if retracts && e.savesRevocation != Failed then
        && after.Keys == keys.Keys
        && forall id | id in keys ::
             after[id] == if Retracts(keys, e.response.records, id)
                          then keys[id].(state := Revoked, stateSince := e.now) else keys[id]
      else after == disk
  {
    HeededIff(keys, e);
  }

  /** The records of a run carry each key with the flags that its identity stands for. */
  ghost predicate FlagsFit(hs: seq<Happening>, rootSep: KeyId -> bool) {
    forall j, k | 0 <= j < |hs| && hs[j].Heard? && k in hs[j].event.response.records :: k.rootSep == rootSep(k.id)
  }

  /** So a file written in any run holds secure entry points only, as reading it back asks. */
  lemma KnownKeysAreEntryPoints(s: System, hs: seq<Happening>, rootSep: KeyId -> bool, n: nat, id: KeyId)
    requires n <= |hs| && FlagsFit(hs, rootSep)
    requires forall x | x in s.live.keys || x in s.disk :: rootSep(x)
    requires id in Before(s, hs, n).live.keys || id in Before(s, hs, n).disk
    ensures rootSep(id)
  {
    if id !in s.live.keys && id !in s.disk {
      var j := KnownWasLearnedAcrossRestarts(s, hs, id, n);
      var k :| LastRecord(hs[j].event.response.records, id, k) && k.rootSep;
      assert k in hs[j].event.response.records;
    }
  }
}
