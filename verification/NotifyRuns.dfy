/**
  Runs of the NOTIFY coalescer from its start, told by their steps alone: what was last
  announced is read off the calls of Notify, what was sent off the deliveries begun.
 */
module NotifyRuns {
  import opened Wrappers
  import opened NotifyProtocol

  ghost predicate StepFits(t: Topology, steps: seq<Step>, states: seq<State>, k: nat, n: nat)
    requires k < |steps| && n < |states| && k < |states|
  {
    Enabled(states[k], steps[k]) && |states[k].queues| == t.workers && WellRouted(t)
    && states[n] == Next(t, states[k], steps[k])
  }

  /** The states a run passes through, before each step and at the end. */
  ghost predicate IsTrace(t: Topology, steps: seq<Step>, states: seq<State>) {
    && WellRouted(t) && |states| == |steps| + 1 && states[0] == Initial(t)
    && forall k, n | 0 <= k < |steps| && n == k + 1 :: StepFits(t, steps, states, k, n)
  }

  lemma {:induction false} TraceKeepsInvariant(t: Topology, steps: seq<Step>, states: seq<State>, n: nat)
    requires IsTrace(t, steps, states) && n <= |steps|
    ensures Invariant(t, states[n])
  {
    if n == 0 {
      InitialOk(t);
    } else {
      TraceKeepsInvariant(t, steps, states, n - 1);
      assert StepFits(t, steps, states, n - 1, n);
      StepKeepsInvariant(t, states[n - 1], steps[n - 1]);
    }
  }

  /** Neither closed nor cancelled in the first n steps. */
  predicate OpenUntil(steps: seq<Step>, n: nat)
    requires n <= |steps|
  {
    forall k | 0 <= k < n :: steps[k] != Close && steps[k] != Cancel
  }

  lemma {:induction false} StaysOpen(t: Topology, steps: seq<Step>, states: seq<State>, n: nat)
    requires IsTrace(t, steps, states) && n <= |steps| && OpenUntil(steps, n)
    ensures Open(states[n])
  {
    if n > 0 {
      StaysOpen(t, steps, states, n - 1);
      assert StepFits(t, steps, states, n - 1, n);
    }
  }

  predicate Announces(step: Step, z: Zone) {
    step.Notify? && step.zone == z
  }

  /** Of the first n steps, the i-th is the last to announce z. */
  predicate LastAnnounced(steps: seq<Step>, z: Zone, i: nat, n: nat)
    requires n <= |steps|
  {
    && i < n && Announces(steps[i], z)
    && forall j | i < j < n :: !Announces(steps[j], z)
  }

  lemma {:induction false} LatestIsAnnounced(t: Topology, steps: seq<Step>, states: seq<State>, z: Zone, i: nat, n: nat)
    requires IsTrace(t, steps, states) && n <= |steps| && OpenUntil(steps, n)
    requires z in t.zones && LastAnnounced(steps, z, i, n)
    ensures z in states[n].latest && states[n].latest[z] == steps[i].soa
  {
    var k := n - 1;
    assert StepFits(t, steps, states, k, n);
    StaysOpen(t, steps, states, k);
    if i < k {
      LatestIsAnnounced(t, steps, states, z, i, k);
    }
  }

  lemma OnlyConfiguredJoin(t: Topology, s: State, step: Step)
    requires Enabled(s, step) && |s.queues| == t.workers && WellRouted(t)
    ensures Next(t, s, step).latest.Keys <= s.latest.Keys + t.zones
  {
  }

  lemma {:induction false} OnlyConfigured(t: Topology, steps: seq<Step>, states: seq<State>, z: Zone, n: nat)
    requires IsTrace(t, steps, states) && n <= |steps| && z in states[n].latest
    ensures z in t.zones
  {
    var k := n - 1;
    assert StepFits(t, steps, states, k, n);
    OnlyConfiguredJoin(t, states[k], steps[k]);
    if z in states[k].latest {
      OnlyConfigured(t, steps, states, z, k);
    }
  }

  lemma {:induction false} LatestWasAnnounced(t: Topology, steps: seq<Step>, states: seq<State>, z: Zone, n: nat)
    returns (i: nat)
    requires IsTrace(t, steps, states) && n <= |steps| && OpenUntil(steps, n) && z in states[n].latest
    ensures z in t.zones && LastAnnounced(steps, z, i, n)
  {
    i := n - 1;
    assert StepFits(t, steps, states, i, n);
    StaysOpen(t, steps, states, i);
    OnlyConfigured(t, steps, states, z, n);
    if !Announces(steps[i], z) {
      i := LatestWasAnnounced(t, steps, states, z, i);
    }
  }

  /** The k-th step begins a delivery of z. */
  predicate Delivers(steps: seq<Step>, states: seq<State>, k: nat, z: Zone)
    requires |states| == |steps| + 1 && k < |steps|
  {
    steps[k].Take? && steps[k].worker < |states[k].workers| && states[k].workers[steps[k].worker] == Holding(z)
  }

  /** What the sender is given when the k-th step begins a delivery. */
  function Given(t: Topology, steps: seq<Step>, states: seq<State>, k: nat, n: nat): Option<Soa>
    requires |states| == |steps| + 1 && k < |steps| && n < |states|
  {
    if steps[k].Take? && steps[k].worker < |states[n].workers| && states[n].workers[steps[k].worker].Sending?
    then Some(states[n].workers[steps[k].worker].soa) else None
  }

  predicate LastDelivery(steps: seq<Step>, states: seq<State>, z: Zone, k: nat, n: nat)
    requires |states| == |steps| + 1 && n <= |steps|
  {
    && k < n && Delivers(steps, states, k, z)
    && forall j | k < j < n :: !Delivers(steps, states, j, z)
  }

  lemma TakenIsGiven(t: Topology, steps: seq<Step>, states: seq<State>, z: Zone, k: nat, n: nat)
    requires IsTrace(t, steps, states) && n == k + 1 <= |steps| && Delivers(steps, states, k, z)
    ensures z in states[n].handed && Given(t, steps, states, k, n) == Some(states[n].handed[z])
  {
    assert StepFits(t, steps, states, k, n);
  }

  lemma HandedStays(t: Topology, steps: seq<Step>, states: seq<State>, z: Zone, k: nat, n: nat)
    requires IsTrace(t, steps, states) && n == k + 1 <= |steps| && !Delivers(steps, states, k, z)
    ensures z in states[n].handed <==> z in states[k].handed
    ensures z in states[k].handed ==> states[n].handed[z] == states[k].handed[z]
  {
    assert StepFits(t, steps, states, k, n);
  }

  lemma {:induction false} HandedWasGiven(t: Topology, steps: seq<Step>, states: seq<State>, z: Zone, n: nat)
    returns (k: nat)
    requires IsTrace(t, steps, states) && n <= |steps| && z in states[n].handed
    ensures LastDelivery(steps, states, z, k, n)
    ensures Given(t, steps, states, k, k + 1) == Some(states[n].handed[z])
  {
    k := n - 1;
    if Delivers(steps, states, k, z) {
      TakenIsGiven(t, steps, states, z, k, n);
    } else {
      HandedStays(t, steps, states, z, k, n);
      k := HandedWasGiven(t, steps, states, z, k);
    }
  }

  /** An announced zone stays pending until a delivery takes it. */
  lemma {:induction false} PendingUntilTaken(t: Topology, steps: seq<Step>, states: seq<State>, z: Zone, i: nat, n: nat)
    requires IsTrace(t, steps, states) && i < n <= |steps| && OpenUntil(steps, n)
    requires z in t.zones && Announces(steps[i], z)
    requires forall k | i < k < n :: !Delivers(steps, states, k, z)
    ensures z in states[n].pending
  {
    var k := n - 1;
    assert StepFits(t, steps, states, k, n);
    StaysOpen(t, steps, states, k);
    if i < k {
      PendingUntilTaken(t, steps, states, z, i, k);
      assert !Delivers(steps, states, k, z);
    }
  }

  /** z is in no queue, and no worker holds or sends it. */
  predicate Idle(s: State, z: Zone) {
    && (forall w | 0 <= w < |s.queues| :: z !in s.queues[w])
    && forall w | 0 <= w < |s.workers| ::
         s.workers[w] != Holding(z) && !(s.workers[w].Sending? && s.workers[w].zone == z)
  }

  lemma IdleIsNotQueued(t: Topology, s: State, z: Zone)
    requires WellRouted(t) && Invariant(t, s) && Idle(s, z)
    ensures z !in s.queued
  {
    assert LineOk(t, s, t.route(z));
  }

  /**
    While the notifier is open, an idle zone's last announcement was followed by a delivery,
    and the last delivery was given just that SOA.
   */
  lemma IdleZoneGotLastAnnounced(t: Topology, steps: seq<Step>, states: seq<State>, z: Zone, i: nat) returns (k: nat)
    requires IsTrace(t, steps, states) && OpenUntil(steps, |steps|)
    requires z in t.zones && LastAnnounced(steps, z, i, |steps|) && Idle(states[|steps|], z)
    ensures i < k && LastDelivery(steps, states, z, k, |steps|)
    ensures Given(t, steps, states, k, k + 1) == Some(steps[i].soa)
  {
    var n := |steps|;
    var s := states[n];
    TraceKeepsInvariant(t, steps, states, n);
    StaysOpen(t, steps, states, n);
    IdleIsNotQueued(t, s, z);
    LatestIsAnnounced(t, steps, states, z, i, n);
    assert z in s.handed && s.handed[z] == s.latest[z];
    k := HandedWasGiven(t, steps, states, z, n);
    if k <= i {
      PendingUntilTaken(t, steps, states, z, i, n);
    }
  }

  /** A delivery begun while open is given the SOA last announced before it, and there is one. */
  lemma DeliveryGotLastAnnounced(t: Topology, steps: seq<Step>, states: seq<State>, z: Zone, k: nat) returns (i: nat)
    requires IsTrace(t, steps, states) && k < |steps| && OpenUntil(steps, k) && Delivers(steps, states, k, z)
    ensures z in t.zones && LastAnnounced(steps, z, i, k)
    ensures Given(t, steps, states, k, k + 1) == Some(steps[i].soa)
  {
    var s, w := states[k], steps[k].worker;
    TraceKeepsInvariant(t, steps, states, k);
    StaysOpen(t, steps, states, k);
    HeldZonesArePending(t, s, w);
    assert StepFits(t, steps, states, k, k + 1);
    i := LatestWasAnnounced(t, steps, states, z, k);
    LatestIsAnnounced(t, steps, states, z, i, k);
    TakenIsGiven(t, steps, states, z, k, k + 1);
  }

  lemma OnlyNotifyMakesPending(t: Topology, s: State, step: Step, z: Zone)
    requires Enabled(s, step) && |s.queues| == t.workers && WellRouted(t) && !Announces(step, z)
    requires z !in s.pending || (step.Take? && s.workers[step.worker] == Holding(z))
    ensures z !in Next(t, s, step).pending
  {
  }

  lemma {:induction false} TakenIsNotPending(t: Topology, steps: seq<Step>, states: seq<State>, z: Zone, k: nat, n: nat)
    requires IsTrace(t, steps, states) && k < n <= |steps| && Delivers(steps, states, k, z)
    requires forall j | k < j < n :: !Announces(steps[j], z)
    ensures z !in states[n].pending
  {
    var j := n - 1;
    assert StepFits(t, steps, states, j, n);
    if k < j {
      TakenIsNotPending(t, steps, states, z, k, j);
    }
    OnlyNotifyMakesPending(t, states[j], steps[j], z);
  }

  lemma {:induction false} SendingUntilFinished(t: Topology, steps: seq<Step>, states: seq<State>, z: Zone, k: nat,
                                                n: nat)
    requires IsTrace(t, steps, states) && k < n <= |steps| && Delivers(steps, states, k, z)
    requires forall j | k < j < n :: steps[j] != Finish(steps[k].worker)
    ensures var w := steps[k].worker;
            w < |states[n].workers| && states[n].workers[w].Sending? && states[n].workers[w].zone == z
  {
    var j := n - 1;
    assert StepFits(t, steps, states, j, n);
    if k < j {
      SendingUntilFinished(t, steps, states, z, k, j);
      TraceKeepsInvariant(t, steps, states, j);
      SendingGoesOn(t, states[j], steps[j], steps[k].worker);
    }
  }

  /** A delivery during which its zone is not announced again leaves the zone idle. */
  lemma UndisturbedDeliveryEnds(t: Topology, steps: seq<Step>, states: seq<State>, z: Zone, k: nat, m: nat, n: nat)
    requires IsTrace(t, steps, states) && k < m && n == m + 1 <= |steps| && Delivers(steps, states, k, z)
    requires steps[m] == Finish(steps[k].worker)
    requires forall j | k < j < m :: steps[j] != Finish(steps[k].worker) && !Announces(steps[j], z)
    ensures Idle(states[n], z)
  {
    SendingUntilFinished(t, steps, states, z, k, m);
    TakenIsNotPending(t, steps, states, z, k, m);
    assert StepFits(t, steps, states, m, n);
    TraceKeepsInvariant(t, steps, states, n);
    assert z !in states[n].queued;
    NotQueuedIsIdle(t, states[n], z);
  }

  lemma NotQueuedIsIdle(t: Topology, s: State, z: Zone)
    requires WellRouted(t) && Invariant(t, s) && z !in s.queued
    ensures Idle(s, z)
  {
    forall w | 0 <= w < t.workers ensures z !in Line(s, w) && z !in s.queues[w] {
      assert LineOk(t, s, w);
      assert forall x | x in s.queues[w] :: x in Line(s, w);
    }
    forall w | 0 <= w < |s.workers|
      ensures s.workers[w] != Holding(z) && !(s.workers[w].Sending? && s.workers[w].zone == z)
    {
      assert Busy(s.workers[w]) ==> Line(s, w)[0] == s.workers[w].zone;
    }
  }
}
