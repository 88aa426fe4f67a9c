/**
  The notifier object.  Its methods are the critical sections of the protocol;
  each is proved to be exactly one protocol step.
 */
module NotifyNotifier {
  import opened Wrappers
  import opened NotifyProtocol

  datatype NotifyError = Closed | AlreadyStarted

  /** Counts, for each worker, the zones routed to it. */
  method CountRoutes(t: Topology) returns (counts: seq<nat>)
    requires WellRouted(t)
    ensures |counts| == t.workers
    ensures forall w | 0 <= w < t.workers :: counts[w] == |Routed(t, t.zones, w)|
  {
    counts := seq(t.workers, _ => 0);
    var todo := t.zones;
    ghost var done: set<Zone> := {};
    while todo != {}
      invariant todo <= t.zones && done == t.zones - todo && |counts| == t.workers
      invariant forall w | 0 <= w < t.workers :: counts[w] == |Routed(t, done, w)|
      decreases |todo|
    {
      var z :| z in todo;
      todo := todo - {z};
      forall w | 0 <= w < t.workers
        ensures |Routed(t, done + {z}, w)| == |Routed(t, done, w)| + (if t.route(z) == w then 1 else 0)
      {
        assert Routed(t, done + {z}, w) == if t.route(z) == w then Routed(t, done, w) + {z} else Routed(t, done, w);
      }
      done := done + {z};
      counts := counts[t.route(z) := counts[t.route(z)] + 1];
    }
    assert done == t.zones;
  }

  class Notifier {
    const topology: Topology
    const capacities: seq<nat>

    var pending: map<Zone, Soa>
    var queued: set<Zone>
    var queues: seq<seq<Zone>>
    var workers: seq<Worker>
    var started: bool
    var closed: bool
    var alive: bool
    ghost var latest: map<Zone, Soa>
    ghost var handed: map<Zone, Soa>

    ghost function View(): State
      reads this
    {
      State(pending, queued, queues, workers, started, closed, alive, latest, handed)
    }

    ghost predicate Valid()
      reads this
    {
      && WellRouted(topology) && Invariant(topology, View())
      && |capacities| == topology.workers
      && forall w | 0 <= w < topology.workers :: capacities[w] == Capacity(topology, w)
    }

    constructor (t: Topology, routeCounts: seq<nat>)
      requires WellRouted(t) && |routeCounts| == t.workers
      requires forall w | 0 <= w < t.workers :: routeCounts[w] == |Routed(t, t.zones, w)|
      ensures Valid() && topology == t && View() == Initial(t)
    {
      topology := t;
      capacities := seq(t.workers, w requires 0 <= w < t.workers => routeCounts[w] + 1);
      pending, queued := map[], {};
      queues := seq(t.workers, _ => []);
      workers := seq(t.workers, _ => Exited);
      started, closed, alive := false, false, true;
      latest, handed := map[], map[];
      new;
      InitialOk(t);
    }

    /** A channel send under the lock; the precondition is that it cannot block. */
    method Send(z: Zone)
      requires topology.route(z) < |queues| == |capacities|
      requires |queues[topology.route(z)]| < capacities[topology.route(z)]
      modifies this`queues
      ensures queues == old(queues)[topology.route(z) := old(queues)[topology.route(z)] + [z]]
    {
      var w := topology.route(z);
      queues := queues[w := queues[w] + [z]];
    }

    method Start() returns (error: Option<NotifyError>)
      requires Valid()
      modifies this
      ensures Valid()
      ensures error.None? <==> old(Enabled(View(), Step.Start))
      ensures View() == if error.None? then Next(topology, old(View()), Step.Start) else old(View())
    {
      if closed {
        return Some(Closed);
      }
      if started {
        return Some(AlreadyStarted);
      }
      StepKeepsInvariant(topology, View(), Step.Start);
      started := true;
      workers := seq(|workers|, _ => Waiting);
      return None;
    }

    /** Records the newest SOA; a zone already queued or being delivered is not queued again. */
    method Notify(z: Zone, soa: Soa) returns (error: Option<NotifyError>)
      requires Valid()
      modifies this
      ensures Valid() && View() == Next(topology, old(View()), Step.Notify(z, soa))
      ensures error.Some? <==> z in topology.zones && closed
      ensures if z in topology.zones && !old(closed)
              then pending == old(pending)[z := soa] && latest == old(latest)[z := soa]
              else pending == old(pending) && latest == old(latest)
    {
      StepKeepsInvariant(topology, View(), Step.Notify(z, soa));
      if z !in topology.zones {
        return None;
      }
      if closed {
        return Some(Closed);
      }
      if SendsTo(topology, View(), Step.Notify(z, soa)).Some? {
        SendHasRoom(topology, View(), Step.Notify(z, soa));
      }
      pending := pending[z := soa];
      latest := latest[z := soa];
      if z in queued {
        return None;
      }
      queued := queued + {z};
      Send(z);
      return None;
    }

    /** A worker takes the next zone off its queue. */
    method Receive(w: nat) returns (z: Zone)
      requires Valid() && Enabled(View(), Step.Receive(w))
      modifies this
      ensures Valid() && View() == Next(topology, old(View()), Step.Receive(w))
      ensures workers[w] == Holding(z)
    {
      StepKeepsInvariant(topology, View(), Step.Receive(w));
      z := queues[w][0];
      queues := queues[w := queues[w][1..]];
      workers := workers[w := Holding(z)];
    }

    /** The first critical section of a delivery: the SOA to send, no longer pending. */
    method Take(w: nat) returns (soa: Soa)
      requires Valid() && Enabled(View(), Step.Take(w))
      modifies this
      ensures Valid() && View() == Next(topology, old(View()), Step.Take(w))
      ensures workers[w] == Sending(old(workers)[w].zone, soa)
    {
      StepKeepsInvariant(topology, View(), Step.Take(w));
      var z := workers[w].zone;
      soa := if z in pending then pending[z] else NoSoa;
      pending := pending - {z};
      workers := workers[w := Sending(z, soa)];
      handed := handed[z := soa];
    }

    /** The last critical section of a delivery: queue the zone again if it changed meanwhile. */
    method FinishDelivery(w: nat)
      requires Valid() && Enabled(View(), Step.Finish(w))
      modifies this
      ensures Valid() && View() == Next(topology, old(View()), Step.Finish(w))
    {
      StepKeepsInvariant(topology, View(), Step.Finish(w));
      var z := workers[w].zone;
      if SendsTo(topology, View(), Step.Finish(w)).Some? {
        SendHasRoom(topology, View(), Step.Finish(w));
      }
      if z in pending && !closed && alive {
        workers := workers[w := Waiting];
        Send(z);
      } else {
        workers := workers[w := Waiting];
        queued := queued - {z};
        pending := pending - {z};
      }
    }

    /** The context ends, by its parent or by Close. */
    method Cancel()
      requires Valid() && started
      modifies this
      ensures Valid() && View() == Next(topology, old(View()), Step.Cancel)
    {
      StepKeepsInvariant(topology, View(), Step.Cancel);
      alive := false;
    }

    /** Marks the notifier closed and discards what is pending; Cancel then stops the workers. */
    method Close()
      requires Valid()
      modifies this
      ensures Valid() && View() == Next(topology, old(View()), Step.Close)
    {
      StepKeepsInvariant(topology, View(), Step.Close);
      if closed {
        return;
      }
      closed := true;
      pending := map[];
    }

    /** An idle worker whose context has ended returns. */
    method ExitWorker(w: nat)
      requires Valid() && Enabled(View(), Step.Exit(w))
      modifies this
      ensures Valid() && View() == Next(topology, old(View()), Step.Exit(w))
    {
      StepKeepsInvariant(topology, View(), Step.Exit(w));
      workers := workers[w := Exited];
    }
  }
}
