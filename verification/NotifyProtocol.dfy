/**
  The outbound NOTIFY coalescer as a protocol: every critical section of the
  notifier and its workers is one atomic step, and a run is any interleaving.
 */
module NotifyProtocol {
  import opened Wrappers
  import opened Sequences

  type Zone = string

  /** The SOA to announce; a caller may have none. */
  datatype Soa = NoSoa | Soa(serial: nat)

  /** A worker waits, holds a zone it has just received, is sending for it, or has exited. */
  datatype Worker = Waiting | Holding(zone: Zone) | Sending(zone: Zone, soa: Soa) | Exited

  /** route sends each zone to one fixed worker. */
  datatype Topology = Topology(workers: nat, zones: set<Zone>, route: Zone -> nat)

  ghost predicate WellRouted(t: Topology) {
    forall z :: t.route(z) < t.workers
  }

  function Routed(t: Topology, zones: set<Zone>, w: nat): set<Zone> {
    set z | z in zones && t.route(z) == w
  }

  /** A queue has room for every zone routed to it, and one more. */
  function Capacity(t: Topology, w: nat): nat {
    |Routed(t, t.zones, w)| + 1
  }

  /** latest and handed record what was last passed to Notify and to the sender. */
  datatype State = State(
    pending: map<Zone, Soa>,
    queued: set<Zone>,
    queues: seq<seq<Zone>>,
    workers: seq<Worker>,
    started: bool,
    closed: bool,
    alive: bool,
    latest: map<Zone, Soa>,
    handed: map<Zone, Soa>)

  function Initial(t: Topology): State {
    State(map[], {}, seq(t.workers, _ => []), seq(t.workers, _ => Exited), false, false, true, map[], map[])
  }

  datatype Step =
    | Start
    | Notify(zone: Zone, soa: Soa)
    | Receive(worker: nat)
    | Take(worker: nat)
    | Finish(worker: nat)
    | Exit(worker: nat)
    | Cancel
    | Close

  predicate Busy(w: Worker) {
    w.Holding? || w.Sending?
  }

  /** Whether the step can happen at all; a send on a full queue is a matter of its own. */
  predicate Enabled(s: State, step: Step) {
    match step
    case Start => !s.started && !s.closed
    case Notify(_, _) => true
    case Receive(w) => w < |s.workers| == |s.queues| && s.workers[w].Waiting? && s.queues[w] != []
    case Take(w) => w < |s.workers| && s.workers[w].Holding?
    case Finish(w) => w < |s.workers| == |s.queues| && s.workers[w].Sending?
    case Exit(w) => w < |s.workers| && s.workers[w].Waiting? && !s.alive
    case Cancel => s.started
    case Close => true
  }

  /** A finished delivery is followed by another if the zone changed meanwhile. */
  predicate Requeues(s: State, z: Zone) {
    z in s.pending && !s.closed && s.alive
  }

  function Enqueue(t: Topology, s: State, z: Zone): State
    requires t.route(z) < |s.queues|
  {
    s.(queues := s.queues[t.route(z) := s.queues[t.route(z)] + [z]])
  }

  function Next(t: Topology, s: State, step: Step): State
    requires Enabled(s, step) && |s.queues| == t.workers
    requires forall z :: t.route(z) < t.workers
  {
    match step
    case Start => s.(started := true, workers := seq(|s.workers|, _ => Waiting))
    case Notify(z, soa) =>
      if z !in t.zones || s.closed then s
      else
        var noted := s.(pending := s.pending[z := soa], latest := s.latest[z := soa]);
        if z in s.queued then noted
        else Enqueue(t, noted.(queued := s.queued + {z}), z)
    case Receive(w) =>
      s.(queues := s.queues[w := s.queues[w][1..]], workers := s.workers[w := Holding(s.queues[w][0])])
    case Take(w) =>
      var z := s.workers[w].zone;
      var soa := if z in s.pending then s.pending[z] else NoSoa;
      s.(pending := s.pending - {z}, workers := s.workers[w := Sending(z, soa)], handed := s.handed[z := soa])
    case Finish(w) =>
      var z := s.workers[w].zone;
      var free := s.(workers := s.workers[w := Waiting]);
      if Requeues(s, z) then Enqueue(t, free, z)
      else free.(queued := s.queued - {z}, pending := s.pending - {z})
    case Exit(w) => s.(workers := s.workers[w := Exited])
    case Cancel => s.(alive := false)
    case Close => if s.closed then s else s.(closed := true, pending := map[])
  }

  /** The queue a step sends on, if it sends at all. */
  function SendsTo(t: Topology, s: State, step: Step): Option<nat>
    requires Enabled(s, step)
  {
    match step
    case Notify(z, _) => if z in t.zones && !s.closed && z !in s.queued then Some(t.route(z)) else None
    case Finish(w) => if Requeues(s, s.workers[w].zone) then Some(t.route(s.workers[w].zone)) else None
    case _ => None
  }

  // ---------- the invariant ----------

  /** The zone worker w is busy with, if any, followed by those waiting for it. */
  function Line(s: State, w: nat): seq<Zone>
    requires w < |s.workers| == |s.queues|
  {
    (if Busy(s.workers[w]) then [s.workers[w].zone] else []) + s.queues[w]
  }

  /** Worker w's line holds exactly the queued zones routed to it, each once. */
  ghost predicate LineOk(t: Topology, s: State, w: nat)
    requires w < |s.workers| == |s.queues|
  {
    && NoDuplicates(Line(s, w))
    && forall z :: z in Line(s, w) <==> z in s.queued && t.route(z) == w
  }

  ghost predicate LinesOk(t: Topology, s: State) {
    && |s.queues| == |s.workers| == t.workers
    && s.queued <= t.zones
    && forall w | 0 <= w < t.workers :: LineOk(t, s, w)
  }

  predicate IsSending(s: State, z: Zone) {
    exists w :: 0 <= w < |s.workers| && s.workers[w].Sending? && s.workers[w].zone == z
  }

  /** Open for business: not closed, and its context, once there is one, not cancelled. */
  predicate Open(s: State) {
    !s.closed && s.alive
  }

  /** A pending zone is in some line; a zone in line but no longer pending is being sent. */
  ghost predicate PendingOk(s: State) {
    && s.pending.Keys <= s.queued
    && (!s.closed ==> forall z | z in s.queued :: z in s.pending || IsSending(s, z))
  }

  /** Whatever was last passed to Notify is pending or is what the sender was last given. */
  ghost predicate NothingLost(s: State) {
    Open(s) ==> forall z | z in s.latest ::
      if z in s.pending then s.pending[z] == s.latest[z] else z in s.handed && s.handed[z] == s.latest[z]
  }

  ghost predicate Invariant(t: Topology, s: State) {
    && LinesOk(t, s) && PendingOk(s) && NothingLost(s)
    && (!s.started ==> forall w | 0 <= w < |s.workers| :: s.workers[w].Exited?)
    && (!s.closed ==> s.pending.Keys <= s.latest.Keys)
  }

  lemma InitialOk(t: Topology)
    ensures Invariant(t, Initial(t))
  {
  }

  // ---------- each step keeps it ----------

  lemma AppendedLine(t: Topology, s: State, s': State, z: Zone)
    requires LinesOk(t, s) && z in t.zones && z !in s.queued && t.route(z) < t.workers
    requires s'.workers == s.workers && s'.queued == s.queued + {z}
    requires s'.queues == s.queues[t.route(z) := s.queues[t.route(z)] + [z]]
    ensures LinesOk(t, s')
  {
    forall w | 0 <= w < t.workers ensures LineOk(t, s', w) {
      assert LineOk(t, s, w);
      if w == t.route(z) {
        assert Line(s', w) == Line(s, w) + [z];
      } else {
        assert Line(s', w) == Line(s, w);
      }
    }
  }

  lemma SameLines(t: Topology, s: State, s': State)
    requires LinesOk(t, s) && s'.queued == s.queued && |s'.workers| == |s.workers| && |s'.queues| == |s.queues|
    requires forall w | 0 <= w < |s.workers| :: Line(s', w) == Line(s, w)
    ensures LinesOk(t, s')
  {
    forall w | 0 <= w < t.workers ensures LineOk(t, s', w) {
      assert LineOk(t, s, w);
    }
  }

  lemma TailOfDistinct(line: seq<Zone>)
    requires NoDuplicates(line) && line != []
    ensures NoDuplicates(line[1..]) && forall z :: z in line[1..] <==> z in line && z != line[0]
  {
    forall z | z in line && z != line[0] ensures z in line[1..] {
      var i :| 0 <= i < |line| && line[i] == z;
      assert line[1..][i - 1] == z;
    }
    forall z | z in line[1..] ensures z in line && z != line[0] {
      var i :| 0 <= i < |line[1..]| && line[1..][i] == z;
      assert line[i + 1] == z;
    }
  }

  lemma FinishedLine(t: Topology, s: State, w: nat)
    requires LinesOk(t, s) && Enabled(s, Finish(w)) && WellRouted(t)
    ensures LinesOk(t, Next(t, s, Finish(w)))
  {
    var z, s' := s.workers[w].zone, Next(t, s, Finish(w));
    assert LineOk(t, s, w);
    assert Line(s, w)[0] == z && Line(s, w)[1..] == s.queues[w] && z in Line(s, w);
    assert t.route(z) == w;
    FinishedOwnLine(t, s, w);
    forall v | 0 <= v < t.workers ensures LineOk(t, s', v) {
      assert LineOk(t, s, v);
      if v != w {
        assert Line(s', v) == Line(s, v);
      }
    }
  }

  lemma FinishedOwnLine(t: Topology, s: State, w: nat)
    requires LinesOk(t, s) && Enabled(s, Finish(w)) && WellRouted(t) && t.route(s.workers[w].zone) == w
    ensures LineOk(t, Next(t, s, Finish(w)), w)
  {
    var z, s' := s.workers[w].zone, Next(t, s, Finish(w));
    assert LineOk(t, s, w);
    var line := Line(s, w);
    assert line[0] == z && line[1..] == s.queues[w] && z in line;
    TailOfDistinct(line);
    RotatedLine(line);
    if Requeues(s, z) {
      assert Line(s', w) == line[1..] + [z];
    } else {
      assert Line(s', w) == line[1..];
    }
  }

  lemma RotatedLine(line: seq<Zone>)
    requires NoDuplicates(line) && line != []
    ensures NoDuplicates(line[1..] + [line[0]]) && forall z :: z in line[1..] + [line[0]] <==> z in line
  {
    TailOfDistinct(line);
  }

  lemma NotifyKeepsLines(t: Topology, s: State, z: Zone, soa: Soa)
    requires WellRouted(t) && LinesOk(t, s)
    ensures LinesOk(t, Next(t, s, Notify(z, soa)))
  {
    var s' := Next(t, s, Notify(z, soa));
    if z in t.zones && !s.closed && z !in s.queued {
      AppendedLine(t, s, s', z);
    } else {
      SameLines(t, s, s');
    }
  }

  lemma ReceiveKeepsLines(t: Topology, s: State, w: nat)
    requires WellRouted(t) && LinesOk(t, s) && Enabled(s, Receive(w))
    ensures LinesOk(t, Next(t, s, Receive(w)))
  {
    assert s.queues[w] == [s.queues[w][0]] + s.queues[w][1..];
    SameLines(t, s, Next(t, s, Receive(w)));
  }

  lemma StepKeepsLines(t: Topology, s: State, step: Step)
    requires WellRouted(t) && LinesOk(t, s) && Enabled(s, step)
    requires !s.started ==> forall w | 0 <= w < |s.workers| :: s.workers[w].Exited?
    ensures LinesOk(t, Next(t, s, step))
  {
    match step
    case Notify(z, soa) => NotifyKeepsLines(t, s, z, soa);
    case Finish(w) => FinishedLine(t, s, w);
    case Receive(w) => ReceiveKeepsLines(t, s, w);
    case _ => SameLines(t, s, Next(t, s, step));
  }

  /** A worker that is sending goes on sending through every step but its own last one. */
  lemma SendingGoesOn(t: Topology, s: State, step: Step, w: nat)
    requires WellRouted(t) && |s.queues| == t.workers && Enabled(s, step)
    requires w < |s.workers| && s.workers[w].Sending? && step != Finish(w)
    requires !s.started ==> forall v | 0 <= v < |s.workers| :: s.workers[v].Exited?
    ensures w < |Next(t, s, step).workers| && Next(t, s, step).workers[w] == s.workers[w]
  {
  }

  /** In an open notifier a queued zone stays pending or being sent through every step. */
  lemma QueuedZoneIsKnown(t: Topology, s: State, step: Step, z: Zone)
    requires WellRouted(t) && |s.queues| == t.workers && Enabled(s, step)
    requires !s.started ==> forall v | 0 <= v < |s.workers| :: s.workers[v].Exited?
    requires z in s.queued ==> z in s.pending || IsSending(s, z)
    requires !Next(t, s, step).closed && z in Next(t, s, step).queued
    ensures z in Next(t, s, step).pending || IsSending(Next(t, s, step), z)
  {
    if z in s.queued && z !in s.pending {
      var w :| 0 <= w < |s.workers| && s.workers[w].Sending? && s.workers[w].zone == z;
      if step != Finish(w) {
        SendingGoesOn(t, s, step, w);
      }
    } else if step.Take? {
      TakenIsSent(t, s, step.worker);
    }
  }

  lemma TakenIsSent(t: Topology, s: State, w: nat)
    requires WellRouted(t) && |s.queues| == t.workers && Enabled(s, Take(w))
    ensures IsSending(Next(t, s, Take(w)), s.workers[w].zone)
  {
    assert Next(t, s, Take(w)).workers[w].Sending?;
  }

  lemma StepKeepsPending(t: Topology, s: State, step: Step)
    requires WellRouted(t) && Invariant(t, s) && Enabled(s, step)
    ensures PendingOk(Next(t, s, step))
  {
    var s' := Next(t, s, step);
    forall z | z in s'.queued && !s'.closed ensures z in s'.pending || IsSending(s', z) {
      QueuedZoneIsKnown(t, s, step, z);
    }
    match step
    case Take(w) => assert LineOk(t, s, w) && Line(s, w)[0] == s.workers[w].zone;
    case _ =>
  }

  lemma StepLosesNothing(t: Topology, s: State, step: Step)
    requires WellRouted(t) && Invariant(t, s) && Enabled(s, step)
    ensures NothingLost(Next(t, s, step))
  {
    match step
    case Take(w) =>
      var z := s.workers[w].zone;
      assert LineOk(t, s, w) && Line(s, w)[0] == z;
      if !s.closed && z !in s.pending {
        HeldZonesArePending(t, s, w);
      }
    case Start =>
    case _ =>
  }

  /** While open, a worker that has received a zone will find its SOA. */
  lemma HeldZonesArePending(t: Topology, s: State, w: nat)
    requires LinesOk(t, s) && PendingOk(s) && !s.closed
    requires w < |s.workers| && s.workers[w].Holding?
    ensures s.workers[w].zone in s.pending
  {
    var z := s.workers[w].zone;
    assert LineOk(t, s, w) && Line(s, w)[0] == z && z in Line(s, w);
    forall v | 0 <= v < |s.workers| && Busy(s.workers[v]) && s.workers[v].zone == z ensures v == t.route(z) {
      assert LineOk(t, s, v) && Line(s, v)[0] == z;
      assert z in Line(s, v);
    }
  }

  lemma StepKeepsInvariant(t: Topology, s: State, step: Step)
    requires WellRouted(t) && Invariant(t, s) && Enabled(s, step)
    ensures Invariant(t, Next(t, s, step))
  {
    StepKeepsLines(t, s, step);
    StepKeepsPending(t, s, step);
    StepLosesNothing(t, s, step);
  }

  // ---------- whole runs ----------

  ghost predicate IsRun(t: Topology, s: State, steps: seq<Step>, end: State)
    decreases |steps|
  {
    if steps == [] then s == end
    else Enabled(s, steps[0]) && |s.queues| == t.workers && WellRouted(t)
         && IsRun(t, Next(t, s, steps[0]), steps[1..], end)
  }

  ghost predicate Reachable(t: Topology, s: State) {
    exists steps :: IsRun(t, Initial(t), steps, s)
  }

  lemma {:induction false} RunKeepsInvariant(t: Topology, s: State, steps: seq<Step>, end: State)
    requires WellRouted(t) && Invariant(t, s) && IsRun(t, s, steps, end)
    ensures Invariant(t, end)
    decreases |steps|
  {
    if steps != [] {
      StepKeepsInvariant(t, s, steps[0]);
      RunKeepsInvariant(t, Next(t, s, steps[0]), steps[1..], end);
    }
  }

  lemma ReachableOk(t: Topology, s: State)
    requires WellRouted(t) && Reachable(t, s)
    ensures Invariant(t, s)
  {
    InitialOk(t);
    var steps :| IsRun(t, Initial(t), steps, s);
    RunKeepsInvariant(t, Initial(t), steps, s);
  }

  lemma SendHasRoom(t: Topology, s: State, step: Step)
    requires WellRouted(t) && LinesOk(t, s) && Enabled(s, step) && SendsTo(t, s, step).Some?
    ensures var w := SendsTo(t, s, step).value; w < |s.queues| && |s.queues[w]| < Capacity(t, w)
  {
    var w := SendsTo(t, s, step).value;
    assert LineOk(t, s, w);
    forall z | z in Line(s, w) ensures z in Routed(t, t.zones, w) {
    }
    DistinctIsShort(Line(s, w), Routed(t, t.zones, w));
  }

  /** Sends made while the lock is held never block: the queue always has room. */
  lemma SendsNeverBlock(t: Topology, s: State, step: Step)
    requires WellRouted(t) && Reachable(t, s) && Enabled(s, step) && SendsTo(t, s, step).Some?
    ensures var w := SendsTo(t, s, step).value; w < |s.queues| && |s.queues[w]| < Capacity(t, w)
  {
    ReachableOk(t, s);
    SendHasRoom(t, s, step);
  }

  lemma {:induction false} DistinctIsShort(line: seq<Zone>, all: set<Zone>)
    requires NoDuplicates(line) && forall z | z in line :: z in all
    ensures |line| <= |all|
  {
    if line != [] {
      var last, init := line[|line| - 1], line[..|line| - 1];
      assert last !in init;
      DistinctIsShort(init, all - {last});
    }
  }

  /** No zone is ever in two deliveries, nor both delivered and waiting in a queue. */
  lemma DeliveriesNeverOverlap(t: Topology, s: State, v: nat, w: nat)
    requires WellRouted(t) && Reachable(t, s) && v < |s.workers| && w < |s.workers| == |s.queues|
    requires Busy(s.workers[v])
    ensures v != w && Busy(s.workers[w]) ==> s.workers[v].zone != s.workers[w].zone
    ensures s.workers[v].zone !in s.queues[w]
  {
    ReachableOk(t, s);
    var z := s.workers[v].zone;
    assert LineOk(t, s, v) && LineOk(t, s, w);
    assert Line(s, v)[0] == z && Line(s, v)[1..] == s.queues[v];
    TailOfDistinct(Line(s, v));
    assert forall x | x in s.queues[w] :: x in Line(s, w);
    if Busy(s.workers[w]) {
      assert Line(s, w)[0] == s.workers[w].zone;
      assert s.workers[w].zone in Line(s, w) && z in Line(s, v);
    }
  }

  /** While open, a pending zone is queued or in delivery, so a later delivery will pick it up. */
  lemma PendingIsNeverStranded(t: Topology, s: State, z: Zone)
    requires WellRouted(t) && Reachable(t, s) && z in s.pending
    ensures t.route(z) < |s.workers| == |s.queues| && z in Line(s, t.route(z))
  {
    ReachableOk(t, s);
    assert LineOk(t, s, t.route(z));
  }

  /** While open, an idle zone's last announced SOA is the last one handed to the sender. */
  lemma IdleZoneIsUpToDate(t: Topology, s: State, z: Zone)
    requires WellRouted(t) && Reachable(t, s) && Open(s)
    requires z in s.latest && z !in s.queued
    ensures z in s.handed && s.handed[z] == s.latest[z]
  {
    ReachableOk(t, s);
  }

  /** Every delivery begun while open hands over the newest SOA there is at that moment. */
  lemma DeliveryTakesNewest(t: Topology, s: State, w: nat)
    requires WellRouted(t) && Reachable(t, s) && Open(s) && Enabled(s, Take(w))
    ensures var z := s.workers[w].zone;
            z in s.latest && |s.queues| == t.workers && Next(t, s, Take(w)).handed[z] == s.latest[z]
  {
    ReachableOk(t, s);
    HeldZonesArePending(t, s, w);
  }
}
