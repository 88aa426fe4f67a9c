/**
  Hedged nameserver queries: one attempt at once, another after each delay or
  failure, and the first good answer wins.  A run is any interleaving of
  attempts completing, results being read, the hedge timer and cancellation.
 */
module HedgedQuery {

  /** parallelism is the configured bound, immediate a zero hedge delay. */
  datatype Query = Query(servers: nat, parallelism: nat, immediate: bool)

  function Limit(q: Query): (n: nat)
    ensures n <= q.parallelism && n <= q.servers && (n == q.parallelism || n == q.servers)
  {
    if q.parallelism < q.servers then q.parallelism else q.servers
  }

  datatype Attempt = Attempt(server: nat, good: bool)

  datatype Outcome = Pending | Answer(server: nat) | AllFailed | Cancelled | NoNameservers

  /** active counts the attempts started whose results have not been read. */
  datatype State = State(
    next: nat,
    active: int,
    timer: bool,
    running: set<nat>,
    results: seq<Attempt>,
    failed: seq<nat>,
    cancelled: bool,
    outcome: Outcome)

  /** Cancel ends the context; Done is the loop noticing. */
  datatype Event = Complete(server: nat, good: bool) | Read | Hedge | Cancel | Done

  function Launch(s: State): State {
    s.(next := s.next + 1, active := s.active + 1, running := s.running + {s.next})
  }

  function LaunchAll(q: Query, s: State): (r: State)
    ensures r.outcome == s.outcome
    decreases q.servers - s.next
  {
    if s.next < q.servers && s.active < Limit(q) then LaunchAll(q, Launch(s)) else s
  }

  function ScheduleHedge(q: Query, s: State): State {
    if s.next >= q.servers || s.active >= Limit(q) then s.(timer := false)
    else if q.immediate then LaunchAll(q, s.(timer := false))
    else s.(timer := true)
  }

  function Begin(q: Query): State {
    var empty := State(0, 0, false, {}, [], [], false, Pending);
    if q.servers == 0 then empty.(outcome := NoNameservers)
    else ScheduleHedge(q, Launch(empty))
  }

  predicate Enabled(s: State, e: Event) {
    match e
    case Complete(server, _) => server in s.running
    case Read => s.outcome.Pending? && s.results != []
    case Hedge => s.outcome.Pending? && s.timer
    case Cancel => true
    case Done => s.outcome.Pending? && s.cancelled
  }

  /** The select loop gives up when nothing is left in flight. */
  function LoopTest(s: State): State {
    if s.outcome.Pending? && s.active <= 0 then s.(outcome := AllFailed) else s
  }

  /** What reading a failure leaves before anything else is launched. */
  function Failed(s: State): State
    requires s.results != []
  {
    s.(active := s.active - 1, results := s.results[1..], failed := s.failed + [s.results[0].server])
  }

  /** A failure is replaced at once if a server is left, and the hedge rescheduled. */
  function Relaunch(q: Query, s: State): State {
    LoopTest(ScheduleHedge(q, if s.next < q.servers then Launch(s) else s))
  }

  function Next(q: Query, s: State, e: Event): State
    requires Enabled(s, e)
  {
    match e
    case Complete(server, good) =>
      s.(running := s.running - {server}, results := s.results + [Attempt(server, good)])
    case Read =>
      if s.results[0].good
      then s.(active := s.active - 1, results := s.results[1..], outcome := Answer(s.results[0].server))
      else if s.cancelled then Failed(s).(outcome := Cancelled)
      else Relaunch(q, Failed(s))
    case Hedge =>
      var fired := s.(timer := false);
      if s.cancelled then fired.(outcome := Cancelled)
      else ScheduleHedge(q, if fired.next < q.servers && fired.active < Limit(q) then Launch(fired) else fired)
    case Cancel => s.(cancelled := true)
    case Done => s.(outcome := Cancelled)
  }

  // ---------- the invariant ----------

  function ResultServers(results: seq<Attempt>): seq<nat> {
    if results == [] then [] else [results[0].server] + ResultServers(results[1..])
  }

  lemma {:induction false} ResultServersAppend(results: seq<Attempt>, a: Attempt)
    ensures ResultServers(results + [a]) == ResultServers(results) + [a.server]
  {
    if results != [] {
      assert (results + [a])[1..] == results[1..] + [a];
      ResultServersAppend(results[1..], a);
    }
  }

  /** Every server an attempt was started on, by what became of it. */
  function Accounted(s: State): multiset<nat> {
    multiset(s.running) + multiset(ResultServers(s.results)) + multiset(s.failed)
    + (if s.outcome.Answer? then multiset{s.outcome.server} else multiset{})
  }

  /** The servers 0 to n - 1, each once. */
  function FirstServers(n: nat): multiset<nat> {
    if n == 0 then multiset{} else FirstServers(n - 1) + multiset{n - 1}
  }

  lemma {:induction false} FirstServersCount(n: nat, k: nat)
    ensures FirstServers(n)[k] == if k < n then 1 else 0
    ensures |FirstServers(n)| == n
  {
    if n > 0 {
      FirstServersCount(n - 1, k);
    }
  }

  lemma {:induction false} ResultServersLength(results: seq<Attempt>)
    ensures |ResultServers(results)| == |results|
  {
    if results != [] {
      ResultServersLength(results[1..]);
    }
  }

  ghost predicate Invariant(q: Query, s: State) {
    && s.next <= q.servers
    && Accounted(s) == FirstServers(s.next)
    && |s.running| + |s.results| <= Limit(q)
    && (s.outcome.Pending? ==> s.active == |s.running| + |s.results| && s.active > 0)
    && (s.outcome.Pending? && s.next < q.servers ==> s.active == Limit(q) || s.timer)
    && (s.outcome.Pending? && s.timer ==> s.next < q.servers && s.active < Limit(q))
    && (s.outcome.AllFailed? ==> s.next == q.servers && s.running == {} && s.results == [])
    && (s.outcome.NoNameservers? ==> q.servers == 0)
  }

  /** The part of the invariant that launching keeps. */
  ghost predicate InFlightOk(q: Query, s: State) {
    && s.outcome.Pending? && s.next <= q.servers && Accounted(s) == FirstServers(s.next)
    && s.active == |s.running| + |s.results| <= Limit(q)
  }

  lemma RunningIsAccounted(s: State, server: nat)
    requires server in s.running
    ensures server in Accounted(s)
  {
  }

  lemma LaunchAccounted(s: State)
    requires s.next !in s.running
    ensures Accounted(Launch(s)) == Accounted(s) + multiset{s.next}
  {
    assert multiset(s.running + {s.next}) == multiset(s.running) + multiset{s.next};
  }

  lemma LaunchKeeps(q: Query, s: State)
    requires InFlightOk(q, s) && s.next < q.servers && s.active < Limit(q)
    ensures InFlightOk(q, Launch(s)) && Launch(s).active == s.active + 1
  {
    FirstServersCount(s.next, s.next);
    if s.next in s.running {
      RunningIsAccounted(s, s.next);
    }
    LaunchAccounted(s);
  }

  lemma {:induction false} LaunchAllKeeps(q: Query, s: State)
    requires InFlightOk(q, s)
    ensures var r := LaunchAll(q, s);
      InFlightOk(q, r) && r.active >= s.active && (r.next == q.servers || r.active == Limit(q)) && r.timer == s.timer
    decreases q.servers - s.next
  {
    if s.next < q.servers && s.active < Limit(q) {
      LaunchKeeps(q, s);
      LaunchAllKeeps(q, Launch(s));
    }
  }

  /** After scheduling, the query is either at full width, out of servers, or waiting for its timer. */
  lemma ScheduleKeeps(q: Query, s: State)
    requires InFlightOk(q, s)
    ensures var r := ScheduleHedge(q, s);
      && InFlightOk(q, r) && r.active >= s.active
      && (r.next < q.servers ==> r.active == Limit(q) || r.timer)
      && (r.timer ==> r.next < q.servers && r.active < Limit(q))
  {
    LaunchAllKeeps(q, s.(timer := false));
  }

  lemma BeginOk(q: Query)
    requires q.parallelism > 0
    ensures Invariant(q, Begin(q))
  {
    if q.servers > 0 {
      var empty := State(0, 0, false, {}, [], [], false, Pending);
      LaunchKeeps(q, empty);
      ScheduleKeeps(q, Launch(empty));
    }
  }

  lemma CompleteAccounted(q: Query, s: State, server: nat, good: bool)
    requires server in s.running
    ensures Accounted(Next(q, s, Complete(server, good))) == Accounted(s)
  {
    ResultServersAppend(s.results, Attempt(server, good));
    MovedToResults(s.running, server, ResultServers(s.results));
  }

  lemma MovedToResults(running: set<nat>, server: nat, results: seq<nat>)
    requires server in running
    ensures multiset(running - {server}) + multiset(results + [server]) == multiset(running) + multiset(results)
  {
    assert multiset(running) == multiset(running - {server}) + multiset{server};
    assert multiset(results + [server]) == multiset(results) + multiset{server};
  }

  lemma CompleteKeeps(q: Query, s: State, server: nat, good: bool)
    requires Invariant(q, s) && server in s.running
    ensures Invariant(q, Next(q, s, Complete(server, good)))
  {
    CompleteAccounted(q, s, server, good);
  }

  lemma FailedAccounted(s: State)
    requires s.results != []
    ensures Accounted(Failed(s)) == Accounted(s)
  {
    var first, rest := s.results[0].server, ResultServers(s.results[1..]);
    assert multiset(ResultServers(s.results)) == multiset{first} + multiset(rest);
    assert multiset(s.failed + [first]) == multiset(s.failed) + multiset{first};
    assert multiset(rest) + multiset(s.failed + [first]) == multiset(ResultServers(s.results)) + multiset(s.failed);
  }

  lemma AnsweredAccounted(s: State)
    requires s.results != [] && s.outcome.Pending?
    ensures var next := s.(active := s.active - 1, results := s.results[1..], outcome := Answer(s.results[0].server));
            Accounted(next) == Accounted(s)
  {
    var first, rest := s.results[0].server, ResultServers(s.results[1..]);
    assert multiset(ResultServers(s.results)) == multiset{first} + multiset(rest);
  }

  lemma LoopTestKeeps(q: Query, s: State)
    requires InFlightOk(q, s)
    requires s.next < q.servers ==> s.active == Limit(q) || s.timer
    requires s.timer ==> s.next < q.servers && s.active < Limit(q)
    requires s.active == 0 ==> s.next == q.servers
    ensures Invariant(q, LoopTest(s))
  {
    assert Accounted(s.(outcome := AllFailed)) == Accounted(s);
    assert s.active == 0 ==> s.running == {} && s.results == [];
  }

  lemma RelaunchKeeps(q: Query, s: State)
    requires InFlightOk(q, s) && (s.next < q.servers ==> s.active < Limit(q)) && Limit(q) > 0
    ensures Invariant(q, Relaunch(q, s))
  {
    if s.next < q.servers {
      LaunchKeeps(q, s);
      ScheduleKeeps(q, Launch(s));
      LoopTestKeeps(q, ScheduleHedge(q, Launch(s)));
    } else {
      ScheduleKeeps(q, s);
      LoopTestKeeps(q, ScheduleHedge(q, s));
    }
  }

  lemma FailureKeeps(q: Query, s: State)
    requires Invariant(q, s) && Enabled(s, Read)
    ensures InFlightOk(q, Failed(s)) && Failed(s).active < Limit(q)
    ensures Invariant(q, Failed(s).(outcome := Cancelled))
  {
    FailedAccounted(s);
    assert Accounted(Failed(s).(outcome := Cancelled)) == Accounted(Failed(s));
  }

  lemma GoodReadKeeps(q: Query, s: State)
    requires Invariant(q, s) && Enabled(s, Read) && s.results[0].good
    ensures Invariant(q, Next(q, s, Read))
  {
    AnsweredAccounted(s);
  }

  lemma ReadKeeps(q: Query, s: State)
    requires Invariant(q, s) && Enabled(s, Read)
    ensures Invariant(q, Next(q, s, Read))
  {
    if s.results[0].good {
      GoodReadKeeps(q, s);
    } else {
      FailureKeeps(q, s);
      RelaunchKeeps(q, Failed(s));
    }
  }

  lemma HedgeKeeps(q: Query, s: State)
    requires Invariant(q, s) && Enabled(s, Hedge)
    ensures Invariant(q, Next(q, s, Hedge))
  {
    var fired := s.(timer := false);
    assert InFlightOk(q, fired);
    LaunchKeeps(q, fired);
    ScheduleKeeps(q, Launch(fired));
  }

  lemma NextKeepsInvariant(q: Query, s: State, e: Event)
    requires Invariant(q, s) && Enabled(s, e)
    ensures Invariant(q, Next(q, s, e))
  {
    match e
    case Complete(server, good) => CompleteKeeps(q, s, server, good);
    case Read => ReadKeeps(q, s);
    case Hedge => HedgeKeeps(q, s);
    case Cancel => assert Accounted(Next(q, s, e)) == Accounted(s);
    case Done => assert Accounted(Next(q, s, e)) == Accounted(s);
  }

  // ---------- whole runs ----------

  /** Plays a script of events; one that cannot happen when its turn comes is skipped. */
  function Play(q: Query, events: seq<Event>): State {
    if events == [] then Begin(q)
    else
      var s, e := Play(q, events[..|events| - 1]), events[|events| - 1];
      if Enabled(s, e) then Next(q, s, e) else s
  }

  lemma {:induction false} PlayKeepsInvariant(q: Query, events: seq<Event>)
    requires q.parallelism > 0
    ensures Invariant(q, Play(q, events))
  {
    if events == [] {
      BeginOk(q);
    } else {
      PlayKeepsInvariant(q, events[..|events| - 1]);
      var s, e := Play(q, events[..|events| - 1]), events[|events| - 1];
      if Enabled(s, e) {
        NextKeepsInvariant(q, s, e);
      }
    }
  }

  /** A server has been tried at most once, and exactly if it comes before next in the list. */
  lemma EachServerTriedOnceInOrder(q: Query, events: seq<Event>, server: nat)
    requires q.parallelism > 0
    ensures Accounted(Play(q, events))[server] == if server < Play(q, events).next then 1 else 0
  {
    PlayKeepsInvariant(q, events);
    FirstServersCount(Play(q, events).next, server);
  }

  /**
    No more attempts than the limit are ever outstanding, before or after the
    answer is returned, so the result channel can absorb them all.
   */
  lemma ChannelAbsorbsAll(q: Query, events: seq<Event>)
    requires q.parallelism > 0
    ensures var s := Play(q, events); |s.running| + |s.results| <= Limit(q) <= q.parallelism
  {
    PlayKeepsInvariant(q, events);
  }

  /** Total failure is reported only once every server has failed. */
  lemma AllFailedMeansAllFailed(q: Query, events: seq<Event>, server: nat)
    requires q.parallelism > 0 && Play(q, events).outcome.AllFailed? && server < q.servers
    ensures server in Play(q, events).failed && |Play(q, events).failed| == q.servers
  {
    PlayKeepsInvariant(q, events);
    var s := Play(q, events);
    FirstServersCount(s.next, server);
    assert Accounted(s) == multiset(s.failed);
  }

  /** An undecided query never stalls: something is in flight, and any spare width is on a timer. */
  lemma NeverStalls(q: Query, events: seq<Event>)
    requires q.parallelism > 0 && Play(q, events).outcome.Pending?
    ensures var s := Play(q, events);
      s.running != {} || s.results != []
    ensures var s := Play(q, events);
      s.next < q.servers && |s.running| + |s.results| < Limit(q) ==> s.timer
  {
    PlayKeepsInvariant(q, events);
  }

  /** An answer is the first good result read, and it stands. */
  lemma {:induction false} AnswerIsGenuine(q: Query, events: seq<Event>)
    requires Play(q, events).outcome.Answer?
    ensures exists k: nat :: k < |events| && events[k] == Read &&
              var s := Play(q, events[..k]);
              Enabled(s, Read) && s.results[0] == Attempt(Play(q, events).outcome.server, true)
  {
    if events != [] {
      var init := events[..|events| - 1];
      if Play(q, init).outcome.Answer? {
        AnswerIsGenuine(q, init);
        var k: nat :| k < |init| && init[k] == Read && Enabled(Play(q, init[..k]), Read)
                      && Play(q, init[..k]).results[0] == Attempt(Play(q, init).outcome.server, true);
        assert events[..k] == init[..k] && events[k] == Read;
      } else {
        assert events[|events| - 1] == Read;
      }
    }
  }

  // ---------- what the events decide ----------

  /** The attempts completed, in order. */
  function Completions(q: Query, events: seq<Event>): seq<Attempt> {
    if events == [] then []
    else
      var front, e := events[..|events| - 1], events[|events| - 1];
      Completions(q, front)
      + if Enabled(Play(q, front), e) && e.Complete? then [Attempt(e.server, e.good)] else []
  }

  /** How many of their results have been read. */
  function ReadsDone(q: Query, events: seq<Event>): nat {
    if events == [] then 0
    else
      var front, e := events[..|events| - 1], events[|events| - 1];
      ReadsDone(q, front) + if Enabled(Play(q, front), e) && e.Read? then 1 else 0
  }

  /** Results wait in the order in which attempts complete. */
  lemma {:induction false} ResultsInOrder(q: Query, events: seq<Event>)
    ensures ReadsDone(q, events) <= |Completions(q, events)|
    ensures Play(q, events).results == Completions(q, events)[ReadsDone(q, events)..]
  {
    if events == [] {
      BeginHasNothing(q);
    } else {
      var front, e := events[..|events| - 1], events[|events| - 1];
      ResultsInOrder(q, front);
      if Enabled(Play(q, front), e) {
        ResultsAfter(q, Play(q, front), e);
      }
    }
  }

  lemma {:induction false} LaunchAllLeaves(q: Query, s: State)
    ensures var r := LaunchAll(q, s); r.results == s.results && r.failed == s.failed && r.cancelled == s.cancelled
    decreases q.servers - s.next
  {
    if s.next < q.servers && s.active < Limit(q) {
      LaunchAllLeaves(q, Launch(s));
    }
  }

  lemma ScheduleLeaves(q: Query, s: State)
    ensures var r := ScheduleHedge(q, s);
            r.results == s.results && r.failed == s.failed && r.cancelled == s.cancelled && r.outcome == s.outcome
  {
    LaunchAllLeaves(q, s.(timer := false));
  }

  lemma BeginHasNothing(q: Query)
    ensures var s := Begin(q);
            s.results == [] && s.failed == [] && !s.cancelled && !s.outcome.Answer? && !s.outcome.Cancelled?
  {
    ScheduleLeaves(q, Launch(State(0, 0, false, {}, [], [], false, Pending)));
  }

  lemma ResultsAfter(q: Query, s: State, e: Event)
    requires Enabled(s, e)
    ensures Next(q, s, e).results ==
              match e
              case Complete(server, good) => s.results + [Attempt(server, good)]
              case Read => s.results[1..]
              case _ => s.results
    ensures Next(q, s, e).failed ==
              if e.Read? && !s.results[0].good then s.failed + [s.results[0].server] else s.failed
    ensures Next(q, s, e).outcome.Answer? <==> s.outcome.Answer? || (e.Read? && s.results[0].good)
    ensures e.Read? && s.results[0].good ==> Next(q, s, e).outcome == Answer(s.results[0].server)
    ensures !e.Read? && s.outcome.Answer? ==> Next(q, s, e).outcome == s.outcome
  {
    match e
    case Read =>
      if !s.results[0].good && !s.cancelled {
        var f := Failed(s);
        ScheduleLeaves(q, if f.next < q.servers then Launch(f) else f);
      }
    case Hedge =>
      var fired := s.(timer := false);
      ScheduleLeaves(q, if fired.next < q.servers && fired.active < Limit(q) then Launch(fired) else fired);
    case _ =>
  }

  /** The servers of the failures among some attempts, in order. */
  function FailuresOf(attempts: seq<Attempt>): seq<nat> {
    if attempts == [] then []
    else
      var last := attempts[|attempts| - 1];
      FailuresOf(attempts[..|attempts| - 1]) + if last.good then [] else [last.server]
  }

  lemma OneMoreResult(attempts: seq<Attempt>, a: Attempt)
    ensures FailuresOf(attempts + [a]) == FailuresOf(attempts) + if a.good then [] else [a.server]
  {
    assert (attempts + [a])[..|attempts|] == attempts;
  }

  /** The results read decide: every failure counts as one, and the first good result is the answer at once. */
  ghost predicate ReadsDecide(s: State, seen: seq<Attempt>) {
    && s.failed == FailuresOf(seen)
    && (forall i | 0 <= i < |seen| - 1 :: !seen[i].good)
    && (s.outcome.Answer? <==> seen != [] && seen[|seen| - 1].good)
    && (s.outcome.Answer? ==> s.outcome.server == seen[|seen| - 1].server)
  }

  lemma ReadDecides(s: State, next: State, seen: seq<Attempt>, a: Attempt)
    requires ReadsDecide(s, seen) && !s.outcome.Answer?
    requires next.failed == if a.good then s.failed else s.failed + [a.server]
    requires next.outcome.Answer? <==> a.good
    requires a.good ==> next.outcome.server == a.server
    ensures ReadsDecide(next, seen + [a])
  {
    OneMoreResult(seen, a);
  }

  lemma EventDecides(q: Query, s: State, e: Event, done: seq<Attempt>, n: nat)
    requires Enabled(s, e) && n <= |done| && s.results == done[n..] && ReadsDecide(s, done[..n])
    ensures e.Read? ==> n < |done| && ReadsDecide(Next(q, s, e), done[..n + 1])
    ensures !e.Read? ==> ReadsDecide(Next(q, s, e), done[..n])
  {
    ResultsAfter(q, s, e);
    if e.Read? {
      assert s.results[0] == done[n] && done[..n + 1] == done[..n] + [done[n]];
      ReadDecides(s, Next(q, s, e), done[..n], done[n]);
    }
  }

  lemma OneMoreEvent(q: Query, front: seq<Event>, e: Event)
    ensures var events, s := front + [e], Play(q, front);
      && Play(q, events) == (if Enabled(s, e) then Next(q, s, e) else s)
      && Completions(q, front) <= Completions(q, events)
      && ReadsDone(q, events) == ReadsDone(q, front) + (if Enabled(s, e) && e.Read? then 1 else 0)
  {
    assert (front + [e])[..|front|] == front;
  }

  lemma {:induction false} ResultsDecide(q: Query, events: seq<Event>)
    ensures ReadsDone(q, events) <= |Completions(q, events)|
    ensures ReadsDecide(Play(q, events), Completions(q, events)[..ReadsDone(q, events)])
  {
    ResultsInOrder(q, events);
    if events == [] {
      BeginHasNothing(q);
    } else {
      var front, e := events[..|events| - 1], events[|events| - 1];
      assert events == front + [e];
      ResultsDecide(q, front);
      ResultsInOrder(q, front);
      OneMoreEvent(q, front, e);
      var done, n := Completions(q, front), ReadsDone(q, front);
      if Enabled(Play(q, front), e) {
        EventDecides(q, Play(q, front), e, done, n);
      }
      var k := ReadsDone(q, events);
      assert k <= |done| && Completions(q, events)[..k] == done[..k];
    }
  }

  /** Only a script that cancels ends in cancellation. */
  lemma {:induction false} CancelledOnlyByCancel(q: Query, events: seq<Event>)
    requires Play(q, events).cancelled || Play(q, events).outcome.Cancelled?
    ensures Cancel in events
  {
    if events == [] {
      BeginHasNothing(q);
    } else {
      var front, e := events[..|events| - 1], events[|events| - 1];
      var s := Play(q, front);
      if s.cancelled || s.outcome.Cancelled? {
        CancelledOnlyByCancel(q, front);
      } else if Enabled(s, e) {
        CancelledBy(q, s, e);
      }
    }
  }

  lemma CancelledBy(q: Query, s: State, e: Event)
    requires Enabled(s, e) && !s.cancelled && !s.outcome.Cancelled?
    ensures e == Cancel || (!Next(q, s, e).cancelled && !Next(q, s, e).outcome.Cancelled?)
  {
    match e
    case Read =>
      if !s.results[0].good {
        var f := Failed(s);
        ScheduleLeaves(q, if f.next < q.servers then Launch(f) else f);
      }
    case Hedge =>
      var fired := s.(timer := false);
      ScheduleLeaves(q, if fired.next < q.servers && fired.active < Limit(q) then Launch(fired) else fired);
    case _ =>
  }

  /** While servers are left, a failure and a hedge timer each bring in the next one; without a delay all that fit. */
  lemma NextServerJoins(q: Query, s: State, e: Event)
    requires Enabled(s, e) && !s.cancelled && s.next < q.servers
    requires (e.Read? && !s.results[0].good) || (e.Hedge? && s.active < Limit(q))
    ensures s.next in Next(q, s, e).running && Next(q, s, e).next > s.next
    ensures !q.immediate ==> Next(q, s, e).next == s.next + 1
    ensures q.immediate ==> Next(q, s, e).next >= q.servers || Next(q, s, e).active >= Limit(q)
  {
    var started := Launch(if e.Read? then Failed(s) else s.(timer := false));
    LaunchAllAdds(q, started.(timer := false));
  }

  lemma {:induction false} LaunchAllAdds(q: Query, s: State)
    ensures var r := LaunchAll(q, s); s.running <= r.running && r.next >= s.next
    ensures var r := LaunchAll(q, s); r.next >= q.servers || r.active >= Limit(q)
    decreases q.servers - s.next
  {
    if s.next < q.servers && s.active < Limit(q) {
      LaunchAllAdds(q, Launch(s));
    }
  }

  // ---------- the loop itself ----------

  class Hedger {
    const query: Query
    var next: nat
    var active: int
    var timer: bool
    var running: set<nat>
    var results: seq<Attempt>
    var failed: seq<nat>
    var cancelled: bool
    var outcome: Outcome

    function View(): State
      reads this
    {
      State(next, active, timer, running, results, failed, cancelled, outcome)
    }

    constructor (query: Query)
      ensures this.query == query && View() == State(0, 0, false, {}, [], [], false, Pending)
    {
      this.query := query;
      next, active, timer, running := 0, 0, false, {};
      results, failed, cancelled, outcome := [], [], false, Pending;
    }

    method StartAttempt()
      modifies this
      ensures View() == Launch(old(View()))
    {
      running := running + {next};
      next := next + 1;
      active := active + 1;
    }

    method Reschedule()
      modifies this
      ensures View() == ScheduleHedge(query, old(View()))
    {
      timer := false;
      if next >= query.servers || active >= Limit(query) {
        return;
      }
      if query.immediate {
        while next < query.servers && active < Limit(query)
          invariant LaunchAll(query, View()) == LaunchAll(query, old(View()).(timer := false))
          decreases query.servers - next
        {
          StartAttempt();
        }
        return;
      }
      timer := true;
    }

    method OnRead()
      requires Enabled(View(), Read)
      modifies this
      ensures View() == Next(query, old(View()), Read)
    {
      var result := results[0];
      results := results[1..];
      active := active - 1;
      if result.good {
        outcome := Answer(result.server);
        return;
      }
      failed := failed + [result.server];
      if cancelled {
        outcome := Cancelled;
        return;
      }
      if next < query.servers {
        StartAttempt();
      }
      Reschedule();
      if outcome.Pending? && active <= 0 {
        outcome := AllFailed;
      }
    }

    method OnHedge()
      requires Enabled(View(), Hedge)
      modifies this
      ensures View() == Next(query, old(View()), Hedge)
    {
      timer := false;
      if cancelled {
        outcome := Cancelled;
        return;
      }
      if next < query.servers && active < Limit(query) {
        StartAttempt();
      }
      Reschedule();
    }
  }

  /** Runs the query against a script of outside events. */
  method QueryNameservers(q: Query, events: seq<Event>) returns (outcome: Outcome)
    ensures outcome == Play(q, events).outcome
  {
    var h := new Hedger(q);
    if q.servers == 0 {
      h.outcome := NoNameservers;
    } else {
      h.StartAttempt();
      h.Reschedule();
    }
    for i := 0 to |events|
      invariant fresh(h) && h.query == q && h.View() == Play(q, events[..i])
    {
      assert events[..i + 1][..i] == events[..i];
      match events[i] {
        case Complete(server, good) =>
          if server in h.running {
            h.running := h.running - {server};
            h.results := h.results + [Attempt(server, good)];
          }
        case Read =>
          if h.outcome.Pending? && h.results != [] {
            h.OnRead();
          }
        case Hedge =>
          if h.outcome.Pending? && h.timer {
            h.OnHedge();
          }
        case Cancel =>
          h.cancelled := true;
        case Done =>
          if h.outcome.Pending? && h.cancelled {
            h.outcome := Cancelled;
          }
      }
    }
    assert events[..|events|] == events;
    outcome := h.outcome;
  }
}
