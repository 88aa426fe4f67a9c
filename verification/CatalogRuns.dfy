/**
  Whole runs of the runtime: what any series of reconciliations spends, and where
  refreshing the same catalogs with ever newer serials leads.
 */
module CatalogRuns {
  import opened Wrappers
  import opened CatalogModel
  import opened CatalogPlan
  import opened CatalogPlanner
  import opened CatalogBudget
  import opened CatalogConvergence
  import opened CatalogRuntime

  /** What does not change while the runtime runs. */
  datatype Setup = Setup(sources: map<Name, Source>, order: seq<Name>, reserved: set<Name>)

  /** One reconciliation of a run, and the ledger it leaves behind. */
  datatype Entry = Entry(
    name: Name,
    accepted: Catalog,
    now: real,
    result: Result<seq<Action>, Failure>,
    after: Ledger)

  ghost predicate Follows(s: Setup, before: Ledger, e: Entry) {
    Reconciled(s.sources, s.order, s.reserved, before, e.name, e.accepted, e.now, e.result, e.after)
  }

  ghost predicate IsRun(s: Setup, before: Ledger, run: seq<Entry>)
    decreases |run|
  {
    run == [] || (Follows(s, before, run[0]) && IsRun(s, run[0].after, run[1..]))
  }

  // ---------- what a run spends ----------

  /** How many actions the run commits for one catalog. */
  function CommittedFor(run: seq<Entry>, c: Name): nat
    decreases |run|
  {
    if run == [] then 0
    else
      (if run[0].name == c && run[0].result.Ok? then CountActions(run[0].result.value) else 0)
      + CommittedFor(run[1..], c)
  }

  /** What one reconciliation means for c's budget: an attempt, or nothing at all. */
  lemma AttemptOf(s: Setup, before: Ledger, e: Entry, c: Name) returns (attempt: Attempt)
    requires Follows(s, before, e) && c in s.sources && c in before.budgets
    requires Within(before.budgets[c], s.sources[c].limits)
    ensures attempt.now == e.now && c in e.after.budgets
    ensures e.after.budgets[c] == After(before.budgets[c], s.sources[c].limits, attempt)
    ensures Charged(before.budgets[c], s.sources[c].limits, attempt) == CommittedFor([e], c) as real
  {
    var b, limits := before.budgets[c], s.sources[c].limits;
    attempt := Attempt(e.now, 0, false);
    assert [e][1..] == [];
    if e.name == c {
      if e.result.Ok? {
        attempt := Attempt(e.now, CountActions(e.result.value), true);
      } else if e.after.budgets != before.budgets {
        var count :| e.after.budgets == before.budgets[c := Unspent(b, limits, e.now, count)];
        RefundIsComplete(b, limits, e.now, count);
        attempt := Attempt(e.now, count, false);
      }
    }
  }

  /** A run is, for each catalog's budget, a series of attempts that charge what the run commits. */
  lemma {:induction false} RunAsAttempts(s: Setup, before: Ledger, run: seq<Entry>, c: Name, start: real, end: real)
    returns (attempts: seq<Attempt>)
    requires IsRun(s, before, run) && c in s.sources && c in before.budgets
    requires Within(before.budgets[c], s.sources[c].limits)
    requires forall e | e in run :: start <= e.now <= end
    ensures forall a | a in attempts :: start <= a.now <= end
    ensures TotalCharged(before.budgets[c], s.sources[c].limits, attempts) == CommittedFor(run, c) as real
    decreases |run|
  {
    if run == [] {
      attempts := [];
    } else {
      assert run[0] in run && [run[0]][1..] == [];
      var first := AttemptOf(s, before, run[0], c);
      AttemptPays(before.budgets[c], s.sources[c].limits, first, end);
      var rest := RunAsAttempts(s, run[0].after, run[1..], c, start, end);
      attempts := [first] + rest;
      assert attempts[1..] == rest;
    }
  }

  /**
    However many reconciliations of a catalog fall between start and end, whatever becomes
    of each, they commit at most the burst plus what accrues in that time.
   */
  lemma RunIsBounded(s: Setup, before: Ledger, run: seq<Entry>, c: Name, start: real, end: real)
    requires IsRun(s, before, run) && BudgetsOk(s.sources, before.budgets) && c in s.sources
    requires start <= end && forall e | e in run :: start <= e.now <= end
    ensures CommittedFor(run, c) as real <= Ceiling(s.sources[c].limits, start, end)
  {
    var attempts := RunAsAttempts(s, before, run, c, start, end);
    WindowBound(before.budgets[c], s.sources[c].limits, attempts, start, end);
  }

  // ---------- where refreshes lead ----------

  function LedgerBefore(before: Ledger, run: seq<Entry>, k: nat): Ledger
    requires k <= |run|
  {
    if k == 0 then before else run[k - 1].after
  }

  ghost function RoundIn(s: Setup, before: Ledger, run: seq<Entry>, k: nat): Round
    requires k < |run|
  {
    RoundOf(LedgerBefore(before, run, k), s.order, s.reserved, run[k].name, run[k].accepted)
  }

  lemma {:induction false} EntryFollows(s: Setup, before: Ledger, run: seq<Entry>, k: nat)
    requires IsRun(s, before, run) && k < |run|
    ensures Follows(s, LedgerBefore(before, run, k), run[k])
    decreases k
  {
    if k > 0 {
      EntryFollows(s, run[0].after, run[1..], k - 1);
    }
  }

  /** The run starts with a success, and no later success changes any catalog's members.  Others may fail. */
  ghost predicate Refreshes(run: seq<Entry>) {
    && run != [] && run[0].result.Ok?
    && forall k | 0 <= k < |run| && run[k].result.Ok? :: SameMembers(run[k].after.catalogs, run[0].after.catalogs)
  }

  /** How many of the first k reconciliations succeed. */
  function Successes(run: seq<Entry>, k: nat): nat
    requires k <= |run|
  {
    if k == 0 then 0 else Successes(run, k - 1) + if run[k - 1].result.Ok? then 1 else 0
  }

  /** A ledger between the j-th round over fixed catalogs and the one before. */
  ghost predicate Before(first: Round, j: nat, l: Ledger) {
    SameMembers(l.catalogs, RoundAt(first, j).previous) && l.ownership == RoundAt(first, j).owners
  }

  ghost predicate IsRoundOf(s: Setup, first: Round, j: nat, l: Ledger, e: Entry) {
    && e.result.Ok?
    && SameUpToSerials(RoundOf(l, s.order, s.reserved, e.name, e.accepted), RoundAt(first, j))
    && IsPlan(RoundAt(first, j), e.result.value)
    && e.after.ownership == NextOwners(RoundAt(first, j))
  }

  lemma SuccessIsRound(s: Setup, first: Round, j: nat, l: Ledger, e: Entry)
    requires Follows(s, l, e) && e.result.Ok? && Before(first, j, l) && SameMembers(e.after.catalogs, first.next)
    requires first.order == CatalogOrder(first.next.Keys, s.order) && first.reserved == s.reserved
    ensures IsRoundOf(s, first, j, l, e) && Before(first, j + 1, e.after)
  {
    RoundAtFixed(first, j);
    RoundAtFixed(first, j + 1);
    var round := RoundOf(l, s.order, s.reserved, e.name, e.accepted);
    PlanIgnoresSerials(round, RoundAt(first, j), e.result.value);
    CommittedIsNextOwners(RoundAt(first, j), e.result.value, e.after.ownership);
  }

  /** After k reconciliations the runtime is where as many rounds over fixed catalogs lead as have succeeded. */
  lemma {:induction false} LedgerDuring(s: Setup, before: Ledger, run: seq<Entry>, k: nat)
    requires IsRun(s, before, run) && Refreshes(run) && 0 < k <= |run|
    ensures Successes(run, k) > 0 && Before(RoundIn(s, before, run, 0), Successes(run, k), LedgerBefore(before, run, k))
  {
    var first, i := RoundIn(s, before, run, 0), k - 1;
    EntryFollows(s, before, run, 0);
    EntryFollows(s, before, run, i);
    if i > 0 {
      LedgerDuring(s, before, run, i);
    }
    if run[i].result.Ok? {
      SuccessIsRound(s, first, Successes(run, i), LedgerBefore(before, run, i), run[i]);
    }
  }

  /** Each success of such a run is, up to serials, a round over fixed catalogs. */
  lemma RefreshIsRound(s: Setup, before: Ledger, run: seq<Entry>, k: nat)
    requires IsRun(s, before, run) && Refreshes(run) && k < |run| && run[k].result.Ok?
    ensures IsRoundOf(s, RoundIn(s, before, run, 0), Successes(run, k), LedgerBefore(before, run, k), run[k])
  {
    EntryFollows(s, before, run, 0);
    EntryFollows(s, before, run, k);
    if k > 0 {
      LedgerDuring(s, before, run, k);
    }
    SuccessIsRound(s, RoundIn(s, before, run, 0), Successes(run, k), LedgerBefore(before, run, k), run[k]);
  }

  lemma {:induction false} ConflictsCostNothing(actions: seq<Action>)
    requires forall a | a in actions :: a.Conflict?
    ensures CountActions(actions) == 0
  {
    if actions != [] {
      ConflictsCostNothing(actions[..|actions| - 1]);
    }
  }

  /**
    The runtime settles: once its catalogs stop changing but for their serials, every
    success after one more than there are catalogs commits nothing but conflict reports,
    costs nothing and leaves ownership as it is, however many reconciliations fail.
   */
  lemma RefreshesConverge(s: Setup, before: Ledger, run: seq<Entry>, k: nat)
    requires IsRun(s, before, run) && Refreshes(run)
    requires k < |run| && run[k].result.Ok? && Successes(run, k) > |run[0].after.catalogs|
    ensures forall a | a in run[k].result.value :: a.Conflict?
    ensures CountActions(run[k].result.value) == 0
    ensures run[k].after.ownership == LedgerBefore(before, run, k).ownership
  {
    var first, j, actions := RoundIn(s, before, run, 0), Successes(run, k), run[k].result.value;
    EntryFollows(s, before, run, 0);
    EntryFollows(s, before, run, k);
    RefreshIsRound(s, before, run, k);
    AcceptedCatalogsConverge(first, s.sources.Keys, j, actions);
    ConflictsCostNothing(actions);
    ConflictsKeepOwners(LedgerBefore(before, run, k).ownership, actions);
  }

  lemma {:induction false} ConflictsKeepOwners(owners: Owners, actions: seq<Action>)
    requires forall a | a in actions :: a.Conflict?
    ensures ApplyActions(owners, actions) == owners
  {
    if actions != [] {
      ConflictsKeepOwners(owners, actions[..|actions| - 1]);
      assert actions[|actions| - 1] in actions;
    }
  }
}
