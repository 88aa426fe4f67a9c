/**
  The per-catalog token budget that bounds how fast reconciliation may act.
  Time is measured in minutes; tokens are reals.
 */
module CatalogBudget {
  datatype Budget = Budget(tokens: real, lastRefill: real)

  datatype Limits = Limits(burst: nat, perMinute: nat)

  function Min(a: real, b: real): real { if a < b then a else b }

  /** The tokens that accrue in so many minutes. */
  function Earned(limits: Limits, minutes: real): real {
    minutes * limits.perMinute as real
  }

  lemma EarnedAddsUp(limits: Limits, x: real, y: real)
    ensures Earned(limits, x + y) == Earned(limits, x) + Earned(limits, y)
  {
  }

  lemma EarnedIsPositive(limits: Limits, x: real)
    requires x >= 0.0
    ensures Earned(limits, x) >= 0.0
  {
  }

  predicate Within(b: Budget, limits: Limits) {
    0.0 <= b.tokens <= limits.burst as real
  }

  function Refill(b: Budget, limits: Limits, now: real): Budget {
    if now - b.lastRefill > 0.0
    then Budget(Min(limits.burst as real, b.tokens + Earned(limits, now - b.lastRefill)), now)
    else b
  }

  datatype Taken = Taken(granted: bool, budget: Budget)

  /** Asking for no actions always succeeds and does not even refill. */
  function Take(b: Budget, limits: Limits, now: real, actions: nat): Taken {
    if actions == 0 then Taken(true, b)
    else
      var refilled := Refill(b, limits, now);
      if refilled.tokens < actions as real then Taken(false, refilled)
      else Taken(true, refilled.(tokens := refilled.tokens - actions as real))
  }

  function Refund(b: Budget, limits: Limits, actions: nat): Budget {
    if actions == 0 then b else b.(tokens := Min(limits.burst as real, b.tokens + actions as real))
  }

  /** Where an attempt that commits nothing must leave the budget. */
  function Unspent(b: Budget, limits: Limits, now: real, actions: nat): Budget {
    if actions == 0 then b else Refill(b, limits, now)
  }

  lemma RefillStaysWithin(b: Budget, limits: Limits, now: real)
    requires Within(b, limits)
    ensures Within(Refill(b, limits, now), limits)
    ensures Refill(b, limits, now).tokens >= b.tokens
  {
    if now - b.lastRefill > 0.0 {
      EarnedIsPositive(limits, now - b.lastRefill);
    }
  }

  /** Taking stays within bounds, and a refund after a grant undoes the charge completely. */
  lemma RefundIsComplete(b: Budget, limits: Limits, now: real, actions: nat)
    requires Within(b, limits)
    ensures var taken := Take(b, limits, now, actions);
      && Within(taken.budget, limits)
      && (if taken.granted
          then Refund(taken.budget, limits, actions) == Unspent(b, limits, now, actions)
          else taken.budget == Unspent(b, limits, now, actions))
  {
    RefillStaysWithin(b, limits, now);
  }

  /** The tokens of b, refilled up to the burst by the moment now, cover so many actions. */
  predicate Covers(b: Budget, limits: Limits, now: real, actions: nat) {
    || actions == 0
    || (actions <= limits.burst
        && actions as real <= b.tokens + (if now > b.lastRefill
                                          then (now - b.lastRefill) * limits.perMinute as real else 0.0))
  }

  /** Actions are granted exactly if they are covered, and each then costs one token. */
  lemma TakeIff(b: Budget, limits: Limits, now: real, actions: nat)
    requires Within(b, limits)
    ensures var taken := Take(b, limits, now, actions);
      && (taken.granted <==> Covers(b, limits, now, actions))
      && (taken.granted ==> taken.budget.tokens + actions as real == Unspent(b, limits, now, actions).tokens)
  {
    assert Earned(limits, now - b.lastRefill) == (now - b.lastRefill) * limits.perMinute as real;
  }

  /** Tokens accrue at the rate while time passes, but never beyond the burst. */
  lemma RefillAccrues(b: Budget, limits: Limits, now: real)
    requires Within(b, limits)
    ensures var tokens, due := Refill(b, limits, now).tokens, (now - b.lastRefill) * limits.perMinute as real;
            if now <= b.lastRefill then tokens == b.tokens
            else tokens <= limits.burst as real && tokens <= b.tokens + due
                 && (tokens == limits.burst as real || tokens == b.tokens + due)
    ensures Refill(b, limits, now).lastRefill == if now <= b.lastRefill then b.lastRefill else now
  {
    assert Earned(limits, now - b.lastRefill) == (now - b.lastRefill) * limits.perMinute as real;
  }

  // ---------- any series of attempts ----------

  /** One reconciliation: the moment it asks, what it asks for, and whether it then commits. */
  datatype Attempt = Attempt(now: real, actions: nat, commits: bool)

  function After(b: Budget, limits: Limits, a: Attempt): Budget {
    var taken := Take(b, limits, a.now, a.actions);
    if taken.granted && !a.commits then Refund(taken.budget, limits, a.actions) else taken.budget
  }

  function Charged(b: Budget, limits: Limits, a: Attempt): real {
    if Take(b, limits, a.now, a.actions).granted && a.commits then a.actions as real else 0.0
  }

  function TotalCharged(b: Budget, limits: Limits, run: seq<Attempt>): real
    decreases |run|
  {
    if run == [] then 0.0
    else Charged(b, limits, run[0]) + TotalCharged(After(b, limits, run[0]), limits, run[1..])
  }

  /** What the catalog could at most have spent by the end moment, starting from b. */
  function Credit(b: Budget, limits: Limits, end: real): real {
    b.tokens + (if end > b.lastRefill then Earned(limits, end - b.lastRefill) else 0.0)
  }

  lemma RefillKeepsCredit(b: Budget, limits: Limits, now: real, end: real)
    requires Within(b, limits) && now <= end
    ensures Credit(Refill(b, limits, now), limits, end) <= Credit(b, limits, end)
  {
    if now > b.lastRefill {
      EarnedAddsUp(limits, now - b.lastRefill, end - now);
      EarnedIsPositive(limits, end - now);
      assert now - b.lastRefill + (end - now) == end - b.lastRefill;
    }
  }

  lemma AttemptPays(b: Budget, limits: Limits, a: Attempt, end: real)
    requires Within(b, limits) && a.now <= end
    ensures Within(After(b, limits, a), limits)
    ensures Credit(After(b, limits, a), limits, end) + Charged(b, limits, a) <= Credit(b, limits, end)
  {
    RefundIsComplete(b, limits, a.now, a.actions);
    RefillStaysWithin(b, limits, a.now);
    RefillKeepsCredit(b, limits, a.now, end);
  }

  lemma CreditIsPositive(b: Budget, limits: Limits, end: real)
    requires Within(b, limits)
    ensures Credit(b, limits, end) >= 0.0
  {
    if end > b.lastRefill {
      EarnedIsPositive(limits, end - b.lastRefill);
    }
  }

  lemma {:induction false} RunPays(b: Budget, limits: Limits, run: seq<Attempt>, end: real)
    requires Within(b, limits)
    requires forall a | a in run :: a.now <= end
    ensures TotalCharged(b, limits, run) <= Credit(b, limits, end)
    decreases |run|
  {
    if run == [] {
      CreditIsPositive(b, limits, end);
    } else {
      AttemptPays(b, limits, run[0], end);
      var rest := After(b, limits, run[0]);
      RunPays(rest, limits, run[1..], end);
    }
  }

  /** The burst plus what accrues from start to end. */
  function Ceiling(limits: Limits, start: real, end: real): real {
    limits.burst as real + Earned(limits, end - start)
  }

  lemma CeilingIsPositive(limits: Limits, start: real, end: real)
    requires start <= end
    ensures Ceiling(limits, start, end) >= 0.0
  {
    EarnedIsPositive(limits, end - start);
  }

  lemma CreditOfWindow(b: Budget, limits: Limits, now: real, start: real, end: real)
    requires Within(b, limits) && start <= now <= end
    ensures Credit(Refill(b, limits, now), limits, end)
            <= Ceiling(limits, start, end)
  {
    RefillStaysWithin(b, limits, now);
    var refilled := Refill(b, limits, now);
    var last := refilled.lastRefill;
    CeilingIsPositive(limits, start, end);
    EarnedIsPositive(limits, end - start);
    if end > last {
      EarnedAddsUp(limits, end - last, last - start);
      EarnedIsPositive(limits, last - start);
      assert end - last + (last - start) == end - start;
    }
  }

  lemma RefillFirst(b: Budget, limits: Limits, run: seq<Attempt>)
    requires run != [] && run[0].actions > 0
    ensures TotalCharged(Refill(b, limits, run[0].now), limits, run) == TotalCharged(b, limits, run)
  {
    var refilled := Refill(b, limits, run[0].now);
    assert Refill(refilled, limits, run[0].now) == refilled;
    assert Take(refilled, limits, run[0].now, run[0].actions) == Take(b, limits, run[0].now, run[0].actions);
  }

  /**
    However many attempts fall between start and end, in whatever clock order,
    they commit at most the burst plus what accrues in that time.
   */
  lemma {:induction false} WindowBound(b: Budget, limits: Limits, run: seq<Attempt>, start: real, end: real)
    requires Within(b, limits) && start <= end
    requires forall a | a in run :: start <= a.now <= end
    ensures TotalCharged(b, limits, run) <= Ceiling(limits, start, end)
    decreases |run|
  {
    if run == [] {
      CeilingIsPositive(limits, start, end);
    } else if run[0].actions == 0 {
      WindowBound(b, limits, run[1..], start, end);
    } else {
      var now := run[0].now;
      RefillFirst(b, limits, run);
      RefillStaysWithin(b, limits, now);
      RunPays(Refill(b, limits, now), limits, run, end);
      CreditOfWindow(b, limits, now, start, end);
    }
  }
}
