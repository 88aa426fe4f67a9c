/**
  Cached entries, their sizes and lifetimes, and which of them a full shard gives up.
 */
module CacheEntries {
  import opened CacheQueue

  datatype Entry = Entry(
    data: seq<char>,
    expiresAt: Time,
    qname: string,
    reputation: string,
    threatSource: string,
    categories: seq<string>,
    validated: bool,
    bogus: bool,
    negative: bool)

  type Entries = map<Hash, Entry>

  datatype ValidationMode = Pass | LogOnly | Enforced

  datatype Policy = Policy(
    serveStale: bool,
    maxStale: int,
    minTTL: int,
    maxTTL: int,
    minNegativeTTL: int,
    maxNegativeTTL: int,
    bogusTTL: int,
    mode: ValidationMode)

  // ---------- size ----------

  function CategoryBytes(categories: seq<string>): nat {
    if categories == [] then 0 else 16 + |categories[0]| + CategoryBytes(categories[1..])
  }

  /** The fixed 78 octets are the entry's counters, stamps, flags and map overhead. */
  function SizeOf(e: Entry): nat {
    78 + |e.data| + |e.qname| + |e.reputation| + |e.threatSource| + CategoryBytes(e.categories)
  }

  function Joined(texts: seq<string>): string {
    if texts == [] then [] else texts[0] + Joined(texts[1..])
  }

  /** An entry counts its texts' octets, sixteen more for each category, and a fixed overhead. */
  lemma {:induction false} CategoryBytesIs(categories: seq<string>)
    ensures CategoryBytes(categories) == 16 * |categories| + |Joined(categories)|
  {
    if categories != [] {
      CategoryBytesIs(categories[1..]);
    }
  }

  lemma SizeIs(e: Entry)
    ensures SizeOf(e) == 78 + 16 * |e.categories|
                         + |e.data + e.qname + e.reputation + e.threatSource + Joined(e.categories)|
  {
    CategoryBytesIs(e.categories);
  }

  ghost function TotalSize(m: Entries): nat {
    if m == map[] then 0
    else
      var h :| h in m;
      SizeOf(m[h]) + TotalSize(m - {h})
  }

  /** Entries can be taken out of the total in any order. */
  lemma {:induction false} TotalSizeWithout(m: Entries, h: Hash)
    requires h in m
    ensures TotalSize(m) == SizeOf(m[h]) + TotalSize(m - {h})
  {
    var first :| first in m && TotalSize(m) == SizeOf(m[first]) + TotalSize(m - {first});
    if first != h {
      TotalSizeWithout(m - {first}, h);
      assert m - {first} - {h} == m - {h} - {first};
      TotalSizeWithout(m - {h}, first);
    }
  }

  lemma TotalSizeWith(m: Entries, h: Hash, e: Entry)
    requires h !in m
    ensures TotalSize(m[h := e]) == SizeOf(e) + TotalSize(m)
  {
    TotalSizeWithout(m[h := e], h);
    assert m[h := e] - {h} == m;
  }

  // ---------- lifetime ----------

  /** The moment from which nothing will serve the entry. */
  function RemoveAfter(p: Policy, e: Entry): Time {
    if p.serveStale then e.expiresAt + p.maxStale else e.expiresAt
  }

  /** Whether a lookup at the moment t is answered from the entry. */
  predicate Served(p: Policy, e: Entry, t: Time) {
    t <= e.expiresAt || (p.serveStale && t - e.expiresAt < p.maxStale)
  }

  predicate Due(p: Policy, e: Entry, now: Time) {
    RemoveAfter(p, e) <= now
  }

  /**
    Dropping due entries can never be noticed later, exactly when stale answers
    are off or the stale window is not negative.  The configuration check does
    not reject a negative window.
   */
  lemma CleanupUnnoticedIff(p: Policy)
    ensures (forall e, now, t | now < t && Due(p, e, now) :: !Served(p, e, t))
            <==> (!p.serveStale || p.maxStale >= 0)
  {
    if p.serveStale && p.maxStale < 0 {
      var e := Entry([], 0, "", "", "", [], true, false, false);
      assert Due(p, e, p.maxStale) && p.maxStale < 0 && Served(p, e, 0);
    }
  }

  /** An entry's life with a lower and an upper bound; both look at the life left on entry, and zero means no bound. */
  function Clamp(e: Entry, low: int, high: int, now: Time): Entry {
    var remaining := e.expiresAt - now;
    var raised := if low > 0 && remaining < low then now + low else e.expiresAt;
    e.(expiresAt := if high > 0 && remaining > high then now + high else raised)
  }

  /** What a life becomes, by what is left of it: cut to the maximum, else raised to the minimum, else as it was. */
  predicate LifeWithin(low: int, high: int, left: int, life: int) {
    && (0 < high < left ==> life == high)
    && (left < low && 0 < low && (high <= 0 || left <= high) ==> life == low)
    && ((low <= 0 || low <= left) && (high <= 0 || left <= high) ==> life == left)
  }

  /** The life the policy grants: the quarantine to bogus entries, to others what the bounds for their kind allow. */
  predicate LifeGranted(p: Policy, e: Entry, now: Time, expiresAt: Time) {
    if e.bogus && p.bogusTTL > 0 then expiresAt == now + p.bogusTTL
    else if e.negative then LifeWithin(p.minNegativeTTL, p.maxNegativeTTL, e.expiresAt - now, expiresAt - now)
    else LifeWithin(p.minTTL, p.maxTTL, e.expiresAt - now, expiresAt - now)
  }

  /**
    Clamps what is left of an entry's life; bogus entries are quarantined instead.
    So where the minimum exceeds the maximum, a life longer than the maximum is cut
    to the maximum, and any other is raised to the minimum.
   */
  function ApplyTTLPolicy(p: Policy, e: Entry, now: Time): (r: Entry)
    ensures r.(expiresAt := e.expiresAt) == e && LifeGranted(p, e, now, r.expiresAt)
  {
    if e.bogus && p.bogusTTL > 0 then e.(expiresAt := now + p.bogusTTL)
    else if e.negative then Clamp(e, p.minNegativeTTL, p.maxNegativeTTL, now)
    else Clamp(e, p.minTTL, p.maxTTL, now)
  }

  /** The bounds for one kind of answer mean nothing to the other. */
  lemma BoundsAreApart(p: Policy, e: Entry, now: Time, low: int, high: int)
    ensures ApplyTTLPolicy(p, e, now) ==
              if e.negative then ApplyTTLPolicy(p.(minTTL := low, maxTTL := high), e, now)
              else ApplyTTLPolicy(p.(minNegativeTTL := low, maxNegativeTTL := high), e, now)
  {
  }

  /** The configured maximum for an entry, and the minimum. */
  ghost function Bounds(p: Policy, e: Entry): (r: (int, int)) {
    if e.negative then (p.minNegativeTTL, p.maxNegativeTTL) else (p.minTTL, p.maxTTL)
  }

  /** A configured maximum is kept exactly if it is not below the minimum, or the life left exceeds it. */
  lemma MaximumKeptIff(p: Policy, e: Entry, now: Time)
    requires !(e.bogus && p.bogusTTL > 0) && Bounds(p, e).1 > 0
    ensures var (low, high) := Bounds(p, e);
            ApplyTTLPolicy(p, e, now).expiresAt <= now + high <==> low <= high || e.expiresAt - now > high
  {
  }

  /** A configured minimum is kept exactly if no maximum is below it, or the life left does not exceed that maximum. */
  lemma MinimumKeptIff(p: Policy, e: Entry, now: Time)
    requires !(e.bogus && p.bogusTTL > 0) && Bounds(p, e).0 > 0
    ensures var (low, high) := Bounds(p, e);
            ApplyTTLPolicy(p, e, now).expiresAt >= now + low <==>
            high <= 0 || low <= high || e.expiresAt - now <= high
  {
  }

  /** With a minimum of 10 and a maximum of 5, either bound can be the one that is broken. */
  lemma InvertedBoundsBreakEither()
    ensures exists p: Policy, short: Entry, long: Entry ::
      && p.minTTL == 10 && p.maxTTL == 5
      && short.expiresAt == 3 && ApplyTTLPolicy(p, short, 0).expiresAt == 10
      && long.expiresAt == 20 && ApplyTTLPolicy(p, long, 0).expiresAt == 5
  {
    var p := Policy(false, 0, 10, 5, 0, 0, 0, Pass);
    var short := Entry([], 3, "", "", "", [], true, false, false);
    var long := short.(expiresAt := 20);
    assert ApplyTTLPolicy(p, short, 0).expiresAt == 10;
    assert ApplyTTLPolicy(p, long, 0).expiresAt == 5;
  }

  // ---------- eviction ----------

  function KeyOf(p: Policy, m: Entries, h: Hash): Item
    requires h in m
  {
    Item(h, RemoveAfter(p, m[h]))
  }

  function Keep(m: Entries, hashes: set<Hash>): Entries {
    map h | h in m && h in hashes :: m[h]
  }

  /** hashes is what remains of m after giving up some of its first entries. */
  ghost predicate Remainder(p: Policy, m: Entries, hashes: set<Hash>) {
    && hashes <= m.Keys
    && forall gone, kept | gone in m && gone !in hashes && kept in hashes ::
         Before(KeyOf(p, m, gone), KeyOf(p, m, kept))
  }

  /** Room for one more entry of the given size; a zero memory bound means none. */
  ghost predicate HasRoom(m: Entries, size: nat, maxSize: nat, maxMemory: nat) {
    |m| < maxSize && (maxMemory > 0 ==> TotalSize(m) + size <= maxMemory)
  }

  /** kept leaves out the fewest first entries of m that make room. */
  ghost predicate ShortestEviction(p: Policy, m: Entries, kept: set<Hash>, size: nat, maxSize: nat, maxMemory: nat) {
    && Remainder(p, m, kept)
    && HasRoom(Keep(m, kept), size, maxSize, maxMemory)
    && forall more | Remainder(p, m, more) && kept < more :: !HasRoom(Keep(m, more), size, maxSize, maxMemory)
  }

  lemma RemaindersNested(p: Policy, m: Entries, a: set<Hash>, b: set<Hash>)
    requires Remainder(p, m, a) && Remainder(p, m, b)
    ensures a <= b || b <= a
  {
    if !(a <= b) && !(b <= a) {
      var x :| x in a && x !in b;
      var y :| y in b && y !in a;
      BeforeIsAsymmetric(KeyOf(p, m, y), KeyOf(p, m, x));
    }
  }

  /** What is given up expires before what is kept, or together with it and has the smaller hash. */
  lemma EvictedExpireFirst(p: Policy, m: Entries, kept: set<Hash>, size: nat, maxSize: nat, maxMemory: nat,
                           gone: Hash, stays: Hash)
    requires ShortestEviction(p, m, kept, size, maxSize, maxMemory)
    requires gone in m && gone !in kept && stays in kept
    ensures m[gone].expiresAt < m[stays].expiresAt
            || (m[gone].expiresAt == m[stays].expiresAt && gone < stays)
  {
    assert Before(KeyOf(p, m, gone), KeyOf(p, m, stays));
  }

  /** There is only one shortest eviction. */
  lemma ShortestEvictionUnique(p: Policy, m: Entries, a: set<Hash>, b: set<Hash>,
                             size: nat, maxSize: nat, maxMemory: nat)
    requires ShortestEviction(p, m, a, size, maxSize, maxMemory) && ShortestEviction(p, m, b, size, maxSize, maxMemory)
    ensures a == b
  {
    RemaindersNested(p, m, a, b);
  }

  /** If there is room already, nothing is given up. */
  lemma RoomEvictsNothing(p: Policy, m: Entries, kept: set<Hash>, size: nat, maxSize: nat, maxMemory: nat)
    requires ShortestEviction(p, m, kept, size, maxSize, maxMemory) && HasRoom(m, size, maxSize, maxMemory)
    ensures kept == m.Keys
  {
    assert Keep(m, m.Keys) == m;
    assert Remainder(p, m, m.Keys);
  }

  /** Within both capacity bounds. */
  ghost predicate WithinBounds(m: Entries, maxSize: nat, maxMemory: nat) {
    |m| <= maxSize && (maxMemory > 0 ==> TotalSize(m) <= maxMemory)
  }

  /** Replacing a key by an entry no larger than its old one evicts nothing. */
  lemma SmallerReplacementEvictsNothing(p: Policy, m: Entries, h: Hash, e: Entry, kept: set<Hash>,
                                        maxSize: nat, maxMemory: nat)
    requires WithinBounds(m, maxSize, maxMemory) && h in m && SizeOf(e) <= SizeOf(m[h])
    requires ShortestEviction(p, m - {h}, kept, SizeOf(e), maxSize, maxMemory)
    ensures kept == m.Keys - {h}
  {
    TotalSizeWithout(m, h);
    assert |m - {h}| == |m| - 1 by {
      assert (m - {h}).Keys == m.Keys - {h};
    }
    RoomEvictsNothing(p, m - {h}, kept, SizeOf(e), maxSize, maxMemory);
  }

  /** One more eviction step keeps the loop on the way to the shortest one. */
  lemma EvictFirst(p: Policy, m: Entries, hashes: set<Hash>, first: Hash, size: nat, maxSize: nat, maxMemory: nat)
    requires Remainder(p, m, hashes) && first in hashes
    requires forall h | h in hashes :: !Before(KeyOf(p, m, h), KeyOf(p, m, first))
    requires !HasRoom(Keep(m, hashes), size, maxSize, maxMemory)
    requires forall more | Remainder(p, m, more) && hashes < more :: !HasRoom(Keep(m, more), size, maxSize, maxMemory)
    ensures Remainder(p, m, hashes - {first})
    ensures forall more | Remainder(p, m, more) && hashes - {first} < more ::
              !HasRoom(Keep(m, more), size, maxSize, maxMemory)
  {
    forall more | Remainder(p, m, more) && hashes - {first} < more
      ensures !HasRoom(Keep(m, more), size, maxSize, maxMemory)
    {
      RemaindersNested(p, m, more, hashes);
      if more <= hashes {
        assert more == hashes;
      }
    }
  }
}
