/**
  The cache as its callers see it: configuration, routing of a hash to its
  shard, admission, and the sweeps over all shards.
 */
module CacheSharded {
  import opened Wrappers
  import opened CacheQueue
  import opened CacheEntries
  import opened CacheShards

  const DEFAULT_SHARD_COUNT := 256
  const DEFAULT_SHARD_SIZE := 10000
  const MAX_INT64 := 0x7FFF_FFFF_FFFF_FFFF
  const MEGABYTE := 1024 * 1024

  const SECOND := 1_000_000_000
  const DEFAULT_BOGUS_TTL := 60 * SECOND
  const DEFAULT_MAX_NEGATIVE_TTL := 3600 * SECOND

  /** feedsValid is what the check of the threat feeds says. */
  datatype Config = Config(
    maxEntries: int,
    shardCount: int,
    maxMemoryMB: int,
    prefetchMinTTLPct: real,
    feedsValid: bool,
    policy: Policy)

  datatype ConfigError =
    | ShardCountOutOfRange | NegativeEntries | MemoryOutOfRange | PrefetchOutOfRange | BadThreatFeeds | TooFewEntries

  ghost predicate IsPowerOfTwo(n: nat) {
    exists k: nat :: n == Power(k)
  }

  function Power(k: nat): (p: nat)
    ensures p > 0
  {
    if k == 0 then 1 else 2 * Power(k - 1)
  }

  /** The least power of two that is at least n. */
  ghost predicate RoundsUp(n: int, p: nat) {
    IsPowerOfTwo(p) && n <= p && (p == 1 || p < 2 * n)
  }

  method RoundUp(n: nat) returns (p: nat)
    ensures RoundsUp(n, p)
  {
    p := 1;
    ghost var k := 0;
    while p < n
      invariant p == Power(k) && (p == 1 || p < 2 * n)
      decreases n - p
    {
      p := 2 * p;
      k := k + 1;
    }
  }

  lemma {:induction false} PowersAreApart(j: nat, k: nat)
    requires j < k
    ensures 2 * Power(j) <= Power(k)
  {
    if j < k - 1 {
      PowersAreApart(j, k - 1);
    }
  }

  lemma RoundUpUnique(n: nat, p: nat, q: nat)
    requires RoundsUp(n, p) && RoundsUp(n, q)
    ensures p == q
  {
    var j: nat :| p == Power(j);
    var k: nat :| q == Power(k);
    if j < k {
      PowersAreApart(j, k);
    } else if k < j {
      PowersAreApart(k, j);
    }
  }

  function ShardsOrDefault(cfg: Config): int {
    if cfg.shardCount == 0 then DEFAULT_SHARD_COUNT else cfg.shardCount
  }

  /** The limits an operator must respect. */
  ghost predicate Acceptable(cfg: Config) {
    && 0 <= cfg.shardCount <= 65536 && 0 <= cfg.maxEntries && 0 <= cfg.maxMemoryMB <= MAX_INT64 / MEGABYTE
    && 0.0 <= cfg.prefetchMinTTLPct <= 1.0 && cfg.feedsValid
    && forall effective: nat | RoundsUp(ShardsOrDefault(cfg), effective) ::
         cfg.maxEntries == 0 || effective <= cfg.maxEntries
  }

  /** A zero field asks for its default. */
  method Validate(cfg: Config) returns (error: Option<ConfigError>)
    ensures error.None? <==> Acceptable(cfg)
  {
    if cfg.shardCount < 0 || cfg.shardCount > 65536 {
      return Some(ShardCountOutOfRange);
    }
    if cfg.maxEntries < 0 {
      return Some(NegativeEntries);
    }
    if cfg.maxMemoryMB < 0 || cfg.maxMemoryMB > MAX_INT64 / MEGABYTE {
      return Some(MemoryOutOfRange);
    }
    if cfg.prefetchMinTTLPct < 0.0 || cfg.prefetchMinTTLPct > 1.0 {
      return Some(PrefetchOutOfRange);
    }
    if !cfg.feedsValid {
      return Some(BadThreatFeeds);
    }
    var effective := RoundUp(ShardsOrDefault(cfg));
    var entries := if cfg.maxEntries == 0 then DEFAULT_SHARD_SIZE * effective else cfg.maxEntries;
    if entries < effective {
      return Some(TooFewEntries);
    }
    forall other: nat | RoundsUp(ShardsOrDefault(cfg), other) ensures other == effective {
      RoundUpUnique(ShardsOrDefault(cfg), other, effective);
    }
    return None;
  }

  /** What an accepted configuration comes to: the shard count and each shard's two bounds. */
  datatype Shape = Shape(count: nat, maxSize: nat, maxMemory: nat)

  /** The shards together stay within the configured totals, and waste less than one entry and one octet each. */
  ghost predicate FairShare(cfg: Config, shape: Shape) {
    var entries := if cfg.maxEntries == 0 then DEFAULT_SHARD_SIZE * ShardsOrDefault(cfg) else cfg.maxEntries;
    && shape.count * shape.maxSize <= entries < shape.count * (shape.maxSize + 1)
    && shape.count * shape.maxMemory <= cfg.maxMemoryMB * MEGABYTE < shape.count * (shape.maxMemory + 1)
  }

  ghost predicate HasShape(shards: seq<Shard>, shape: Shape) {
    forall i | 0 <= i < |shards| :: shards[i].maxSize == shape.maxSize && shards[i].maxMemory == shape.maxMemory
  }

  method ShapeOf(cfg: Config) returns (shape: Shape)
    requires Acceptable(cfg)
    ensures RoundsUp(ShardsOrDefault(cfg), shape.count)
    // every shard can hold an entry, and a memory limit never degenerates into no limit
    ensures shape.maxSize >= 1 && (cfg.maxMemoryMB > 0 <==> shape.maxMemory > 0)
    ensures FairShare(cfg, shape)
  {
    var requested := ShardsOrDefault(cfg);
    var entries := if cfg.maxEntries == 0 then DEFAULT_SHARD_SIZE * requested else cfg.maxEntries;
    var count := RoundUp(requested);
    assert 1 <= count <= entries;
    assert count < MEGABYTE;
    Share(entries, count);
    MemoryShare(cfg.maxMemoryMB, count);
    return Shape(count, entries / count, cfg.maxMemoryMB * MEGABYTE / count);
  }

  lemma Share(total: nat, count: nat)
    requires count > 0
    ensures 0 <= count * (total / count) <= total < count * (total / count + 1)
    ensures total >= count ==> total / count >= 1
  {
  }

  lemma MemoryShare(megabytes: nat, count: nat)
    requires 0 < count < MEGABYTE
    ensures var share := megabytes * MEGABYTE / count;
            0 <= share && count * share <= megabytes * MEGABYTE < count * (share + 1)
    ensures megabytes > 0 <==> megabytes * MEGABYTE / count > 0
  {
    Share(megabytes * MEGABYTE, count);
  }

  function RouteOf(hash: Hash, count: nat): (i: nat)
    requires count > 0
    ensures i < count
  {
    hash % count
  }

  ghost predicate EmptyShard(shard: Shard, policy: Policy)
    reads shard
  {
    shard.policy == policy && shard.maxSize > 0 && shard.entries == map[]
  }

  /**
    The policy a cache works with: a zero quarantine or a zero maximum for
    negative answers asks for its default, so only a negative one turns it off.
   */
  function Effective(p: Policy): (r: Policy)
    ensures r.bogusTTL > 0 <==> p.bogusTTL >= 0
    ensures r.maxNegativeTTL > 0 <==> p.maxNegativeTTL >= 0
    ensures r.bogusTTL == (if p.bogusTTL == 0 then 60_000_000_000 else p.bogusTTL)
    ensures r.maxNegativeTTL == (if p.maxNegativeTTL == 0 then 3_600_000_000_000 else p.maxNegativeTTL)
  {
    p.(bogusTTL := if p.bogusTTL == 0 then DEFAULT_BOGUS_TTL else p.bogusTTL,
       maxNegativeTTL := if p.maxNegativeTTL == 0 then DEFAULT_MAX_NEGATIVE_TTL else p.maxNegativeTTL)
  }

  /** Builds an empty cache from a configuration that Validate accepts. */
  method NewShardedCache(cfg: Config) returns (cache: ShardedCache, ghost shape: Shape)
    requires Acceptable(cfg)
    ensures cache.policy == Effective(cfg.policy)
    ensures fresh(cache) && cache.Valid() && RoundsUp(ShardsOrDefault(cfg), |cache.shards|)
    ensures FairShare(cfg, shape) && |cache.shards| == shape.count && HasShape(cache.shards, shape)
    ensures forall h :: cache.Lookup(h) == None
  {
    var s := ShapeOf(cfg);
    shape := s;
    var policy := Effective(cfg.policy);
    var shards: seq<Shard> := [];
    for n := 0 to s.count
      invariant |shards| == n
      invariant forall i | 0 <= i < n :: fresh(shards[i]) && fresh(shards[i].expiry)
      invariant forall i | 0 <= i < n :: shards[i].Valid() && EmptyShard(shards[i], policy)
      invariant HasShape(shards, s)
      invariant forall i, j | 0 <= i < j < n :: shards[i] != shards[j] && shards[i].expiry != shards[j].expiry
    {
      var shard := new Shard(policy, s.maxSize, s.maxMemory);
      shards := shards + [shard];
    }
    cache := new ShardedCache(policy, shards);
  }

  /** What a lookup at the moment t returns, given what is stored. */
  function Answer(p: Policy, stored: Option<Entry>, t: Time): Option<Entry> {
    if stored.Some? && Served(p, stored.value, t) then stored else None
  }

  class ShardedCache {
    const policy: Policy
    const shards: seq<Shard>

    constructor (policy: Policy, shards: seq<Shard>)
      requires |shards| > 0
      requires forall i | 0 <= i < |shards| :: shards[i].Valid() && EmptyShard(shards[i], policy)
      requires forall i, j | 0 <= i < j < |shards| :: shards[i] != shards[j] && shards[i].expiry != shards[j].expiry
      ensures Valid() && this.shards == shards && this.policy == policy
      ensures forall h :: Lookup(h) == None
    {
      this.policy, this.shards := policy, shards;
    }

    function Objects(): set<object>
      reads this, shards
    {
      (set s | s in shards :: s as object) + (set s | s in shards :: s.expiry as object)
    }

    ghost predicate Sound(i: nat)
      requires i < |shards|
      reads shards[i], shards[i].expiry
    {
      && shards[i].Valid() && shards[i].policy == policy && shards[i].maxSize > 0
      && forall h | h in shards[i].entries :: RouteOf(h, |shards|) == i
    }

    /** Shards share neither themselves nor their queues. */
    ghost predicate Separate()
      reads shards
    {
      forall i, j | 0 <= i < j < |shards| :: shards[i] != shards[j] && shards[i].expiry != shards[j].expiry
    }

    ghost predicate Valid()
      reads this, shards, Objects()
    {
      |shards| > 0 && Separate() && forall i | 0 <= i < |shards| :: Sound(i)
    }

    /** The entry stored under hash. */
    function Lookup(hash: Hash): Option<Entry>
      requires |shards| > 0
      reads this, shards
    {
      var shard := shards[RouteOf(hash, |shards|)];
      if hash in shard.entries then Some(shard.entries[hash]) else None
    }

    /** Work on shard i that leaves its queue in place and itself sound leaves the whole cache sound. */
    twostate lemma OtherShardsStay(i: nat)
      requires old(Valid()) && i < |shards| && Sound(i) && shards[i].expiry == old(shards[i].expiry)
      requires forall j | 0 <= j < |shards| && j != i :: unchanged(shards[j]) && unchanged(shards[j].expiry)
      ensures Valid()
      ensures forall h | RouteOf(h, |shards|) != i :: Lookup(h) == old(Lookup(h))
    {
      forall j | 0 <= j < |shards| ensures Sound(j) {
        assert j != i ==> old(Sound(j));
      }
    }

    method Get(hash: Hash, t: Time) returns (found: Option<Entry>)
      requires Valid()
      ensures found == Answer(policy, Lookup(hash), t)
      ensures found.Some? <==>
                && Lookup(hash).Some?
                && var expiresAt := Lookup(hash).value.expiresAt;
                   t <= expiresAt || (policy.serveStale && t < expiresAt + policy.maxStale)
    {
      var i := RouteOf(hash, |shards|);
      assert Sound(i);
      found := shards[i].Get(hash, t);
    }

    /**
      Stores an entry, its life clamped first.  In enforced mode an unvalidated
      entry is not admitted at all.  Other shards are never touched.
     */
    method Set(hash: Hash, entry: Entry, now: Time)
      requires Valid()
      modifies shards[RouteOf(hash, |shards|)], shards[RouteOf(hash, |shards|)].expiry
      ensures Valid()
      ensures forall h | RouteOf(h, |shards|) != RouteOf(hash, |shards|) :: Lookup(h) == old(Lookup(h))
      ensures var shard := shards[RouteOf(hash, |shards|)];
              var admitted := ApplyTTLPolicy(policy, entry, now);
              if (policy.mode.Enforced? && !entry.validated)
                  || (shard.maxMemory > 0 && SizeOf(entry) > shard.maxMemory)
              then shard.entries == old(shard.entries)
              else Stored(policy, old(shard.entries), shard.entries, hash, admitted, shard.maxSize, shard.maxMemory)
      // what is stored is the entry, with the life its kind is granted
      ensures var shard := shards[RouteOf(hash, |shards|)];
              (policy.mode.Enforced? && !entry.validated) || (shard.maxMemory > 0 && SizeOf(entry) > shard.maxMemory)
              || (&& Lookup(hash).Some?
                  && var life := Lookup(hash).value.expiresAt;
                     Lookup(hash) == Some(entry.(expiresAt := life)) && LifeGranted(policy, entry, now, life))
    {
      if !entry.validated && policy.mode.Enforced? {
        return;
      }
      var i := RouteOf(hash, |shards|);
      assert Sound(i);
      shards[i].Set(hash, ApplyTTLPolicy(policy, entry, now));
      StoredRoutes(policy, old(shards[i].entries), shards[i].entries, hash, ApplyTTLPolicy(policy, entry, now),
                   shards[i].maxSize, shards[i].maxMemory);
      OtherShardsStay(i);
    }

    method Delete(hash: Hash)
      requires Valid()
      modifies shards[RouteOf(hash, |shards|)], shards[RouteOf(hash, |shards|)].expiry
      ensures Valid()
      ensures forall h :: Lookup(h) == if h == hash then None else old(Lookup(h))
    {
      var i := RouteOf(hash, |shards|);
      assert Sound(i);
      shards[i].Delete(hash);
      OtherShardsStay(i);
    }

    /** Cleans up one shard, leaving the others alone. */
    method CleanShard(i: nat, now: Time)
      requires Valid() && i < |shards|
      modifies shards[i], shards[i].expiry
      ensures Valid() && forall j | 0 <= j < |shards| :: shards[j].expiry == old(shards[j].expiry)
      ensures forall j | 0 <= j < |shards| ::
                shards[j].entries ==
                    if j == i then Undue(policy, old(shards[j].entries), now) else old(shards[j].entries)
    {
      assert Sound(i);
      shards[i].Cleanup(now);
      assert Sound(i);
    }

    /** Drops exactly the due entries, which no later lookup could have been answered from. */
    method PerformCleanup(now: Time)
      requires Valid()
      modifies Objects()
      ensures Valid()
      ensures forall h :: Lookup(h) ==
                if old(Lookup(h)).Some? && Due(policy, old(Lookup(h)).value, now) then None else old(Lookup(h))
      ensures forall h | old(Lookup(h)).Some? ::
                Lookup(h).None? <==>
                old(Lookup(h)).value.expiresAt + (if policy.serveStale then policy.maxStale else 0) <= now
      ensures !policy.serveStale || policy.maxStale >= 0 ==>
                forall h, t | now < t :: Answer(policy, Lookup(h), t) == Answer(policy, old(Lookup(h)), t)
    {
      for i := 0 to |shards|
        invariant Valid()
        invariant forall j | 0 <= j < |shards| :: shards[j].expiry == old(shards[j].expiry)
        invariant forall j | 0 <= j < |shards| ::
                    shards[j].entries ==
                        if j < i then Undue(policy, old(shards[j].entries), now) else old(shards[j].entries)
      {
        assert shards[i] in shards && old(shards[i].expiry) as object in old(Objects());
        CleanShard(i, now);
      }
    }

    /** Empties one shard onto a new queue, leaving the others alone. */
    method FlushShard(i: nat)
      requires Valid() && i < |shards|
      modifies shards[i]
      ensures Valid() && shards[i].entries == map[] && fresh(shards[i].expiry)
      ensures forall j | 0 <= j < |shards| && j != i ::
                shards[j].entries == old(shards[j].entries) && shards[j].expiry == old(shards[j].expiry)
    {
      assert Sound(i);
      shards[i].Flush();
      assert Sound(i);
    }

    method Flush()
      requires Valid()
      modifies shards
      ensures Valid() && fresh(Objects() - old(Objects()))
      ensures forall h :: Lookup(h) == None
    {
      for i := 0 to |shards|
        invariant Valid()
        invariant forall j | 0 <= j < i :: fresh(shards[j].expiry) && shards[j].entries == map[]
        invariant forall j | i <= j < |shards| :: shards[j].expiry == old(shards[j].expiry)
      {
        FlushShard(i);
      }
    }
  }

  lemma StoredRoutes(p: Policy, before: Entries, after: Entries, h: Hash, e: Entry, maxSize: nat, maxMemory: nat)
    ensures Stored(p, before, after, h, e, maxSize, maxMemory) ==> after.Keys <= before.Keys + {h}
  {
    if Stored(p, before, after, h, e, maxSize, maxMemory) {
      forall x | x in after ensures x in before || x == h {
        assert x != h ==> x in after - {h};
      }
    }
  }
}
