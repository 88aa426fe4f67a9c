/**
  The sharded cache: each shard keeps its entry map, its expiry queue and its
  byte counter in agreement, within a bound on entries and one on bytes.
 */
module CacheShards {
  import opened Wrappers
  import opened CacheQueue
  import opened CacheEntries

  class Shard {
    const policy: Policy
    const maxSize: nat
    const maxMemory: nat

    var entries: Entries
    var expiry: ExpiryQueue
    var memoryUsed: int

    /** Queue, map and counter agree. */
    ghost predicate Agrees()
      reads this, expiry
    {
      && expiry.Valid()
      && expiry.Contents() == QueuedFor(policy, entries)
      && memoryUsed == TotalSize(entries)
    }

    ghost predicate Valid()
      reads this, expiry
    {
      Agrees() && WithinBounds(entries, maxSize, maxMemory)
    }

    constructor (policy: Policy, maxSize: nat, maxMemory: nat)
      ensures Valid() && fresh(expiry) && entries == map[]
      ensures this.policy == policy && this.maxSize == maxSize && this.maxMemory == maxMemory
    {
      this.policy, this.maxSize, this.maxMemory := policy, maxSize, maxMemory;
      entries, memoryUsed := map[], 0;
      expiry := new ExpiryQueue();
    }

    /** Drops the entry under hash, if there is one, from all three structures. */
    method Discard(hash: Hash)
      requires Agrees()
      modifies this`entries, this`memoryUsed, expiry
      ensures Agrees() && entries == old(entries) - {hash}
    {
      if hash in entries {
        TotalSizeWithout(entries, hash);
        QueuedWithout(policy, entries, hash);
        memoryUsed := memoryUsed - SizeOf(entries[hash]);
        entries := entries - {hash};
        var _ := expiry.Remove(hash);
      }
    }

    /** Takes out the entry due first; both eviction and expiry do this. */
    method TakeFirst() returns (evicted: Option<Hash>)
      requires Agrees()
      modifies this`entries, this`memoryUsed, expiry
      ensures Agrees()
      ensures evicted.None? <==> old(entries) == map[]
      ensures evicted.None? ==> entries == old(entries)
      ensures evicted.Some? ==>
                && evicted.value in old(entries) && entries == old(entries) - {evicted.value}
                && forall h | h in old(entries) ::
                     !Before(KeyOf(policy, old(entries), h), KeyOf(policy, old(entries), evicted.value))
    {
      var item := expiry.Pop();
      QueuedAlike(policy, entries);
      if item.None? {
        return None;
      }
      var hash := item.value.hash;
      TotalSizeWithout(entries, hash);
      QueuedWithout(policy, entries, hash);
      memoryUsed := memoryUsed - SizeOf(entries[hash]);
      entries := entries - {hash};
      return Some(hash);
    }

    /** Evicts until there is room for an entry of the given size. */
    method MakeRoom(size: nat)
      requires Agrees() && maxSize > 0 && (maxMemory > 0 ==> size <= maxMemory)
      modifies this`entries, this`memoryUsed, expiry
      ensures Agrees() && entries == Keep(old(entries), entries.Keys)
      ensures ShortestEviction(policy, old(entries), entries.Keys, size, maxSize, maxMemory)
    {
      ghost var all := entries;
      assert Keep(all, all.Keys) == all;
      while |entries| >= maxSize || (maxMemory > 0 && memoryUsed + size > maxMemory)
        invariant Agrees() && entries.Keys <= all.Keys && entries == Keep(all, entries.Keys)
        invariant Remainder(policy, all, entries.Keys)
        invariant forall more | Remainder(policy, all, more) && entries.Keys < more ::
                    !HasRoom(Keep(all, more), size, maxSize, maxMemory)
        decreases |entries|
      {
        ghost var before := entries;
        var evicted := TakeFirst();
        if evicted.None? {
          break;
        }
        EvictOne(policy, all, before, evicted.value, size, maxSize, maxMemory);
        assert entries.Keys == before.Keys - {evicted.value};
      }
    }

    /**
      Stores an entry.  One too large for the whole shard changes nothing;
      otherwise any old entry under hash is replaced and the shortest run of
      the other entries, in removal order, makes way.
     */
    method Set(hash: Hash, entry: Entry)
      requires Valid() && maxSize > 0
      modifies this`entries, this`memoryUsed, expiry
      ensures Valid()
      ensures maxMemory > 0 && SizeOf(entry) > maxMemory ==> entries == old(entries)
      ensures !(maxMemory > 0 && SizeOf(entry) > maxMemory) ==>
                Stored(policy, old(entries), entries, hash, entry, maxSize, maxMemory)
    {
      var size := SizeOf(entry);
      if maxMemory > 0 && size > maxMemory {
        return;
      }
      Discard(hash);
      MakeRoom(size);
      InsertFits(policy, old(entries), entries, hash, entry, maxSize, maxMemory);
      Insert(hash, entry);
    }

    /** Adds an entry under a hash that has none. */
    method Insert(hash: Hash, entry: Entry)
      requires Agrees() && hash !in entries
      modifies this`entries, this`memoryUsed, expiry
      ensures Agrees() && entries == old(entries)[hash := entry]
    {
      TotalSizeWith(entries, hash, entry);
      QueuedWith(policy, entries, hash, entry);
      entries := entries[hash := entry];
      expiry.Set(hash, RemoveAfter(policy, entry));
      memoryUsed := memoryUsed + SizeOf(entry);
    }

    method Delete(hash: Hash)
      requires Valid()
      modifies this`entries, this`memoryUsed, expiry
      ensures Valid() && entries == old(entries) - {hash}
    {
      FewerEntries(entries, hash);
      Discard(hash);
    }

    method Flush()
      requires Valid()
      modifies this`entries, this`memoryUsed, this`expiry
      ensures Valid() && entries == map[] && fresh(expiry)
    {
      entries := map[];
      expiry := new ExpiryQueue();
      memoryUsed := 0;
    }

    /** Drops the first entry if it is due; otherwise none is. */
    method DropDue(now: Time) returns (dropped: Option<Hash>)
      requires Agrees()
      modifies this`entries, this`memoryUsed, expiry
      ensures Agrees()
      ensures dropped.None? ==> entries == old(entries) && forall h | h in entries :: !Due(policy, entries[h], now)
      ensures dropped.Some? ==>
                && dropped.value in old(entries) && Due(policy, old(entries)[dropped.value], now)
                && entries == old(entries) - {dropped.value}
    {
      var next := expiry.Peek();
      if next.None? || next.value.removeAfter > now {
        NoneDue(policy, entries, next, now);
        return None;
      }
      assert next.value.hash in QueuedFor(policy, entries);
      dropped := TakeFirst();
      assert !Before(KeyOf(policy, old(entries), next.value.hash), KeyOf(policy, old(entries), dropped.value));
    }

    /** Drops every entry that is due, and no other. */
    method Cleanup(now: Time)
      requires Valid()
      modifies this`entries, this`memoryUsed, expiry
      ensures Valid()
      ensures entries == Undue(policy, old(entries), now)
    {
      ghost var all := entries;
      var more := true;
      while more
        invariant Agrees() && WithinBounds(entries, maxSize, maxMemory)
        invariant PartlyCleaned(policy, all, entries, now)
        invariant !more ==> entries == Undue(policy, all, now)
        decreases |entries|, more
      {
        more := CleanOne(now, all);
      }
    }

    /** One turn of the cleanup loop. */
    method CleanOne(now: Time, ghost all: Entries) returns (more: bool)
      requires Agrees() && WithinBounds(entries, maxSize, maxMemory) && PartlyCleaned(policy, all, entries, now)
      modifies this`entries, this`memoryUsed, expiry
      ensures Agrees() && WithinBounds(entries, maxSize, maxMemory) && PartlyCleaned(policy, all, entries, now)
      ensures if more then |entries| < |old(entries)| else entries == old(entries) == Undue(policy, all, now)
    {
      ghost var before := entries;
      var dropped := DropDue(now);
      if dropped.None? {
        AllCleaned(policy, all, entries, now);
        return false;
      }
      FewerEntries(before, dropped.value);
      CleanedFurther(policy, all, before, dropped.value, now);
      return true;
    }

    /** A lookup at the moment t. */
    method Get(hash: Hash, t: Time) returns (found: Option<Entry>)
      ensures found == if hash in entries && Served(policy, entries[hash], t) then Some(entries[hash]) else None
      ensures found.Some? <==>
                && hash in entries
                && (t <= entries[hash].expiresAt
                    || (policy.serveStale && t < entries[hash].expiresAt + policy.maxStale))
    {
      if hash !in entries {
        return None;
      }
      var entry := entries[hash];
      if t > entry.expiresAt {
        if !policy.serveStale {
          return None;
        }
        if !(t - entry.expiresAt < policy.maxStale) {
          return None;
        }
      }
      return Some(entry);
    }
  }

  ghost function QueuedFor(p: Policy, m: Entries): map<Hash, Time> {
    map h | h in m :: RemoveAfter(p, m[h])
  }

  lemma QueuedAlike(p: Policy, m: Entries)
    ensures QueuedFor(p, m) == map[] ==> m == map[]
    ensures forall h | h in m :: h in QueuedFor(p, m) && KeyOf(p, m, h) == Item(h, QueuedFor(p, m)[h])
  {
    assert m.Keys == QueuedFor(p, m).Keys;
  }

  lemma QueuedWithout(p: Policy, m: Entries, h: Hash)
    ensures QueuedFor(p, m - {h}) == QueuedFor(p, m) - {h}
  {
  }

  lemma QueuedWith(p: Policy, m: Entries, h: Hash, e: Entry)
    ensures QueuedFor(p, m[h := e]) == QueuedFor(p, m)[h := RemoveAfter(p, e)]
  {
  }

  function Undue(p: Policy, m: Entries, now: Time): Entries {
    map h | h in m && !Due(p, m[h], now) :: m[h]
  }

  /** Only due entries have gone, and the rest are as they were. */
  ghost predicate PartlyCleaned(p: Policy, all: Entries, rest: Entries, now: Time) {
    && (forall h | h in rest :: h in all && rest[h] == all[h])
    && (forall h | h in all && h !in rest :: Due(p, all[h], now))
  }

  lemma CleanedFurther(p: Policy, all: Entries, rest: Entries, h: Hash, now: Time)
    requires PartlyCleaned(p, all, rest, now) && h in rest && Due(p, rest[h], now)
    ensures PartlyCleaned(p, all, rest - {h}, now)
  {
  }

  lemma AllCleaned(p: Policy, all: Entries, rest: Entries, now: Time)
    requires PartlyCleaned(p, all, rest, now) && forall h | h in rest :: !Due(p, rest[h], now)
    ensures rest == Undue(p, all, now)
  {
  }

  lemma NoneDue(p: Policy, m: Entries, next: Option<Item>, now: Time)
    requires next.None? ==> QueuedFor(p, m) == map[]
    requires next.Some? ==>
               next.value.removeAfter > now
               && forall h | h in QueuedFor(p, m) :: !Before(Item(h, QueuedFor(p, m)[h]), next.value)
    ensures forall h | h in m :: !Due(p, m[h], now)
  {
    forall h | h in m ensures !Due(p, m[h], now) {
      assert h in QueuedFor(p, m);
    }
  }

  /**
    after holds the new entry and, of the others, all but the shortest run of
    first entries that had to make way.
   */
  ghost predicate Stored(p: Policy, before: Entries, after: Entries, h: Hash, e: Entry, maxSize: nat, maxMemory: nat) {
    && h in after && after[h] == e
    && after - {h} == Keep(before - {h}, after.Keys - {h})
    && ShortestEviction(p, before - {h}, after.Keys - {h}, SizeOf(e), maxSize, maxMemory)
  }

  lemma InsertFits(p: Policy, before: Entries, kept: Entries, h: Hash, e: Entry, maxSize: nat, maxMemory: nat)
    requires kept == Keep(before - {h}, kept.Keys)
    requires ShortestEviction(p, before - {h}, kept.Keys, SizeOf(e), maxSize, maxMemory)
    ensures WithinBounds(kept[h := e], maxSize, maxMemory)
    ensures h !in kept && Stored(p, before, kept[h := e], h, e, maxSize, maxMemory)
  {
    TotalSizeWith(kept, h, e);
    assert kept[h := e].Keys == kept.Keys + {h};
    assert kept[h := e] - {h} == kept && kept[h := e].Keys - {h} == kept.Keys;
  }

  lemma FewerEntries(m: Entries, h: Hash)
    ensures |m - {h}| == (if h in m then |m| - 1 else |m|) && TotalSize(m - {h}) <= TotalSize(m)
  {
    if h in m {
      TotalSizeWithout(m, h);
      assert (m - {h}).Keys == m.Keys - {h};
    } else {
      assert m - {h} == m;
    }
  }

  lemma EvictOne(p: Policy, all: Entries, before: Entries, first: Hash, size: nat, maxSize: nat, maxMemory: nat)
    requires before.Keys <= all.Keys && before == Keep(all, before.Keys) && Remainder(p, all, before.Keys)
    requires first in before && forall h | h in before :: !Before(KeyOf(p, before, h), KeyOf(p, before, first))
    requires !HasRoom(before, size, maxSize, maxMemory)
    requires forall more | Remainder(p, all, more) && before.Keys < more ::
               !HasRoom(Keep(all, more), size, maxSize, maxMemory)
    ensures before - {first} == Keep(all, before.Keys - {first})
    ensures Remainder(p, all, before.Keys - {first})
    ensures forall more | Remainder(p, all, more) && before.Keys - {first} < more ::
              !HasRoom(Keep(all, more), size, maxSize, maxMemory)
  {
    forall h | h in before.Keys ensures !Before(KeyOf(p, all, h), KeyOf(p, all, first)) {
      assert KeyOf(p, all, h) == KeyOf(p, before, h);
    }
    EvictFirst(p, all, before.Keys, first, size, maxSize, maxMemory);
  }
}
