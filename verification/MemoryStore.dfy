/** The in-memory backend (memory_store.py): fields updated in place under the store's lock,
    every method proved against the function of `MemorySpec` that says what it does. */
module MemoryStore {
  import opened Types
  import opened Entries
  import opened Order
  import opened Validation
  import opened MemorySpec
  import opened MemoryLaws

  class CacheStore {
    const limits: Limits
    var order: seq<Key>          // with `store`: the ordered dictionary, oldest key first
    var store: map<Key, Entry>
    var currentMemoryBytes: int
    var hits: nat
    var misses: nat
    var evictions: nat
    var lruEvictions: nat
    var expiredRemovals: nat
    var rejectedOversize: nat
    var rejectedCapacity: nat

    ghost function State(): Mem
      reads this
    {
      Mem(order, store, currentMemoryBytes,
          Counters(hits, misses, evictions, lruEvictions, expiredRemovals, rejectedOversize, rejectedCapacity))
    }

    ghost predicate Valid()
      reads this
    {
      WellFormed(State())
    }

    constructor (limits: Limits)
      ensures Valid() && this.limits == limits && State() == EMPTY
    {
      this.limits := limits;
      order, store, currentMemoryBytes := [], map[], 0;
      hits, misses, evictions, lruEvictions := 0, 0, 0, 0;
      expiredRemovals, rejectedOversize, rejectedCapacity := 0, 0, 0;
    }

    /** `OrderedDict.pop`: the byte total is the caller's business. */
    method Pop(key: Key) returns (entry: Entry)
      requires Valid() && key in store
      modifies `order, `store
      ensures entry == old(store)[key]
      ensures order == Drop(old(State()), {key}).order && store == Drop(old(State()), {key}).entries
      ensures currentMemoryBytes - Size(entry) == Drop(old(State()), {key}).bytes
    {
      entry := store[key];
      DropOne(State(), key);
      order := Keep(order, store.Keys - {key});
      store := store - {key};
    }

    method RemoveEntry(key: Key)
      requires Valid()
      modifies `order, `store, `currentMemoryBytes
      ensures Valid()
      ensures State() == if key in old(store) then Drop(old(State()), {key}) else old(State())
    {
      if key in store {
        DropWellFormed(State(), {key});
        var entry := Pop(key);
        currentMemoryBytes := currentMemoryBytes - Size(entry);
      }
    }

    method RemoveExpiredEntry(key: Key)
      requires Valid()
      modifies `order, `store, `currentMemoryBytes, `expiredRemovals
      ensures Valid()
      ensures State() == if key in old(store) then Expire(old(State()), key) else old(State())
    {
      if key in store {
        RemoveEntry(key);
        expiredRemovals := expiredRemovals + 1;
      }
    }

    method EvictLru() returns (evicted: bool)
      requires Valid()
      modifies this
      ensures Valid()
      ensures evicted <==> old(order) != []
      ensures State() == if evicted then EvictOldest(old(State()), 1) else old(State())
    {
      if order == [] {
        return false;
      }
      ghost var s := State();
      assert order[0] in Elems(order);
      assert Elems(order[..1]) == {order[0]};
      RemoveEntry(order[0]);
      evictions := evictions + 1;
      lruEvictions := lruEvictions + 1;
      assert State() == EvictOldest(s, 1);
      return true;
    }

    method EvictToFit(required: int) returns (fits: bool)
      requires Valid()
      modifies this
      ensures Valid()
      ensures var excess := old(currentMemoryBytes) + required - limits.maxMemoryBytes;
              State() == EvictOldest(old(State()), BytesDrop(old(order), old(store), excess))
      ensures fits <==> currentMemoryBytes + required <= limits.maxMemoryBytes
    {
      hide Consistent, EvictOldest, BytesDrop;
      ghost var s := State();
      ghost var n := 0;
      EvictNone(s);
      assert s.order[0..] == s.order;
      while currentMemoryBytes + required > limits.maxMemoryBytes && order != []
        invariant Valid() && n <= |s.order| && State() == EvictOldest(s, n)
        invariant BytesDrop(s.order, s.entries, s.bytes + required - limits.maxMemoryBytes)
               == n + BytesDrop(s.order[n..], s.entries, currentMemoryBytes + required - limits.maxMemoryBytes)
        decreases |s.order| - n
      {
        EvictOldestOrder(s, n);
        EvictOneMore(s, n);
        NextVictim(s, n);
        var evicted := EvictLru();
        n := n + 1;
        if !evicted {
          return false;
        }
      }
      EvictOldestOrder(s, n);
      NoVictim(s.order[n..], s.entries, currentMemoryBytes + required - limits.maxMemoryBytes);
      fits := currentMemoryBytes + required <= limits.maxMemoryBytes;
    }

    /** The second eviction loop of `_store_value_locked`, run after `fit` evictions from `base`. */
    method EvictToCount(ghost base: Mem, ghost fit: nat) returns (fits: bool)
      requires WellFormed(base) && fit <= |base.order| && State() == EvictOldest(base, fit)
      modifies this
      ensures fits <==> limits.maxItems >= 1
      ensures State() == EvictOldest(base,
                                     if fits then Max(fit, CountDrop(|base.order|, limits.maxItems)) else |base.order|)
    {
      hide Consistent, EvictOldest;
      EvictOldestOrder(base, fit);
      ghost var n := fit;
      while |order| >= limits.maxItems
        invariant Valid() && fit <= n <= |base.order| && State() == EvictOldest(base, n)
        invariant order == base.order[n..]
        invariant n > fit ==> |order| + 1 >= limits.maxItems
        decreases |base.order| - n
      {
        if n < |base.order| {
          EvictOneMore(base, n);
        }
        var evicted := EvictLru();
        if !evicted {
          return false;
        }
        n := n + 1;
        EvictOldestOrder(base, n);
      }
      return true;
    }

    /** Reads the state `before` the old entry was popped; its bytes are still counted. */
    method StoreValue(key: Key, value: Bytes, ttl: Option<int>, stamp: Time, oldEntry: Option<Entry>, ghost before: Mem)
      returns (status: SetStatus)
      requires WellFormed(before)
      requires oldEntry == if key in before.entries then Some(before.entries[key]) else None
      requires order == Drop(before, {key}).order && store == Drop(before, {key}).entries
      requires currentMemoryBytes == before.bytes && State().c == before.c
      modifies this
      ensures Valid()
      ensures (State(), status) == Put(limits, before, key, value, ttl, stamp)
    {
      hide Consistent, Drop, EvictOldest, BytesDrop, Victims, Max, CountDrop, MoveToEnd, Put;
      ghost var base := Drop(before, {key});
      DropWellFormed(before, {key});
      DropKeys(before, {key});
      if oldEntry.Some? {
        DropOne(before, key);
        currentMemoryBytes := currentMemoryBytes - Size(oldEntry.value);
      } else {
        DropNone(before, {key});
      }
      assert State() == base;
      var entry := MakeEntry(value, ttl, stamp);

      if Size(entry) > limits.maxValueBytes {
        PutRefuses(limits, before, key, value, ttl, stamp);
        if oldEntry.Some? {
          OldEntryNormalised(before, key);
          Reinsert(key, oldEntry.value);
          ReinsertMovesToEnd(before, key);
        }
        rejectedOversize := rejectedOversize + 1;
        return ValueTooLarge;
      }

      EvictNone(base);
      VictimsByLoop(limits, base, Size(entry));
      FitOrEmpty(base, Size(entry), limits.maxMemoryBytes);
      ghost var n := BytesDrop(base.order, base.entries, base.bytes + Size(entry) - limits.maxMemoryBytes);
      if currentMemoryBytes + Size(entry) > limits.maxMemoryBytes {
        var fits := EvictToFit(Size(entry));
        if !fits {
          PutExhausts(limits, before, key, value, ttl, stamp);
          EvictOldestOrder(base, |base.order|);
          if oldEntry.Some? {
            OldEntryNormalised(before, key);
            Reinsert(key, oldEntry.value);
          }
          rejectedCapacity := rejectedCapacity + 1;
          return CapacityExhausted;
        }
      } else {
        NoVictim(base.order, base.entries, base.bytes + Size(entry) - limits.maxMemoryBytes);
      }
      assert State() == EvictOldest(base, n);

      if oldEntry.None? {
        var fits := EvictToCount(base, n);
        if !fits {
          PutExhausts(limits, before, key, value, ttl, stamp);
          EvictOldestOrder(base, |base.order|);
          rejectedCapacity := rejectedCapacity + 1;
          return CapacityExhausted;
        }
        n := Victims(limits, base, Size(entry), true);
      }

      PutAdmits(limits, before, key, value, ttl, stamp);
      EvictOldestOrder(base, n);
      AppendWellFormed(State(), key, entry);
      store := store[key := entry];
      currentMemoryBytes := currentMemoryBytes + Size(entry);
      order := order + [key];
      return Ok;
    }

    method Reinsert(key: Key, entry: Entry)
      requires Valid() && key !in store && Normalised(entry)
      modifies `order, `store, `currentMemoryBytes
      ensures Valid() && State() == Append(old(State()), key, entry)
    {
      AppendWellFormed(State(), key, entry);
      store := store[key := entry];
      order := order + [key];
      currentMemoryBytes := currentMemoryBytes + Size(entry);
    }

    method Get(key: Key, clk: Readings) returns (out: Outcome)
      requires Valid()
      modifies this
      ensures Valid()
      ensures (State(), out) == Step(limits, old(State()), Op.Get(key), clk)
    {
      hide Consistent, Drop;
      if !ValidKey(key) {
        return InvalidKey;
      }
      if key !in store {
        misses := misses + 1;
        return Found(None);
      }
      var entry := store[key];
      if Expired(entry, clk.check) {
        misses := misses + 1;
        RemoveExpiredEntry(key);
        return Found(None);
      }
      ReinsertMovesToEnd(State(), key);
      order := Keep(order, store.Keys - {key}) + [key];
      hits := hits + 1;
      return Found(Some(entry.value));
    }

    method Set(key: Key, value: Bytes, ttl: Option<int>, clk: Readings) returns (out: Outcome)
      requires Valid()
      modifies this
      ensures Valid()
      ensures (State(), out) == Step(limits, old(State()), Op.Set(key, value, ttl), clk)
    {
      hide Consistent, Drop, Put;
      if !ValidKey(key) {
        return InvalidKey;
      }
      ghost var before := State();
      var oldEntry := None;
      if key in store {
        var entry := Pop(key);
        oldEntry := Some(entry);
      } else {
        DropNone(State(), {key});
      }
      var status := StoreValue(key, value, ttl, clk.stamp, oldEntry, before);
      return SetDone(status);
    }

    method SetIfAbsent(key: Key, value: Bytes, ttl: Option<int>, clk: Readings) returns (out: Outcome)
      requires Valid()
      modifies this
      ensures Valid()
      ensures (State(), out) == Step(limits, old(State()), Op.SetIfAbsent(key, value, ttl), clk)
    {
      hide Consistent, Drop, Put;
      if !ValidKey(key) {
        return InvalidKey;
      }
      if key in store {
        if Expired(store[key], clk.check) {
          DropKeys(State(), {key});
          RemoveExpiredEntry(key);
        } else {
          return ConditionalDone(Exists);
        }
      }
      DropNone(State(), {key});
      var status := StoreValue(key, value, ttl, clk.stamp, None, State());
      return ConditionalDone(ConditionalFromSet(status));
    }

    method CompareAndSet(key: Key, expected: Bytes, value: Bytes, ttl: Option<int>, clk: Readings)
      returns (out: Outcome)
      requires Valid()
      modifies this
      ensures Valid()
      ensures (State(), out) == Step(limits, old(State()), Op.CompareAndSet(key, expected, value, ttl), clk)
    {
      hide Consistent, Drop, Put;
      if !ValidKey(key) {
        return InvalidKey;
      }
      if key !in store {
        return ConditionalDone(NotFound);
      }
      if Expired(store[key], clk.check) {
        RemoveExpiredEntry(key);
        return ConditionalDone(NotFound);
      }
      if store[key].value != expected {
        return ConditionalDone(Mismatch);
      }
      ghost var before := State();
      var oldEntry := Pop(key);
      var status := StoreValue(key, value, ttl, clk.stamp, Some(oldEntry), before);
      return ConditionalDone(ConditionalFromSet(status));
    }

    method Delete(key: Key) returns (out: Outcome)
      requires Valid()
      modifies this
      ensures Valid()
      ensures forall clk :: (State(), out) == Step(limits, old(State()), Op.Delete(key), clk)
    {
      hide Consistent, Drop;
      if !ValidKey(key) {
        return InvalidKey;
      }
      if key in store {
        RemoveEntry(key);
        return Deleted(true);
      }
      return Deleted(false);
    }

    /** The cleaner's callback. */
    method RemoveIfExpired(key: Key, clk: Readings)
      requires Valid()
      modifies this
      ensures Valid()
      ensures (State(), Done) == Step(limits, old(State()), Op.RemoveIfExpired(key), clk)
    {
      hide Consistent, Drop;
      if key in store && Expired(store[key], clk.check) {
        RemoveExpiredEntry(key);
      }
    }

    method ExpiredKeys(clk: Readings) returns (expired: seq<Key>)
      requires Valid()
      ensures NoDup(expired) && Elems(expired) == Due(store, clk)
    {
      expired := [];
      for i := 0 to |order|
        invariant forall k :: k in expired <==> k in order[..i] && k in store && Expired(store[k], clk.At(k))
        invariant NoDup(expired)
      {
        assert order[i] in Elems(order);
        assert order[..i + 1] == order[..i] + [order[i]];
        if Expired(store[order[i]], clk.At(order[i])) {
          PrefixDistinct(order, i);
          NoDupAppend(expired, [order[i]]);
          expired := expired + [order[i]];
        }
      }
      assert order[..|order|] == order;
      assert forall k :: k in Elems(order) <==> k in store;
    }

    method RemoveExpiredEntries(clk: Readings)
      requires Valid()
      modifies this
      ensures Valid()
      ensures State() == Purge(old(State()), clk)
    {
      hide Consistent, PartlyPurged, Purge, Due, MemorySpec.Expire, NoDup;
      ghost var s := State();
      var expired := ExpiredKeys(clk);
      PurgeSteps(s, expired, clk);
      for i := 0 to |expired|
        invariant Valid()
        invariant State() == PartlyPurged(s, expired, i)
      {
        ExpireMore(s, expired, i);
        RemoveExpiredEntry(expired[i]);
      }
    }

    method Stats(clk: Readings) returns (out: Outcome)
      requires Valid()
      modifies this
      ensures Valid()
      ensures (State(), out) == Step(limits, old(State()), Op.Stats, clk)
    {
      hide Consistent, Purge;
      RemoveExpiredEntries(clk);
      var counters := Counters(hits, misses, evictions, lruEvictions, expiredRemovals, rejectedOversize,
                               rejectedCapacity);
      return Snapshot(StatsSnapshot(|order|, counters, HitRate(counters),
        currentMemoryBytes, limits.maxMemoryBytes, limits.maxValueBytes, limits.maxItems));
    }

    method Clear()
      modifies this
      ensures Valid() && State() == EMPTY
    {
      order, store, currentMemoryBytes := [], map[], 0;
      hits, misses, evictions, lruEvictions := 0, 0, 0, 0;
      expiredRemovals, rejectedOversize, rejectedCapacity := 0, 0, 0;
    }
  }
}
