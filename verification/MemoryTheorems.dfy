/** What the in-memory store guarantees: its bounds over every run, exact minimal eviction,
    the frame of rejected writes, and the effect of a purge. */
module MemoryTheorems {
  import opened Types
  import opened Entries
  import opened Order
  import opened Validation
  import opened MemorySpec
  import opened MemoryLaws

  /** With the `n` oldest of `order` gone, one entry of `size` bytes can join the others. */
  ghost predicate Room(lim: Limits, order: seq<Key>, m: map<Key, Entry>, n: nat, size: int, isNew: bool)
    requires n <= |order|
  {
    Total(order[n..], m) + size <= lim.maxMemoryBytes && (isNew ==> |order| - n + 1 <= lim.maxItems)
  }

  /** The bytes fit after `i` evictions exactly when `i` reaches the eviction loop's count. */
  lemma BytesFitFrom(base: Mem, size: int, max: int, i: nat)
    requires WellFormed(base) && size <= max && i <= |base.order|
    ensures Total(base.order[i..], base.entries) + size <= max <==>
              i >= BytesDrop(base.order, base.entries, base.bytes + size - max)
  {
    var excess := base.bytes + size - max;
    var fit := BytesDrop(base.order, base.entries, excess);
    BytesDropIsLeast(base.order, base.entries, excess);
    EvictOldestBytes(base, i);
    hide Consistent, Total, BytesDrop;
    if i >= fit {
      TotalAll(base);
      PrefixTotal(base.order, fit, i, base.entries);
    }
  }

  lemma TotalAll(s: Mem)
    requires WellFormed(s)
    ensures Total(s.order, s.entries) == s.bytes
    ensures forall n :: n == |s.order| ==> s.order[..n] == s.order
  {
  }

  lemma VictimsIsLeast(lim: Limits, base: Mem, size: int, isNew: bool, i: nat)
    requires WellFormed(base) && size <= lim.maxMemoryBytes && lim.maxItems >= 1 && i <= |base.order|
    ensures Room(lim, base.order, base.entries, i, size, isNew) <==> i >= Victims(lim, base, size, isNew)
  {
    hide Consistent, Total, BytesDrop;
    BytesFitFrom(base, size, lim.maxMemoryBytes, i);
  }

  lemma PrefixTotal(s: seq<Key>, i: nat, j: nat, m: map<Key, Entry>)
    requires i <= j <= |s|
    ensures Total(s[..i], m) <= Total(s[..j], m)
  {
    assert s[..j] == s[..i] + s[i..j];
    TotalAppend(s[..i], s[i..j], m);
    TotalNonNegative(s[i..j], m);
  }

  /** `t` is `s` with `n` evictions and one admitted write: the old order without the key, minus its
      `n` oldest, plus the key at the recent end; every other entry is as it was. */
  ghost predicate StoredAfter(s: Mem, key: Key, e: Entry, n: nat, t: Mem) {
    var L := Keep(s.order, s.entries.Keys - {key});
    && n <= |L|
    && t.order == L[n..] + [key]
    && t.entries.Keys == Elems(L[n..]) + {key}
    && t.entries[key] == e
    && (forall k :: k in t.entries && k != key ==> k in s.entries && t.entries[k] == s.entries[k])
    && t.c == CountEvictions(s.c, n)
  }

  lemma DropEntries(s: Mem, gone: set<Key>)
    ensures forall k :: k in Drop(s, gone).entries ==>
              k in s.entries && k !in gone && Drop(s, gone).entries[k] == s.entries[k]
    ensures Drop(s, gone).order == Keep(s.order, s.entries.Keys - gone)
  {
  }

  lemma PutStores(lim: Limits, s: Mem, key: Key, value: Bytes, ttl: Option<int>, now: Time)
    requires WellFormed(s) && ValidLimits(lim) && SizeOfValue(value) <= lim.maxValueBytes
    ensures var (t, status) := Put(lim, s, key, value, ttl, now);
            && status == Ok && WellFormed(t)
            && StoredAfter(s, key, MakeEntry(value, ttl, now),
                           Victims(lim, Drop(s, {key}), SizeOfValue(value), key !in s.entries), t)
  {
    var base := Drop(s, {key});
    var n := Victims(lim, base, SizeOfValue(value), key !in s.entries);
    var e := EvictOldest(base, n);
    var entry := MakeEntry(value, ttl, now);
    assert Put(lim, s, key, value, ttl, now) == (Append(e, key, entry), Ok);
    hide Consistent, Drop, EvictOldest, Put, Victims, StoredAfter;
    DropWellFormed(s, {key});
    DropKeys(s, {key});
    EvictOldestOrder(base, n);
    AppendWellFormed(e, key, entry);
    AppendAfterEviction(s, key, entry, n);
  }

  lemma AppendAfterEviction(s: Mem, key: Key, e: Entry, n: nat)
    requires WellFormed(Drop(s, {key})) && n <= |Drop(s, {key}).order|
    ensures StoredAfter(s, key, e, n, Append(EvictOldest(Drop(s, {key}), n), key, e))
  {
    hide Consistent, Drop, EvictOldest, Keep;
    var base := Drop(s, {key});
    DropKeys(s, {key});
    DropEntries(s, {key});
    EvictOldestOrder(base, n);
    EvictOldestEntries(base, n);
  }

  /** Exact minimal eviction: an admitted write evicts the shortest prefix that makes room. */
  lemma StoreEvictsTheLeastPrefix(lim: Limits, s: Mem, key: Key, value: Bytes, ttl: Option<int>, now: Time)
    requires WellFormed(s) && ValidLimits(lim) && SizeOfValue(value) <= lim.maxValueBytes
    ensures var (t, status) := Put(lim, s, key, value, ttl, now);
            var isNew := key !in s.entries;
            var L := Keep(s.order, s.entries.Keys - {key});
            status == Ok && exists n: nat ::
              && StoredAfter(s, key, MakeEntry(value, ttl, now), n, t)
              && Room(lim, L, s.entries, n, SizeOfValue(value), isNew)
              && forall i :: 0 <= i < n ==> !Room(lim, L, s.entries, i, SizeOfValue(value), isNew)
  {
    PutStores(lim, s, key, value, ttl, now);
    LeastForWrite(lim, s, key, SizeOfValue(value), key !in s.entries);
    DropEntries(s, {key});
    hide Put, Consistent, StoredAfter, Room, Victims;
    var n := Victims(lim, Drop(s, {key}), SizeOfValue(value), key !in s.entries);
    assert StoredAfter(s, key, MakeEntry(value, ttl, now), n, Put(lim, s, key, value, ttl, now).0);
  }

  lemma LeastForWrite(lim: Limits, s: Mem, key: Key, size: int, isNew: bool)
    requires WellFormed(s) && size <= lim.maxMemoryBytes && lim.maxItems >= 1
    ensures var L := Drop(s, {key}).order;
            var n := Victims(lim, Drop(s, {key}), size, isNew);
            && Room(lim, L, s.entries, n, size, isNew)
            && forall i :: 0 <= i < n ==> !Room(lim, L, s.entries, i, size, isNew)
  {
    var base := Drop(s, {key});
    DropWellFormed(s, {key});
    forall i | 0 <= i <= |base.order|
      ensures Room(lim, base.order, s.entries, i, size, isNew) <==> i >= Victims(lim, base, size, isNew)
    {
      VictimsIsLeast(lim, base, size, isNew, i);
      DropTotal(s, key, i);
    }
  }

  lemma EvictOldestEntries(s: Mem, n: nat)
    requires n <= |s.order|
    ensures forall k :: k in EvictOldest(s, n).entries ==>
              k in s.entries && EvictOldest(s, n).entries[k] == s.entries[k]
    ensures EvictOldest(s, n).c == CountEvictions(s.c, n)
  {
  }

  lemma DropTotal(s: Mem, key: Key, i: nat)
    requires i <= |Drop(s, {key}).order|
    ensures Total(Drop(s, {key}).order[i..], s.entries - {key}) == Total(Drop(s, {key}).order[i..], s.entries)
  {
    KeepIn(s.order, s.entries.Keys - {key});
    TotalAgree(Drop(s, {key}).order[i..], s.entries - {key}, s.entries);
  }

  /** A new key for which there is room is just appended. */
  lemma PutIntoRoom(lim: Limits, s: Mem, key: Key, value: Bytes, ttl: Option<int>, now: Time)
    requires WellFormed(s) && ValidLimits(lim) && key !in s.entries
    requires SizeOfValue(value) <= lim.maxValueBytes && s.bytes + SizeOfValue(value) <= lim.maxMemoryBytes
    requires |s.order| < lim.maxItems
    ensures Put(lim, s, key, value, ttl, now) == (Append(s, key, MakeEntry(value, ttl, now)), Ok)
    ensures WellFormed(Append(s, key, MakeEntry(value, ttl, now)))
  {
    DropNone(s, {key});
    EvictNone(s);
    NoVictim(s.order, s.entries, s.bytes + SizeOfValue(value) - lim.maxMemoryBytes);
    hide Consistent, Drop, EvictOldest;
    AppendWellFormed(s, key, MakeEntry(value, ttl, now));
  }

  lemma OrderCount(s: Mem)
    requires WellFormed(s)
    ensures |s.order| == |s.entries|
  {
    ElemsCount(s.order);
    assert |s.entries.Keys| == |s.entries|;
  }

  lemma DropCount(s: Mem, key: Key)
    requires WellFormed(s)
    ensures |Drop(s, {key}).order| == if key in s.entries then |s.order| - 1 else |s.order|
  {
    DropWellFormed(s, {key});
    ElemsCount(s.order);
    ElemsCount(Drop(s, {key}).order);
    DropKeys(s, {key});
    if key in s.entries {
      assert s.entries.Keys == (s.entries.Keys - {key}) + {key};
    } else {
      assert s.entries.Keys == s.entries.Keys - {key};
    }
  }

  /** Under any limits, a write is refused for lack of capacity exactly when the value alone exceeds the
      memory limit, or a new key meets a store that may hold nothing. Everything else has then been evicted
      and counted, and the old entry of the key, if any, is back. */
  lemma ExhaustedExactly(lim: Limits, s: Mem, key: Key, value: Bytes, ttl: Option<int>, now: Time)
    requires WellFormed(s)
    ensures var (t, status) := Put(lim, s, key, value, ttl, now);
            var size := |value| + BYTES_OVERHEAD;
            && (status == CapacityExhausted <==>
                  size <= lim.maxValueBytes && (size > lim.maxMemoryBytes || (key !in s.entries && lim.maxItems < 1)))
            && (status == CapacityExhausted ==>
                  && WellFormed(t) && OnlyKeeps(s, t, key)
                  && t.c == CountEvictions(s.c, |s.entries.Keys - {key}|)
                              .(rejectedCapacity := s.c.rejectedCapacity + 1))
  {
    ExhaustKeeps(s, key);
    ExhaustCounts(s, key);
    hide Consistent, Exhaust, CountEvictions, MoveToEnd;
  }

  /** `t` holds what `s` holds under `key` and nothing else. */
  ghost predicate OnlyKeeps(s: Mem, t: Mem, key: Key) {
    && (forall k :: k in t.entries <==> k == key && k in s.entries)
    && (key in t.entries ==> t.entries[key] == s.entries[key])
  }

  lemma ExhaustKeeps(s: Mem, key: Key)
    requires WellFormed(s)
    ensures WellFormed(Exhaust(s, key)) && OnlyKeeps(s, Exhaust(s, key), key)
  {
    hide Consistent, Drop, EvictOldest, CountEvictions;
    var base := Drop(s, {key});
    DropWellFormed(s, {key});
    AllEvicted(base);
    if key in s.entries {
      OldEntryNormalised(s, key);
      AppendWellFormed(EvictOldest(base, |base.order|), key, s.entries[key]);
    }
  }

  lemma ExhaustCounts(s: Mem, key: Key)
    requires WellFormed(s)
    ensures Exhaust(s, key).c
         == CountEvictions(s.c, |s.entries.Keys - {key}|).(rejectedCapacity := s.c.rejectedCapacity + 1)
  {
    hide Consistent, Drop, EvictOldest;
    var base := Drop(s, {key});
    DropWellFormed(s, {key});
    DropKeys(s, {key});
    AllEvicted(base);
    SameSize(base.entries, s.entries.Keys - {key});
  }

  lemma SameSize(m: map<Key, Entry>, keys: set<Key>)
    requires m.Keys == keys
    ensures |m| == |keys|
  {
  }

  lemma AllEvicted(s: Mem)
    requires WellFormed(s)
    ensures var t := EvictOldest(s, |s.order|);
            WellFormed(t) && t.order == [] && t.entries == map[] && t.c == CountEvictions(s.c, |s.entries|)
  {
    EvictOldestOrder(s, |s.order|);
    OrderCount(s);
    OrderDistinct(EvictOldest(s, |s.order|));
    hide Consistent, Drop;
    assert EvictOldest(s, |s.order|).entries.Keys == {};
  }

  /** A rejected oversize write keeps every entry and every byte; it evicts nothing, and the order
      changes only by moving the written key, if present, to the recent end. */
  lemma OversizeFrame(lim: Limits, s: Mem, key: Key, value: Bytes, ttl: Option<int>, now: Time)
    requires WellFormed(s)
    ensures var (t, status) := Put(lim, s, key, value, ttl, now);
            && (status == ValueTooLarge <==> |value| + BYTES_OVERHEAD > lim.maxValueBytes)
            && (status == ValueTooLarge ==>
                  && WellFormed(t) && t.entries == s.entries && t.bytes == s.bytes
                  && t.c == s.c.(rejectedOversize := s.c.rejectedOversize + 1)
                  && t.order == if key in s.entries then Keep(s.order, s.entries.Keys - {key}) + [key] else s.order)
  {
    if key in s.entries {
      ReinsertMovesToEnd(s, key);
    }
  }

  lemma ExpireKeepsBounds(lim: Limits, s: Mem, key: Key)
    requires WellFormed(s)
    ensures WellFormed(Expire(s, key))
    ensures WithinLimits(lim, s) ==> WithinLimits(lim, Expire(s, key))
  {
    DropKeepsBounds(lim, s, {key});
  }

  lemma DropKeepsBounds(lim: Limits, s: Mem, gone: set<Key>)
    requires WellFormed(s)
    ensures WellFormed(Drop(s, gone))
    ensures WithinLimits(lim, s) ==> WithinLimits(lim, Drop(s, gone))
  {
    var t := Drop(s, gone);
    DropWellFormed(s, gone);
    TotalNonNegative(t.order, t.entries);
  }

  lemma PutKeepsBounds(lim: Limits, s: Mem, key: Key, value: Bytes, ttl: Option<int>, now: Time)
    requires ValidLimits(lim) && WellFormed(s)
    ensures var (t, status) := Put(lim, s, key, value, ttl, now);
            && WellFormed(t) && status != CapacityExhausted
            && (WithinLimits(lim, s) ==> WithinLimits(lim, t))
  {
    var (t, status) := Put(lim, s, key, value, ttl, now);
    ExhaustedExactly(lim, s, key, value, ttl, now);
    OversizeFrame(lim, s, key, value, ttl, now);
    if status != ValueTooLarge {
      PutStores(lim, s, key, value, ttl, now);
      if WithinLimits(lim, s) {
        PutFits(lim, s, key, value, ttl, now);
      }
    } else if WithinLimits(lim, s) {
      hide Put, Consistent;
      OrderCount(s);
      OrderCount(t);
    }
  }

  lemma PutFits(lim: Limits, s: Mem, key: Key, value: Bytes, ttl: Option<int>, now: Time)
    requires ValidLimits(lim) && WellFormed(s) && SizeOfValue(value) <= lim.maxValueBytes
    requires |s.order| <= lim.maxItems || key !in s.entries
    ensures var t := Put(lim, s, key, value, ttl, now).0;
            |t.order| <= lim.maxItems && 0 <= t.bytes <= lim.maxMemoryBytes
  {
    var base := Drop(s, {key});
    var n := Victims(lim, base, SizeOfValue(value), key !in s.entries);
    var t := Put(lim, s, key, value, ttl, now).0;
    assert t == Append(EvictOldest(base, n), key, MakeEntry(value, ttl, now));
    hide Put, Consistent, Drop, EvictOldest, Victims;
    DropWellFormed(s, {key});
    DropCount(s, key);
    VictimsIsLeast(lim, base, SizeOfValue(value), key !in s.entries, n);
    EvictOldestOrder(base, n);
    EvictOldestBytes(base, n);
    TotalNonNegative(base.order[n..], base.entries);
  }

  lemma LookupKeepsBounds(lim: Limits, s: Mem, key: Key, clk: Readings)
    requires WellFormed(s)
    ensures var t := Lookup(s, key, clk).0;
            WellFormed(t) && (WithinLimits(lim, s) ==> WithinLimits(lim, t))
  {
    hide Consistent, Drop;
    ExpireKeepsBounds(lim, s.(c := s.c.(misses := s.c.misses + 1)), key);
    if key in s.entries {
      ReinsertMovesToEnd(s, key);
      OrderCount(s);
      OrderCount(MoveToEnd(s, key));
      hide MoveToEnd;
      MoveRecount(s, s.c.(hits := s.c.hits + 1), key);
      MoveFrame(s, key);
    }
  }

  lemma MoveRecount(s: Mem, c: Counters, k: Key)
    ensures MoveToEnd(s.(c := c), k) == MoveToEnd(s, k).(c := c)
  {
  }

  lemma MoveFrame(s: Mem, k: Key)
    ensures MoveToEnd(s, k).entries == s.entries && MoveToEnd(s, k).bytes == s.bytes && MoveToEnd(s, k).c == s.c
  {
  }

  /** The step keeps the bookkeeping exact, keeps the bounds and does not report exhausted capacity. */
  ghost predicate KeepsBounds(lim: Limits, s: Mem, op: Op, clk: Readings) {
    var (t, out) := Step(lim, s, op, clk);
    && WellFormed(t)
    && (WithinLimits(lim, s) ==> WithinLimits(lim, t))
    && out != SetDone(CapacityExhausted) && out != ConditionalDone(Exhausted)
  }

  lemma WriteKeepsBounds(lim: Limits, s: Mem, op: Op, clk: Readings)
    requires ValidLimits(lim) && WellFormed(s) && (op.Set? || op.SetIfAbsent? || op.CompareAndSet?) && !Refused(op)
    ensures KeepsBounds(lim, s, op, clk)
  {
    hide Consistent, Put, Expire, WithinLimits, Refused;
    ExpireKeepsBounds(lim, s, op.key);
    PutKeepsBounds(lim, if op.SetIfAbsent? && op.key in s.entries then Expire(s, op.key) else s, op.key, op.value,
                   op.ttl, clk.stamp);
  }

  lemma RemovalKeepsBounds(lim: Limits, s: Mem, op: Op, clk: Readings)
    requires ValidLimits(lim) && WellFormed(s) && (op.Delete? || op.RemoveIfExpired? || op.Stats? || op.Clear?)
    ensures KeepsBounds(lim, s, op, clk)
  {
    hide Consistent, Drop, Expire, WithinLimits;
    match op
    case Delete(k) => DropKeepsBounds(lim, s, {k});
    case RemoveIfExpired(k) => ExpireKeepsBounds(lim, s, k);
    case Stats => PurgeKeepsBounds(lim, s, clk);
    case Clear => EmptyKeepsBounds(lim);
  }

  lemma PurgeKeepsBounds(lim: Limits, s: Mem, clk: Readings)
    requires WellFormed(s)
    ensures WellFormed(Purge(s, clk)) && (WithinLimits(lim, s) ==> WithinLimits(lim, Purge(s, clk)))
  {
    hide Consistent, Drop;
    DropKeepsBounds(lim, s, Due(s.entries, clk));
    DropKeys(s, Due(s.entries, clk));
  }

  /** Every step of every operation keeps the store's bookkeeping exact and its bounds, and none
      reports exhausted capacity. */
  lemma StepKeepsBounds(lim: Limits, s: Mem, op: Op, clk: Readings)
    requires ValidLimits(lim) && WellFormed(s)
    ensures KeepsBounds(lim, s, op, clk)
  {
    if !Refused(op) {
      hide KeepsBounds, Refused;
      match op
      case Get(k) => GetKeepsBounds(lim, s, k, clk);
      case Set(_, _, _) => WriteKeepsBounds(lim, s, op, clk);
      case SetIfAbsent(_, _, _) => WriteKeepsBounds(lim, s, op, clk);
      case CompareAndSet(_, _, _, _) => WriteKeepsBounds(lim, s, op, clk);
      case _ => RemovalKeepsBounds(lim, s, op, clk);
    }
  }

  lemma GetKeepsBounds(lim: Limits, s: Mem, key: Key, clk: Readings)
    requires WellFormed(s)
    ensures KeepsBounds(lim, s, Get(key), clk)
  {
    hide Consistent, WithinLimits, Lookup;
    LookupKeepsBounds(lim, s, key, clk);
  }

  lemma EmptyKeepsBounds(lim: Limits)
    requires ValidLimits(lim)
    ensures WellFormed(EMPTY) && WithinLimits(lim, EMPTY)
  {
  }

  /** Over every run from construction: exact byte total, all three bounds, no capacity rejection. */
  lemma {:induction false} RunKeepsBounds(lim: Limits, trace: seq<Timed>)
    requires ValidLimits(lim)
    ensures WellFormed(Run(lim, EMPTY, trace)) && WithinLimits(lim, Run(lim, EMPTY, trace))
  {
    EmptyKeepsBounds(lim);
    if trace != [] {
      var last := trace[|trace| - 1];
      RunKeepsBounds(lim, trace[..|trace| - 1]);
      StepKeepsBounds(lim, Run(lim, EMPTY, trace[..|trace| - 1]), last.op, last.clk);
    }
  }

  /** When its entry was read, at a reading of its own, `e` had outlived its time-to-live. */
  predicate Outlived(e: Entry, clk: Readings, k: Key) {
    e.ttl.Some? && e.createdAt + e.ttl.value as real <= if k in clk.scan then clk.scan[k] else clk.check
  }

  /** The purge of `stats` removes exactly what had expired when its entry was read: nothing that was
      expired at the first reading stays, nothing live at the last reading goes, the survivors keep
      their order, and bytes and `expiredRemovals` move by exactly what left. */
  lemma PurgeIsExact(s: Mem, clk: Readings)
    requires WellFormed(s) && clk.Ordered()
    ensures var t := Purge(s, clk);
            && WellFormed(t)
            && (forall k :: k in t.entries ==> k in s.entries && t.entries[k] == s.entries[k])
            && (forall k :: k in s.entries ==> (k !in t.entries <==> Outlived(s.entries[k], clk, k)))
            && (forall k :: k in t.entries ==> !Expired(t.entries[k], clk.check))
            && (forall k :: k in s.entries && k !in t.entries ==> Expired(s.entries[k], clk.used))
            && (forall x, y :: x in t.entries && y in t.entries ==> (Before(t.order, x, y) <==> Before(s.order, x, y)))
            && t.bytes == s.bytes - Total(Keep(s.order, s.entries.Keys - t.entries.Keys), s.entries)
            && t.c == CountExpired(s.c, |s.entries| - |t.entries|)
  {
    var gone := Due(s.entries, clk);
    var left := s.entries.Keys - gone;
    DropWellFormed(s, gone);
    DueBounds(s.entries, clk);
    DropEntries(s, gone);
    DropKeys(s, gone);
    assert s.entries.Keys - left == gone;
    assert |s.entries.Keys| == |left| + |gone| by {
      assert s.entries.Keys == left + gone;
    }
    hide Consistent, Due, Outlived, Expired;
    forall x, y | x in left && y in left
      ensures Before(Drop(s, gone).order, x, y) <==> Before(s.order, x, y)
    {
      OrderDistinct(s);
      KeepBefore(s.order, left, x, y);
    }
  }

  /** The snapshot `stats` returns describes the purged store: its size, the sum of its entries' sizes,
      its counters and the limits they are held to. */
  lemma StatsAreExact(lim: Limits, s: Mem, clk: Readings)
    requires WellFormed(s)
    ensures var (t, out) := Step(lim, s, Stats, clk);
            && out.Snapshot? && t == Purge(s, clk)
            && out.stats.size == |t.entries|
            && out.stats.memoryUsageBytes == Total(t.order, t.entries)
            && out.stats.counters == t.c
            && (t.c.hits + t.c.misses == 0 ==> out.stats.hitRate == 0.0)
            && out.stats.hitRate * (t.c.hits + t.c.misses) as real == t.c.hits as real
            && (WithinLimits(lim, s) ==>
                0 <= out.stats.size <= out.stats.maxItems
                  && 0 <= out.stats.memoryUsageBytes <= out.stats.maxMemoryBytes)
  {
    PurgeKeepsBounds(lim, s, clk);
    OrderCount(Purge(s, clk));
    hide Purge;
  }

  lemma OrderDistinct(s: Mem)
    requires WellFormed(s)
    ensures NoDup(s.order) && Elems(s.order) == s.entries.Keys
  {
  }

  lemma DueBounds(m: map<Key, Entry>, clk: Readings)
    requires clk.Ordered()
    ensures forall k :: k in m ==> (k in Due(m, clk) <==> Outlived(m[k], clk, k))
    ensures forall k :: k in m && k !in Due(m, clk) ==> !Expired(m[k], clk.check)
    ensures forall k :: k in Due(m, clk) ==> k in m && Expired(m[k], clk.used)
  {
  }
}
