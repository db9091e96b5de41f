/** The SQLite backend (sqlite_store.py): the table and two counters kept beside it, changed row by
    row under the store's lock. `pick` stands for the engine's choice of the oldest row. */
module SqliteStore {
  import opened Types
  import opened Entries
  import opened Validation
  import opened SqliteSpec
  import opened SqliteLaws

  class SqliteCacheStore {
    const limits: Limits
    var rows: Table
    var entryCount: int
    var currentMemoryBytes: int
    var hits: nat
    var misses: nat
    var evictions: nat
    var lruEvictions: nat
    var expiredRemovals: nat
    var rejectedOversize: nat
    var rejectedCapacity: nat

    ghost function State(): Sql
      reads this
    {
      Sql(rows, entryCount, currentMemoryBytes,
          Counters(hits, misses, evictions, lruEvictions, expiredRemovals, rejectedOversize, rejectedCapacity))
    }

    ghost predicate Valid()
      reads this
    {
      Counted(State())
    }

    /** Opens whatever table the file holds and counts it. */
    constructor (limits: Limits, rows: Table)
      ensures Valid() && this.limits == limits && State() == Open(rows)
    {
      this.limits := limits;
      this.rows, entryCount, currentMemoryBytes := rows, |rows|, 0;
      hits, misses, evictions, lruEvictions := 0, 0, 0, 0;
      expiredRemovals, rejectedOversize, rejectedCapacity := 0, 0, 0;
      new;
      hide Sizes;
      LoadCurrentMemoryBytes();
    }

    method LoadCurrentMemoryBytes()
      modifies `currentMemoryBytes
      ensures currentMemoryBytes == Sizes(rows, rows.Keys)
    {
      var left := rows.Keys;
      var total := 0;
      while left != {}
        invariant left <= rows.Keys
        invariant total + Sizes(rows, left) == Sizes(rows, rows.Keys)
        decreases left
      {
        var k :| k in left;
        SizesPull(rows, left, k);
        total := total + rows[k].sizeBytes;
        left := left - {k};
      }
      currentMemoryBytes := total;
    }

    method InsertRow(key: Key, row: Row)
      requires Valid() && key !in rows
      modifies `rows, `entryCount, `currentMemoryBytes
      ensures Valid() && State() == AddRow(old(State()), key, row)
    {
      AddCounted(State(), key, row);
      rows := rows[key := row];
      currentMemoryBytes := currentMemoryBytes + row.sizeBytes;
      entryCount := entryCount + 1;
    }

    method RemoveEntry(key: Key) returns (removed: bool)
      requires Valid()
      modifies `rows, `entryCount, `currentMemoryBytes
      ensures Valid() && removed == (key in old(rows))
      ensures State() == RemoveRow(old(State()), key)
    {
      if key !in rows {
        return false;
      }
      RemoveCounted(State(), key);
      var row := rows[key];
      rows := rows - {key};
      currentMemoryBytes := currentMemoryBytes - row.sizeBytes;
      entryCount := entryCount - 1;
      return true;
    }

    method RemoveExpiredEntry(key: Key)
      requires Valid()
      modifies `rows, `entryCount, `currentMemoryBytes, `expiredRemovals
      ensures Valid() && State() == SqliteSpec.Expire(old(State()), key)
    {
      var removed := RemoveEntry(key);
      if removed {
        expiredRemovals := expiredRemovals + 1;
      }
    }

    method EvictLru(pick: Pick) returns (evicted: bool)
      requires Valid() && PicksOldest(pick)
      modifies this
      ensures Valid() && evicted == (old(rows) != map[])
      ensures State() == if evicted then EvictOne(pick, old(State())) else old(State())
      ensures evicted ==> pick(old(rows)) in old(rows)
    {
      if rows == map[] {
        return false;
      }
      var removed := RemoveEntry(pick(rows));
      if !removed {
        return false;
      }
      evictions := evictions + 1;
      lruEvictions := lruEvictions + 1;
      return true;
    }

    method EvictToFit(pick: Pick, required: int) returns (fits: bool)
      requires Valid() && PicksOldest(pick)
      modifies this
      ensures Valid() && State() == SqliteSpec.EvictToFit(pick, old(State()), required, limits.maxMemoryBytes)
      ensures fits == (currentMemoryBytes + required <= limits.maxMemoryBytes)
    {
      while currentMemoryBytes + required > limits.maxMemoryBytes && entryCount > 0
        invariant Valid()
        invariant SqliteSpec.EvictToFit(pick, State(), required, limits.maxMemoryBytes)
               == SqliteSpec.EvictToFit(pick, old(State()), required, limits.maxMemoryBytes)
        decreases |rows|
      {
        if pick(rows) in rows {
          Shrinks(rows, pick(rows));
        }
        var evicted := EvictLru(pick);
        if !evicted {
          return false;
        }
      }
      return currentMemoryBytes + required <= limits.maxMemoryBytes;
    }

    method EvictToCount(pick: Pick) returns (fits: bool)
      requires Valid() && PicksOldest(pick)
      modifies this
      ensures Valid() && State() == SqliteSpec.EvictToCount(pick, old(State()), limits.maxItems)
      ensures fits == (entryCount < limits.maxItems)
    {
      while entryCount >= limits.maxItems
        invariant Valid()
        invariant SqliteSpec.EvictToCount(pick, State(), limits.maxItems)
                  == SqliteSpec.EvictToCount(pick, old(State()), limits.maxItems)
        decreases |rows|
      {
        if pick(rows) in rows {
          Shrinks(rows, pick(rows));
        }
        var evicted := EvictLru(pick);
        if !evicted {
          return false;
        }
      }
      return true;
    }

    method StoreValue(key: Key, value: Bytes, ttl: Option<int>, clk: Readings, oldRow: Option<Row>, pick: Pick)
      returns (status: SetStatus)
      requires Valid() && PicksOldest(pick)
      requires oldRow == if key in rows then Some(rows[key]) else None
      modifies this
      ensures Valid()
      ensures (State(), status) == Put(limits, old(State()), key, value, ttl, clk, pick)
    {
      hide Agree, Put, SqliteSpec.EvictToFit, SqliteSpec.EvictToCount;
      ghost var before := State();
      PutCases(limits, before, key, value, ttl, clk, pick);
      if oldRow.Some? {
        var _ := RemoveEntry(key);
      }
      ghost var base := State();
      assert base == RemoveRow(before, key) && key !in rows;

      var entry := MakeEntry(value, ttl, clk.stamp);
      if Size(entry) > limits.maxValueBytes {
        if oldRow.Some? {
          InsertRow(key, oldRow.value);
          assert rows == before.rows;
        }
        rejectedOversize := rejectedOversize + 1;
        return ValueTooLarge;
      }

      if currentMemoryBytes + Size(entry) > limits.maxMemoryBytes {
        var fits := EvictToFit(pick, Size(entry));
        EvictToFitRemoves(pick, base, Size(entry), limits.maxMemoryBytes);
        if !fits {
          if oldRow.Some? {
            InsertRow(key, oldRow.value);
          }
          rejectedCapacity := rejectedCapacity + 1;
          return CapacityExhausted;
        }
      } else {
        FitsAlready(pick, base, Size(entry), limits.maxMemoryBytes);
      }
      ghost var fit := State();

      if oldRow.None? {
        var fits := EvictToCount(pick);
        EvictToCountRemoves(pick, fit, limits.maxItems);
        if !fits {
          rejectedCapacity := rejectedCapacity + 1;
          return CapacityExhausted;
        }
      }
      InsertRow(key, NewRow(entry, clk.used));
      return Ok;
    }

    method Get(key: Key, clk: Readings, pick: Pick) returns (out: Outcome)
      requires Valid()
      modifies this
      ensures Valid() && (State(), out) == Step(limits, old(State()), Op.Get(key), clk, pick)
    {
      if !ValidKey(key) {
        return InvalidKey;
      }
      if key !in rows {
        misses := misses + 1;
        return Found(None);
      }
      var entry := EntryOf(rows[key]);
      if Expired(entry, clk.check) {
        misses := misses + 1;
        RemoveExpiredEntry(key);
        return Found(None);
      }
      TouchCounted(State(), key, clk.used);
      rows := rows[key := rows[key].(lastAccessed := clk.used)];
      hits := hits + 1;
      return Found(Some(entry.value));
    }

    method Set(key: Key, value: Bytes, ttl: Option<int>, clk: Readings, pick: Pick) returns (out: Outcome)
      requires Valid() && PicksOldest(pick)
      modifies this
      ensures Valid() && (State(), out) == Step(limits, old(State()), Op.Set(key, value, ttl), clk, pick)
    {
      if !ValidKey(key) {
        return InvalidKey;
      }
      var status := StoreValue(key, value, ttl, clk, if key in rows then Some(rows[key]) else None, pick);
      return SetDone(status);
    }

    method SetIfAbsent(key: Key, value: Bytes, ttl: Option<int>, clk: Readings, pick: Pick) returns (out: Outcome)
      requires Valid() && PicksOldest(pick)
      modifies this
      ensures Valid() && (State(), out) == Step(limits, old(State()), Op.SetIfAbsent(key, value, ttl), clk, pick)
    {
      hide Agree, Put;
      if !ValidKey(key) {
        return InvalidKey;
      }
      if key in rows {
        if Expired(EntryOf(rows[key]), clk.check) {
          RemoveExpiredEntry(key);
        } else {
          return ConditionalDone(Exists);
        }
      }
      var status := StoreValue(key, value, ttl, clk, None, pick);
      return ConditionalDone(ConditionalFromSet(status));
    }

    method CompareAndSet(key: Key, expected: Bytes, value: Bytes, ttl: Option<int>, clk: Readings, pick: Pick)
      returns (out: Outcome)
      requires Valid() && PicksOldest(pick)
      modifies this
      ensures Valid()
      ensures (State(), out) == Step(limits, old(State()), Op.CompareAndSet(key, expected, value, ttl), clk, pick)
    {
      hide Agree, Put;
      if !ValidKey(key) {
        return InvalidKey;
      }
      if key !in rows {
        return ConditionalDone(NotFound);
      }
      var entry := EntryOf(rows[key]);
      if Expired(entry, clk.check) {
        RemoveExpiredEntry(key);
        return ConditionalDone(NotFound);
      }
      if entry.value != expected {
        return ConditionalDone(Mismatch);
      }
      var status := StoreValue(key, value, ttl, clk, Some(rows[key]), pick);
      return ConditionalDone(ConditionalFromSet(status));
    }

    method Delete(key: Key, clk: Readings, pick: Pick) returns (out: Outcome)
      requires Valid()
      modifies this
      ensures Valid() && (State(), out) == Step(limits, old(State()), Op.Delete(key), clk, pick)
    {
      if !ValidKey(key) {
        return InvalidKey;
      }
      var removed := RemoveEntry(key);
      return Deleted(removed);
    }

    /** The cleaner's callback. */
    method RemoveIfExpired(key: Key, clk: Readings, pick: Pick)
      requires Valid()
      modifies this
      ensures Valid() && (State(), Done) == Step(limits, old(State()), Op.RemoveIfExpired(key), clk, pick)
    {
      if key in rows && Expired(EntryOf(rows[key]), clk.check) {
        RemoveExpiredEntry(key);
      }
    }

    /** Walks a snapshot of the table in whatever order the engine returns it. */
    method RemoveExpiredEntries(clk: Readings)
      requires Valid()
      modifies this
      ensures Valid() && State() == Purge(old(State()), clk)
    {
      hide Agree, DropRows, SqliteSpec.Expire, DueRows;
      ghost var t := State();
      var scan := rows;
      var left := scan.Keys;
      ghost var gone: set<Key> := {};
      DropNothing(t);
      DueDone(scan, clk);
      while left != {}
        invariant Valid() && left <= scan.Keys
        invariant gone == DueRows(scan, clk) - left
        invariant State() == DropRows(t, gone).(c := CountExpired(t.c, |gone|))
        decreases left
      {
        var k :| k in left;
        DueTest(scan, clk, k);
        if Expired(EntryOf(scan[k]), clk.At(k)) {
          ExpireMore(t, gone, k);
          RemoveExpiredEntry(k);
          gone := gone + {k};
        }
        left := left - {k};
      }
    }

    method Stats(clk: Readings, pick: Pick) returns (out: Outcome)
      requires Valid()
      modifies this
      ensures Valid() && (State(), out) == Step(limits, old(State()), Op.Stats, clk, pick)
    {
      hide Agree, Purge;
      RemoveExpiredEntries(clk);
      var counters := Counters(hits, misses, evictions, lruEvictions, expiredRemovals, rejectedOversize,
                               rejectedCapacity);
      return Snapshot(StatsSnapshot(entryCount, counters, HitRate(counters),
        currentMemoryBytes, limits.maxMemoryBytes, limits.maxValueBytes, limits.maxItems));
    }

    method Clear()
      modifies this
      ensures Valid() && State() == Open(map[])
    {
      rows, currentMemoryBytes, entryCount := map[], 0, 0;
      hits, misses, evictions, lruEvictions := 0, 0, 0, 0;
      expiredRemovals, rejectedOversize, rejectedCapacity := 0, 0, 0;
    }
  }
}
