/** What the SQLite store guarantees on any table it is opened on, even one over its limits. */
module SqliteTheorems {
  import opened Types
  import opened Entries
  import opened Order
  import opened Validation
  import opened SqliteSpec
  import opened SqliteLaws

  /** `u` is `t` after evictions: a subset of its rows, oldest stamps gone first, books kept. */
  ghost predicate EvictedFrom(t: Sql, u: Sql) {
    && Counted(u)
    && (forall k :: k in u.rows ==> k in t.rows && u.rows[k] == t.rows[k])
    && OldestFirst(t.rows, u.rows)
    && |u.rows| <= |t.rows| && u.bytes <= t.bytes
    && u.c == CountEvictions(t.c, |t.rows| - |u.rows|)
  }

  /** No row that left was used more recently than one that stayed. */
  ghost predicate OldestFirst(rows: Table, left: Table) {
    forall k, j :: k in rows && k in left && j in rows && j !in left ==> rows[j].lastAccessed <= rows[k].lastAccessed
  }

  /** `k` left between `t` and `u`, and no row that left was used more recently. */
  ghost predicate NewestGone(t: Sql, u: Sql, k: Key) {
    && k in t.rows && k !in u.rows
    && forall j :: j in t.rows && j !in u.rows ==> t.rows[j].lastAccessed <= t.rows[k].lastAccessed
  }

  /** If anything was evicted, the newest of it could not have stayed. */
  ghost predicate Minimal(lim: Limits, t: Sql, u: Sql, required: int, isNew: bool) {
    |u.rows| < |t.rows| ==>
      exists k ::
        && NewestGone(t, u, k)
        && (u.bytes + t.rows[k].sizeBytes + required > lim.maxMemoryBytes || (isNew && u.count + 1 >= lim.maxItems))
  }

  lemma EvictOneLaws(pick: Pick, t: Sql)
    requires Counted(t) && PicksOldest(pick) && pick(t.rows) in t.rows
    ensures EvictedFrom(t, EvictOne(pick, t))
    ensures |EvictOne(pick, t).rows| == |t.rows| - 1
  {
    RemoveCounted(t, pick(t.rows));
    Shrinks(t.rows, pick(t.rows));
  }

  lemma EvictedTransitive(t: Sql, u: Sql, v: Sql)
    requires EvictedFrom(t, u) && EvictedFrom(u, v)
    ensures EvictedFrom(t, v)
  {
  }

  /** The first eviction of a loop whose remaining evictions are minimal. */
  lemma OneMoreIsMinimal(lim: Limits, pick: Pick, t: Sql, u: Sql, required: int, isNew: bool)
    requires Counted(t) && PicksOldest(pick) && pick(t.rows) in t.rows
    requires t.bytes + required > lim.maxMemoryBytes || (isNew && t.count >= lim.maxItems)
    requires EvictedFrom(EvictOne(pick, t), u) && Minimal(lim, EvictOne(pick, t), u, required, isNew)
    ensures Minimal(lim, t, u, required, isNew)
  {
    var v, first := EvictOne(pick, t), pick(t.rows);
    EvictOneLaws(pick, t);
    if |u.rows| < |v.rows| {
      var k :| NewestGone(v, u, k) &&
        (u.bytes + v.rows[k].sizeBytes + required > lim.maxMemoryBytes || (isNew && u.count + 1 >= lim.maxItems));
      assert NewestGone(t, u, k);
    } else {
      SameRows(v, u);
      assert NewestGone(t, u, first);
    }
  }

  lemma SameRows(v: Sql, u: Sql)
    requires EvictedFrom(v, u) && Counted(v) && |u.rows| == |v.rows|
    ensures u.rows == v.rows && u.bytes == v.bytes && u.count == v.count
  {
    assert |u.rows.Keys| == |u.rows| && |v.rows.Keys| == |v.rows|;
    forall k | k in v.rows.Keys ensures k in u.rows.Keys {
      if k !in u.rows.Keys {
        Smaller(u.rows.Keys, v.rows.Keys, k);
      }
    }
    assert u.rows == v.rows;
  }

  lemma {:induction false} EvictToFitLaws(lim: Limits, pick: Pick, t: Sql, required: int)
    requires Counted(t) && PicksOldest(pick) && required <= lim.maxMemoryBytes
    ensures var u := EvictToFit(pick, t, required, lim.maxMemoryBytes);
            EvictedFrom(t, u) && u.bytes + required <= lim.maxMemoryBytes && Minimal(lim, t, u, required, false)
    decreases |t.rows|
  {
    if t.bytes + required > lim.maxMemoryBytes && t.rows != map[] {
      var u, v := EvictToFit(pick, t, required, lim.maxMemoryBytes), EvictOne(pick, t);
      EvictOneLaws(pick, t);
      EvictToFitLaws(lim, pick, v, required);
      EvictedTransitive(t, v, u);
      OneMoreIsMinimal(lim, pick, t, u, required, false);
    }
  }

  lemma {:induction false} EvictToCountLaws(lim: Limits, pick: Pick, t: Sql, required: int)
    requires Counted(t) && PicksOldest(pick) && lim.maxItems >= 1
    ensures var u := EvictToCount(pick, t, lim.maxItems);
            EvictedFrom(t, u) && u.count < lim.maxItems && Minimal(lim, t, u, required, true)
    decreases |t.rows|
  {
    if t.count >= lim.maxItems {
      var u, v := EvictToCount(pick, t, lim.maxItems), EvictOne(pick, t);
      EvictOneLaws(pick, t);
      EvictToCountLaws(lim, pick, v, required);
      EvictedTransitive(t, v, u);
      OneMoreIsMinimal(lim, pick, t, u, required, true);
    }
  }

  /** The second loop keeps what the first achieved. */
  lemma MinimalTransitive(lim: Limits, t: Sql, u: Sql, v: Sql, required: int)
    requires Counted(t) && EvictedFrom(t, u) && EvictedFrom(u, v)
    requires Minimal(lim, t, u, required, false) && Minimal(lim, u, v, required, true)
    ensures Minimal(lim, t, v, required, true)
  {
    if |v.rows| < |u.rows| {
      var k :| NewestGone(u, v, k) &&
        (v.bytes + u.rows[k].sizeBytes + required > lim.maxMemoryBytes || v.count + 1 >= lim.maxItems);
      assert NewestGone(t, v, k);
    } else {
      SameRows(u, v);
      if |u.rows| < |t.rows| {
        var k :| NewestGone(t, u, k) && u.bytes + t.rows[k].sizeBytes + required > lim.maxMemoryBytes;
        assert NewestGone(t, v, k);
      }
    }
  }

  /** An admitted write: `u` is what its evictions leave of the table without the written key. */
  ghost predicate StoredAfter(lim: Limits, t: Sql, key: Key, row: Row, u: Sql, w: Sql) {
    && EvictedFrom(RemoveRow(t, key), u)
    && Minimal(lim, RemoveRow(t, key), u, row.sizeBytes, key !in t.rows)
    && w == AddRow(u, key, row)
  }

  /** Every write of an admissible size is stored, evicting oldest rows first and no more than needed,
      and ends within the byte limit; a new key also ends within the item limit. */
  lemma PutStores(lim: Limits, t: Sql, key: Key, value: Bytes, ttl: Option<int>, clk: Readings, pick: Pick)
    requires Counted(t) && PicksOldest(pick) && ValidLimits(lim) && SizeOfValue(value) <= lim.maxValueBytes
    ensures var (w, status) := Put(lim, t, key, value, ttl, clk, pick);
            && status == Ok && Counted(w)
            && w.bytes <= lim.maxMemoryBytes
            && (key !in t.rows ==> w.count <= lim.maxItems)
            && (key in t.rows ==> w.count <= t.count)
            && exists u :: StoredAfter(lim, t, key, NewRow(MakeEntry(value, ttl, clk.stamp), clk.used), u, w)
  {
    var row := NewRow(MakeEntry(value, ttl, clk.stamp), clk.used);
    var base := RemoveRow(t, key);
    var fit := EvictToFit(pick, base, row.sizeBytes, lim.maxMemoryBytes);
    var room := if key !in t.rows then EvictToCount(pick, fit, lim.maxItems) else fit;
    RemoveCounted(t, key);
    EvictToFitLaws(lim, pick, base, row.sizeBytes);
    if key !in t.rows {
      EvictToCountLaws(lim, pick, fit, row.sizeBytes);
      EvictedTransitive(base, fit, room);
      MinimalTransitive(lim, base, fit, room, row.sizeBytes);
    }
    AddCounted(room, key, row);
    hide EvictToFit, EvictToCount, EvictedFrom, Minimal;
    assert Put(lim, t, key, value, ttl, clk, pick) == (AddRow(room, key, row), Ok) by {
      assert room.count == |room.rows|;
    }
    assert StoredAfter(lim, t, key, row, room, AddRow(room, key, row));
  }

  /** A rejected oversize write changes nothing but its counter: every row keeps its stamp. */
  lemma OversizeFrame(lim: Limits, t: Sql, key: Key, value: Bytes, ttl: Option<int>, clk: Readings, pick: Pick)
    requires Counted(t) && PicksOldest(pick) && ValidLimits(lim)
    ensures var (w, status) := Put(lim, t, key, value, ttl, clk, pick);
            && status != CapacityExhausted
            && (status == ValueTooLarge <==> |value| + BYTES_OVERHEAD > lim.maxValueBytes)
            && (status == ValueTooLarge ==> w == t.(c := t.c.(rejectedOversize := t.c.rejectedOversize + 1)))
  {
    if SizeOfValue(value) <= lim.maxValueBytes {
      PutStores(lim, t, key, value, ttl, clk, pick);
    }
  }

  lemma {:induction false} EvictToFitEmpties(pick: Pick, t: Sql, required: int, max: int)
    requires Counted(t) && PicksOldest(pick) && required > max
    ensures var u := EvictToFit(pick, t, required, max);
            Counted(u) && u.rows == map[] && u.c == CountEvictions(t.c, |t.rows|)
    decreases |t.rows|
  {
    SizesNonNegative(t.rows, t.rows.Keys);
    if t.rows != map[] {
      EvictOneLaws(pick, t);
      EvictToFitEmpties(pick, EvictOne(pick, t), required, max);
    }
  }

  lemma {:induction false} EvictToCountEmpties(pick: Pick, t: Sql, maxItems: int)
    requires Counted(t) && PicksOldest(pick) && maxItems < 1
    ensures var u := EvictToCount(pick, t, maxItems);
            Counted(u) && u.rows == map[] && u.c == CountEvictions(t.c, |t.rows|)
    decreases |t.rows|
  {
    if t.rows != map[] {
      EvictOneLaws(pick, t);
      EvictToCountEmpties(pick, EvictOne(pick, t), maxItems);
    }
  }

  /** A value larger than the whole memory limit is refused under any limits: everything else has been
      evicted and counted, and the old row of the key, if any, is back with its stamp. */
  lemma ExhaustedRestores(lim: Limits, t: Sql, key: Key, value: Bytes, ttl: Option<int>, clk: Readings, pick: Pick)
    requires Counted(t) && PicksOldest(pick) && lim.maxMemoryBytes < |value| + BYTES_OVERHEAD <= lim.maxValueBytes
    ensures var (w, status) := Put(lim, t, key, value, ttl, clk, pick);
            && status == CapacityExhausted && Counted(w)
            && (forall k :: k in w.rows <==> k == key && k in t.rows) && (key in w.rows ==> w.rows[key] == t.rows[key])
            && w.c == CountEvictions(t.c, |t.rows.Keys - {key}|).(rejectedCapacity := t.c.rejectedCapacity + 1)
  {
    hide EvictToFit, CountEvictions, Agree, RemoveRow;
    var fit := EvictToFit(pick, RemoveRow(t, key), SizeOfValue(value), lim.maxMemoryBytes);
    OthersEvicted(t, key, pick, SizeOfValue(value), lim.maxMemoryBytes);
    if key in t.rows {
      AddCounted(fit, key, t.rows[key]);
    }
  }

  lemma OthersEvicted(t: Sql, key: Key, pick: Pick, required: int, max: int)
    requires Counted(t) && PicksOldest(pick) && required > max
    ensures var fit := EvictToFit(pick, RemoveRow(t, key), required, max);
            && Counted(fit) && fit.rows == map[] && fit.bytes == 0
            && fit.c == CountEvictions(t.c, |t.rows.Keys - {key}|) && fit.c.rejectedCapacity == t.c.rejectedCapacity
  {
    var base := RemoveRow(t, key);
    RemoveCounted(t, key);
    EvictToFitEmpties(pick, base, required, max);
    assert base.rows.Keys == t.rows.Keys - {key} && |base.rows.Keys| == |base.rows|;
    EmptyWeighsNothing(EvictToFit(pick, base, required, max));
    hide EvictToFit, Agree, RemoveRow;
  }

  lemma EmptyWeighsNothing(t: Sql)
    requires Counted(t) && t.rows == map[]
    ensures t.bytes == 0 && t.count == 0
  {
  }

  /** A new key in a store that may hold nothing: the same. */
  lemma NoSlotsExhaust(lim: Limits, t: Sql, key: Key, value: Bytes, ttl: Option<int>, clk: Readings, pick: Pick)
    requires Counted(t) && PicksOldest(pick) && lim.maxItems < 1 && key !in t.rows
    requires |value| + BYTES_OVERHEAD <= lim.maxValueBytes && |value| + BYTES_OVERHEAD <= lim.maxMemoryBytes
    ensures var (w, status) := Put(lim, t, key, value, ttl, clk, pick);
            && status == CapacityExhausted && Counted(w) && w.rows == map[]
            && w.c == CountEvictions(t.c, |t.rows|).(rejectedCapacity := t.c.rejectedCapacity + 1)
  {
    var fit := EvictToFit(pick, t, SizeOfValue(value), lim.maxMemoryBytes);
    EvictToFitLaws(lim, pick, t, SizeOfValue(value));
    EvictToCountEmpties(pick, fit, lim.maxItems);
    EmptyWeighsNothing(EvictToCount(pick, fit, lim.maxItems));
    hide EvictToFit, EvictToCount, Minimal, OldestFirst, Agree;
  }

  predicate StoredResult(out: Outcome) {
    out == SetDone(Ok) || out == ConditionalDone(Stored)
  }

  predicate RejectedForCapacity(out: Outcome) {
    out == SetDone(CapacityExhausted) || out == ConditionalDone(Exhausted)
  }

  /** Does this call, if it stores, store a key the table does not hold live? */
  predicate NewKey(t: Sql, op: Op) {
    op.SetIfAbsent? || (op.Set? && op.key !in t.rows)
  }

  lemma RemoveLaws(t: Sql, key: Key)
    requires Counted(t)
    ensures var u := RemoveRow(t, key);
            Counted(u) && u.bytes <= t.bytes && u.count <= t.count && u.c == t.c
  {
    RemoveCounted(t, key);
  }

  lemma ExpireLaws(t: Sql, key: Key)
    requires Counted(t)
    ensures var u := Expire(t, key);
            Counted(u) && u.bytes <= t.bytes && u.count <= t.count && u.c.rejectedCapacity == t.c.rejectedCapacity
              && key !in u.rows
  {
    RemoveCounted(t, key);
  }

  lemma PutRecovers(lim: Limits, t: Sql, key: Key, value: Bytes, ttl: Option<int>, clk: Readings, pick: Pick)
    requires Counted(t) && PicksOldest(pick) && ValidLimits(lim)
    ensures var (w, status) := Put(lim, t, key, value, ttl, clk, pick);
            && Counted(w) && status != CapacityExhausted && w.c.rejectedCapacity == t.c.rejectedCapacity
            && (status == Ok || t.bytes <= lim.maxMemoryBytes ==> w.bytes <= lim.maxMemoryBytes)
            && ((status == Ok && key !in t.rows) || t.count <= lim.maxItems ==> w.count <= lim.maxItems)
  {
    hide Put, Agree;
    OversizeFrame(lim, t, key, value, ttl, clk, pick);
    if SizeOfValue(value) <= lim.maxValueBytes {
      PutStores(lim, t, key, value, ttl, clk, pick);
    }
  }

  /** Counters right, no bound lost once reached, stores end within the limits, no capacity rejection. */
  ghost predicate Recovers(lim: Limits, t: Sql, op: Op, out: Outcome, u: Sql) {
    && Counted(u)
    && !RejectedForCapacity(out)
    && (t.c.rejectedCapacity == 0 ==> u.c.rejectedCapacity == 0)
    && (StoredResult(out) || t.bytes <= lim.maxMemoryBytes ==> u.bytes <= lim.maxMemoryBytes)
    && ((StoredResult(out) && NewKey(t, op)) || t.count <= lim.maxItems ==> u.count <= lim.maxItems)
  }

  lemma ConditionalRecovers(lim: Limits, t: Sql, op: Op, clk: Readings, pick: Pick)
    requires Counted(t) && PicksOldest(pick) && ValidLimits(lim) && (op.SetIfAbsent? || op.CompareAndSet?)
    requires !Refused(op)
    ensures var (u, out) := Step(lim, t, op, clk, pick); Recovers(lim, t, op, out, u)
  {
    hide Agree, Put, Refused;
    ExpireLaws(t, op.key);
    PutRecovers(lim, if op.SetIfAbsent? then Expire(t, op.key) else t, op.key, op.value, op.ttl, clk, pick);
  }

  lemma LookupRecovers(lim: Limits, t: Sql, key: Key, clk: Readings, pick: Pick)
    requires Counted(t) && ValidLimits(lim)
    ensures var (u, out) := Step(lim, t, Get(key), clk, pick); Recovers(lim, t, Get(key), out, u)
  {
    hide Agree;
    ExpireLaws(t.(c := t.c.(misses := t.c.misses + 1)), key);
    if key in t.rows {
      TouchCounted(t, key, clk.used);
    }
  }

  lemma SetRecovers(lim: Limits, t: Sql, op: Op, clk: Readings, pick: Pick)
    requires Counted(t) && PicksOldest(pick) && ValidLimits(lim) && op.Set? && !Refused(op)
    ensures var (u, out) := Step(lim, t, op, clk, pick); Recovers(lim, t, op, out, u)
  {
    hide Agree, Put;
    PutRecovers(lim, t, op.key, op.value, op.ttl, clk, pick);
  }

  lemma RemovalRecovers(lim: Limits, t: Sql, op: Op, clk: Readings, pick: Pick)
    requires Counted(t) && ValidLimits(lim) && (op.Delete? || op.RemoveIfExpired?)
    ensures var (u, out) := Step(lim, t, op, clk, pick); Recovers(lim, t, op, out, u)
  {
    hide Agree, RemoveRow;
    ExpireLaws(t, op.key);
    RemoveLaws(t, op.key);
  }

  lemma PurgeRecovers(lim: Limits, t: Sql, clk: Readings, pick: Pick)
    requires Counted(t)
    ensures var (u, out) := Step(lim, t, Stats, clk, pick); Recovers(lim, t, Stats, out, u)
  {
    DropCounted(t, DueRows(t.rows, clk));
    DropShrinks(t, DueRows(t.rows, clk));
    hide Agree, DropRows, DueRows;
  }

  lemma ClearRecovers(lim: Limits, t: Sql, clk: Readings, pick: Pick)
    requires ValidLimits(lim)
    ensures var (u, out) := Step(lim, t, Clear, clk, pick); Recovers(lim, t, Clear, out, u)
  {
    hide Agree;
    OpenCounted(map[]);
  }

  lemma RefusedRecovers(lim: Limits, t: Sql, op: Op, clk: Readings, pick: Pick)
    requires Counted(t) && Refused(op)
    ensures var (u, out) := Step(lim, t, op, clk, pick); Recovers(lim, t, op, out, u)
  {
    hide Agree;
  }

  /** One step from any table whose counters are right. */
  lemma StepRecovers(lim: Limits, t: Sql, op: Op, clk: Readings, pick: Pick)
    requires Counted(t) && PicksOldest(pick) && ValidLimits(lim)
    ensures var (u, out) := Step(lim, t, op, clk, pick); Recovers(lim, t, op, out, u)
  {
    hide Agree, Step, Recovers, Refused;
    if Refused(op) {
      RefusedRecovers(lim, t, op, clk, pick);
    } else {
      match op
      case Get(k) => LookupRecovers(lim, t, k, clk, pick);
      case Set(_, _, _) => SetRecovers(lim, t, op, clk, pick);
      case SetIfAbsent(_, _, _) => ConditionalRecovers(lim, t, op, clk, pick);
      case CompareAndSet(_, _, _, _) => ConditionalRecovers(lim, t, op, clk, pick);
      case Delete(_) => RemovalRecovers(lim, t, op, clk, pick);
      case RemoveIfExpired(_) => RemovalRecovers(lim, t, op, clk, pick);
      case Stats => PurgeRecovers(lim, t, clk, pick);
      case Clear => ClearRecovers(lim, t, clk, pick);
    }
  }

  lemma OpenCounted(rows: Table)
    ensures Counted(Open(rows))
    ensures rows == map[] ==> Open(rows).bytes == 0 && Open(rows).count == 0
  {
  }

  lemma {:induction false} SizesNonNegative(rows: Table, ks: set<Key>)
    ensures Sizes(rows, ks) >= 0
    decreases ks
  {
    if ks != {} {
      var k :| k in ks;
      SizesPull(rows, ks, k);
      SizesNonNegative(rows, ks - {k});
    }
  }

  lemma DropShrinks(t: Sql, gone: set<Key>)
    ensures DropRows(t, gone).bytes <= t.bytes && DropRows(t, gone).count <= t.count
  {
    SizesNonNegative(t.rows, gone);
  }

  ghost predicate AllPickOldest(calls: seq<Call>) {
    forall i :: 0 <= i < |calls| ==> PicksOldest(calls[i].pick)
  }

  ghost function StateAt(lim: Limits, rows: Table, calls: seq<Call>, i: nat): Sql
    requires i <= |calls|
  {
    Run(lim, Open(rows), calls[..i])
  }

  ghost function ResultAt(lim: Limits, rows: Table, calls: seq<Call>, i: nat): Outcome
    requires i < |calls|
  {
    Step(lim, StateAt(lim, rows, calls, i), calls[i].op, calls[i].clk, calls[i].pick).1
  }

  lemma StateStep(lim: Limits, rows: Table, calls: seq<Call>, i: nat)
    requires i < |calls|
    ensures StateAt(lim, rows, calls, i + 1)
              == Step(lim, StateAt(lim, rows, calls, i), calls[i].op, calls[i].clk, calls[i].pick).0
  {
    assert calls[..i + 1][..i] == calls[..i];
  }

  /** Opened on any table, the store's counters agree with the table after every step and no call is
      ever refused for capacity. */
  lemma {:induction false} CountersStayExact(lim: Limits, rows: Table, calls: seq<Call>, i: nat)
    requires ValidLimits(lim) && AllPickOldest(calls) && i <= |calls|
    ensures Counted(StateAt(lim, rows, calls, i)) && StateAt(lim, rows, calls, i).c.rejectedCapacity == 0
    ensures i < |calls| ==> !RejectedForCapacity(ResultAt(lim, rows, calls, i))
  {
    hide Step, Agree;
    if i > 0 {
      CountersStayExact(lim, rows, calls, i - 1);
      StateStep(lim, rows, calls, i - 1);
      StepRecovers(lim, StateAt(lim, rows, calls, i - 1), calls[i - 1].op, calls[i - 1].clk, calls[i - 1].pick);
    } else {
      OpenCounted(rows);
    }
    if i < |calls| {
      StepRecovers(lim, StateAt(lim, rows, calls, i), calls[i].op, calls[i].clk, calls[i].pick);
    }
  }

  /** Recovery of a table over its limits: from the first successful store on the byte limit holds, and
      from the first successful store of a new key on the item limit holds, for the rest of the run. */
  lemma {:induction false} LimitsRecover(lim: Limits, rows: Table, calls: seq<Call>, i: nat, j: nat)
    requires ValidLimits(lim) && AllPickOldest(calls) && i < j <= |calls|
    requires StoredResult(ResultAt(lim, rows, calls, i))
    ensures StateAt(lim, rows, calls, j).bytes <= lim.maxMemoryBytes
    ensures NewKey(StateAt(lim, rows, calls, i), calls[i].op) ==> StateAt(lim, rows, calls, j).count <= lim.maxItems
    decreases j
  {
    hide Step, Agree;
    CountersStayExact(lim, rows, calls, j - 1);
    StateStep(lim, rows, calls, j - 1);
    StepRecovers(lim, StateAt(lim, rows, calls, j - 1), calls[j - 1].op, calls[j - 1].clk, calls[j - 1].pick);
    if i < j - 1 {
      LimitsRecover(lim, rows, calls, i, j - 1);
    }
  }
}
