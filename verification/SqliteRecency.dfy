/** Recency as the `last_accessed` column: over every SQLite run, on any starting table, a stamp is the
    time of last use, and a row is evicted only when it and everything stamped since no longer fit. */
module SqliteRecency {
  import opened Types
  import opened Entries
  import opened Order
  import opened Validation
  import opened SqliteSpec
  import opened SqliteLaws
  import opened SqliteTheorems

  /** The key whose row a call stamped, judged by its result alone: a hit or a store. */
  function Stamped(op: Op, out: Outcome): Option<Key> {
    match op
    case Get(k) => if out.Found? && out.found.Some? then Some(k) else None
    case Set(k, _, _) => if out == SetDone(Ok) then Some(k) else None
    case SetIfAbsent(k, _, _) => if out == ConditionalDone(Stored) then Some(k) else None
    case CompareAndSet(k, _, _, _) => if out == ConditionalDone(Stored) then Some(k) else None
    case _ => None
  }

  /** The size column of the row is right. */
  predicate Sized(row: Row) {
    row.sizeBytes == BYTES_OVERHEAD + |row.value|
  }

  /** A step stamps one row with its reading, or none: a new row with the right size, or an old one otherwise
      as it was. Every other row it leaves is as it was. */
  ghost predicate RowsKept(t: Sql, u: Sql, stamped: Option<Key>, used: Time) {
    forall k :: k in u.rows ==>
      if stamped == Some(k) then
        && u.rows[k].lastAccessed == used
        && (Sized(u.rows[k]) || (k in t.rows && u.rows[k] == t.rows[k].(lastAccessed := used)))
      else k in t.rows && u.rows[k] == t.rows[k]
  }

  lemma PutStamps(lim: Limits, t: Sql, key: Key, value: Bytes, ttl: Option<int>, clk: Readings, pick: Pick)
    requires Counted(t) && PicksOldest(pick) && ValidLimits(lim)
    ensures var (u, status) := Put(lim, t, key, value, ttl, clk, pick);
            RowsKept(t, u, if status == Ok then Some(key) else None, clk.used)
  {
    hide Put, Agree;
    OversizeFrame(lim, t, key, value, ttl, clk, pick);
    if SizeOfValue(value) <= lim.maxValueBytes {
      PutStores(lim, t, key, value, ttl, clk, pick);
      var w := Put(lim, t, key, value, ttl, clk, pick).0;
      var row := NewRow(MakeEntry(value, ttl, clk.stamp), clk.used);
      var u :| StoredAfter(lim, t, key, row, u, w);
      StoredKeeps(lim, t, key, row, u, w);
    }
  }

  lemma StoredKeeps(lim: Limits, t: Sql, key: Key, row: Row, u: Sql, w: Sql)
    requires StoredAfter(lim, t, key, row, u, w) && Sized(row)
    ensures RowsKept(t, w, Some(key), row.lastAccessed)
  {
    hide OldestFirst, Minimal, Agree, CountEvictions;
  }

  lemma ExpireKeeps(t: Sql, u: Sql, key: Key, stamped: Option<Key>, used: Time)
    requires RowsKept(Expire(t, key), u, stamped, used)
    ensures RowsKept(t, u, stamped, used)
  {
  }

  ghost predicate StepStamps(lim: Limits, t: Sql, op: Op, clk: Readings, pick: Pick) {
    var (u, out) := Step(lim, t, op, clk, pick);
    RowsKept(t, u, Stamped(op, out), clk.used)
  }

  lemma SetStamps(lim: Limits, t: Sql, op: Op, clk: Readings, pick: Pick)
    requires Counted(t) && PicksOldest(pick) && ValidLimits(lim) && op.Set? && !Refused(op)
    ensures StepStamps(lim, t, op, clk, pick)
  {
    hide Put, Agree, RowsKept;
    PutStamps(lim, t, op.key, op.value, op.ttl, clk, pick);
    OversizeFrame(lim, t, op.key, op.value, op.ttl, clk, pick);
  }

  lemma ConditionalStamps(lim: Limits, t: Sql, op: Op, clk: Readings, pick: Pick)
    requires Counted(t) && PicksOldest(pick) && ValidLimits(lim)
    requires (op.SetIfAbsent? || op.CompareAndSet?) && !Refused(op)
    ensures StepStamps(lim, t, op, clk, pick)
  {
    hide Put, Agree, RowsKept, Refused, Expire;
    var before := if op.SetIfAbsent? then Expire(t, op.key) else t;
    ExpireLaws(t, op.key);
    PutStamps(lim, before, op.key, op.value, op.ttl, clk, pick);
    var (u, status) := Put(lim, before, op.key, op.value, op.ttl, clk, pick);
    if op.SetIfAbsent? {
      ExpireKeeps(t, u, op.key, if status == Ok then Some(op.key) else None, clk.used);
    }
    NothingStamped(t, op.key, clk.used);
  }

  lemma NothingStamped(t: Sql, key: Key, used: Time)
    ensures RowsKept(t, t, None, used) && RowsKept(t, Expire(t, key), None, used)
  {
  }

  lemma OthersStamp(lim: Limits, t: Sql, op: Op, clk: Readings, pick: Pick)
    requires !(op.Set? || op.SetIfAbsent? || op.CompareAndSet?) || Refused(op)
    ensures StepStamps(lim, t, op, clk, pick)
  {
  }

  lemma StepKeepsStamps(lim: Limits, t: Sql, op: Op, clk: Readings, pick: Pick)
    requires Counted(t) && PicksOldest(pick) && ValidLimits(lim)
    ensures StepStamps(lim, t, op, clk, pick)
  {
    hide StepStamps, Refused;
    if op.Set? && !Refused(op) {
      SetStamps(lim, t, op, clk, pick);
    } else if (op.SetIfAbsent? || op.CompareAndSet?) && !Refused(op) {
      ConditionalStamps(lim, t, op, clk, pick);
    } else {
      OthersStamp(lim, t, op, clk, pick);
    }
  }

  /** The last of the first `n` calls that used `k`, or -1. */
  ghost function LastUse(lim: Limits, rows: Table, calls: seq<Call>, n: nat, k: Key): (i: int)
    requires n <= |calls|
    ensures -1 <= i < n
  {
    if n == 0 then -1
    else if Stamped(calls[n - 1].op, ResultAt(lim, rows, calls, n - 1)) == Some(k) then n - 1
    else LastUse(lim, rows, calls, n - 1, k)
  }

  /** After every prefix of every run a row is stamped with the reading of its last use; one not used since
      opening is the persisted row, untouched. */
  lemma {:induction false} StampIsLastUse(lim: Limits, rows: Table, calls: seq<Call>, n: nat, k: Key)
    requires ValidLimits(lim) && AllPickOldest(calls) && n <= |calls| && k in StateAt(lim, rows, calls, n).rows
    ensures var row, i := StateAt(lim, rows, calls, n).rows[k], LastUse(lim, rows, calls, n, k);
            if i >= 0 then row.lastAccessed == calls[i].clk.used else k in rows && row == rows[k]
  {
    hide Step, Agree, Stamped;
    if n > 0 {
      var last := calls[n - 1];
      CountersStayExact(lim, rows, calls, n - 1);
      StateStep(lim, rows, calls, n - 1);
      StepKeepsStamps(lim, StateAt(lim, rows, calls, n - 1), last.op, last.clk, last.pick);
      if Stamped(last.op, ResultAt(lim, rows, calls, n - 1)) != Some(k) {
        StampIsLastUse(lim, rows, calls, n - 1, k);
      }
    }
  }

  /** The rows other than `w` stamped no earlier than `k`, `k` included. */
  function StampedSince(rows: Table, k: Key, w: Key): set<Key>
    requires k in rows
  {
    set x | x in rows && x != w && rows[x].lastAccessed >= rows[k].lastAccessed
  }

  /** Among the rows a write left and the newest row it evicted, all are stamped no earlier than `k`. */
  lemma VictimDidNotFit(lim: Limits, t: Sql, key: Key, row: Row, u: Sql, w: Sql, k: Key)
    requires Counted(t) && StoredAfter(lim, t, key, row, u, w)
    requires k in t.rows && k != key && k !in w.rows
    ensures var W := StampedSince(t.rows, k, key);
            || Sizes(t.rows, W) + row.sizeBytes > lim.maxMemoryBytes
            || (|W| + 1 > lim.maxItems && key !in t.rows)
  {
    var W := StampedSince(t.rows, k, key);
    var newest := NewestVictim(lim, t, key, row, u, w, k);
    assert Counted(u);
    hide StoredAfter, EvictedFrom, OldestFirst, Minimal, NewestGone, RemoveRow, CountEvictions, Agree, StampedSince;
    KeptAndNewest(t, u, newest, W);
  }

  /** The newest row a write evicted, if it evicted `k`. */
  lemma NewestVictim(lim: Limits, t: Sql, key: Key, row: Row, u: Sql, w: Sql, k: Key) returns (newest: Key)
    requires Counted(t) && StoredAfter(lim, t, key, row, u, w)
    requires k in t.rows && k != key && k !in w.rows
    ensures newest in t.rows && newest !in u.rows && u.rows.Keys + {newest} <= StampedSince(t.rows, k, key)
    ensures forall j :: j in u.rows ==> j in t.rows && u.rows[j] == t.rows[j]
    ensures || u.bytes + t.rows[newest].sizeBytes + row.sizeBytes > lim.maxMemoryBytes
            || (key !in t.rows && u.count + 1 >= lim.maxItems)
  {
    hide Agree, CountEvictions;
    var base := RemoveRow(t, key);
    assert k in base.rows.Keys && k !in u.rows.Keys && u.rows.Keys <= base.rows.Keys;
    Smaller(u.rows.Keys, base.rows.Keys, k);
    assert |u.rows.Keys| == |u.rows| && |base.rows.Keys| == |base.rows|;
    newest :| NewestGone(base, u, newest)
      && (u.bytes + base.rows[newest].sizeBytes + row.sizeBytes > lim.maxMemoryBytes
          || (key !in t.rows && u.count + 1 >= lim.maxItems));
    assert forall x :: x in base.rows ==> x in t.rows && x != key && base.rows[x] == t.rows[x];
  }

  lemma KeptAndNewest(t: Sql, u: Sql, newest: Key, W: set<Key>)
    requires Counted(u) && (forall k :: k in u.rows ==> k in t.rows && u.rows[k] == t.rows[k])
    requires newest in t.rows && newest !in u.rows && u.rows.Keys + {newest} <= W
    ensures u.bytes + t.rows[newest].sizeBytes <= Sizes(t.rows, W) && u.count + 1 <= |W|
  {
    var some := u.rows.Keys + {newest};
    SizesSplit(t.rows, W, some);
    SizesNonNegative(t.rows, W - some);
    SizesPull(t.rows, some, newest);
    assert some - {newest} == u.rows.Keys;
    SizesAgree(u.rows, t.rows, u.rows.Keys);
    assert |W| == |some| + |W - some|;
    assert |u.rows.Keys| == |u.rows|;
  }

  /** Where a call that stored put its value: `set_if_absent` first drops an expired row. */
  function PutInto(t: Sql, op: Op): Sql
    requires op.Set? || op.SetIfAbsent? || op.CompareAndSet?
  {
    if op.SetIfAbsent? then Expire(t, op.key) else t
  }

  lemma StoringStep(lim: Limits, t: Sql, op: Op, clk: Readings, pick: Pick)
    requires Counted(t) && PicksOldest(pick) && ValidLimits(lim) && StoredResult(Step(lim, t, op, clk, pick).1)
    ensures op.Set? || op.SetIfAbsent? || op.CompareAndSet?
    ensures Counted(PutInto(t, op)) && SizeOfValue(op.value) <= lim.maxValueBytes
    ensures Step(lim, t, op, clk, pick).0 == Put(lim, PutInto(t, op), op.key, op.value, op.ttl, clk, pick).0
  {
    hide Put, Agree, Expire;
    if op.Set? || op.SetIfAbsent? || op.CompareAndSet? {
      ExpireLaws(t, op.key);
      OversizeFrame(lim, PutInto(t, op), op.key, op.value, op.ttl, clk, pick);
    }
  }

  lemma SameOthers(t: Sql, op: Op, k: Key)
    requires (op.Set? || op.SetIfAbsent? || op.CompareAndSet?) && k in t.rows && k != op.key
    ensures var before := PutInto(t, op);
            && k in before.rows && StampedSince(before.rows, k, op.key) == StampedSince(t.rows, k, op.key)
            && Sizes(before.rows, StampedSince(t.rows, k, op.key)) == Sizes(t.rows, StampedSince(t.rows, k, op.key))
            && (op.key !in before.rows ==> op.SetIfAbsent? || op.key !in t.rows)
  {
    SizesAgree(PutInto(t, op).rows, t.rows, StampedSince(t.rows, k, op.key));
  }

  /** Working-set guarantee over every run: a store evicts the row `k` only if `k`, the rows stamped since
      `k` and the incoming one together exceed the byte limit or, for a new key, the item limit. */
  lemma EvictedOnlyWhenFull(lim: Limits, rows: Table, calls: seq<Call>, n: nat, k: Key)
    requires ValidLimits(lim) && AllPickOldest(calls) && n < |calls| && StoredResult(ResultAt(lim, rows, calls, n))
    requires k in StateAt(lim, rows, calls, n).rows && k !in StateAt(lim, rows, calls, n + 1).rows
    requires k != calls[n].op.key
    ensures var t, op := StateAt(lim, rows, calls, n), calls[n].op;
            var W := StampedSince(t.rows, k, op.key);
            || Sizes(t.rows, W) + SizeOfValue(op.value) > lim.maxMemoryBytes
            || (|W| + 1 > lim.maxItems && (op.SetIfAbsent? || op.key !in t.rows))
  {
    var t, op, clk, pick := StateAt(lim, rows, calls, n), calls[n].op, calls[n].clk, calls[n].pick;
    CountersStayExact(lim, rows, calls, n);
    StateStep(lim, rows, calls, n);
    StoringStep(lim, t, op, clk, pick);
    hide Put, Step, Agree, StateAt, StampedSince;
    var before := PutInto(t, op);
    SameOthers(t, op, k);
    PutStores(lim, before, op.key, op.value, op.ttl, clk, pick);
    var row := NewRow(MakeEntry(op.value, op.ttl, clk.stamp), clk.used);
    var w := Put(lim, before, op.key, op.value, op.ttl, clk, pick).0;
    var u :| StoredAfter(lim, before, op.key, row, u, w);
    hide StoredAfter, PutInto;
    VictimDidNotFit(lim, before, op.key, row, u, w, k);
  }
}
