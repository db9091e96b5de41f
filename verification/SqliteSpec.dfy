/** What each critical section of the SQLite store does to its table and its counters. */
module SqliteSpec {
  import opened Types
  import opened Entries
  import opened Validation

  datatype Row = Row(value: Bytes, ttl: Option<int>, createdAt: Time, lastAccessed: Time, sizeBytes: nat)
  type Table = map<Key, Row>

  /** Which row `ORDER BY last_accessed ASC LIMIT 1` returns. Among equal stamps the engine is free. */
  type Pick = Table -> Key

  ghost predicate PicksOldest(pick: Pick) {
    forall t: Table :: t != map[] ==>
      pick(t) in t && forall k :: k in t ==> t[pick(t)].lastAccessed <= t[k].lastAccessed
  }

  /** `count` and `bytes` are kept beside the table. */
  datatype Sql = Sql(rows: Table, count: int, bytes: int, c: Counters)

  function EntryOf(row: Row): Entry {
    MakeEntry(row.value, row.ttl, row.createdAt)
  }

  function SizeAt(rows: Table, k: Key): int {
    if k in rows then rows[k].sizeBytes else 0
  }

  /** Sum of the size column over a set of keys. */
  ghost function Sizes(rows: Table, ks: set<Key>): int {
    if ks == {} then 0
    else
      var k :| k in ks;
      SizeAt(rows, k) + Sizes(rows, ks - {k})
  }

  /** The denormalised counters agree with the table. */
  ghost predicate Agree(rows: Table, count: int, bytes: int) {
    count == |rows| && bytes == Sizes(rows, rows.Keys)
  }

  ghost predicate Counted(t: Sql) {
    Agree(t.rows, t.count, t.bytes)
  }

  /** Opening a database on whatever table it holds. */
  ghost function Open(rows: Table): Sql {
    Sql(rows, |rows|, Sizes(rows, rows.Keys), ZERO_COUNTERS)
  }

  function RemoveRow(t: Sql, k: Key): Sql {
    if k in t.rows then Sql(t.rows - {k}, t.count - 1, t.bytes - t.rows[k].sizeBytes, t.c) else t
  }

  function AddRow(t: Sql, k: Key, row: Row): Sql {
    Sql(t.rows[k := row], t.count + 1, t.bytes + row.sizeBytes, t.c)
  }

  function Expire(t: Sql, k: Key): Sql {
    if k in t.rows then RemoveRow(t, k).(c := CountExpired(t.c, 1)) else t
  }

  function EvictOne(pick: Pick, t: Sql): Sql {
    RemoveRow(t, pick(t.rows)).(c := CountEvictions(t.c, 1))
  }

  /** The loop of `_evict_to_fit_locked`. */
  function EvictToFit(pick: Pick, t: Sql, required: int, max: int): Sql
    decreases |t.rows|
  {
    if t.bytes + required > max && pick(t.rows) in t.rows then
      Shrinks(t.rows, pick(t.rows));
      EvictToFit(pick, EvictOne(pick, t), required, max)
    else t
  }

  /** The second loop of `_store_value_locked`. */
  function EvictToCount(pick: Pick, t: Sql, maxItems: int): Sql
    decreases |t.rows|
  {
    if t.count >= maxItems && pick(t.rows) in t.rows then
      Shrinks(t.rows, pick(t.rows));
      EvictToCount(pick, EvictOne(pick, t), maxItems)
    else t
  }

  lemma Shrinks(rows: Table, k: Key)
    requires k in rows
    ensures |rows - {k}| == |rows| - 1
  {
  }

  function CountCapacity(t: Sql): Sql {
    t.(c := t.c.(rejectedCapacity := t.c.rejectedCapacity + 1))
  }

  function NewRow(e: Entry, used: Time): Row {
    Row(e.value, e.ttl, e.createdAt, used, Size(e))
  }

  function Put(lim: Limits, t: Sql, key: Key, value: Bytes, ttl: Option<int>, clk: Readings, pick: Pick)
    : (Sql, SetStatus)
  {
    var isNew := key !in t.rows;
    var entry := MakeEntry(value, ttl, clk.stamp);
    var size := Size(entry);
    if size > lim.maxValueBytes then
      (t.(c := t.c.(rejectedOversize := t.c.rejectedOversize + 1)), ValueTooLarge)
    else
      var fit := EvictToFit(pick, RemoveRow(t, key), size, lim.maxMemoryBytes);
      if fit.bytes + size > lim.maxMemoryBytes then
        (CountCapacity(if isNew then fit else AddRow(fit, key, t.rows[key])), CapacityExhausted)
      else
        var room := if isNew then EvictToCount(pick, fit, lim.maxItems) else fit;
        if isNew && room.count >= lim.maxItems then (CountCapacity(room), CapacityExhausted)
        else (AddRow(room, key, NewRow(entry, clk.used)), Ok)
  }

  function Lookup(t: Sql, key: Key, clk: Readings): (Sql, Option<Bytes>) {
    if key !in t.rows then
      (t.(c := t.c.(misses := t.c.misses + 1)), None)
    else if Expired(EntryOf(t.rows[key]), clk.check) then
      (Expire(t.(c := t.c.(misses := t.c.misses + 1)), key), None)
    else
      (t.(rows := t.rows[key := t.rows[key].(lastAccessed := clk.used)], c := t.c.(hits := t.c.hits + 1)),
       Some(t.rows[key].value))
  }

  predicate Live(t: Sql, key: Key, now: Time) {
    key in t.rows && !Expired(EntryOf(t.rows[key]), now)
  }

  function PutIfAbsent(lim: Limits, t: Sql, key: Key, value: Bytes, ttl: Option<int>, clk: Readings, pick: Pick)
    : (Sql, ConditionalStatus)
  {
    if Live(t, key, clk.check) then (t, Exists)
    else
      var (u, status) := Put(lim, Expire(t, key), key, value, ttl, clk, pick);
      (u, ConditionalFromSet(status))
  }

  function Swap(lim: Limits, t: Sql, key: Key, expected: Bytes, value: Bytes, ttl: Option<int>, clk: Readings,
                pick: Pick)
    : (Sql, ConditionalStatus)
  {
    if !Live(t, key, clk.check) then (Expire(t, key), NotFound)
    else if t.rows[key].value != expected then (t, Mismatch)
    else
      var (u, status) := Put(lim, t, key, value, ttl, clk, pick);
      (u, ConditionalFromSet(status))
  }

  function RemoveIfDue(t: Sql, key: Key, clk: Readings): Sql {
    if Live(t, key, clk.check) then t else Expire(t, key)
  }

  function DueRows(rows: Table, clk: Readings): set<Key> {
    set k | k in rows && Expired(EntryOf(rows[k]), clk.At(k))
  }

  ghost function DropRows(t: Sql, gone: set<Key>): Sql {
    Sql(t.rows - gone, t.count - |gone|, t.bytes - Sizes(t.rows, gone), t.c)
  }

  ghost function Purge(t: Sql, clk: Readings): Sql {
    var gone := DueRows(t.rows, clk);
    DropRows(t, gone).(c := CountExpired(t.c, |gone|))
  }

  function Report(lim: Limits, t: Sql): StatsSnapshot {
    StatsSnapshot(t.count, t.c, HitRate(t.c), t.bytes, lim.maxMemoryBytes, lim.maxValueBytes, lim.maxItems)
  }

  ghost function Step(lim: Limits, t: Sql, op: Op, clk: Readings, pick: Pick): (Sql, Outcome) {
    if Refused(op) then (t, InvalidKey)
    else
      match op
      case Get(k) => var (u, v) := Lookup(t, k, clk); (u, Found(v))
      case Set(k, v, ttl) => var (u, r) := Put(lim, t, k, v, ttl, clk, pick); (u, SetDone(r))
      case SetIfAbsent(k, v, ttl) => var (u, r) := PutIfAbsent(lim, t, k, v, ttl, clk, pick); (u, ConditionalDone(r))
      case CompareAndSet(k, x, v, ttl) => var (u, r) := Swap(lim, t, k, x, v, ttl, clk, pick); (u, ConditionalDone(r))
      case Delete(k) => (RemoveRow(t, k), Deleted(k in t.rows))
      case RemoveIfExpired(k) => (RemoveIfDue(t, k, clk), Done)
      case Stats => var u := Purge(t, clk); (u, Snapshot(Report(lim, u)))
      case Clear => (Open(map[]), Done)
  }

  datatype Call = Call(op: Op, clk: Readings, pick: Pick)

  ghost function Run(lim: Limits, t: Sql, calls: seq<Call>): Sql {
    if calls == [] then t
    else
      var last := calls[|calls| - 1];
      Step(lim, Run(lim, t, calls[..|calls| - 1]), last.op, last.clk, last.pick).0
  }

  function Clocks(calls: seq<Call>): seq<Readings> {
    seq(|calls|, i requires 0 <= i < |calls| => calls[i].clk)
  }
}
