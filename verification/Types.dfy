/** Values, statuses and operations shared by both cache backends. */
module Types {
  datatype Option<+T> = None | Some(value: T)

  datatype Result<+T, +E> = Success(value: T) | Failure(error: E)

  newtype byte = x: int | 0 <= x < 256
  type Bytes = seq<byte>
  type Key = string
  type Time = real

  // Status enums of the store port.

  datatype SetStatus = Ok | ValueTooLarge | CapacityExhausted

  datatype ConditionalStatus = Stored | Exists | NotFound | Mismatch | TooLarge | Exhausted

  function ConditionalFromSet(status: SetStatus): ConditionalStatus {
    match status
    case Ok => Stored
    case ValueTooLarge => TooLarge
    case CapacityExhausted => Exhausted
  }

  datatype Counters = Counters(
    hits: nat,
    misses: nat,
    evictions: nat,
    lruEvictions: nat,
    expiredRemovals: nat,
    rejectedOversize: nat,
    rejectedCapacity: nat)

  const ZERO_COUNTERS := Counters(0, 0, 0, 0, 0, 0, 0)

  function CountEvictions(c: Counters, n: nat): Counters {
    c.(evictions := c.evictions + n, lruEvictions := c.lruEvictions + n)
  }

  function CountExpired(c: Counters, n: nat): Counters {
    c.(expiredRemovals := c.expiredRemovals + n)
  }

  /** The share of lookups that hit, 0 before the first lookup. */
  function HitRate(c: Counters): (r: real)
    ensures 0.0 <= r <= 1.0
    ensures c.hits + c.misses == 0 ==> r == 0.0
    ensures r * (c.hits + c.misses) as real == c.hits as real
  {
    if c.hits + c.misses == 0 then 0.0 else c.hits as real / (c.hits + c.misses) as real
  }

  datatype StatsSnapshot = StatsSnapshot(
    size: int,
    counters: Counters,
    hitRate: real,
    memoryUsageBytes: int,
    maxMemoryBytes: int,
    maxValueBytes: int,
    maxItems: int)

  /** The critical sections of a store: the client calls of the port, `clear`, and the
      cleaner's `_remove_if_expired`. */
  datatype Op =
    | Get(key: Key)
    | Set(key: Key, value: Bytes, ttl: Option<int>)
    | SetIfAbsent(key: Key, value: Bytes, ttl: Option<int>)
    | CompareAndSet(key: Key, expected: Bytes, value: Bytes, ttl: Option<int>)
    | Delete(key: Key)
    | RemoveIfExpired(key: Key)
    | Stats
    | Clear

  datatype Outcome =
    | InvalidKey
    | Found(found: Option<Bytes>)
    | SetDone(status: SetStatus)
    | ConditionalDone(conditional: ConditionalStatus)
    | Deleted(removed: bool)
    | Snapshot(stats: StatsSnapshot)
    | Done

  /** The clock readings of one critical section: `check` is read by an expiry test, `stamp`
      becomes the creation time of a written entry and `used` the recency stamp of a SQLite row.
      A purge reads the clock once per entry; `scan` holds those readings. */
  datatype Readings = Readings(check: Time, stamp: Time, used: Time, scan: map<Key, Time>) {
    function At(k: Key): Time {
      if k in scan then scan[k] else check
    }

    /** The clock never runs backwards inside the critical section. */
    ghost predicate Ordered() {
      check <= stamp <= used && forall k :: check <= At(k) <= used
    }
  }

  /** A critical section that takes no time. */
  function Instant(t: Time): Readings {
    Readings(t, t, t, map[])
  }

  datatype Timed = Timed(op: Op, clk: Readings)

  /** No reading of a critical section precedes a reading of an earlier one. */
  ghost predicate Monotone(clks: seq<Readings>) {
    && (forall i :: 0 <= i < |clks| ==> clks[i].Ordered())
    && (forall i, j :: 0 <= i < j < |clks| ==> clks[i].used <= clks[j].check)
  }
}
