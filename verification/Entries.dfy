/** Cache entries and store limits (memory_store_models.py). */
module Entries {
  import opened Types

  const DEFAULT_MAX_ITEMS := 1000
  const DEFAULT_MAX_MEMORY_MB := 100
  const DEFAULT_CLEANUP_INTERVAL := 10

  /** Object header of a byte string; an entry is never free. */
  const BYTES_OVERHEAD: int := 33

  datatype Entry = Entry(value: Bytes, ttl: Option<int>, createdAt: Time)

  function SizeOfValue(value: Bytes): (r: int)
    ensures r > 0
  {
    BYTES_OVERHEAD + |value|
  }

  function Size(e: Entry): (r: int)
    ensures r > 0
  {
    SizeOfValue(e.value)
  }

  /** The `CacheEntry` constructor: a time-to-live that is not positive means no expiry. */
  function MakeEntry(value: Bytes, ttl: Option<int>, createdAt: Time): Entry {
    Entry(value, if ttl.Some? && ttl.value <= 0 then None else ttl, createdAt)
  }

  predicate Expired(e: Entry, now: Time) {
    e.ttl.Some? && now - e.createdAt >= e.ttl.value as real
  }

  /** The entries a purge finds expired. */
  function Due(m: map<Key, Entry>, clk: Readings): set<Key> {
    set k | k in m && Expired(m[k], clk.At(k))
  }

  predicate Normalised(e: Entry) {
    e.ttl.Some? ==> e.ttl.value > 0
  }

  /** An entry expires when its time-to-live has passed since it was created, if that is positive: never at
      the reading that created it, and once expired for good. */
  lemma ExpiryIsFinal(value: Bytes, ttl: Option<int>, created: Time, t: Time, later: Time)
    requires t <= later
    ensures Normalised(MakeEntry(value, ttl, created))
    ensures Expired(MakeEntry(value, ttl, created), t) <==>
              ttl.Some? && ttl.value > 0 && t >= created + ttl.value as real
    ensures !Expired(MakeEntry(value, ttl, created), created)
    ensures Expired(MakeEntry(value, ttl, created), t) ==> created < t
    ensures Expired(MakeEntry(value, ttl, created), t) ==> Expired(MakeEntry(value, ttl, created), later)
  {
  }

  datatype Limits = Limits(maxItems: int, maxMemoryBytes: int, maxValueBytes: int, cleanupInterval: int)

  /** What every limits record built by `Resolve` satisfies. */
  predicate ValidLimits(lim: Limits) {
    lim.maxItems >= 1 && 1 <= lim.maxValueBytes <= lim.maxMemoryBytes && lim.cleanupInterval >= 1
  }

  function OrDefault(o: Option<int>, d: int): int {
    if o.Some? then o.value else d
  }

  predicate Usable(o: Option<int>) {
    o.Some? ==> o.value >= 1
  }

  datatype LimitError = BadMaxItems(int) | BadMaxMemory(int) | BadCleanupInterval(int) | BadMaxValue(int)

  function Resolve(maxItems: Option<int>, maxMemoryMb: Option<int>, cleanupInterval: Option<int>,
                   maxValueBytes: Option<int>): (r: Result<Limits, LimitError>)
    ensures r.Success? <==> Usable(maxItems) && Usable(maxMemoryMb) && Usable(cleanupInterval) && Usable(maxValueBytes)
    ensures r.Success? ==> ValidLimits(r.value)
    ensures r.Success? ==> r.value.maxItems == OrDefault(maxItems, DEFAULT_MAX_ITEMS)
    ensures r.Success? ==> r.value.cleanupInterval == OrDefault(cleanupInterval, DEFAULT_CLEANUP_INTERVAL)
    ensures r.Success? ==> r.value.maxMemoryBytes == OrDefault(maxMemoryMb, DEFAULT_MAX_MEMORY_MB) * 0x10_0000
    ensures r.Success? ==>
              r.value.maxValueBytes == if maxValueBytes.Some? && maxValueBytes.value < r.value.maxMemoryBytes
                                       then maxValueBytes.value else r.value.maxMemoryBytes
    ensures r.Failure? ==>
              match r.error
              case BadMaxItems(n) => maxItems == Some(n) && n < 1
              case BadMaxMemory(n) => Usable(maxItems) && maxMemoryMb == Some(n) && n < 1
              case BadCleanupInterval(n) =>
                Usable(maxItems) && Usable(maxMemoryMb) && cleanupInterval == Some(n) && n < 1
              case BadMaxValue(n) =>
                Usable(maxItems) && Usable(maxMemoryMb) && Usable(cleanupInterval) && maxValueBytes == Some(n) && n < 1
  {
    var items := OrDefault(maxItems, DEFAULT_MAX_ITEMS);
    var mb := OrDefault(maxMemoryMb, DEFAULT_MAX_MEMORY_MB);
    var interval := OrDefault(cleanupInterval, DEFAULT_CLEANUP_INTERVAL);
    var memory := mb * 1024 * 1024;
    var value := OrDefault(maxValueBytes, memory);
    if items < 1 then Failure(BadMaxItems(items))
    else if mb < 1 then Failure(BadMaxMemory(mb))
    else if interval < 1 then Failure(BadCleanupInterval(interval))
    else if value < 1 then Failure(BadMaxValue(value))
    else Success(Limits(items, memory, if value < memory then value else memory, interval))
  }

  lemma DefaultLimits()
    ensures Resolve(None, None, None, None) == Success(Limits(1000, 104857600, 104857600, 10))
  {
  }
}
