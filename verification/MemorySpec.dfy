/** What each critical section of the in-memory store does to its state, as a function.
    Evictions are stated by their effect: how many of the oldest entries go. */
module MemorySpec {
  import opened Types
  import opened Entries
  import opened Order
  import opened Validation

  /** `order` runs from least to most recently used. */
  datatype Mem = Mem(order: seq<Key>, entries: map<Key, Entry>, bytes: int, c: Counters)

  const EMPTY := Mem([], map[], 0, ZERO_COUNTERS)

  function SizeAt(m: map<Key, Entry>, k: Key): int {
    if k in m then Size(m[k]) else 0
  }

  function Total(order: seq<Key>, m: map<Key, Entry>): int {
    if order == [] then 0 else SizeAt(m, order[0]) + Total(order[1..], m)
  }

  ghost predicate Consistent(order: seq<Key>, m: map<Key, Entry>, bytes: int) {
    && NoDup(order)
    && Elems(order) == m.Keys
    && bytes == Total(order, m)
    && forall k :: k in m ==> Normalised(m[k])
  }

  ghost predicate WellFormed(s: Mem) {
    Consistent(s.order, s.entries, s.bytes)
  }

  ghost predicate WithinLimits(lim: Limits, s: Mem) {
    && |s.order| <= lim.maxItems
    && 0 <= s.bytes <= lim.maxMemoryBytes
    && (forall k :: k in s.entries ==> Size(s.entries[k]) <= lim.maxValueBytes)
    && s.c.rejectedCapacity == 0
  }

  /** Take out a set of keys; the others keep their order. */
  function Drop(s: Mem, gone: set<Key>): Mem {
    s.(order := Keep(s.order, s.entries.Keys - gone),
       entries := s.entries - gone,
       bytes := s.bytes - Total(Keep(s.order, gone), s.entries))
  }

  function MoveToEnd(s: Mem, k: Key): Mem {
    s.(order := Keep(s.order, s.entries.Keys - {k}) + [k])
  }

  function Append(s: Mem, k: Key, e: Entry): Mem {
    s.(order := s.order + [k], entries := s.entries[k := e], bytes := s.bytes + Size(e))
  }

  function Expire(s: Mem, k: Key): Mem {
    Drop(s, {k}).(c := CountExpired(s.c, 1))
  }

  function EvictOldest(s: Mem, n: nat): Mem
    requires n <= |s.order|
  {
    Drop(s, Elems(s.order[..n])).(c := CountEvictions(s.c, n))
  }

  /** How many of the oldest entries must go to free `excess` bytes, if that can be done. */
  function BytesDrop(order: seq<Key>, m: map<Key, Entry>, excess: int): (n: nat)
    ensures n <= |order|
  {
    if order == [] || excess <= 0 then 0
    else 1 + BytesDrop(order[1..], m, excess - SizeAt(m, order[0]))
  }

  /** How many of `count` entries must go so that one more fits under `maxItems`. */
  function CountDrop(count: nat, maxItems: int): nat
    requires maxItems >= 1
  {
    if count >= maxItems then count - maxItems + 1 else 0
  }

  function Max(a: nat, b: nat): nat {
    if a < b then b else a
  }

  /** The number of entries a store of `size` bytes evicts from `base`. */
  function Victims(lim: Limits, base: Mem, size: int, isNew: bool): (n: nat)
    requires isNew ==> lim.maxItems >= 1
    ensures n <= |base.order|
  {
    Max(BytesDrop(base.order, base.entries, base.bytes + size - lim.maxMemoryBytes),
        if isNew then CountDrop(|base.order|, lim.maxItems) else 0)
  }

  function CountOversize(s: Mem): Mem {
    s.(c := s.c.(rejectedOversize := s.c.rejectedOversize + 1))
  }

  function CountCapacity(s: Mem): Mem {
    s.(c := s.c.(rejectedCapacity := s.c.rejectedCapacity + 1))
  }

  /** No room even in an empty store: everything else is gone, an old entry comes back. */
  function Exhaust(s: Mem, key: Key): Mem {
    var base := Drop(s, {key});
    var empty := EvictOldest(base, |base.order|);
    CountCapacity(if key in s.entries then Append(empty, key, s.entries[key]) else empty)
  }

  /** `_store_value_locked`, from the state before the old entry is taken out. */
  function Put(lim: Limits, s: Mem, key: Key, value: Bytes, ttl: Option<int>, now: Time): (Mem, SetStatus) {
    var isNew := key !in s.entries;
    var base := Drop(s, {key});
    var entry := MakeEntry(value, ttl, now);
    if Size(entry) > lim.maxValueBytes then
      (CountOversize(if isNew then s else MoveToEnd(s, key)), ValueTooLarge)
    else if Size(entry) > lim.maxMemoryBytes || (isNew && lim.maxItems < 1) then
      (Exhaust(s, key), CapacityExhausted)
    else
      (Append(EvictOldest(base, Victims(lim, base, Size(entry), isNew)), key, entry), Ok)
  }

  function Lookup(s: Mem, key: Key, clk: Readings): (Mem, Option<Bytes>) {
    if key !in s.entries then
      (s.(c := s.c.(misses := s.c.misses + 1)), None)
    else if Expired(s.entries[key], clk.check) then
      (Expire(s.(c := s.c.(misses := s.c.misses + 1)), key), None)
    else
      (MoveToEnd(s.(c := s.c.(hits := s.c.hits + 1)), key), Some(s.entries[key].value))
  }

  function PutIfAbsent(lim: Limits, s: Mem, key: Key, value: Bytes, ttl: Option<int>, clk: Readings)
    : (Mem, ConditionalStatus)
  {
    if key in s.entries && !Expired(s.entries[key], clk.check) then (s, Exists)
    else
      var (t, status) := Put(lim, if key in s.entries then Expire(s, key) else s, key, value, ttl, clk.stamp);
      (t, ConditionalFromSet(status))
  }

  function Swap(lim: Limits, s: Mem, key: Key, expected: Bytes, value: Bytes, ttl: Option<int>, clk: Readings)
    : (Mem, ConditionalStatus)
  {
    if key !in s.entries then (s, NotFound)
    else if Expired(s.entries[key], clk.check) then (Expire(s, key), NotFound)
    else if s.entries[key].value != expected then (s, Mismatch)
    else
      var (t, status) := Put(lim, s, key, value, ttl, clk.stamp);
      (t, ConditionalFromSet(status))
  }

  function Remove(s: Mem, key: Key): (Mem, bool) {
    (if key in s.entries then Drop(s, {key}) else s, key in s.entries)
  }

  function RemoveIfDue(s: Mem, key: Key, clk: Readings): Mem {
    if key in s.entries && Expired(s.entries[key], clk.check) then Expire(s, key) else s
  }

  /** The purge at the head of `stats`. */
  function Purge(s: Mem, clk: Readings): Mem {
    var gone := Due(s.entries, clk);
    Drop(s, gone).(c := CountExpired(s.c, |gone|))
  }

  function Report(lim: Limits, s: Mem): StatsSnapshot {
    StatsSnapshot(|s.order|, s.c, HitRate(s.c), s.bytes, lim.maxMemoryBytes, lim.maxValueBytes, lim.maxItems)
  }

  function Step(lim: Limits, s: Mem, op: Op, clk: Readings): (Mem, Outcome) {
    if Refused(op) then (s, InvalidKey)
    else
      match op
      case Get(k) => var (t, v) := Lookup(s, k, clk); (t, Found(v))
      case Set(k, v, ttl) => var (t, r) := Put(lim, s, k, v, ttl, clk.stamp); (t, SetDone(r))
      case SetIfAbsent(k, v, ttl) => var (t, r) := PutIfAbsent(lim, s, k, v, ttl, clk); (t, ConditionalDone(r))
      case CompareAndSet(k, x, v, ttl) => var (t, r) := Swap(lim, s, k, x, v, ttl, clk); (t, ConditionalDone(r))
      case Delete(k) => var (t, r) := Remove(s, k); (t, Deleted(r))
      case RemoveIfExpired(k) => (RemoveIfDue(s, k, clk), Done)
      case Stats => var t := Purge(s, clk); (t, Snapshot(Report(lim, t)))
      case Clear => (EMPTY, Done)
  }

  function Clocks(trace: seq<Timed>): seq<Readings> {
    seq(|trace|, i requires 0 <= i < |trace| => trace[i].clk)
  }

  /** The state after each prefix of a trace. */
  function Run(lim: Limits, s: Mem, trace: seq<Timed>): Mem {
    if trace == [] then s
    else
      var last := trace[|trace| - 1];
      Step(lim, Run(lim, s, trace[..|trace| - 1]), last.op, last.clk).0
  }
}
