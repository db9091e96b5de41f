/** The contract both backends keep towards their clients: a key-to-entry view and seven counters.
    It fixes every result and every effect except which other keys an admitted write evicts. */
module Port {
  import opened Types
  import opened Entries
  import opened Order
  import opened Validation

  datatype Port = Port(view: map<Key, Entry>, c: Counters)

  const FRESH := Port(map[], ZERO_COUNTERS)

  datatype Event = Event(op: Op, clk: Readings, out: Outcome)

  function Without(p: Port, k: Key): Port {
    Port(p.view - {k}, p.c)
  }

  function Expire(p: Port, k: Key): Port {
    Port(p.view - {k}, CountExpired(p.c, 1))
  }

  predicate Live(p: Port, k: Key, now: Time) {
    k in p.view && !Expired(p.view[k], now)
  }

  /** `q` holds `e` under `key`; of the other entries `n` were evicted and the rest are untouched. */
  ghost predicate Wrote(p: Port, key: Key, e: Entry, n: nat, q: Port) {
    && key in q.view && q.view[key] == e
    && (forall k :: k in q.view && k != key ==> k in p.view && q.view[k] == p.view[k])
    && |p.view.Keys - {key}| == |q.view.Keys - {key}| + n
    && q.c == CountEvictions(p.c, n)
  }

  ghost predicate Put(lim: Limits, p: Port, key: Key, value: Bytes, ttl: Option<int>, now: Time, status: SetStatus,
                      q: Port) {
    match status
    case Ok => SizeOfValue(value) <= lim.maxValueBytes && exists n :: Wrote(p, key, MakeEntry(value, ttl, now), n, q)
    case ValueTooLarge =>
      SizeOfValue(value) > lim.maxValueBytes && q == p.(c := p.c.(rejectedOversize := p.c.rejectedOversize + 1))
    case CapacityExhausted => false
  }

  ghost predicate Step(lim: Limits, p: Port, ev: Event, q: Port) {
    var Event(op, clk, out) := ev;
    if Refused(op) then out == InvalidKey && q == p
    else
      match op
      case Get(k) =>
        if Live(p, k, clk.check) then
          out == Found(Some(p.view[k].value)) && q == p.(c := p.c.(hits := p.c.hits + 1))
        else
          var missed := p.(c := p.c.(misses := p.c.misses + 1));
          out == Found(None) && q == if k in p.view then Expire(missed, k) else missed
      case Set(k, v, ttl) =>
        out.SetDone? && Put(lim, p, k, v, ttl, clk.stamp, out.status, q)
      case SetIfAbsent(k, v, ttl) =>
        if Live(p, k, clk.check) then out == ConditionalDone(Exists) && q == p
        else exists status ::
          && out == ConditionalDone(ConditionalFromSet(status))
          && Put(lim, if k in p.view then Expire(p, k) else p, k, v, ttl, clk.stamp, status, q)
      case CompareAndSet(k, x, v, ttl) =>
        if !Live(p, k, clk.check) then
          out == ConditionalDone(NotFound) && q == if k in p.view then Expire(p, k) else p
        else if p.view[k].value != x then out == ConditionalDone(Mismatch) && q == p
        else exists status ::
          && out == ConditionalDone(ConditionalFromSet(status))
          && Put(lim, p, k, v, ttl, clk.stamp, status, q)
      case Delete(k) => out == Deleted(k in p.view) && q == Without(p, k)
      case RemoveIfExpired(k) =>
        out == Done && q == if k in p.view && !Live(p, k, clk.check) then Expire(p, k) else p
      case Stats =>
        && q == Port(p.view - Due(p.view, clk), CountExpired(p.c, |Due(p.view, clk)|))
        && out.Snapshot? && out.stats.size == |q.view| && out.stats.counters == q.c && out.stats.hitRate == HitRate(q.c)
        && out.stats.maxMemoryBytes == lim.maxMemoryBytes && out.stats.maxValueBytes == lim.maxValueBytes
        && out.stats.maxItems == lim.maxItems
      case Clear => out == Done && q == FRESH
  }

  /** Which calls are refused for their key: those of a client, with an empty key or one of more than 256
      characters; they change nothing. */
  lemma RefusedExactly(lim: Limits, p: Port, ev: Event, q: Port)
    requires Step(lim, p, ev, q)
    ensures ev.out.InvalidKey? <==>
              && (ev.op.Get? || ev.op.Set? || ev.op.SetIfAbsent? || ev.op.CompareAndSet? || ev.op.Delete?)
              && (ev.op.key == "" || |ev.op.key| > 256)
    ensures ev.out.InvalidKey? ==> q == p
  {
    hide Put;
  }

  /** Which values are refused for their size, by any of the three writes: a `set`, and a conditional write
      that meets its condition, answers TOO_LARGE or stores. */
  lemma OversizeExactly(lim: Limits, p: Port, ev: Event, q: Port)
    requires Step(lim, p, ev, q) && (ev.op.Set? || ev.op.SetIfAbsent? || ev.op.CompareAndSet?) && !ev.out.InvalidKey?
    ensures var tooLarge := |ev.op.value| + BYTES_OVERHEAD > lim.maxValueBytes;
            if ev.op.Set? then ev.out == SetDone(if tooLarge then ValueTooLarge else Ok)
            else
              || ev.out in {ConditionalDone(Exists), ConditionalDone(NotFound), ConditionalDone(Mismatch)}
              || ev.out == ConditionalDone(if tooLarge then TooLarge else Stored)
  {
  }

  /** A run: `states[i]` and `events[i]` lead to `states[i + 1]`. */
  ghost predicate Run(lim: Limits, states: seq<Port>, events: seq<Event>) {
    && |states| == |events| + 1
    && forall i :: 0 <= i < |events| ==> Step(lim, states[i], events[i], states[i + 1])
  }

  lemma RunStep(lim: Limits, states: seq<Port>, events: seq<Event>, i: nat)
    requires Run(lim, states, events) && i < |events|
    ensures |states| == |events| + 1 && Step(lim, states[i], events[i], states[i + 1])
  {
  }

  lemma RunLength(lim: Limits, states: seq<Port>, events: seq<Event>)
    requires Run(lim, states, events)
    ensures |states| == |events| + 1
  {
    hide Step;
  }

  function Clocks(events: seq<Event>): seq<Readings> {
    seq(|events|, i requires 0 <= i < |events| => events[i].clk)
  }

  ghost predicate Clocked(events: seq<Event>) {
    Monotone(Clocks(events))
  }

  lemma ClockedAt(events: seq<Event>, n: nat)
    requires Clocked(events) && n < |events|
    ensures events[n].clk.Ordered()
    ensures forall i :: 0 <= i < n ==> events[i].clk.used <= events[n].clk.check
  {
    assert Clocks(events)[n] == events[n].clk;
    assert forall i :: 0 <= i < n ==> Clocks(events)[i] == events[i].clk;
  }

  /** The entry an event wrote, if it wrote one. */
  function Written(ev: Event): Option<Entry> {
    match ev.op
    case Set(_, v, ttl) => if ev.out == SetDone(Ok) then Some(MakeEntry(v, ttl, ev.clk.stamp)) else None
    case SetIfAbsent(_, v, ttl) =>
      if ev.out == ConditionalDone(Stored) then Some(MakeEntry(v, ttl, ev.clk.stamp)) else None
    case CompareAndSet(_, _, v, ttl) =>
      if ev.out == ConditionalDone(Stored) then Some(MakeEntry(v, ttl, ev.clk.stamp)) else None
    case _ => None
  }

  predicate WritesTo(ev: Event, k: Key) {
    Written(ev).Some? && ev.op.key == k
  }

  /** `ev` evicted `k`: an admitted write to another key, counted as an LRU eviction. */
  ghost predicate Evicted(p: Port, ev: Event, q: Port, k: Key) {
    && k in p.view && k !in q.view
    && Written(ev).Some? && ev.op.key != k
    && q.c.lruEvictions > p.c.lruEvictions
  }

  /** What one step may do to one key: write it, leave it, or take it out for a stated reason. */
  ghost predicate KeyEffect(p: Port, ev: Event, q: Port, k: Key) {
    && (if WritesTo(ev, k) then k in q.view && q.view[k] == Written(ev).value
        else k in q.view ==> k in p.view && q.view[k] == p.view[k])
    && (k in p.view && k !in q.view ==>
          || ev == Event(Delete(k), ev.clk, Deleted(true))
          || ev.op.Clear?
          || Evicted(p, ev, q, k)
          || Expired(p.view[k], ev.clk.used))
  }

  lemma StepAtKey(lim: Limits, p: Port, ev: Event, q: Port, k: Key)
    requires Step(lim, p, ev, q) && ev.clk.Ordered()
    ensures KeyEffect(p, ev, q, k)
  {
    hide KeyEffect, Step, Refused;
    if ev.op.Set? && !Refused(ev.op) {
      SetAtKey(lim, p, ev, q, k);
    } else if (ev.op.SetIfAbsent? || ev.op.CompareAndSet?) && !Refused(ev.op) {
      ConditionalAtKey(lim, p, ev, q, k);
    } else {
      OthersAtKey(lim, p, ev, q, k);
    }
  }

  lemma SetAtKey(lim: Limits, p: Port, ev: Event, q: Port, k: Key)
    requires Step(lim, p, ev, q) && ev.op.Set? && !Refused(ev.op)
    ensures KeyEffect(p, ev, q, k)
  {
    hide Put, Refused;
    PutAtKey(lim, p, ev.op.key, ev.op.value, ev.op.ttl, ev.clk.stamp, ev.out.status, q, k);
  }

  lemma OthersAtKey(lim: Limits, p: Port, ev: Event, q: Port, k: Key)
    requires Step(lim, p, ev, q) && ev.clk.Ordered()
    requires !(ev.op.Set? || ev.op.SetIfAbsent? || ev.op.CompareAndSet?) || Refused(ev.op)
    ensures KeyEffect(p, ev, q, k)
  {
  }

  lemma ConditionalAtKey(lim: Limits, p: Port, ev: Event, q: Port, k: Key)
    requires Step(lim, p, ev, q) && ev.clk.Ordered() && (ev.op.SetIfAbsent? || ev.op.CompareAndSet?) && !Refused(ev.op)
    ensures KeyEffect(p, ev, q, k)
  {
    hide Put, Refused;
    var op := ev.op;
    var stale := op.key in p.view && !Live(p, op.key, ev.clk.check);
    var before := if stale then Expire(p, op.key) else p;
    if status :|
      && ev.out == ConditionalDone(ConditionalFromSet(status))
      && Put(lim, before, op.key, op.value, op.ttl, ev.clk.stamp, status, q)
    {
      PutAtKey(lim, before, op.key, op.value, op.ttl, ev.clk.stamp, status, q, k);
    }
  }

  lemma PutAtKey(lim: Limits, p: Port, key: Key, value: Bytes, ttl: Option<int>, now: Time, status: SetStatus, q: Port,
                 k: Key)
    requires Put(lim, p, key, value, ttl, now, status, q)
    ensures if status == Ok && k == key then k in q.view && q.view[k] == MakeEntry(value, ttl, now)
            else k in q.view ==> k in p.view && q.view[k] == p.view[k]
    ensures k in p.view && k !in q.view ==> status == Ok && k != key && q.c.lruEvictions > p.c.lruEvictions
  {
    if status == Ok && k in p.view && k !in q.view {
      var n :| Wrote(p, key, MakeEntry(value, ttl, now), n, q);
      Smaller(q.view.Keys - {key}, p.view.Keys - {key}, k);
    }
  }

  lemma PutOnlyGrows(lim: Limits, p: Port, key: Key, value: Bytes, ttl: Option<int>, now: Time, status: SetStatus,
                     q: Port)
    requires Put(lim, p, key, value, ttl, now, status, q)
    ensures q.c.lruEvictions >= p.c.lruEvictions
  {
  }

  lemma EvictionsOnlyGrow(lim: Limits, p: Port, ev: Event, q: Port)
    requires Step(lim, p, ev, q) && !ev.op.Clear?
    ensures q.c.lruEvictions >= p.c.lruEvictions
  {
    hide Put, Refused;
    var op := ev.op;
    if op.Set? && ev.out.SetDone? && Put(lim, p, op.key, op.value, op.ttl, ev.clk.stamp, ev.out.status, q) {
      PutOnlyGrows(lim, p, op.key, op.value, op.ttl, ev.clk.stamp, ev.out.status, q);
    } else if op.SetIfAbsent? || op.CompareAndSet? {
      ConditionalCases(lim, p, ev, q);
    }
  }

  /** A conditional write either leaves the counters' eviction fields alone or is a plain write. */
  lemma ConditionalCases(lim: Limits, p: Port, ev: Event, q: Port)
    requires Step(lim, p, ev, q) && (ev.op.SetIfAbsent? || ev.op.CompareAndSet?)
    ensures q.c.lruEvictions >= p.c.lruEvictions
  {
    hide Put;
    var op := ev.op;
    var before := if op.key in p.view && !Live(p, op.key, ev.clk.check) then Expire(p, op.key) else p;
    if status :|
      && ev.out == ConditionalDone(ConditionalFromSet(status))
      && Put(lim, before, op.key, op.value, op.ttl, ev.clk.stamp, status, q)
    {
      PutOnlyGrows(lim, before, op.key, op.value, op.ttl, ev.clk.stamp, status, q);
    }
  }
}
