/** The seven counters and the size against the calls and their results: nothing goes uncounted. */
module Conservation {
  import opened Types
  import opened Entries
  import opened Validation
  import opened Port

  /** What the clients saw since the store was opened or last cleared; persisted entries count as
      inserted on opening. */
  datatype Tally = Tally(inserted: nat, deleted: nat, gets: nat, hits: nat, oversize: nat) {
    function Add(p: Port, ev: Event): Tally {
      Tally(inserted + One(Inserts(p, ev)),
            deleted + One(ev.out == Deleted(true)),
            gets + One(ev.out.Found?),
            hits + One(IsHit(ev.out)),
            oversize + One(TooLargeResult(ev.out)))
    }
  }

  const NOTHING := Tally(0, 0, 0, 0, 0)

  predicate Inserts(p: Port, ev: Event) {
    Written(ev).Some? && (ev.op.SetIfAbsent? || (ev.op.Set? && ev.op.key !in p.view))
  }

  function One(b: bool): nat {
    if b then 1 else 0
  }

  predicate IsHit(out: Outcome) {
    out.Found? && out.found.Some?
  }

  function TooLargeResult(out: Outcome): bool {
    out == SetDone(ValueTooLarge) || out == ConditionalDone(TooLarge)
  }

  function Seen(states: seq<Port>, events: seq<Event>, n: nat): Tally
    requires n <= |events| < |states|
  {
    if n == 0 then Tally(|states[0].view|, 0, 0, 0, 0)
    else if events[n - 1].op.Clear? then NOTHING
    else
      Seen(states, events, n - 1).Add(states[n - 1], events[n - 1])
  }

  ghost predicate Balanced(p: Port, t: Tally) {
    && |p.view| == t.inserted - t.deleted - p.c.lruEvictions - p.c.expiredRemovals
    && p.c.evictions == p.c.lruEvictions
    && p.c.hits + p.c.misses == t.gets && p.c.hits == t.hits
    && p.c.rejectedOversize == t.oversize
    && p.c.rejectedCapacity == 0
  }

  /** How a step moves the counters and the size. */
  ghost predicate Accounted(p: Port, ev: Event, q: Port) {
    && |q.view| + q.c.lruEvictions + q.c.expiredRemovals
         == |p.view| + p.c.lruEvictions + p.c.expiredRemovals + One(Inserts(p, ev)) - One(ev.out == Deleted(true))
    && q.c.evictions - q.c.lruEvictions == p.c.evictions - p.c.lruEvictions
    && q.c.hits + q.c.misses == p.c.hits + p.c.misses + One(ev.out.Found?)
    && q.c.hits == p.c.hits + One(IsHit(ev.out))
    && q.c.rejectedOversize == p.c.rejectedOversize + One(TooLargeResult(ev.out))
    && q.c.rejectedCapacity == p.c.rejectedCapacity
  }

  lemma MinusKey(m: map<Key, Entry>, k: Key)
    ensures |m.Keys - {k}| == |m - {k}| == |m| - One(k in m)
  {
  }

  /** The books of a write, apart from who made it. */
  lemma PutAccounts(lim: Limits, p: Port, key: Key, value: Bytes, ttl: Option<int>, now: Time, status: SetStatus,
                    q: Port)
    requires Put(lim, p, key, value, ttl, now, status, q)
    ensures |q.view| + q.c.lruEvictions == |p.view| + p.c.lruEvictions + One(status == Ok && key !in p.view)
    ensures q.c == p.c.(evictions := q.c.evictions, lruEvictions := q.c.lruEvictions,
                        rejectedOversize := p.c.rejectedOversize + One(status == ValueTooLarge))
    ensures q.c.evictions - q.c.lruEvictions == p.c.evictions - p.c.lruEvictions
    ensures status != CapacityExhausted
  {
  }

  lemma AbsentAccounts(lim: Limits, p: Port, ev: Event, q: Port)
    requires Step(lim, p, ev, q) && ev.op.SetIfAbsent? && !Refused(ev.op)
    ensures Accounted(p, ev, q)
  {
    hide Put, Refused;
    var op := ev.op;
    if !Live(p, op.key, ev.clk.check) {
      var before := if op.key in p.view then Expire(p, op.key) else p;
      var status :| ev.out == ConditionalDone(ConditionalFromSet(status))
        && Put(lim, before, op.key, op.value, op.ttl, ev.clk.stamp, status, q);
      MinusKey(p.view, op.key);
      PutAccounts(lim, before, op.key, op.value, op.ttl, ev.clk.stamp, status, q);
    }
  }

  lemma SwapAccounts(lim: Limits, p: Port, ev: Event, q: Port)
    requires Step(lim, p, ev, q) && ev.op.CompareAndSet? && !Refused(ev.op)
    ensures Accounted(p, ev, q)
  {
    hide Put, Refused;
    var op := ev.op;
    MinusKey(p.view, op.key);
    if Live(p, op.key, ev.clk.check) && p.view[op.key].value == op.expected {
      var status :| ev.out == ConditionalDone(ConditionalFromSet(status))
        && Put(lim, p, op.key, op.value, op.ttl, ev.clk.stamp, status, q);
      hide Step;
      SwapPutAccounts(lim, p, ev, q, status);
    }
  }

  lemma SwapPutAccounts(lim: Limits, p: Port, ev: Event, q: Port, status: SetStatus)
    requires ev.op.CompareAndSet? && ev.op.key in p.view && ev.out == ConditionalDone(ConditionalFromSet(status))
    requires Put(lim, p, ev.op.key, ev.op.value, ev.op.ttl, ev.clk.stamp, status, q)
    ensures Accounted(p, ev, q)
  {
  }

  lemma GetAccounts(lim: Limits, p: Port, ev: Event, q: Port)
    requires Step(lim, p, ev, q) && ev.op.Get? && !Refused(ev.op)
    ensures Accounted(p, ev, q)
  {
  }

  lemma RemovalAccounts(lim: Limits, p: Port, ev: Event, q: Port)
    requires Step(lim, p, ev, q) && (ev.op.Delete? || ev.op.RemoveIfExpired?) && !Refused(ev.op)
    ensures Accounted(p, ev, q)
  {
    hide Put, Refused;
    MinusKey(p.view, ev.op.key);
  }

  lemma SetAccounts(lim: Limits, p: Port, ev: Event, q: Port)
    requires Step(lim, p, ev, q) && ev.op.Set? && !Refused(ev.op)
    ensures Accounted(p, ev, q)
  {
    hide Put;
    PutAccounts(lim, p, ev.op.key, ev.op.value, ev.op.ttl, ev.clk.stamp, ev.out.status, q);
  }

  lemma PurgeAccounts(lim: Limits, p: Port, ev: Event, q: Port)
    requires Step(lim, p, ev, q) && ev.op.Stats?
    ensures Accounted(p, ev, q)
  {
  }

  lemma StepAccounts(lim: Limits, p: Port, ev: Event, q: Port)
    requires Step(lim, p, ev, q) && !ev.op.Clear?
    ensures Accounted(p, ev, q)
  {
    hide Accounted, Step;
    if Refused(ev.op) {
      RefusedAccounts(lim, p, ev, q);
    } else {
      match ev.op
      case Get(_) => GetAccounts(lim, p, ev, q);
      case Set(_, _, _) => SetAccounts(lim, p, ev, q);
      case SetIfAbsent(_, _, _) => AbsentAccounts(lim, p, ev, q);
      case CompareAndSet(_, _, _, _) => SwapAccounts(lim, p, ev, q);
      case Delete(_) => RemovalAccounts(lim, p, ev, q);
      case RemoveIfExpired(_) => RemovalAccounts(lim, p, ev, q);
      case Stats => PurgeAccounts(lim, p, ev, q);
    }
  }

  lemma RefusedAccounts(lim: Limits, p: Port, ev: Event, q: Port)
    requires Step(lim, p, ev, q) && Refused(ev.op)
    ensures Accounted(p, ev, q)
  {
  }

  lemma AddUp(p: Port, ev: Event, q: Port, t: Tally)
    requires Accounted(p, ev, q) && Balanced(p, t)
    ensures Balanced(q, t.Add(p, ev))
  {
  }

  lemma StepBalances(lim: Limits, p: Port, ev: Event, q: Port, t: Tally)
    requires Step(lim, p, ev, q) && Balanced(p, t)
    ensures Balanced(q, if ev.op.Clear? then NOTHING else t.Add(p, ev))
  {
    if !ev.op.Clear? {
      hide Step, Accounted, Balanced;
      StepAccounts(lim, p, ev, q);
      AddUp(p, ev, q, t);
    }
  }

  lemma OpeningBalances(p: Port)
    requires p.c == ZERO_COUNTERS
    ensures Balanced(p, Tally(|p.view|, 0, 0, 0, 0))
  {
  }

  lemma SeenStep(states: seq<Port>, events: seq<Event>, n: nat)
    requires 0 < n <= |events| < |states|
    ensures Seen(states, events, n)
         == if events[n - 1].op.Clear? then NOTHING
           else Seen(states, events, n - 1).Add(states[n - 1], events[n - 1])
  {
    hide Tally.Add;
  }

  lemma OneMoreBalances(lim: Limits, states: seq<Port>, events: seq<Event>, n: nat)
    requires Run(lim, states, events) && 0 < n <= |events|
    requires Balanced(states[n - 1], Seen(states, events, n - 1))
    ensures Balanced(states[n], Seen(states, events, n))
  {
    hide Run, Step, Balanced, Seen, Tally.Add;
    RunStep(lim, states, events, n - 1);
    StepBalances(lim, states[n - 1], events[n - 1], states[n], Seen(states, events, n - 1));
    SeenStep(states, events, n);
  }

  /** After every prefix of every run: size is insertions minus deletions, evictions and expiries;
      every `get` is a hit or a miss; every refused value is counted; capacity is never exhausted. */
  lemma {:induction false} BooksBalance(lim: Limits, states: seq<Port>, events: seq<Event>, n: nat)
    requires Run(lim, states, events) && states[0].c == ZERO_COUNTERS && n <= |events|
    ensures Balanced(states[n], Seen(states, events, n))
  {
    hide Step, Balanced, Tally.Add;
    if n == 0 {
      OpeningBalances(states[0]);
    } else {
      BooksBalance(lim, states, events, n - 1);
      OneMoreBalances(lim, states, events, n);
    }
  }

  /** The hit rate a snapshot reports is the share of `get` calls answered with a value since the store was
      opened or last cleared, and 0 if there was none. */
  lemma HitRateIsExact(lim: Limits, states: seq<Port>, events: seq<Event>, n: nat)
    requires Run(lim, states, events) && states[0].c == ZERO_COUNTERS && n < |events| && events[n].out.Snapshot?
    ensures var t, rate := Seen(states, events, n), events[n].out.stats.hitRate;
            && (t.gets == 0 ==> rate == 0.0)
            && rate * t.gets as real == t.hits as real
  {
    hide Step, HitRate, Tally.Add, Seen;
    BooksBalance(lim, states, events, n);
    RunStep(lim, states, events, n);
    SnapshotCounts(lim, states[n], events[n], states[n + 1]);
    var t := Seen(states, events, n);
    RateOf(states[n + 1].c, t.gets, t.hits);
  }

  lemma SnapshotCounts(lim: Limits, p: Port, ev: Event, q: Port)
    requires Step(lim, p, ev, q) && ev.out.Snapshot?
    ensures ev.out.stats.hitRate == HitRate(q.c) && q.c.hits == p.c.hits && q.c.misses == p.c.misses
  {
    hide HitRate, Put;
  }

  lemma RateOf(c: Counters, gets: nat, hits: nat)
    requires c.hits + c.misses == gets && c.hits == hits
    ensures (gets == 0 ==> HitRate(c) == 0.0) && HitRate(c) * gets as real == hits as real
  {
  }
}
