/** One cycle of the cleaner thread on the in-memory store, with other threads let in wherever the
    store's lock is free: it is a behaviour of the protocol in `Cleaner`. */
module CleanerThread {
  import opened Types
  import opened Entries
  import opened Order
  import opened MemoryStore
  import M = MemorySpec
  import MT = MemoryTheorems
  import MP = MemoryPort
  import P = Port
  import C = Cleaner

  function Between(low: Time, t: Time, high: Time): Time {
    if t < low then low else if t > high then high else t
  }

  /** A clock that any reading may find further on, never further back. */
  class Clock {
    var now: Time

    constructor (now: Time)
      ensures this.now == now
    {
      this.now := now;
    }

    method Read() returns (t: Time)
      modifies this
      ensures t == now && now >= old(now)
    {
      var elapsed: Time := *;
      if elapsed > 0.0 {
        now := now + elapsed;
      }
      return now;
    }

    /** The readings of one critical section; a purge in it may find the clock anywhere in between. */
    method ReadAll() returns (clk: Readings)
      modifies this
      ensures clk.Ordered() && old(now) <= clk.check && clk.used == now
    {
      var a := Read();
      var b := Read();
      var c := Read();
      var scan: map<Key, Time> := *;
      return Readings(a, b, c, map k | k in scan :: Between(a, scan[k], c));
    }
  }

  // What happens to the store, step by step, for the statements about it.

  datatype History = History(states: seq<C.System>, actions: seq<C.Action>) {
    function Add(a: C.Action, next: C.System): History {
      History(states + [next], actions + [a])
    }
  }

  /** The client calls among some actions, in order. */
  function ClientCalls(actions: seq<C.Action>): seq<Op> {
    if actions == [] then []
    else
      var n := |actions| - 1;
      ClientCalls(actions[..n]) + (if actions[n].Client? then [actions[n].ev.op] else [])
  }

  /** The calls other threads make in their first `turns` turns. */
  function Calls(schedule: nat -> seq<Op>, turns: nat): seq<Op> {
    if turns == 0 then [] else Calls(schedule, turns - 1) + schedule(turns - 1)
  }

  /** A behaviour of the protocol from `first` to `now` with one snapshot, at its start, in which the clients
      make exactly these calls: all other steps are the cleaner's. */
  ghost predicate Cycle(lim: Limits, h: History, first: C.System, now: C.System, calls: seq<Op>) {
    && C.Behaviour(lim, h.states, h.actions) && h.actions != []
    && h.states[0] == first && h.states[|h.actions|] == now
    && h.actions[0].TakeSnapshot? && (forall i :: 0 < i < |h.actions| ==> !h.actions[i].TakeSnapshot?)
    && ClientCalls(h.actions) == calls
  }

  lemma CycleStarts(lim: Limits, first: C.System, items: seq<C.Item>, now: C.System)
    requires C.Initial(first) && first.snappedAt <= first.last
    requires C.CleanerStep(lim, first, C.TakeSnapshot(items, first.last), now)
    ensures Cycle(lim, History([first, now], [C.TakeSnapshot(items, first.last)]), first, now, [])
  {
    hide C.CleanerStep, C.Initial;
    var actions := [C.TakeSnapshot(items, first.last)];
    assert actions[..0] == [];
    assert ClientCalls(actions) == ClientCalls([]) == [];
    assert C.Next(lim, first, actions[0], now);
  }

  lemma CycleGoesOn(lim: Limits, h: History, first: C.System, now: C.System, calls: seq<Op>, a: C.Action,
                    next: C.System)
    requires Cycle(lim, h, first, now, calls) && C.Next(lim, now, a, next) && !a.TakeSnapshot?
    ensures Cycle(lim, h.Add(a, next), first, next, if a.Client? then calls + [a.ev.op] else calls)
  {
    hide C.Next;
    assert h.Add(a, next).actions[..|h.actions|] == h.actions;
  }

  lemma FirstStep(lim: Limits, h: History, first: C.System, now: C.System, calls: seq<Op>)
    requires Cycle(lim, h, first, now, calls)
    ensures h.actions[0].at >= first.last && C.Next(lim, first, h.actions[0], h.states[1])
  {
    C.StepOf(lim, h.states, h.actions, 0);
    assert C.CleanerStep(lim, first, h.actions[0], h.states[1]);
  }

  /** What had expired when a finished cycle began is gone. */
  lemma CycleClears(lim: Limits, h: History, first: C.System, now: C.System, calls: seq<Op>, it: C.Item)
    requires Cycle(lim, h, first, now, calls) && now.phase.Idle?
    requires C.Holds(first.port.view, it) && Expired(it.entry, first.last)
    ensures !C.Holds(now.port.view, it)
  {
    var n := |h.actions|;
    FirstStep(lim, h, first, now, calls);
    assert it in h.states[1].snapshot && Expired(it.entry, h.states[1].snappedAt);
    C.SnapshotIsKept(lim, h.states, h.actions, 0, n);
    hide C.Next, C.CleanerStep;
    C.FinishedCycleIsComplete(lim, h.states, h.actions, n, it);
  }

  ghost predicate TakenByClients(h: History, it: C.Item) {
    exists i :: 0 <= i < |h.actions| < |h.states| && C.TakenByClient(h.states[i], h.actions[i], h.states[i + 1], it)
  }

  /** What has not expired when a cycle ends is there unless a client took it out. */
  lemma CycleSpares(lim: Limits, h: History, first: C.System, now: C.System, calls: seq<Op>, it: C.Item)
    requires Cycle(lim, h, first, now, calls)
    requires C.Holds(first.port.view, it) && !Expired(it.entry, now.last) && !TakenByClients(h, it)
    ensures C.Holds(now.port.view, it)
  {
    hide C.Next, C.TakenByClient, C.Holds;
    C.LiveEntriesSurvive(lim, h.states, h.actions, 0, |h.actions|, it);
  }

  /** Any client call. */
  method Call(store: CacheStore, op: Op, clk: Readings) returns (out: Outcome)
    requires store.Valid()
    modifies store
    ensures store.Valid() && (store.State(), out) == M.Step(store.limits, old(store.State()), op, clk)
  {
    match op
    case Get(k) => out := store.Get(k, clk);
    case Set(k, v, ttl) => out := store.Set(k, v, ttl, clk);
    case SetIfAbsent(k, v, ttl) => out := store.SetIfAbsent(k, v, ttl, clk);
    case CompareAndSet(k, x, v, ttl) => out := store.CompareAndSet(k, x, v, ttl, clk);
    case Delete(k) => out := store.Delete(k);
    case RemoveIfExpired(k) => store.RemoveIfExpired(k, clk); out := Done;
    case Stats => out := store.Stats(clk);
    case Clear => store.Clear(); out := Done;
  }

  lemma CycleOutcome(lim: Limits, h: History, first: C.System, now: C.System, calls: seq<Op>)
    requires Cycle(lim, h, first, now, calls) && now.phase.Idle?
    ensures forall k :: k in first.port.view && Expired(first.port.view[k], first.last) ==>
              !C.Holds(now.port.view, C.Item(k, first.port.view[k]))
    ensures forall k :: k in first.port.view && !Expired(first.port.view[k], now.last) ==>
              var it := C.Item(k, first.port.view[k]); C.Holds(now.port.view, it) || TakenByClients(h, it)
  {
    hide Cycle, TakenByClients;
    var was := first.port.view;
    forall k | k in was && Expired(was[k], first.last) ensures !C.Holds(now.port.view, C.Item(k, was[k])) {
      CycleClears(lim, h, first, now, calls, C.Item(k, was[k]));
    }
    forall k | k in was && !Expired(was[k], now.last) && !TakenByClients(h, C.Item(k, was[k]))
      ensures C.Holds(now.port.view, C.Item(k, was[k]))
    {
      CycleSpares(lim, h, first, now, calls, C.Item(k, was[k]));
    }
  }

  /** What the protocol says of this store at this time. */
  ghost predicate Shows(s: C.System, store: CacheStore, clock: Clock)
    reads store, clock
  {
    s.port == MP.View(store.State()) && s.last == clock.now
  }

  /** Other threads take their turn. */
  method Others(store: CacheStore, clock: Clock, ops: seq<Op>, ghost h: History, ghost first: C.System,
                ghost now: C.System, ghost calls: seq<Op>)
    returns (ghost g: History, ghost next: C.System)
    requires store.Valid() && ValidLimits(store.limits)
    requires Cycle(store.limits, h, first, now, calls) && Shows(now, store, clock)
    modifies store, clock
    ensures store.Valid() && Shows(next, store, clock) && next == now.(port := next.port, last := next.last)
    ensures Cycle(store.limits, g, first, next, calls + ops)
  {
    hide M.Step, M.Consistent, Cycle, P.Step;
    g, next := h, now;
    assert calls + ops[..0] == calls;
    for i := 0 to |ops|
      invariant store.Valid() && Shows(next, store, clock) && next == now.(port := next.port, last := next.last)
      invariant Cycle(store.limits, g, first, next, calls + ops[..i])
    {
      ghost var s, before := store.State(), next;
      var clk := clock.ReadAll();
      MP.StepKeepsContract(store.limits, s, ops[i], clk);
      var out := Call(store, ops[i], clk);
      next := before.(port := MP.View(store.State()), last := clk.used);
      ghost var act := C.Client(P.Event(ops[i], clk, out));
      CycleGoesOn(store.limits, g, first, before, calls + ops[..i], act, next);
      g := g.Add(act, next);
      assert calls + ops[..i] + [ops[i]] == calls + ops[..i + 1];
    }
    assert ops[..|ops|] == ops;
  }

  class ExpiredEntryCleaner {
    const store: CacheStore
    const clock: Clock

    constructor (store: CacheStore, clock: Clock)
      ensures this.store == store && this.clock == clock
    {
      this.store := store;
      this.clock := clock;
    }

    method Snapshot() returns (items: seq<C.Item>)
      requires store.Valid()
      ensures C.Lists(items, store.State().entries)
    {
      MT.OrderDistinct(store.State());
      items := [];
      for i := 0 to |store.order|
        invariant forall it :: it in items <==> it.key in store.order[..i] && C.Holds(store.store, it)
      {
        var k := store.order[i];
        assert k in Elems(store.order);
        assert store.order[..i + 1] == store.order[..i] + [k];
        items := items + [C.Item(k, store.store[k])];
      }
      assert store.order[..|store.order|] == store.order;
      forall k | k in store.store ensures C.Item(k, store.store[k]) in items {
        assert k in Elems(store.order);
      }
    }

    /** Wakes once, and takes part in the protocol from its snapshot to the end of the cycle. The other
        threads make the calls of `schedule`, a turn whenever the cleaner does not hold the lock. */
    method RunOnce(schedule: nat -> seq<Op>)
      returns (ghost h: History, ghost first: C.System, ghost end: C.System, ghost turns: nat)
      requires store.Valid() && ValidLimits(store.limits)
      modifies store, clock
      ensures store.Valid()
      ensures Cycle(store.limits, h, first, end, Calls(schedule, turns))
      ensures first.port == MP.View(old(store.State())) && first.last == old(clock.now) && first.phase.Idle?
      ensures Shows(end, store, clock) && end.phase.Idle?
      ensures forall k :: k in old(store.store) && Expired(old(store.store)[k], old(clock.now)) ==>
                !C.Holds(store.store, C.Item(k, old(store.store)[k]))
      ensures forall k :: k in old(store.store) && !Expired(old(store.store)[k], clock.now) ==>
                var it := C.Item(k, old(store.store)[k]); C.Holds(store.store, it) || TakenByClients(h, it)
    {
      hide Cycle, TakenByClients, C.Holds, C.Lists, Expired, M.Consistent;
      first := C.System(MP.View(store.State()), C.Idle, clock.now, {}, clock.now, {});
      var items := Snapshot();
      h, end := Begin(items, first);
      var expired: seq<C.Item>;
      expired, h, end := Filter(items, schedule, h, first, end);
      h, end := RemoveExpired(expired, |items|, schedule, h, first, end);
      turns := |items| + |expired|;
      CycleOutcome(store.limits, h, first, end, Calls(schedule, turns));
    }

    ghost method Begin(items: seq<C.Item>, first: C.System) returns (h: History, now: C.System)
      requires store.Valid() && C.Lists(items, store.store)
      requires first == C.System(MP.View(store.State()), C.Idle, clock.now, {}, clock.now, {})
      ensures Cycle(store.limits, h, first, now, []) && Shows(now, store, clock) && now.phase == C.Filtering(items, [])
    {
      now := C.System(first.port, C.Filtering(items, []), first.last, (set it | it in items), first.last, {});
      CycleStarts(store.limits, first, items, now);
      h := History([first, now], [C.TakeSnapshot(items, first.last)]);
    }

    /** `_expired_keys`: tests every entry of the snapshot, holding no lock. */
    method Filter(items: seq<C.Item>, schedule: nat -> seq<Op>, ghost h: History, ghost first: C.System,
                  ghost now: C.System)
      returns (expired: seq<C.Item>, ghost g: History, ghost next: C.System)
      requires store.Valid() && ValidLimits(store.limits)
      requires Cycle(store.limits, h, first, now, []) && Shows(now, store, clock) && now.phase == C.Filtering(items, [])
      modifies store, clock
      ensures store.Valid() && Shows(next, store, clock)
      ensures Cycle(store.limits, g, first, next, Calls(schedule, |items|))
      ensures next.phase == if expired == [] then C.Idle else C.Removing(expired)
    {
      hide Cycle;
      expired, g, next := [], h, now;
      for i := 0 to |items|
        invariant store.Valid() && Shows(next, store, clock)
        invariant Cycle(store.limits, g, first, next, Calls(schedule, i))
                  && next.phase == C.Filtering(items[i..], expired)
      {
        g, next := Others(store, clock, schedule(i), g, first, next, Calls(schedule, i));
        var at := clock.Read();
        var it, due := items[i], Expired(items[i].entry, at);
        if due {
          expired := expired + [it];
        }
        ghost var tested := next.(phase := C.Filtering(items[i + 1..], expired), last := at,
                                  condemned := if due then next.condemned + {it} else next.condemned);
        assert items[i..][1..] == items[i + 1..];
        CycleGoesOn(store.limits, g, first, next, Calls(schedule, i + 1), C.TestOne(at), tested);
        g, next := g.Add(C.TestOne(at), tested), tested;
      }
      ghost var done := next.(phase := if expired == [] then C.Idle else C.Removing(expired));
      CycleGoesOn(store.limits, g, first, next, Calls(schedule, |items|), C.EndTests, done);
      g, next := g.Add(C.EndTests, done), done;
    }

    method RemoveExpired(expired: seq<C.Item>, turns: nat, schedule: nat -> seq<Op>, ghost h: History,
                         ghost first: C.System, ghost now: C.System)
      returns (ghost g: History, ghost next: C.System)
      requires store.Valid() && ValidLimits(store.limits)
      requires Cycle(store.limits, h, first, now, Calls(schedule, turns)) && Shows(now, store, clock)
      requires now.phase == if expired == [] then C.Idle else C.Removing(expired)
      modifies store, clock
      ensures store.Valid() && Shows(next, store, clock) && next.phase.Idle?
      ensures Cycle(store.limits, g, first, next, Calls(schedule, turns + |expired|))
    {
      hide Cycle, M.Step, M.Consistent, P.Step;
      g, next := h, now;
      if expired == [] {
        return;
      }
      for i := 0 to |expired|
        invariant store.Valid() && Shows(next, store, clock)
        invariant Cycle(store.limits, g, first, next, Calls(schedule, turns + i))
                  && next.phase == C.Removing(expired[i..])
      {
        g, next := Others(store, clock, schedule(turns + i), g, first, next, Calls(schedule, turns + i));
        ghost var s := store.State();
        var clk := clock.ReadAll();
        store.RemoveIfExpired(expired[i].key, clk);
        MP.StepKeepsContract(store.limits, s, RemoveIfExpired(expired[i].key), clk);
        ghost var removed := next.(port := MP.View(store.State()), phase := C.Removing(expired[i + 1..]),
                                   last := clk.used);
        assert expired[i..][1..] == expired[i + 1..];
        CycleGoesOn(store.limits, g, first, next, Calls(schedule, turns + i + 1), C.RemoveOne(clk), removed);
        g, next := g.Add(C.RemoveOne(clk), removed), removed;
      }
      CycleGoesOn(store.limits, g, first, next, Calls(schedule, turns + |expired|), C.EndCycle, next.(phase := C.Idle));
      g, next := g.Add(C.EndCycle, next.(phase := C.Idle)), next.(phase := C.Idle);
    }
  }
}
