/** The in-memory backend keeps the port's contract, step by step and over every run. */
module MemoryPort {
  import opened Types
  import opened Entries
  import opened Order
  import opened Validation
  import M = MemorySpec
  import L = MemoryLaws
  import T = MemoryTheorems
  import P = Port

  function View(s: M.Mem): P.Port {
    P.Port(s.entries, s.c)
  }

  lemma StoredIsWrote(s: M.Mem, key: Key, e: Entry, n: nat, t: M.Mem)
    requires M.WellFormed(s) && T.StoredAfter(s, key, e, n, t)
    ensures P.Wrote(View(s), key, e, n, View(t))
  {
    OthersCounted(s, key, e, n, t);
    hide M.Consistent, Keep, Elems;
  }

  lemma OthersCounted(s: M.Mem, key: Key, e: Entry, n: nat, t: M.Mem)
    requires M.WellFormed(s) && T.StoredAfter(s, key, e, n, t)
    ensures |s.entries.Keys - {key}| == |t.entries.Keys - {key}| + n
  {
    T.OrderDistinct(s);
    hide M.Consistent, CountEvictions;
    SuffixCount(s.order, s.entries.Keys, key, n);
    assert t.entries.Keys - {key} == Elems(Keep(s.order, s.entries.Keys - {key})[n..]);
  }

  lemma SuffixCount(order: seq<Key>, keys: set<Key>, key: Key, n: nat)
    requires NoDup(order) && Elems(order) == keys && n <= |Keep(order, keys - {key})|
    ensures key !in Elems(Keep(order, keys - {key})[n..])
    ensures |keys - {key}| == |Elems(Keep(order, keys - {key})[n..])| + n
  {
    var L := Keep(order, keys - {key});
    KeepNoDup(order, keys - {key});
    KeepIn(order, keys - {key});
    assert Elems(L) == keys - {key};
    ElemsCount(L);
    SliceNoDup(L, n);
    ElemsCount(L[n..]);
  }

  lemma PutKeepsContract(lim: Limits, s: M.Mem, key: Key, value: Bytes, ttl: Option<int>, now: Time)
    requires M.WellFormed(s) && ValidLimits(lim)
    ensures var (t, status) := M.Put(lim, s, key, value, ttl, now);
            P.Put(lim, View(s), key, value, ttl, now, status, View(t))
  {
    var (t, status) := M.Put(lim, s, key, value, ttl, now);
    hide M.Put, M.Consistent;
    T.OversizeFrame(lim, s, key, value, ttl, now);
    if SizeOfValue(value) <= lim.maxValueBytes {
      T.PutStores(lim, s, key, value, ttl, now);
      var n := M.Victims(lim, M.Drop(s, {key}), SizeOfValue(value), key !in s.entries);
      StoredIsWrote(s, key, MakeEntry(value, ttl, now), n, t);
    }
  }

  lemma GetKeepsContract(lim: Limits, s: M.Mem, key: Key, clk: Readings)
    requires ValidKey(key)
    ensures var (t, v) := M.Lookup(s, key, clk);
            P.Step(lim, View(s), P.Event(Get(key), clk, Found(v)), View(t))
  {
  }

  lemma ConditionalKeepsContract(lim: Limits, s: M.Mem, op: Op, clk: Readings)
    requires M.WellFormed(s) && ValidLimits(lim) && (op.SetIfAbsent? || op.CompareAndSet?) && !Refused(op)
    ensures var (t, out) := M.Step(lim, s, op, clk);
            P.Step(lim, View(s), P.Event(op, clk, out), View(t))
  {
    hide M.Put, M.Consistent, M.Drop, P.Put, Refused;
    ExpireView(s, op.key);
    var before := if op.SetIfAbsent? && op.key in s.entries then M.Expire(s, op.key) else s;
    PutKeepsContract(lim, before, op.key, op.value, op.ttl, clk.stamp);
    var (t, status) := M.Put(lim, before, op.key, op.value, op.ttl, clk.stamp);
    assert P.Put(lim, View(before), op.key, op.value, op.ttl, clk.stamp, status, View(t));
  }

  lemma ExpireView(s: M.Mem, key: Key)
    requires M.WellFormed(s)
    ensures M.WellFormed(M.Expire(s, key))
    ensures View(M.Expire(s, key)) == P.Expire(View(s), key)
  {
    L.DropWellFormed(s, {key});
  }

  lemma PurgeKeepsContract(lim: Limits, s: M.Mem, clk: Readings)
    requires M.WellFormed(s)
    ensures var (t, out) := M.Step(lim, s, Stats, clk);
            P.Step(lim, View(s), P.Event(Stats, clk, out), View(t))
  {
    var t := M.Purge(s, clk);
    L.DropWellFormed(s, Due(s.entries, clk));
    T.OrderCount(t);
  }

  /** Refinement: each step of the in-memory backend is a step the contract allows. */
  lemma StepKeepsContract(lim: Limits, s: M.Mem, op: Op, clk: Readings)
    requires M.WellFormed(s) && ValidLimits(lim)
    ensures var (t, out) := M.Step(lim, s, op, clk);
            P.Step(lim, View(s), P.Event(op, clk, out), View(t))
  {
    if !Refused(op) {
      match op
      case Get(k) => GetKeepsContract(lim, s, k, clk);
      case Set(k, v, ttl) => PutKeepsContract(lim, s, k, v, ttl, clk.stamp);
      case SetIfAbsent(_, _, _) => ConditionalKeepsContract(lim, s, op, clk);
      case CompareAndSet(_, _, _, _) => ConditionalKeepsContract(lim, s, op, clk);
      case Stats => PurgeKeepsContract(lim, s, clk);
      case Delete(k) => assert k !in s.entries ==> s.entries - {k} == s.entries;
      case _ =>
    }
  }

  function States(lim: Limits, trace: seq<Timed>): seq<P.Port> {
    seq(|trace| + 1, i requires 0 <= i <= |trace| => View(M.Run(lim, M.EMPTY, trace[..i])))
  }

  function Events(lim: Limits, trace: seq<Timed>): seq<P.Event> {
    seq(|trace|, i requires 0 <= i < |trace| =>
      P.Event(trace[i].op, trace[i].clk, M.Step(lim, M.Run(lim, M.EMPTY, trace[..i]), trace[i].op, trace[i].clk).1))
  }

  /** What a new store is given it gives back. */
  lemma WriteThenRead(lim: Limits, key: Key, value: Bytes, clk: Readings)
    requires ValidLimits(lim) && ValidKey(key) && SizeOfValue(value) <= lim.maxValueBytes
    ensures var trace := [Timed(Set(key, value, None), clk), Timed(Get(key), clk)];
            Events(lim, trace) == [P.Event(trace[0].op, clk, SetDone(Ok)),
                                   P.Event(trace[1].op, clk, Found(Some(value)))]
  {
    var trace := [Timed(Set(key, value, None), clk), Timed(Get(key), clk)];
    assert trace[..0] == [] && trace[..1] == [trace[0]] && trace[..1][..0] == [];
    T.EmptyKeepsBounds(lim);
    T.PutStores(lim, M.EMPTY, key, value, None, clk.stamp);
    hide M.Put, M.Consistent, M.WithinLimits;
    assert M.Run(lim, M.EMPTY, []) == M.EMPTY;
    var s := M.Run(lim, M.EMPTY, trace[..1]);
    assert s == M.Step(lim, M.EMPTY, trace[0].op, clk).0;
    assert s.entries[key] == MakeEntry(value, None, clk.stamp);
  }

  /** Every run of a new in-memory store is a run of the port from the empty state. */
  lemma MemoryRunsAreRuns(lim: Limits, trace: seq<Timed>)
    requires ValidLimits(lim)
    ensures P.Run(lim, States(lim, trace), Events(lim, trace)) && States(lim, trace)[0] == P.FRESH
    ensures Monotone(M.Clocks(trace)) ==> P.Clocked(Events(lim, trace))
  {
    var states, events := States(lim, trace), Events(lim, trace);
    assert P.Clocks(events) == M.Clocks(trace);
    forall i | 0 <= i < |trace| ensures P.Step(lim, states[i], events[i], states[i + 1]) {
      assert trace[..i + 1][..i] == trace[..i];
      T.RunKeepsBounds(lim, trace[..i]);
      StepKeepsContract(lim, M.Run(lim, M.EMPTY, trace[..i]), trace[i].op, trace[i].clk);
    }
  }
}
