/** What the byte totals mean: every entry weighs its overhead plus the length of its value, in every run of
    either backend. */
module Footprint {
  import opened Types
  import opened Entries
  import opened Order
  import M = MemorySpec
  import MT = MemoryTheorems
  import MP = MemoryPort
  import S = SqliteSpec
  import SL = SqliteLaws
  import SR = SqliteRecency
  import ST = SqliteTheorems
  import SP = SqlitePort

  /** The lengths of the values held under `ks`, added up. */
  ghost function Payload(view: map<Key, Entry>, ks: set<Key>): nat
    requires ks <= view.Keys
  {
    if ks == {} then 0
    else
      var k :| k in ks;
      |view[k].value| + Payload(view, ks - {k})
  }

  ghost predicate Weighs(view: map<Key, Entry>, bytes: int) {
    bytes == BYTES_OVERHEAD * |view| + Payload(view, view.Keys)
  }

  lemma {:induction false} PayloadPull(view: map<Key, Entry>, ks: set<Key>, k: Key)
    requires ks <= view.Keys && k in ks
    ensures Payload(view, ks) == |view[k].value| + Payload(view, ks - {k})
    decreases ks
  {
    var x :| x in ks && Payload(view, ks) == |view[x].value| + Payload(view, ks - {x});
    if x != k {
      PayloadPull(view, ks - {x}, k);
      PayloadPull(view, ks - {k}, x);
      assert ks - {x} - {k} == ks - {k} - {x};
    }
  }

  // The in-memory backend.

  lemma {:induction false} TotalWeighs(order: seq<Key>, m: map<Key, Entry>)
    requires NoDup(order) && Elems(order) <= m.Keys
    ensures M.Total(order, m) == BYTES_OVERHEAD * |order| + Payload(m, Elems(order))
  {
    if order == [] {
      assert Elems(order) == {};
    } else {
      assert Elems(order) == Elems(order[1..]) + {order[0]};
      assert Elems(order) - {order[0]} == Elems(order[1..]);
      TotalWeighs(order[1..], m);
      PayloadPull(m, Elems(order), order[0]);
    }
  }

  lemma MemoryWeighs(s: M.Mem)
    requires M.WellFormed(s)
    ensures Weighs(s.entries, s.bytes)
  {
    TotalWeighs(s.order, s.entries);
    MT.OrderCount(s);
  }

  /** In every run of a new in-memory store, `stats` reports the weight of what is held. */
  lemma MemoryStatsWeigh(lim: Limits, trace: seq<Timed>, n: nat)
    requires ValidLimits(lim) && n < |trace| && trace[n].op.Stats?
    ensures var out := MP.Events(lim, trace)[n].out;
            out.Snapshot? && Weighs(MP.States(lim, trace)[n + 1].view, out.stats.memoryUsageBytes)
  {
    var s := M.Run(lim, M.EMPTY, trace[..n]);
    assert trace[..n + 1][..n] == trace[..n];
    MT.RunKeepsBounds(lim, trace[..n]);
    MT.RunKeepsBounds(lim, trace[..n + 1]);
    var t := M.Run(lim, M.EMPTY, trace[..n + 1]);
    MemoryWeighs(t);
    assert t == M.Step(lim, s, Stats, trace[n].clk).0;
    hide M.Purge, M.Consistent, Weighs, M.WithinLimits;
  }

  // The SQLite backend.

  ghost predicate AllSized(rows: S.Table) {
    forall k :: k in rows ==> SR.Sized(rows[k])
  }

  lemma {:induction false} SizesWeigh(rows: S.Table, ks: set<Key>)
    requires AllSized(rows) && ks <= rows.Keys
    ensures S.Sizes(rows, ks) == BYTES_OVERHEAD * |ks| + Payload(SP.Decoded(rows), ks)
    decreases ks
  {
    if k :| k in ks {
      SizesWeigh(rows, ks - {k});
      SL.SizesPull(rows, ks, k);
      PayloadPull(SP.Decoded(rows), ks, k);
    }
  }

  lemma TableWeighs(t: S.Sql)
    requires S.Counted(t) && AllSized(t.rows)
    ensures Weighs(SP.Decoded(t.rows), t.bytes)
  {
    SizesWeigh(t.rows, t.rows.Keys);
    SP.ViewSize(t.rows);
    assert SP.Decoded(t.rows).Keys == t.rows.Keys;
    assert |t.rows.Keys| == |t.rows|;
  }

  /** Rows a store writes have the right size, so a table whose size column is right stays so. */
  lemma {:induction false} SizesStayRight(lim: Limits, rows: S.Table, calls: seq<S.Call>, n: nat)
    requires ValidLimits(lim) && ST.AllPickOldest(calls) && n <= |calls| && AllSized(rows)
    ensures AllSized(ST.StateAt(lim, rows, calls, n).rows)
  {
    if n > 0 {
      hide S.Step, S.Agree, SR.Stamped;
      var c := calls[n - 1];
      SizesStayRight(lim, rows, calls, n - 1);
      ST.CountersStayExact(lim, rows, calls, n - 1);
      ST.StateStep(lim, rows, calls, n - 1);
      SR.StepKeepsStamps(lim, ST.StateAt(lim, rows, calls, n - 1), c.op, c.clk, c.pick);
      hide ST.StateAt;
    }
  }

  /** In every SQLite run, on any table whose size column is right, the empty one among them, `stats` reports
      the weight of what is held. */
  lemma SqliteStatsWeigh(lim: Limits, rows: S.Table, calls: seq<S.Call>, n: nat)
    requires ValidLimits(lim) && ST.AllPickOldest(calls) && n < |calls| && calls[n].op.Stats? && AllSized(rows)
    ensures var out := SP.Events(lim, rows, calls)[n].out;
            out.Snapshot? && Weighs(SP.States(lim, rows, calls)[n + 1].view, out.stats.memoryUsageBytes)
  {
    var t := ST.StateAt(lim, rows, calls, n + 1);
    ST.CountersStayExact(lim, rows, calls, n + 1);
    SizesStayRight(lim, rows, calls, n + 1);
    TableWeighs(t);
    ST.StateStep(lim, rows, calls, n);
    hide S.Purge, S.Agree, Weighs, ST.StateAt;
  }
}
