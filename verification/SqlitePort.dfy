/** The SQLite backend keeps the port's contract, step by step and over every run, whatever row the
    engine picks among equally old ones. */
module SqlitePort {
  import opened Types
  import opened Entries
  import opened Validation
  import S = SqliteSpec
  import L = SqliteLaws
  import T = SqliteTheorems
  import P = Port
  import R = TtlMap

  function Decoded(rows: S.Table): map<Key, Entry> {
    map k | k in rows :: S.EntryOf(rows[k])
  }

  function View(t: S.Sql): P.Port {
    P.Port(Decoded(t.rows), t.c)
  }

  lemma ViewSize(rows: S.Table)
    ensures |Decoded(rows)| == |rows|
  {
    assert Decoded(rows).Keys == rows.Keys;
    assert |Decoded(rows).Keys| == |Decoded(rows)| && |rows.Keys| == |rows|;
  }

  lemma RowKeepsEntry(e: Entry, used: Time)
    requires Normalised(e)
    ensures S.EntryOf(S.NewRow(e, used)) == e
  {
  }

  lemma StoredIsWrote(lim: Limits, t: S.Sql, key: Key, e: Entry, used: Time, u: S.Sql, w: S.Sql)
    requires Normalised(e) && T.StoredAfter(lim, t, key, S.NewRow(e, used), u, w)
    ensures exists n :: P.Wrote(View(t), key, e, n, View(w))
  {
    hide T.StoredAfter, S.RemoveRow, S.NewRow, Normalised, View, CountEvictions;
    RowKeepsEntry(e, used);
    OthersViewed(lim, t, key, S.NewRow(e, used), u, w);
    OthersCounted(lim, t, key, S.NewRow(e, used), u, w);
    EvictionsCounted(lim, t, key, S.NewRow(e, used), u, w);
    assert P.Wrote(View(t), key, e, |S.RemoveRow(t, key).rows| - |u.rows|, View(w));
  }

  lemma OthersViewed(lim: Limits, t: S.Sql, key: Key, row: S.Row, u: S.Sql, w: S.Sql)
    requires T.StoredAfter(lim, t, key, row, u, w)
    ensures key in View(w).view && View(w).view[key] == S.EntryOf(row)
    ensures forall k :: k in View(w).view && k != key ==> k in View(t).view && View(w).view[k] == View(t).view[k]
  {
  }

  lemma OthersKept(lim: Limits, t: S.Sql, key: Key, row: S.Row, u: S.Sql, w: S.Sql)
    requires T.StoredAfter(lim, t, key, row, u, w)
    ensures w.rows.Keys == u.rows.Keys + {key} && key !in u.rows
    ensures S.RemoveRow(t, key).rows.Keys == t.rows.Keys - {key}
  {
    hide T.OldestFirst, T.Minimal, S.Agree, CountEvictions;
  }

  lemma OthersCounted(lim: Limits, t: S.Sql, key: Key, row: S.Row, u: S.Sql, w: S.Sql)
    requires T.StoredAfter(lim, t, key, row, u, w)
    ensures |u.rows| <= |S.RemoveRow(t, key).rows|
    ensures |View(w).view.Keys - {key}| == |u.rows|
    ensures |View(t).view.Keys - {key}| == |S.RemoveRow(t, key).rows|
  {
    EvictionsCounted(lim, t, key, row, u, w);
    OthersKept(lim, t, key, row, u, w);
    ViewKeys(t);
    ViewKeys(w);
    hide T.StoredAfter, S.RemoveRow, CountEvictions, View;
    var base := S.RemoveRow(t, key);
    assert |u.rows.Keys| == |u.rows| && |base.rows.Keys| == |base.rows|;
    assert w.rows.Keys - {key} == u.rows.Keys;
  }

  lemma ViewKeys(t: S.Sql)
    ensures View(t).view.Keys == t.rows.Keys
  {
  }

  lemma EvictionsCounted(lim: Limits, t: S.Sql, key: Key, row: S.Row, u: S.Sql, w: S.Sql)
    requires T.StoredAfter(lim, t, key, row, u, w)
    ensures |u.rows| <= |S.RemoveRow(t, key).rows|
    ensures View(w).c == CountEvictions(View(t).c, |S.RemoveRow(t, key).rows| - |u.rows|)
  {
  }

  lemma PutKeepsContract(lim: Limits, t: S.Sql, key: Key, value: Bytes, ttl: Option<int>, clk: Readings, pick: S.Pick)
    requires S.Counted(t) && S.PicksOldest(pick) && ValidLimits(lim)
    ensures var (w, status) := S.Put(lim, t, key, value, ttl, clk, pick);
            P.Put(lim, View(t), key, value, ttl, clk.stamp, status, View(w))
  {
    hide S.Put, S.Agree, S.NewRow, T.StoredAfter, P.Wrote;
    T.OversizeFrame(lim, t, key, value, ttl, clk, pick);
    if SizeOfValue(value) <= lim.maxValueBytes {
      T.PutStores(lim, t, key, value, ttl, clk, pick);
      var e := MakeEntry(value, ttl, clk.stamp);
      var w := S.Put(lim, t, key, value, ttl, clk, pick).0;
      var u :| T.StoredAfter(lim, t, key, S.NewRow(e, clk.used), u, w);
      StoredIsWrote(lim, t, key, e, clk.used, u, w);
    }
  }

  lemma RemoveView(t: S.Sql, key: Key)
    ensures View(S.RemoveRow(t, key)) == P.Without(View(t), key)
    ensures key in t.rows ==> View(S.Expire(t, key)) == P.Expire(View(t), key)
    ensures key !in t.rows ==> S.Expire(t, key) == t
  {
  }

  lemma GetKeepsContract(lim: Limits, t: S.Sql, key: Key, clk: Readings, pick: S.Pick)
    requires !Refused(Get(key))
    ensures KeepsContract(lim, t, Get(key), clk, pick)
  {
  }

  lemma ConditionalKeepsContract(lim: Limits, t: S.Sql, op: Op, clk: Readings, pick: S.Pick)
    requires S.Counted(t) && S.PicksOldest(pick) && ValidLimits(lim) && (op.SetIfAbsent? || op.CompareAndSet?)
    requires !Refused(op)
    ensures KeepsContract(lim, t, op, clk, pick)
  {
    hide S.Put, S.Agree, S.RemoveRow, S.Expire, P.Put, Refused;
    RemoveView(t, op.key);
    T.ExpireLaws(t, op.key);
    var before := if op.SetIfAbsent? then S.Expire(t, op.key) else t;
    PutKeepsContract(lim, before, op.key, op.value, op.ttl, clk, pick);
    var (u, status) := S.Put(lim, before, op.key, op.value, op.ttl, clk, pick);
    assert P.Put(lim, View(before), op.key, op.value, op.ttl, clk.stamp, status, View(u));
  }

  ghost predicate KeepsContract(lim: Limits, t: S.Sql, op: Op, clk: Readings, pick: S.Pick) {
    var (u, out) := S.Step(lim, t, op, clk, pick);
    P.Step(lim, View(t), P.Event(op, clk, out), View(u))
  }

  lemma PurgeKeepsContract(lim: Limits, t: S.Sql, clk: Readings, pick: S.Pick)
    requires S.Counted(t)
    ensures KeepsContract(lim, t, Stats, clk, pick)
  {
    var gone := S.DueRows(t.rows, clk);
    L.DropCounted(t, gone);
    DueView(t.rows, clk);
    ViewSize(t.rows - gone);
    PurgeSteps(lim, t, clk, pick);
    hide Decoded, S.DueRows, Due, S.Step, S.Agree, S.Sizes, S.Purge, S.DropRows;
  }

  lemma PurgeSteps(lim: Limits, t: S.Sql, clk: Readings, pick: S.Pick)
    requires S.Counted(t)
    ensures var (u, out) := S.Step(lim, t, Stats, clk, pick);
            && u.rows == t.rows - S.DueRows(t.rows, clk) && u.c == CountExpired(t.c, |S.DueRows(t.rows, clk)|)
            && out == Snapshot(S.Report(lim, u)) && u.count == |u.rows|
  {
    L.DropCounted(t, S.DueRows(t.rows, clk));
    hide S.DueRows, S.Sizes;
  }

  lemma DueView(rows: S.Table, clk: Readings)
    ensures S.DueRows(rows, clk) == Due(Decoded(rows), clk)
    ensures Decoded(rows - S.DueRows(rows, clk)) == Decoded(rows) - S.DueRows(rows, clk)
  {
  }

  lemma SetKeepsContract(lim: Limits, t: S.Sql, op: Op, clk: Readings, pick: S.Pick)
    requires S.Counted(t) && S.PicksOldest(pick) && ValidLimits(lim) && op.Set? && !Refused(op)
    ensures KeepsContract(lim, t, op, clk, pick)
  {
    hide S.Put, S.Agree, P.Put;
    PutKeepsContract(lim, t, op.key, op.value, op.ttl, clk, pick);
  }

  lemma RemovalKeepsContract(lim: Limits, t: S.Sql, op: Op, clk: Readings, pick: S.Pick)
    requires op.Delete? || op.RemoveIfExpired? || op.Clear?
    ensures KeepsContract(lim, t, op, clk, pick)
  {
    hide S.RemoveRow, S.Expire;
    if op.Clear? {
      assert Decoded(map[]) == map[];
    } else {
      RemoveView(t, op.key);
    }
  }

  /** Refinement: each step of the SQLite backend is a step the contract allows. */
  lemma StepKeepsContract(lim: Limits, t: S.Sql, op: Op, clk: Readings, pick: S.Pick)
    requires S.Counted(t) && S.PicksOldest(pick) && ValidLimits(lim)
    ensures KeepsContract(lim, t, op, clk, pick)
  {
    hide KeepsContract, Refused;
    if !Refused(op) {
      match op
      case Get(k) => GetKeepsContract(lim, t, k, clk, pick);
      case Set(_, _, _) => SetKeepsContract(lim, t, op, clk, pick);
      case SetIfAbsent(_, _, _) => ConditionalKeepsContract(lim, t, op, clk, pick);
      case CompareAndSet(_, _, _, _) => ConditionalKeepsContract(lim, t, op, clk, pick);
      case Stats => PurgeKeepsContract(lim, t, clk, pick);
      case _ => RemovalKeepsContract(lim, t, op, clk, pick);
    } else {
      RefusedKeepsContract(lim, t, op, clk, pick);
    }
  }

  lemma RefusedKeepsContract(lim: Limits, t: S.Sql, op: Op, clk: Readings, pick: S.Pick)
    requires Refused(op)
    ensures KeepsContract(lim, t, op, clk, pick)
  {
  }

  ghost function States(lim: Limits, rows: S.Table, calls: seq<S.Call>): seq<P.Port> {
    seq(|calls| + 1, i requires 0 <= i <= |calls| => View(T.StateAt(lim, rows, calls, i)))
  }

  ghost function Events(lim: Limits, rows: S.Table, calls: seq<S.Call>): seq<P.Event> {
    seq(|calls|, i requires 0 <= i < |calls| => P.Event(calls[i].op, calls[i].clk, T.ResultAt(lim, rows, calls, i)))
  }

  /** Every run of a SQLite store, on any table and with any tie-breaking, is a run of the port that starts
      from the persisted entries. */
  lemma SqliteRunsAreRuns(lim: Limits, rows: S.Table, calls: seq<S.Call>)
    requires ValidLimits(lim) && T.AllPickOldest(calls)
    ensures P.Run(lim, States(lim, rows, calls), Events(lim, rows, calls))
    ensures States(lim, rows, calls)[0] == P.Port(Decoded(rows), ZERO_COUNTERS)
    ensures Monotone(S.Clocks(calls)) ==> P.Clocked(Events(lim, rows, calls))
  {
    var states, events := States(lim, rows, calls), Events(lim, rows, calls);
    assert P.Clocks(events) == S.Clocks(calls);
    forall i | 0 <= i < |calls| ensures P.Step(lim, states[i], events[i], states[i + 1]) {
      T.CountersStayExact(lim, rows, calls, i);
      T.StateStep(lim, rows, calls, i);
      StepKeepsContract(lim, T.StateAt(lim, rows, calls, i), calls[i].op, calls[i].clk, calls[i].pick);
    }
    assert calls[..0] == [];
  }

  /** A persisted row that nobody has disturbed since opening is what `get` answers exactly while its
      time-to-live, counted from its creation, has not passed; none above zero means for ever. */
  lemma PersistedTtlIsExact(lim: Limits, rows: S.Table, calls: seq<S.Call>, n: nat, k: Key)
    requires ValidLimits(lim) && T.AllPickOldest(calls) && Monotone(S.Clocks(calls)) && n < |calls|
    requires k in rows && ValidKey(k) && calls[n].op == Get(k)
    requires forall j :: 0 <= j < n ==> !R.Disturbs(States(lim, rows, calls), Events(lim, rows, calls), j, k)
    ensures var row := rows[k];
            Events(lim, rows, calls)[n].out ==
              if row.ttl.None? || row.ttl.value <= 0 || calls[n].clk.check < row.createdAt + row.ttl.value as real
              then Found(Some(row.value)) else Found(None)
  {
    SqliteRunsAreRuns(lim, rows, calls);
    hide P.Run, P.Clocked, R.Disturbs, T.ResultAt, T.StateAt, Monotone;
    R.UndisturbedGet(lim, States(lim, rows, calls), Events(lim, rows, calls), 0, n, k);
  }
}
