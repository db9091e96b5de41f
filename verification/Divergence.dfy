/** Every divergence of the backends can be seen by their clients: delete the other keys, fill both
    stores with new ones, and the oldest key has left one of them only. */
module Divergence {
  import opened Types
  import opened Entries
  import opened Order
  import opened Validation
  import opened Simulation
  import opened SimulationRuns
  import M = MemorySpec
  import ML = MemoryLaws
  import MT = MemoryTheorems
  import MP = MemoryPort
  import P = Port
  import S = SqliteSpec
  import SL = SqliteLaws
  import ST = SqliteTheorems
  import SR = SqliteRecency

  /** A run both backends can be given: one call after another, stamps strictly increasing. */
  ghost predicate Proper(calls: seq<S.Call>) {
    |calls| > 0 && ST.AllPickOldest(calls) && StampedInOrder(calls) && Monotone(S.Clocks(calls))
  }

  function MemEnd(lim: Limits, calls: seq<S.Call>): M.Mem {
    MemAt(lim, calls, |calls|)
  }

  ghost function SqlEnd(lim: Limits, calls: seq<S.Call>): S.Sql {
    SqlAt(lim, calls, |calls|)
  }

  /** The same entries, whatever their order. */
  ghost predicate Alike(s: M.Mem, t: S.Sql) {
    M.WellFormed(s) && S.Counted(t) && SameEntries(s.entries, t.rows)
  }

  /** The backends hold the same entries but disagree on which of `x` and `y` is older. */
  ghost predicate Tilted(s: M.Mem, t: S.Sql, x: Key, y: Key) {
    && Alike(s, t) && x != y && x in s.entries && y in s.entries
    && Before(s.order, y, x) && t.rows[x].lastAccessed < t.rows[y].lastAccessed
  }

  /** In memory `y` is the oldest of all, in the table `x` is. */
  ghost predicate Skewed(s: M.Mem, t: S.Sql, x: Key, y: Key) {
    && Alike(s, t) && x != y && x in s.entries && y in s.entries && s.order != [] && s.order[0] == y
    && forall k :: k in t.rows && k != x ==> t.rows[x].lastAccessed < t.rows[k].lastAccessed
  }

  lemma AlikeAccounts(s: M.Mem, t: S.Sql)
    requires Alike(s, t)
    ensures s.bytes == t.bytes && |s.order| == |s.entries| == t.count
  {
    assert forall k :: k in s.order ==> k in Elems(s.order);
    TotalIsSizes(s.order, s.entries, t.rows);
    ElemsCount(s.order);
    assert |t.rows.Keys| == |t.rows| && |s.entries.Keys| == |s.entries|;
  }

  // The step that diverges.

  lemma RefusalTilts(lim: Limits, s: M.Mem, t: S.Sql, op: Op, clk: Readings, pick: S.Pick)
    requires Matches(s, t) && ValidLimits(lim) && S.PicksOldest(pick) && Diverges(lim, s, op, clk)
    ensures Tilted(M.Step(lim, s, op, clk).0, S.Step(lim, t, op, clk, pick).0, op.key, s.order[|s.order| - 1])
  {
    hide M.Step, S.Step, M.Put, S.Put, M.Consistent, S.Agree, Ascending, Before, Tilted, Keep, SameEntries;
    RefusalOnly(lim, s, t, op, clk, pick);
    MT.OversizeFrame(lim, s, op.key, op.value, op.ttl, clk.stamp);
    ST.OversizeFrame(lim, t, op.key, op.value, op.ttl, clk, pick);
    LastIsNewest(s, t, op.key);
    ReorderedTilts(s, t, M.Step(lim, s, op, clk).0, S.Step(lim, t, op, clk, pick).0, op.key, s.order[|s.order| - 1]);
  }

  lemma ReorderedTilts(s: M.Mem, t: S.Sql, s': M.Mem, t': S.Sql, x: Key, y: Key)
    requires Alike(s, t) && M.WellFormed(s') && S.Counted(t') && s'.entries == s.entries && t'.rows == t.rows
    requires x in s.entries && y in s.entries && x != y
    requires Before(s'.order, y, x) && t.rows[x].lastAccessed < t.rows[y].lastAccessed
    ensures Tilted(s', t', x, y)
  {
  }

  lemma RefusalOnly(lim: Limits, s: M.Mem, t: S.Sql, op: Op, clk: Readings, pick: S.Pick)
    requires Matches(s, t) && Diverges(lim, s, op, clk)
    ensures M.Step(lim, s, op, clk).0 == M.Put(lim, s, op.key, op.value, op.ttl, clk.stamp).0
    ensures S.Step(lim, t, op, clk, pick).0 == S.Put(lim, t, op.key, op.value, op.ttl, clk, pick).0
    ensures SizeOfValue(op.value) > lim.maxValueBytes && op.key in s.entries
  {
    SameEntry(s, t, op.key);
    hide M.Put, S.Put, Matches;
  }

  lemma LastIsNewest(s: M.Mem, t: S.Sql, x: Key)
    requires Matches(s, t) && x in s.entries && s.order != [] && s.order[|s.order| - 1] != x
    ensures var y := s.order[|s.order| - 1];
            && Before(Keep(s.order, s.entries.Keys - {x}) + [x], y, x) && y in s.entries
            && x in t.rows && y in t.rows && t.rows[x].lastAccessed < t.rows[y].lastAccessed
  {
    MatchesParts(s, t);
    LastComesFirst(s, x);
    hide M.Consistent, S.Agree, SameEntries, Keep;
  }

  lemma LastComesFirst(s: M.Mem, x: Key)
    requires M.WellFormed(s) && x in s.entries && s.order != [] && s.order[|s.order| - 1] != x
    ensures var y := s.order[|s.order| - 1];
            y in s.entries && Before(s.order, x, y) && Before(Keep(s.order, s.entries.Keys - {x}) + [x], y, x)
  {
    var y, left := s.order[|s.order| - 1], s.entries.Keys - {x};
    assert x in Elems(s.order) && y in Elems(s.order);
    LastBefore(s.order, x);
    KeepIn(s.order, left);
    BeforeSnoc(Keep(s.order, left), x, y, x);
  }

  // Deleting the other keys.

  lemma DeleteTilted(lim: Limits, s: M.Mem, t: S.Sql, x: Key, y: Key, k: Key, clk: Readings, pick: S.Pick)
    requires Tilted(s, t, x, y) && ValidKey(k) && k in s.entries && k != x && k != y
    ensures var s' := M.Step(lim, s, Delete(k), clk).0;
            Tilted(s', S.Step(lim, t, Delete(k), clk, pick).0, x, y) && |s'.entries| == |s.entries| - 1
  {
    hide Before, Alike;
    RemovedTilted(s, t, x, y, k);
    OneFewer(s, k);
    hide Tilted, S.RemoveRow, M.Drop;
  }

  lemma RemovedTilted(s: M.Mem, t: S.Sql, x: Key, y: Key, k: Key)
    requires Tilted(s, t, x, y) && k in s.entries && k != x && k != y
    ensures Tilted(M.Drop(s, {k}), S.RemoveRow(t, k), x, y)
  {
    KeepBefore(s.order, s.entries.Keys - {k}, y, x);
    RemovedAlike(s, t, k);
    hide Alike, Before, Keep;
  }

  lemma RemovedAlike(s: M.Mem, t: S.Sql, k: Key)
    requires Alike(s, t) && k in s.entries
    ensures Alike(M.Drop(s, {k}), S.RemoveRow(t, k))
    ensures forall j :: j in t.rows && j != k ==> j in S.RemoveRow(t, k).rows && S.RemoveRow(t, k).rows[j] == t.rows[j]
  {
    ML.DropWellFormed(s, {k});
    SL.RemoveCounted(t, k);
    hide M.Consistent, S.Agree, Keep, M.Total;
  }

  lemma OneFewer(s: M.Mem, k: Key)
    requires k in s.entries
    ensures |M.Drop(s, {k}).entries| == |s.entries| - 1
  {
    assert (s.entries - {k}).Keys == s.entries.Keys - {k};
  }

  lemma TwoLeft(s: M.Mem, t: S.Sql, x: Key, y: Key)
    requires Tilted(s, t, x, y) && s.entries.Keys == {x, y}
    ensures Skewed(s, t, x, y)
  {
    AlikeAccounts(s, t);
    assert |s.entries| == |s.entries.Keys| == 2;
    hide M.Consistent, S.Agree;
  }

  // Filling up.

  lemma FillOne(lim: Limits, s: M.Mem, t: S.Sql, x: Key, y: Key, k: Key, clk: Readings, pick: S.Pick)
    requires Skewed(s, t, x, y) && ValidLimits(lim) && M.WithinLimits(lim, s) && S.PicksOldest(pick)
    requires ValidKey(k) && k !in s.entries && t.rows[x].lastAccessed < clk.used
    ensures var s', t' := M.Step(lim, s, Set(k, [], None), clk).0, S.Step(lim, t, Set(k, [], None), clk, pick).0;
            || (x in s'.entries && x !in t'.rows)
            || (Skewed(s', t', x, y) && s'.entries.Keys == s.entries.Keys + {k} && |s'.entries| == |s.entries| + 1)
  {
    AlikeAccounts(s, t);
    SomethingFits(lim, s, x);
    hide M.Put, S.Put, M.Consistent, S.Agree;
    if s.bytes + BYTES_OVERHEAD <= lim.maxMemoryBytes && |s.order| < lim.maxItems {
      FillWithRoom(lim, s, t, x, y, k, clk, pick);
    } else {
      MemoryKeepsX(lim, s, x, y, k, clk.stamp);
      TableLosesX(lim, t, x, k, clk, pick);
    }
  }

  lemma SomethingFits(lim: Limits, s: M.Mem, x: Key)
    requires M.WithinLimits(lim, s) && x in s.entries
    ensures BYTES_OVERHEAD <= lim.maxValueBytes
  {
  }

  lemma FillWithRoom(lim: Limits, s: M.Mem, t: S.Sql, x: Key, y: Key, k: Key, clk: Readings, pick: S.Pick)
    requires Skewed(s, t, x, y) && ValidLimits(lim) && S.PicksOldest(pick)
    requires k !in s.entries && t.rows[x].lastAccessed < clk.used && BYTES_OVERHEAD <= lim.maxValueBytes
    requires s.bytes + BYTES_OVERHEAD <= lim.maxMemoryBytes && |s.order| < lim.maxItems
    ensures var s', t' := M.Put(lim, s, k, [], None, clk.stamp).0, S.Put(lim, t, k, [], None, clk, pick).0;
            Skewed(s', t', x, y) && s'.entries.Keys == s.entries.Keys + {k} && |s'.entries| == |s.entries| + 1
  {
    var e := MakeEntry([], None, clk.stamp);
    MT.PutIntoRoom(lim, s, k, [], None, clk.stamp);
    AlikeAccounts(s, t);
    TableWithRoom(lim, t, k, clk, pick);
    SL.AddCounted(t, k, S.NewRow(e, clk.used));
    hide M.Put, S.Put;
    OneMoreEntry(s.entries, k, e);
    JoinedSkewed(s, t, x, y, k, e, S.NewRow(e, clk.used));
  }

  lemma JoinedSkewed(s: M.Mem, t: S.Sql, x: Key, y: Key, k: Key, e: Entry, row: S.Row)
    requires Skewed(s, t, x, y) && k !in s.entries && t.rows[x].lastAccessed < row.lastAccessed
    requires S.EntryOf(row) == e && row.sizeBytes == Size(e)
    requires M.WellFormed(M.Append(s, k, e)) && S.Counted(S.AddRow(t, k, row))
    ensures var s', t' := M.Append(s, k, e), S.AddRow(t, k, row);
            Skewed(s', t', x, y)
  {
    hide M.Consistent, S.Agree;
  }

  lemma OneMoreEntry(m: map<Key, Entry>, k: Key, e: Entry)
    requires k !in m
    ensures m[k := e].Keys == m.Keys + {k} && |m[k := e]| == |m| + 1
  {
    assert |m[k := e].Keys| == |m.Keys + {k}|;
  }

  lemma TableWithRoom(lim: Limits, t: S.Sql, k: Key, clk: Readings, pick: S.Pick)
    requires k !in t.rows && BYTES_OVERHEAD <= lim.maxValueBytes
    requires t.bytes + BYTES_OVERHEAD <= lim.maxMemoryBytes && t.count < lim.maxItems
    ensures S.Put(lim, t, k, [], None, clk, pick).0
              == S.AddRow(t, k, S.NewRow(MakeEntry([], None, clk.stamp), clk.used))
  {
  }

  lemma MemoryKeepsX(lim: Limits, s: M.Mem, x: Key, y: Key, k: Key, now: Time)
    requires M.WellFormed(s) && ValidLimits(lim) && M.WithinLimits(lim, s) && BYTES_OVERHEAD <= lim.maxValueBytes
    requires x in s.entries && s.order != [] && s.order[0] == y && y in s.entries && x != y && k !in s.entries
    ensures x in M.Put(lim, s, k, [], None, now).0.entries
  {
    MT.StoreEvictsTheLeastPrefix(lim, s, k, [], None, now);
    AllKept(s, k);
    OneGoneIsEnough(lim, s, y);
    hide M.Put, M.Consistent, MT.Room;
    var n: nat :| MT.StoredAfter(s, k, MakeEntry([], None, now), n, M.Put(lim, s, k, [], None, now).0)
      && forall i :: 0 <= i < n ==> !MT.Room(lim, s.order, s.entries, i, BYTES_OVERHEAD, true);
    PastFirst(s, x, y, n);
  }

  lemma OneGoneIsEnough(lim: Limits, s: M.Mem, y: Key)
    requires M.WellFormed(s) && ValidLimits(lim) && M.WithinLimits(lim, s) && s.order != [] && s.order[0] == y
    requires y in s.entries
    ensures MT.Room(lim, s.order, s.entries, 1, BYTES_OVERHEAD, true)
  {
    assert s.order == [y] + s.order[1..];
    assert M.Total(s.order, s.entries) == Size(s.entries[y]) + M.Total(s.order[1..], s.entries);
    hide M.Total;
  }

  lemma PastFirst(s: M.Mem, x: Key, y: Key, n: nat)
    requires M.WellFormed(s) && x in s.entries && s.order != [] && s.order[0] == y && x != y && n <= 1 && n <= |s.order|
    ensures x in Elems(s.order[n..])
  {
    assert x in Elems(s.order);
    assert s.order == s.order[..n] + s.order[n..];
  }

  lemma TableLosesX(lim: Limits, t: S.Sql, x: Key, k: Key, clk: Readings, pick: S.Pick)
    requires S.Counted(t) && ValidLimits(lim) && S.PicksOldest(pick) && BYTES_OVERHEAD <= lim.maxValueBytes
    requires x in t.rows && k !in t.rows
    requires forall j :: j in t.rows && j != x ==> t.rows[x].lastAccessed < t.rows[j].lastAccessed
    requires t.bytes + BYTES_OVERHEAD > lim.maxMemoryBytes || t.count >= lim.maxItems
    ensures x !in S.Put(lim, t, k, [], None, clk, pick).0.rows
  {
    ST.PutStores(lim, t, k, [], None, clk, pick);
    var row := S.NewRow(MakeEntry([], None, clk.stamp), clk.used);
    var w := S.Put(lim, t, k, [], None, clk, pick).0;
    hide S.Put;
    var u :| ST.StoredAfter(lim, t, k, row, u, w);
    assert S.RemoveRow(t, k) == t;
    if |u.rows| == |t.rows| {
      ST.SameRows(t, u);
    }
    SomeoneLeft(t, u);
    hide S.Agree;
  }

  lemma SomeoneLeft(t: S.Sql, u: S.Sql)
    requires S.Counted(t) && ST.EvictedFrom(t, u)
    ensures |u.rows| < |t.rows| ==> exists j :: j in t.rows && j !in u.rows
  {
    assert |t.rows.Keys| == |t.rows| && |u.rows.Keys| == |u.rows|;
    if t.rows.Keys <= u.rows.Keys {
      assert t.rows.Keys == u.rows.Keys;
    }
  }

  // Over runs.

  /** The next call, one time unit after the last. */
  function Tick(calls: seq<S.Call>, op: Op): S.Call
    requires |calls| > 0
  {
    var last := calls[|calls| - 1];
    S.Call(op, Instant(last.clk.used + 1.0), last.pick)
  }

  lemma OneMoreIsProper(calls: seq<S.Call>, op: Op)
    requires Proper(calls)
    ensures Proper(calls + [Tick(calls, op)]) && Tick(calls, op).clk.Ordered() && S.PicksOldest(Tick(calls, op).pick)
  {
    var n, longer := |calls|, calls + [Tick(calls, op)];
    assert forall i :: 0 <= i < n ==> S.Clocks(calls)[i] == calls[i].clk && longer[i] == calls[i];
    assert S.Clocks(calls)[n - 1].Ordered();
    assert forall i :: 0 <= i < n ==> calls[i].clk.used <= calls[n - 1].clk.used;
    assert forall i :: 0 <= i < n + 1 ==> S.Clocks(longer)[i] == longer[i].clk;
    hide S.PicksOldest;
  }

  lemma OneMoreCall(lim: Limits, calls: seq<S.Call>, op: Op)
    requires |calls| > 0
    ensures var c, n := Tick(calls, op), |calls|;
            var longer := calls + [c];
            && (MemEnd(lim, longer), MemResult(lim, longer, n)) == M.Step(lim, MemEnd(lim, calls), op, c.clk)
            && (SqlEnd(lim, longer), ST.ResultAt(lim, map[], longer, n))
                  == S.Step(lim, SqlEnd(lim, calls), op, c.clk, c.pick)
  {
    hide M.Step, S.Step;
    var c, n := Tick(calls, op), |calls|;
    var longer := calls + [c];
    assert longer[..n] == calls[..n];
    assert Plain(longer)[..n] == Plain(calls)[..n];
    MemStep(lim, longer, n);
    ST.StateStep(lim, map[], longer, n);
  }

  lemma MemStep(lim: Limits, calls: seq<S.Call>, n: nat)
    requires n < |calls|
    ensures MemAt(lim, calls, n + 1) == M.Step(lim, MemAt(lim, calls, n), calls[n].op, calls[n].clk).0
  {
    hide M.Step;
    assert Plain(calls)[..n + 1][..n] == Plain(calls)[..n];
  }

  lemma EndBounds(lim: Limits, calls: seq<S.Call>)
    requires ValidLimits(lim)
    ensures M.WellFormed(MemEnd(lim, calls)) && M.WithinLimits(lim, MemEnd(lim, calls))
  {
    MT.RunKeepsBounds(lim, Plain(calls)[..|calls|]);
  }

  /** Every row is older than the next call. */
  lemma RowsAreOlder(lim: Limits, calls: seq<S.Call>, op: Op, k: Key)
    requires ValidLimits(lim) && Proper(calls) && k in SqlEnd(lim, calls).rows
    ensures SqlEnd(lim, calls).rows[k].lastAccessed < Tick(calls, op).clk.used
  {
    SR.StampIsLastUse(lim, map[], calls, |calls|, k);
    var i := SR.LastUse(lim, map[], calls, |calls|, k);
    assert calls[i].clk.used <= calls[|calls| - 1].clk.used;
  }

  /** Only valid keys are ever stored. */
  lemma {:induction false} KeysAreValid(lim: Limits, calls: seq<S.Call>, n: nat, k: Key)
    requires ValidLimits(lim) && Monotone(S.Clocks(calls)) && n <= |calls| && k in MemAt(lim, calls, n).entries
    ensures ValidKey(k)
  {
    if n > 0 {
      var s, op, clk := MemAt(lim, calls, n - 1), calls[n - 1].op, calls[n - 1].clk;
      assert Plain(calls)[..n][..n - 1] == Plain(calls)[..n - 1];
      MT.RunKeepsBounds(lim, Plain(calls)[..n - 1]);
      assert S.Clocks(calls)[n - 1].Ordered();
      StoresValidKeys(lim, s, op, clk, k);
      if k in s.entries {
        KeysAreValid(lim, calls, n - 1, k);
      }
    }
  }

  lemma StoresValidKeys(lim: Limits, s: M.Mem, op: Op, clk: Readings, k: Key)
    requires ValidLimits(lim) && M.WellFormed(s) && clk.Ordered() && k in M.Step(lim, s, op, clk).0.entries
    ensures k in s.entries || ValidKey(k)
  {
    var (t, out) := M.Step(lim, s, op, clk);
    MP.StepKeepsContract(lim, s, op, clk);
    P.StepAtKey(lim, MP.View(s), P.Event(op, clk, out), MP.View(t), k);
    if Refused(op) {
      assert t == s;
    }
    hide M.Step, P.Step;
  }

  lemma {:induction false} DeleteOthers(lim: Limits, calls: seq<S.Call>, x: Key, y: Key) returns (longer: seq<S.Call>)
    requires ValidLimits(lim) && Proper(calls) && Tilted(MemEnd(lim, calls), SqlEnd(lim, calls), x, y)
    ensures calls <= longer && Proper(longer)
    ensures Skewed(MemEnd(lim, longer), SqlEnd(lim, longer), x, y) && MemEnd(lim, longer).entries.Keys == {x, y}
    decreases |MemEnd(lim, calls).entries|
  {
    hide *;
    if k :| Other(lim, calls, x, y, k) {
      var next := DeleteOne(lim, calls, x, y, k);
      longer := DeleteOthers(lim, next, x, y);
    } else {
      NoOthers(lim, calls, x, y);
      longer := calls;
    }
  }

  ghost predicate Other(lim: Limits, calls: seq<S.Call>, x: Key, y: Key, k: Key) {
    k in MemEnd(lim, calls).entries && k != x && k != y
  }

  lemma NoOthers(lim: Limits, calls: seq<S.Call>, x: Key, y: Key)
    requires Tilted(MemEnd(lim, calls), SqlEnd(lim, calls), x, y) && !exists k :: Other(lim, calls, x, y, k)
    ensures Skewed(MemEnd(lim, calls), SqlEnd(lim, calls), x, y) && MemEnd(lim, calls).entries.Keys == {x, y}
  {
    hide MemEnd, SqlEnd, Skewed;
    forall k | k in MemEnd(lim, calls).entries.Keys ensures k in {x, y} {
      assert !Other(lim, calls, x, y, k);
    }
    assert MemEnd(lim, calls).entries.Keys == {x, y};
    TwoLeft(MemEnd(lim, calls), SqlEnd(lim, calls), x, y);
  }

  lemma DeleteOne(lim: Limits, calls: seq<S.Call>, x: Key, y: Key, k: Key) returns (longer: seq<S.Call>)
    requires ValidLimits(lim) && Proper(calls) && Tilted(MemEnd(lim, calls), SqlEnd(lim, calls), x, y)
    requires Other(lim, calls, x, y, k)
    ensures calls <= longer && Proper(longer) && Tilted(MemEnd(lim, longer), SqlEnd(lim, longer), x, y)
    ensures |MemEnd(lim, longer).entries| == |MemEnd(lim, calls).entries| - 1
  {
    assert |calls| > 0;
    var c := Tick(calls, Delete(k));
    longer := calls + [c];
    hide Proper, MemEnd, SqlEnd, M.Step, S.Step, Tilted, MemResult, ST.ResultAt, Tick, S.PicksOldest;
    EndKeysAreValid(lim, calls, k);
    OneMoreCall(lim, calls, Delete(k));
    OneMoreIsProper(calls, Delete(k));
    DeleteTilted(lim, MemEnd(lim, calls), SqlEnd(lim, calls), x, y, k, c.clk, c.pick);
  }

  lemma EndKeysAreValid(lim: Limits, calls: seq<S.Call>, k: Key)
    requires ValidLimits(lim) && Proper(calls) && k in MemEnd(lim, calls).entries
    ensures ValidKey(k)
  {
    KeysAreValid(lim, calls, |calls|, k);
  }

  /** One new key parts the stores, or leaves them skewed and fuller by one. */
  lemma FillStep(lim: Limits, calls: seq<S.Call>, x: Key, y: Key, k: Key)
    requires ValidLimits(lim) && Proper(calls) && Skewed(MemEnd(lim, calls), SqlEnd(lim, calls), x, y)
    requires ValidKey(k) && k !in MemEnd(lim, calls).entries
    ensures var longer := calls + [Tick(calls, Set(k, [], None))];
            var m, m', t' := MemEnd(lim, calls).entries, MemEnd(lim, longer).entries, SqlEnd(lim, longer).rows;
            && Proper(longer)
            && ((x in m' && x !in t')
                || (Skewed(MemEnd(lim, longer), SqlEnd(lim, longer), x, y) && m'.Keys == m.Keys + {k}
                    && |m'| == |m| + 1))
  {
    var c := Tick(calls, Set(k, [], None));
    EndBounds(lim, calls);
    OneMoreIsProper(calls, c.op);
    assert x in SqlEnd(lim, calls).rows;
    RowsAreOlder(lim, calls, c.op, x);
    OneMoreCall(lim, calls, c.op);
    hide Proper, MemEnd, SqlEnd, M.Step, S.Step, Skewed, S.PicksOldest, MemResult, ST.ResultAt, M.Consistent,
      M.WithinLimits;
    FillOne(lim, MemEnd(lim, calls), SqlEnd(lim, calls), x, y, k, c.clk, c.pick);
  }

  /** Enough valid keys, other than `x` and `y`, to fill a store. */
  ghost predicate Spare(lim: Limits, spare: seq<Key>, x: Key, y: Key) {
    |spare| + 1 >= lim.maxItems && NoDup(spare) && forall k :: k in spare ==> ValidKey(k) && k != x && k != y
  }

  /** Both stores hold `x`, `y` and the first `i` spare keys. */
  ghost predicate Filling(lim: Limits, calls: seq<S.Call>, x: Key, y: Key, spare: seq<Key>, i: nat) {
    && i <= |spare| && |calls| > 0 && Proper(calls) && Skewed(MemEnd(lim, calls), SqlEnd(lim, calls), x, y)
    && MemEnd(lim, calls).entries.Keys == {x, y} + Elems(spare[..i])
    && |MemEnd(lim, calls).entries| == i + 2
  }

  ghost predicate Parted(lim: Limits, calls: seq<S.Call>, x: Key) {
    Proper(calls) && x in MemEnd(lim, calls).entries && x !in SqlEnd(lim, calls).rows
  }

  lemma FillNext(lim: Limits, calls: seq<S.Call>, x: Key, y: Key, spare: seq<Key>, i: nat) returns (longer: seq<S.Call>)
    requires ValidLimits(lim) && Filling(lim, calls, x, y, spare, i) && Spare(lim, spare, x, y) && i < |spare|
    ensures calls <= longer
    ensures Parted(lim, longer, x) || Filling(lim, longer, x, y, spare, i + 1)
  {
    hide Proper, Skewed, MemEnd, SqlEnd, Elems, NoDup, Tick;
    NextSpare(spare, i);
    FillStep(lim, calls, x, y, spare[i]);
    longer := calls + [Tick(calls, Set(spare[i], [], None))];
  }

  lemma NextSpare(spare: seq<Key>, i: nat)
    requires NoDup(spare)
    ensures i < |spare| ==> spare[i] in spare && spare[i] !in Elems(spare[..i])
    ensures i < |spare| ==> Elems(spare[..i + 1]) == Elems(spare[..i]) + {spare[i]}
  {
    if i < |spare| {
      PrefixDistinct(spare, i);
      assert spare[..i + 1] == spare[..i] + [spare[i]];
    }
  }

  /** Store spare keys until the stores part. */
  lemma {:induction false} Fill(lim: Limits, calls: seq<S.Call>, x: Key, y: Key, spare: seq<Key>, i: nat)
    returns (longer: seq<S.Call>)
    requires ValidLimits(lim) && Filling(lim, calls, x, y, spare, i) && Spare(lim, spare, x, y)
    ensures calls <= longer && Parted(lim, longer, x)
    decreases |spare| - i
  {
    hide *;
    SpareLeft(lim, calls, x, y, spare, i);
    longer := FillNext(lim, calls, x, y, spare, i);
    if !Parted(lim, longer, x) {
      longer := Fill(lim, longer, x, y, spare, i + 1);
    }
  }

  lemma SpareLeft(lim: Limits, calls: seq<S.Call>, x: Key, y: Key, spare: seq<Key>, i: nat)
    requires ValidLimits(lim) && Filling(lim, calls, x, y, spare, i) && Spare(lim, spare, x, y)
    ensures i < |spare|
  {
    EndBounds(lim, calls);
    MT.OrderCount(MemEnd(lim, calls));
    hide MemEnd, Proper, Skewed, NoDup, Elems;
  }

  /** A run both backends agree on until its last step diverges can be continued to a call they answer
      differently, given enough valid keys: the divergence is never invisible. */
  lemma EveryDivergenceShows(lim: Limits, calls: seq<S.Call>, spare: seq<Key>)
    requires ValidLimits(lim) && Proper(calls)
    requires forall i :: 0 <= i < |calls| - 1 ==> !DivergesAt(lim, calls, i)
    requires DivergesAt(lim, calls, |calls| - 1)
    requires |spare| + 1 >= lim.maxItems && NoDup(spare)
    requires forall k :: k in spare ==> ValidKey(k) && k !in MemAt(lim, calls, |calls| - 1).entries
    ensures exists longer :: calls <= longer && Proper(longer) && DifferAt(lim, longer, |longer| - 1)
  {
    hide *;
    var x, y := TiltedAtLast(lim, calls);
    SpareApart(lim, spare, MemAt(lim, calls, |calls| - 1).entries, x, y);
    var two := DeleteOthers(lim, calls, x, y);
    NothingFilled(lim, two, x, y, spare);
    var full := Fill(lim, two, x, y, spare, 0);
    var longer := DeleteTells(lim, full, x);
    assert calls <= longer;
  }

  lemma SpareApart(lim: Limits, spare: seq<Key>, m: map<Key, Entry>, x: Key, y: Key)
    requires |spare| + 1 >= lim.maxItems && NoDup(spare) && x in m && y in m
    requires forall k :: k in spare ==> ValidKey(k) && k !in m
    ensures Spare(lim, spare, x, y)
  {
  }

  lemma NothingFilled(lim: Limits, calls: seq<S.Call>, x: Key, y: Key, spare: seq<Key>)
    requires Proper(calls) && Skewed(MemEnd(lim, calls), SqlEnd(lim, calls), x, y)
    requires MemEnd(lim, calls).entries.Keys == {x, y}
    ensures Filling(lim, calls, x, y, spare, 0)
  {
    assert |MemEnd(lim, calls).entries.Keys| == |{x, y}|;
    assert spare[..0] == [] && Elems(spare[..0]) == {};
    hide Proper, MemEnd, SqlEnd;
  }

  lemma DeleteTells(lim: Limits, calls: seq<S.Call>, x: Key) returns (longer: seq<S.Call>)
    requires ValidLimits(lim) && Parted(lim, calls, x)
    ensures calls <= longer && Proper(longer) && DifferAt(lim, longer, |longer| - 1)
  {
    longer := calls + [Tick(calls, Delete(x))];
    EndKeysAreValid(lim, calls, x);
    OneMoreCall(lim, calls, Delete(x));
    OneMoreIsProper(calls, Delete(x));
    hide MemEnd, SqlEnd, MemResult, ST.ResultAt;
  }

  /** Call `i` gets different answers from the two backends. */
  ghost predicate DifferAt(lim: Limits, calls: seq<S.Call>, i: int) {
    0 <= i < |calls| && MemResult(lim, calls, i) != ST.ResultAt(lim, map[], calls, i)
  }

  lemma TiltedAtLast(lim: Limits, calls: seq<S.Call>) returns (x: Key, y: Key)
    requires ValidLimits(lim) && Proper(calls)
    requires forall i :: 0 <= i < |calls| - 1 ==> !DivergesAt(lim, calls, i)
    requires DivergesAt(lim, calls, |calls| - 1)
    ensures |calls| > 0 && x in MemAt(lim, calls, |calls| - 1).entries && y in MemAt(lim, calls, |calls| - 1).entries
    ensures Tilted(MemEnd(lim, calls), SqlEnd(lim, calls), x, y)
  {
    var n := |calls| - 1;
    MatchWhileNoneDiverges(lim, calls, n);
    assert MatchAt(lim, calls, n);
    var s, t, c := MemAt(lim, calls, n), SqlAt(lim, calls, n), calls[n];
    assert ValidLimits(lim) && S.PicksOldest(c.pick);
    EndStep(lim, calls);
    hide DivergesAt, Proper, Matches, Tilted, M.Step, S.Step, MemAt, SqlAt, MemEnd, SqlEnd;
    y := LastKey(lim, s, t, c.op, c.clk);
    x := c.op.key;
    RefusalTilts(lim, s, t, c.op, c.clk, c.pick);
  }

  lemma LastKey(lim: Limits, s: M.Mem, t: S.Sql, op: Op, clk: Readings) returns (y: Key)
    requires Matches(s, t) && Diverges(lim, s, op, clk)
    ensures s.order != [] && y == s.order[|s.order| - 1] && y in s.entries
    ensures (op.Set? || op.CompareAndSet?) && op.key in s.entries
  {
    y := s.order[|s.order| - 1];
    assert y in Elems(s.order);
  }

  lemma EndStep(lim: Limits, calls: seq<S.Call>)
    requires |calls| > 0
    ensures var n, c := |calls| - 1, calls[|calls| - 1];
            && MemEnd(lim, calls) == M.Step(lim, MemAt(lim, calls, n), c.op, c.clk).0
            && SqlEnd(lim, calls) == S.Step(lim, SqlAt(lim, calls, n), c.op, c.clk, c.pick).0
  {
    hide M.Step, S.Step;
    MemStep(lim, calls, |calls| - 1);
    ST.StateStep(lim, map[], calls, |calls| - 1);
  }
}
