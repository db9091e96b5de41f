/** The backends over whole runs: when they agree, and a run on which they do not. */
module SimulationRuns {
  import opened Types
  import opened Entries
  import opened Order
  import opened Validation
  import opened Simulation
  import M = MemorySpec
  import MT = MemoryTheorems
  import S = SqliteSpec
  import ST = SqliteTheorems

  function Plain(calls: seq<S.Call>): seq<Timed> {
    seq(|calls|, i requires 0 <= i < |calls| => Timed(calls[i].op, calls[i].clk))
  }

  function MemAt(lim: Limits, calls: seq<S.Call>, i: nat): M.Mem
    requires i <= |calls|
  {
    M.Run(lim, M.EMPTY, Plain(calls)[..i])
  }

  ghost function SqlAt(lim: Limits, calls: seq<S.Call>, i: nat): S.Sql
    requires i <= |calls|
  {
    ST.StateAt(lim, map[], calls, i)
  }

  function MemResult(lim: Limits, calls: seq<S.Call>, i: nat): Outcome
    requires i < |calls|
  {
    M.Step(lim, MemAt(lim, calls, i), calls[i].op, calls[i].clk).1
  }

  /** Each critical section stamps later than all earlier ones. */
  ghost predicate StampedInOrder(calls: seq<S.Call>) {
    forall i, j :: 0 <= i < j < |calls| ==> calls[i].clk.used < calls[j].clk.used
  }

  ghost predicate DivergesAt(lim: Limits, calls: seq<S.Call>, i: nat)
    requires i < |calls|
  {
    Diverges(lim, MemAt(lim, calls, i), calls[i].op, calls[i].clk)
  }

  ghost predicate MatchAt(lim: Limits, calls: seq<S.Call>, i: nat)
    requires i <= |calls|
  {
    Matches(MemAt(lim, calls, i), SqlAt(lim, calls, i))
  }

  lemma OneStep(lim: Limits, calls: seq<S.Call>, i: nat)
    requires ValidLimits(lim) && ST.AllPickOldest(calls) && i < |calls|
    requires MatchAt(lim, calls, i) && StampedBefore(SqlAt(lim, calls, i).rows, calls[i].clk.used)
    ensures MatchAt(lim, calls, i + 1) <==> !DivergesAt(lim, calls, i)
    ensures MemResult(lim, calls, i) == ST.ResultAt(lim, map[], calls, i)
    ensures StampedBy(SqlAt(lim, calls, i + 1).rows, calls[i].clk.used)
  {
    hide Matches, Diverges, M.Step, S.Step;
    assert Plain(calls)[..i + 1][..i] == Plain(calls)[..i];
    ST.StateStep(lim, map[], calls, i);
    StepAgrees(lim, MemAt(lim, calls, i), SqlAt(lim, calls, i), calls[i].op, calls[i].clk, calls[i].pick);
  }

  lemma {:induction false} StampsStayOlder(lim: Limits, calls: seq<S.Call>, n: nat)
    requires ValidLimits(lim) && ST.AllPickOldest(calls) && StampedInOrder(calls) && n < |calls|
    requires forall i :: 0 <= i < n ==> MatchAt(lim, calls, i)
    ensures StampedBefore(SqlAt(lim, calls, n).rows, calls[n].clk.used)
  {
    if n > 0 {
      StampsStayOlder(lim, calls, n - 1);
      OneStep(lim, calls, n - 1);
    }
  }

  lemma StartMatches(lim: Limits, calls: seq<S.Call>)
    ensures MatchAt(lim, calls, 0)
  {
  }

  lemma {:induction false} MatchWhileNoneDiverges(lim: Limits, calls: seq<S.Call>, n: nat)
    requires ValidLimits(lim) && ST.AllPickOldest(calls) && StampedInOrder(calls) && n <= |calls|
    requires forall i :: 0 <= i < n ==> !DivergesAt(lim, calls, i)
    ensures forall i :: 0 <= i <= n ==> MatchAt(lim, calls, i)
  {
    hide *;
    StartMatches(lim, calls);
    if n > 0 {
      MatchWhileNoneDiverges(lim, calls, n - 1);
      StampsStayOlder(lim, calls, n - 1);
      OneStep(lim, calls, n - 1);
    }
  }

  /** The in-memory store and the SQLite store stay matched through a whole run exactly when no step of
      it refuses an oversize write over a key that is present but not the most recent one. */
  lemma BackendsMatchExactly(lim: Limits, calls: seq<S.Call>)
    requires ValidLimits(lim) && ST.AllPickOldest(calls) && StampedInOrder(calls)
    ensures (forall i :: 0 <= i <= |calls| ==> MatchAt(lim, calls, i))
       <==> (forall i :: 0 <= i < |calls| ==> !DivergesAt(lim, calls, i))
  {
    if forall i :: 0 <= i <= |calls| ==> MatchAt(lim, calls, i) {
      forall i | 0 <= i < |calls| ensures !DivergesAt(lim, calls, i) {
        StampsStayOlder(lim, calls, i);
        OneStep(lim, calls, i);
      }
    } else if forall i :: 0 <= i < |calls| ==> !DivergesAt(lim, calls, i) {
      MatchWhileNoneDiverges(lim, calls, |calls|);
    }
  }

  /** On such a run every call gets the same result from both, statistics included. */
  lemma BackendsGiveSameResults(lim: Limits, calls: seq<S.Call>, i: nat)
    requires ValidLimits(lim) && ST.AllPickOldest(calls) && StampedInOrder(calls) && i < |calls|
    requires forall j :: 0 <= j < i ==> !DivergesAt(lim, calls, j)
    ensures MemResult(lim, calls, i) == ST.ResultAt(lim, map[], calls, i)
  {
    MatchWhileNoneDiverges(lim, calls, i);
    StampsStayOlder(lim, calls, i);
    OneStep(lim, calls, i);
  }

  /** The divergence is visible. In any pair of matched full stores, refuse an oversize write over the
      oldest key `x` and then store a new key: memory still holds `x`, the table has evicted it. */
  lemma DivergenceIsVisible(lim: Limits, s: M.Mem, t: S.Sql, z: Key, big: Bytes, value: Bytes, clk: Readings,
                            clk': Readings, pick: S.Pick)
    requires Matches(s, t) && ValidLimits(lim) && S.PicksOldest(pick)
    requires |s.order| == lim.maxItems >= 2 && z !in s.entries
    requires SizeOfValue(value) <= lim.maxValueBytes < SizeOfValue(big)
    requires s.bytes + SizeOfValue(value) <= lim.maxMemoryBytes
    ensures var x := s.order[0];
            var s' := M.Put(lim, M.Put(lim, s, x, big, None, clk.stamp).0, z, value, None, clk'.stamp).0;
            var t' := S.Put(lim, S.Put(lim, t, x, big, None, clk, pick).0, z, value, None, clk', pick).0;
            x in s'.entries && s'.entries[x] == s.entries[x] && x !in t'.rows
  {
    var x := s.order[0];
    assert x in Elems(s.order);
    MatchesParts(s, t);
    MemoryKeeps(lim, s, z, big, value, clk.stamp, clk'.stamp);
    TableLoses(lim, s, t, z, big, value, clk, clk', pick);
  }

  lemma MemoryKeeps(lim: Limits, s: M.Mem, z: Key, big: Bytes, value: Bytes, now: Time, now': Time)
    requires M.WellFormed(s) && ValidLimits(lim) && |s.order| == lim.maxItems >= 2 && z !in s.entries
    requires SizeOfValue(value) <= lim.maxValueBytes < SizeOfValue(big)
    requires s.bytes + SizeOfValue(value) <= lim.maxMemoryBytes
    ensures var x := s.order[0];
            var s' := M.Put(lim, M.Put(lim, s, x, big, None, now).0, z, value, None, now').0;
            x in s'.entries && s'.entries[x] == s.entries[x]
  {
    var x := s.order[0];
    var r := M.Put(lim, s, x, big, None, now).0;
    assert x in Elems(s.order);
    MT.OversizeFrame(lim, s, x, big, None, now);
    MT.OrderCount(s);
    MT.OrderCount(r);
    MT.StoreEvictsTheLeastPrefix(lim, r, z, value, None, now');
    AllKept(r, z);
    OneIsEnough(lim, r, SizeOfValue(value));
    hide M.Put, M.Consistent, Keep;
    LastSurvives(lim, r, z, MakeEntry(value, None, now'), M.Put(lim, r, z, value, None, now').0);
  }

  lemma AllKept(r: M.Mem, z: Key)
    requires M.WellFormed(r) && z !in r.entries
    ensures Keep(r.order, r.entries.Keys - {z}) == r.order
  {
    assert forall k :: k in r.order ==> k in Elems(r.order);
    KeepAll(r.order, r.entries.Keys - {z});
  }

  /** If one eviction makes room, the most recent of two or more keys survives. */
  lemma LastSurvives(lim: Limits, r: M.Mem, z: Key, e: Entry, t: M.Mem)
    requires |r.order| >= 2 && z !in r.entries && Keep(r.order, r.entries.Keys - {z}) == r.order
    requires MT.Room(lim, r.order, r.entries, 1, Size(e), true)
    requires exists n: nat ::
               && MT.StoredAfter(r, z, e, n, t)
               && MT.Room(lim, r.order, r.entries, n, Size(e), true)
               && forall i :: 0 <= i < n ==> !MT.Room(lim, r.order, r.entries, i, Size(e), true)
    ensures var x := r.order[|r.order| - 1];
            x != z ==> x in t.entries && x in r.entries && t.entries[x] == r.entries[x]
  {
  }

  lemma OneIsEnough(lim: Limits, r: M.Mem, size: int)
    requires M.WellFormed(r) && |r.order| == lim.maxItems >= 1 && r.bytes + size <= lim.maxMemoryBytes
    ensures MT.Room(lim, r.order, r.entries, 1, size, true)
  {
  }

  lemma TableLoses(lim: Limits, s: M.Mem, t: S.Sql, z: Key, big: Bytes, value: Bytes, clk: Readings, clk': Readings,
                   pick: S.Pick)
    requires Matches(s, t) && ValidLimits(lim) && S.PicksOldest(pick)
    requires |s.order| == lim.maxItems >= 2 && z !in s.entries
    requires SizeOfValue(value) <= lim.maxValueBytes < SizeOfValue(big)
    ensures var x := s.order[0];
            x !in S.Put(lim, S.Put(lim, t, x, big, None, clk, pick).0, z, value, None, clk', pick).0.rows
  {
    var x := s.order[0];
    var r := S.Put(lim, t, x, big, None, clk, pick).0;
    SameAccounts(s, t);
    MatchesParts(s, t);
    assert r.rows == t.rows && r.count == t.count;
    ST.PutStores(lim, r, z, value, None, clk', pick);
    FirstIsOldest(s, t);
    var row := S.NewRow(MakeEntry(value, None, clk'.stamp), clk'.used);
    hide S.Put, Matches;
    OldestLeaves(lim, r, x, z, row, S.Put(lim, r, z, value, None, clk', pick).0);
  }

  lemma OldestLeaves(lim: Limits, r: S.Sql, x: Key, z: Key, row: S.Row, w: S.Sql)
    requires S.Counted(r) && r.count == lim.maxItems && x in r.rows && z !in r.rows
    requires forall y :: y in r.rows && y != x ==> r.rows[x].lastAccessed < r.rows[y].lastAccessed
    requires exists u :: ST.StoredAfter(lim, r, z, row, u, w)
    requires w.count <= lim.maxItems
    ensures x !in w.rows
  {
  }

  lemma FirstIsOldest(s: M.Mem, t: S.Sql)
    requires Matches(s, t) && s.order != []
    ensures s.order[0] in t.rows
    ensures forall y :: y in t.rows && y != s.order[0] ==> t.rows[s.order[0]].lastAccessed < t.rows[y].lastAccessed
  {
    assert s.order[0] in Elems(s.order);
    forall y | y in t.rows && y != s.order[0] ensures t.rows[s.order[0]].lastAccessed < t.rows[y].lastAccessed {
      assert y in Elems(s.order);
      HeadBefore(s.order, y);
    }
  }

  // A reachable instance: two items, values of at most seven bytes, three short writes and a long one.

  const TWO_ITEMS := Limits(2, 0x10_0000, BYTES_OVERHEAD + 7, 10)
  const SHORT: Bytes := []
  const LONG: Bytes := [0, 0, 0, 0, 0, 0, 0, 0]

  function MemPut(s: M.Mem, key: Key, value: Bytes, t: Time): M.Mem {
    M.Put(TWO_ITEMS, s, key, value, None, t).0
  }

  function SqlPut(t: S.Sql, key: Key, value: Bytes, now: Time, pick: S.Pick): S.Sql {
    S.Put(TWO_ITEMS, t, key, value, None, Instant(now), pick).0
  }

  // Two short writes, then a refused one over the oldest key and a new key.

  function MemTwo(): M.Mem {
    MemPut(MemPut(M.EMPTY, "a", SHORT, 1.0), "b", SHORT, 2.0)
  }

  function MemFour(): M.Mem {
    MemPut(MemPut(MemTwo(), "a", LONG, 3.0), "c", SHORT, 4.0)
  }

  ghost function SqlOne(pick: S.Pick): S.Sql {
    SqlPut(S.Open(map[]), "a", SHORT, 1.0, pick)
  }

  ghost function SqlTwo(pick: S.Pick): S.Sql {
    SqlPut(SqlOne(pick), "b", SHORT, 2.0, pick)
  }

  ghost function SqlFour(pick: S.Pick): S.Sql {
    SqlPut(SqlPut(SqlTwo(pick), "a", LONG, 3.0, pick), "c", SHORT, 4.0, pick)
  }

  /** Both stores start empty and see the same five calls; the last, `get("a")`, is a hit in one and a
      miss in the other. */
  lemma BackendsCanDisagree(pick: S.Pick)
    requires S.PicksOldest(pick)
    ensures M.Step(TWO_ITEMS, MemFour(), Get("a"), Instant(5.0)).1 == Found(Some(SHORT))
    ensures S.Step(TWO_ITEMS, SqlFour(pick), Get("a"), Instant(5.0), pick).1 == Found(None)
  {
    hide MemFour, SqlFour, M.Step, S.Step;
    LastTwo(pick);
    HitAndMiss(TWO_ITEMS, MemFour(), SqlFour(pick), "a", Instant(5.0), pick);
  }

  lemma LastTwo(pick: S.Pick)
    requires S.PicksOldest(pick)
    ensures "a" in MemFour().entries && MemFour().entries["a"] == Entry(SHORT, None, 1.0)
    ensures "a" !in SqlFour(pick).rows
  {
    hide MemPut, SqlPut, MemTwo, SqlTwo;
    FirstTwoMatch(pick);
    FirstTwo();
    ThenDiverge(MemTwo(), SqlTwo(pick), pick);
  }

  lemma ThenDiverge(s: M.Mem, t: S.Sql, pick: S.Pick)
    requires Matches(s, t) && S.PicksOldest(pick)
    requires |s.order| == 2 && s.order[0] == "a" && "c" !in s.entries && s.bytes == 2 * BYTES_OVERHEAD
    ensures "a" in MemPut(MemPut(s, "a", LONG, 3.0), "c", SHORT, 4.0).entries && "a" in s.entries
    ensures MemPut(MemPut(s, "a", LONG, 3.0), "c", SHORT, 4.0).entries["a"] == s.entries["a"]
    ensures "a" !in SqlPut(SqlPut(t, "a", LONG, 3.0, pick), "c", SHORT, 4.0, pick).rows
  {
    assert s.order[0] in Elems(s.order);
    hide M.Put, S.Put, Matches;
    DivergenceIsVisible(TWO_ITEMS, s, t, "c", LONG, SHORT, Instant(3.0), Instant(4.0), pick);
  }

  lemma HitAndMiss(lim: Limits, s: M.Mem, t: S.Sql, k: Key, clk: Readings, pick: S.Pick)
    requires ValidKey(k) && k in s.entries && s.entries[k].ttl == None && k !in t.rows
    ensures M.Step(lim, s, Get(k), clk).1 == Found(Some(s.entries[k].value))
    ensures S.Step(lim, t, Get(k), clk, pick).1 == Found(None)
  {
  }

  lemma FirstTwoMatch(pick: S.Pick)
    requires S.PicksOldest(pick)
    ensures Matches(MemTwo(), SqlTwo(pick))
  {
    EmptyMatches();
    assert StampedBefore(S.Open(map[]).rows, 1.0);
    hide M.Put, S.Put, Matches, StampedBefore, StampedBy;
    PutAgrees(TWO_ITEMS, M.EMPTY, S.Open(map[]), "a", SHORT, None, Instant(1.0), pick);
    Earlier(SqlOne(pick).rows, 1.0, 2.0);
    var s := MemPut(M.EMPTY, "a", SHORT, 1.0);
    PutAgrees(TWO_ITEMS, s, SqlOne(pick), "b", SHORT, None, Instant(2.0), pick);
  }

  lemma Earlier(rows: S.Table, used: Time, later: Time)
    requires StampedBy(rows, used) && used < later
    ensures StampedBefore(rows, later)
  {
  }

  lemma FirstTwo()
    ensures var s2 := MemTwo();
            && |s2.order| == 2 && s2.order[0] == "a" && "c" !in s2.entries && s2.bytes == 2 * BYTES_OVERHEAD
            && "a" in s2.entries && s2.entries["a"] == Entry(SHORT, None, 1.0)
  {
    MT.EmptyKeepsBounds(TWO_ITEMS);
    MT.PutIntoRoom(TWO_ITEMS, M.EMPTY, "a", SHORT, None, 1.0);
    hide M.Put, M.Consistent;
    MT.PutIntoRoom(TWO_ITEMS, MemPut(M.EMPTY, "a", SHORT, 1.0), "b", SHORT, None, 2.0);
  }
}
