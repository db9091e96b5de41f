/** The two backends against each other: recency as dictionary order and recency as a stamp column
    give the same cache, except after an oversize write over a key that is not the most recent one. */
module Simulation {
  import opened Types
  import opened Entries
  import opened Order
  import opened Validation
  import M = MemorySpec
  import ML = MemoryLaws
  import MT = MemoryTheorems
  import S = SqliteSpec
  import SL = SqliteLaws
  import ST = SqliteTheorems

  /** The dictionary order is the table sorted by its stamps, which are all different. */
  ghost predicate Ascending(order: seq<Key>, rows: S.Table) {
    forall x, y :: Before(order, x, y) ==> x in rows && y in rows && rows[x].lastAccessed < rows[y].lastAccessed
  }

  ghost predicate SameEntries(m: map<Key, Entry>, rows: S.Table) {
    && rows.Keys == m.Keys
    && forall k :: k in m ==> S.EntryOf(rows[k]) == m[k] && rows[k].sizeBytes == Size(m[k])
  }

  ghost predicate Matches(s: M.Mem, t: S.Sql) {
    && M.WellFormed(s) && S.Counted(t) && s.c == t.c
    && SameEntries(s.entries, t.rows)
    && Ascending(s.order, t.rows)
  }

  /** Every stamp in the table is older than `used`. */
  ghost predicate StampedBefore(rows: S.Table, used: Time) {
    forall k :: k in rows ==> rows[k].lastAccessed < used
  }

  ghost predicate StampedBy(rows: S.Table, used: Time) {
    forall k :: k in rows ==> rows[k].lastAccessed <= used
  }

  lemma {:induction false} TotalIsSizes(order: seq<Key>, m: map<Key, Entry>, rows: S.Table)
    requires NoDup(order) && SameEntries(m, rows) && forall k :: k in order ==> k in m
    ensures M.Total(order, m) == S.Sizes(rows, Elems(order))
  {
    if order == [] {
      assert Elems(order) == {};
    } else {
      TotalIsSizes(order[1..], m, rows);
      SL.SizesPull(rows, Elems(order), order[0]);
      assert Elems(order) - {order[0]} == Elems(order[1..]);
      assert order[0] in m;
    }
  }

  lemma MatchesParts(s: M.Mem, t: S.Sql)
    requires Matches(s, t)
    ensures M.WellFormed(s) && S.Counted(t) && s.c == t.c && s.entries.Keys == t.rows.Keys
  {
  }

  /** Matching states account for the same bytes and the same number of entries. */
  lemma SameAccounts(s: M.Mem, t: S.Sql)
    requires Matches(s, t)
    ensures s.bytes == t.bytes && |s.order| == t.count
  {
    assert forall k :: k in s.order ==> k in Elems(s.order);
    TotalIsSizes(s.order, s.entries, t.rows);
    ElemsCount(s.order);
    assert |t.rows.Keys| == |t.rows|;
  }

  lemma KeepAscending(order: seq<Key>, a: set<Key>, rows: S.Table, rows': S.Table)
    requires NoDup(order) && Ascending(order, rows)
    requires forall k :: k in a ==> (k in rows <==> k in rows') && (k in rows ==> rows[k] == rows'[k])
    ensures Ascending(Keep(order, a), rows')
  {
    forall x, y | Before(Keep(order, a), x, y)
      ensures x in rows' && y in rows' && rows'[x].lastAccessed < rows'[y].lastAccessed
    {
      KeepIn(order, a);
      KeepBefore(order, a, x, y);
    }
  }

  lemma DropMatches(s: M.Mem, t: S.Sql, gone: set<Key>)
    requires Matches(s, t) && gone <= t.rows.Keys
    ensures Matches(M.Drop(s, gone), S.DropRows(t, gone))
  {
    ML.DropWellFormed(s, gone);
    SL.DropCounted(t, gone);
    KeepAscending(s.order, s.entries.Keys - gone, t.rows, t.rows - gone);
  }

  lemma RemoveIsDrop(t: S.Sql, k: Key)
    requires k in t.rows
    ensures S.RemoveRow(t, k) == S.DropRows(t, {k})
  {
    SL.SizesPull(t.rows, {k}, k);
    assert {k} - {k} == {};
  }

  lemma RemoveMatches(s: M.Mem, t: S.Sql, k: Key)
    requires Matches(s, t)
    ensures Matches(M.Drop(s, {k}), S.RemoveRow(t, k))
    ensures k !in s.entries ==> M.Drop(s, {k}) == s && S.RemoveRow(t, k) == t
  {
    if k in s.entries {
      DropMatches(s, t, {k});
      RemoveIsDrop(t, k);
    } else {
      ML.DropNone(s, {k});
    }
  }

  lemma Recounted(s: M.Mem, t: S.Sql, c: Counters)
    requires Matches(s, t)
    ensures Matches(s.(c := c), t.(c := c))
  {
  }

  /** The engine's choice is the head of the dictionary, ties being impossible. */
  lemma OldestIsFirst(s: M.Mem, t: S.Sql, pick: S.Pick)
    requires Matches(s, t) && S.PicksOldest(pick) && s.order != []
    ensures pick(t.rows) == s.order[0]
  {
    var first, oldest := s.order[0], pick(t.rows);
    assert first in Elems(s.order);
    assert oldest in t.rows && oldest in Elems(s.order);
    HeadBefore(s.order, oldest);
  }

  lemma EvictOneMatches(s: M.Mem, t: S.Sql, pick: S.Pick)
    requires Matches(s, t) && S.PicksOldest(pick) && s.order != []
    ensures pick(t.rows) in t.rows
    ensures Matches(M.EvictOldest(s, 1), S.EvictOne(pick, t))
  {
    OldestIsFirst(s, t, pick);
    assert s.order[0] in Elems(s.order);
    assert Elems(s.order[..1]) == {s.order[0]};
    RemoveMatches(s, t, s.order[0]);
    Recounted(M.Drop(s, {s.order[0]}), S.RemoveRow(t, s.order[0]), CountEvictions(s.c, 1));
  }

  lemma FitUnfolds(pick: S.Pick, t: S.Sql, required: int, max: int)
    ensures t.bytes + required <= max || t.rows == map[] ==> S.EvictToFit(pick, t, required, max) == t
    ensures t.bytes + required > max && pick(t.rows) in t.rows ==>
              S.EvictToFit(pick, t, required, max) == S.EvictToFit(pick, S.EvictOne(pick, t), required, max)
  {
  }

  lemma {:induction false} EvictToFitMatches(s: M.Mem, n: nat, t: S.Sql, pick: S.Pick, required: int, max: int)
    requires M.WellFormed(s) && n <= |s.order| && Matches(M.EvictOldest(s, n), t) && S.PicksOldest(pick)
    ensures var more := M.BytesDrop(s.order[n..], s.entries, t.bytes + required - max);
            Matches(M.EvictOldest(s, n + more), S.EvictToFit(pick, t, required, max))
    decreases |s.order| - n
  {
    FitUnfolds(pick, t, required, max);
    hide Matches, M.Consistent, M.EvictOldest, M.BytesDrop, S.EvictToFit, S.EvictOne;
    var e := M.EvictOldest(s, n);
    ML.EvictOldestOrder(s, n);
    SameAccounts(e, t);
    EmptyTogether(e, t);
    if t.bytes + required > max && n < |s.order| {
      var next := S.EvictOne(pick, t);
      ML.EvictOneMore(s, n);
      ML.NextVictim(s, n);
      EvictOneMatches(e, t, pick);
      SameAccounts(M.EvictOldest(s, n + 1), next);
      EvictToFitMatches(s, n + 1, next, pick, required, max);
      var rest := M.BytesDrop(s.order[n + 1..], s.entries, next.bytes + required - max);
      assert M.BytesDrop(s.order[n..], s.entries, t.bytes + required - max) == 1 + rest;
    } else {
      ML.NoVictim(s.order[n..], s.entries, t.bytes + required - max);
    }
  }

  lemma {:induction false} EvictToCountMatches(s: M.Mem, n: nat, t: S.Sql, pick: S.Pick, maxItems: int)
    requires M.WellFormed(s) && n <= |s.order| && Matches(M.EvictOldest(s, n), t) && S.PicksOldest(pick)
    requires maxItems >= 1
    ensures Matches(M.EvictOldest(s, M.Max(n, M.CountDrop(|s.order|, maxItems))), S.EvictToCount(pick, t, maxItems))
    decreases |s.order| - n
  {
    hide Matches, M.Consistent, M.EvictOldest;
    var e := M.EvictOldest(s, n);
    ML.EvictOldestOrder(s, n);
    SameAccounts(e, t);
    if t.count >= maxItems {
      ML.EvictOneMore(s, n);
      EvictOneMatches(e, t, pick);
      S.Shrinks(t.rows, pick(t.rows));
      EvictToCountMatches(s, n + 1, S.EvictOne(pick, t), pick, maxItems);
    }
  }

  lemma EmptyTogether(s: M.Mem, t: S.Sql)
    requires Matches(s, t)
    ensures s.order == [] <==> t.rows == map[]
  {
  }

  lemma AppendMatches(s: M.Mem, t: S.Sql, k: Key, e: Entry, row: S.Row)
    requires Matches(s, t) && k !in s.entries && Normalised(e) && StampedBefore(t.rows, row.lastAccessed)
    requires S.EntryOf(row) == e && row.sizeBytes == Size(e)
    ensures Matches(M.Append(s, k, e), S.AddRow(t, k, row))
  {
    ML.AppendWellFormed(s, k, e);
    SL.AddCounted(t, k, row);
    assert k !in Elems(s.order);
    AppendAscending(s.order, k, t.rows, t.rows[k := row], row.lastAccessed);
  }

  lemma AppendAscending(order: seq<Key>, k: Key, rows: S.Table, rows': S.Table, used: Time)
    requires Ascending(order, rows) && StampedBefore(rows, used) && k !in order
    requires forall x :: x in order ==> x in rows && x in rows' && rows'[x] == rows[x]
    requires k in rows' && rows'[k].lastAccessed == used
    ensures Ascending(order + [k], rows')
  {
  }

  lemma TouchMatches(s: M.Mem, t: S.Sql, k: Key, used: Time)
    requires Matches(s, t) && k in s.entries && StampedBefore(t.rows, used)
    ensures Matches(M.MoveToEnd(s, k), t.(rows := t.rows[k := t.rows[k].(lastAccessed := used)]))
  {
    var row := t.rows[k].(lastAccessed := used);
    RemoveMatches(s, t, k);
    ML.OldEntryNormalised(s, k);
    ML.ReinsertMovesToEnd(s, k);
    StampsOnlyRemoved(t.rows, S.RemoveRow(t, k).rows, used);
    TouchIsReplace(t, k, row);
    SameEntry(s, t, k);
    KeyGone(s, k);
    hide Matches, M.Drop, S.RemoveRow, S.AddRow, M.MoveToEnd, StampedBefore;
    AppendMatches(M.Drop(s, {k}), S.RemoveRow(t, k), k, s.entries[k], row);
  }

  lemma KeyGone(s: M.Mem, k: Key)
    ensures k !in M.Drop(s, {k}).entries
  {
  }

  lemma TouchIsReplace(t: S.Sql, k: Key, row: S.Row)
    requires k in t.rows && row.sizeBytes == t.rows[k].sizeBytes
    ensures S.AddRow(S.RemoveRow(t, k), k, row) == t.(rows := t.rows[k := row])
  {
  }

  lemma ExpireMatches(s: M.Mem, t: S.Sql, k: Key)
    requires Matches(s, t) && k in s.entries
    ensures Matches(M.Expire(s, k), S.Expire(t, k))
  {
    RemoveMatches(s, t, k);
    Recounted(M.Drop(s, {k}), S.RemoveRow(t, k), CountExpired(s.c, 1));
  }

  lemma PurgeMatches(s: M.Mem, t: S.Sql, clk: Readings)
    requires Matches(s, t)
    ensures Matches(M.Purge(s, clk), S.Purge(t, clk))
  {
    var gone := S.DueRows(t.rows, clk);
    assert gone == Due(s.entries, clk);
    DropMatches(s, t, gone);
    Recounted(M.Drop(s, gone), S.DropRows(t, gone), CountExpired(s.c, |gone|));
  }

  lemma StampsOnlyRemoved(rows: S.Table, rows': S.Table, used: Time)
    requires StampedBefore(rows, used) && forall k :: k in rows' ==> k in rows && rows'[k] == rows[k]
    ensures StampedBefore(rows', used)
  {
  }

  /** What the eviction loops of a write leave of the table. */
  function Room(lim: Limits, pick: S.Pick, t: S.Sql, size: int, isNew: bool): S.Sql {
    var fit := S.EvictToFit(pick, t, size, lim.maxMemoryBytes);
    if isNew then S.EvictToCount(pick, fit, lim.maxItems) else fit
  }

  function Kept(lim: Limits, base: M.Mem, size: int, isNew: bool): M.Mem
    requires isNew ==> lim.maxItems >= 1
  {
    M.EvictOldest(base, M.Victims(lim, base, size, isNew))
  }

  /** Both eviction loops of a write keep the backends matched. */
  lemma EvictionsMatch(lim: Limits, base: M.Mem, t: S.Sql, pick: S.Pick, size: int, isNew: bool)
    requires Matches(base, t) && ValidLimits(lim) && S.PicksOldest(pick)
    ensures Matches(Kept(lim, base, size, isNew), Room(lim, pick, t, size, isNew))
  {
    hide Matches, M.EvictOldest, M.Consistent, S.EvictToFit, S.EvictToCount, M.BytesDrop;
    MatchesParts(base, t);
    ML.EvictNone(base);
    SameAccounts(base, t);
    assert base.order[0..] == base.order;
    EvictToFitMatches(base, 0, t, pick, size, lim.maxMemoryBytes);
    var fit := M.BytesDrop(base.order, base.entries, base.bytes + size - lim.maxMemoryBytes);
    if isNew {
      EvictToCountMatches(base, fit, S.EvictToFit(pick, t, size, lim.maxMemoryBytes), pick, lim.maxItems);
    }
  }

  lemma MemPutUnfolds(lim: Limits, s: M.Mem, key: Key, value: Bytes, ttl: Option<int>, now: Time, isNew: bool)
    requires ValidLimits(lim) && SizeOfValue(value) <= lim.maxValueBytes && isNew == (key !in s.entries)
    ensures var e := MakeEntry(value, ttl, now);
            M.Put(lim, s, key, value, ttl, now) == (M.Append(Kept(lim, M.Drop(s, {key}), Size(e), isNew), key, e), Ok)
  {
  }

  lemma SqlPutUnfolds(lim: Limits, t: S.Sql, key: Key, value: Bytes, ttl: Option<int>, clk: Readings, pick: S.Pick,
                      isNew: bool)
    requires S.Counted(t) && ValidLimits(lim) && S.PicksOldest(pick) && SizeOfValue(value) <= lim.maxValueBytes
    requires isNew == (key !in t.rows)
    ensures var e := MakeEntry(value, ttl, clk.stamp);
            S.Put(lim, t, key, value, ttl, clk, pick)
              == (S.AddRow(Room(lim, pick, S.RemoveRow(t, key), Size(e), isNew), key, S.NewRow(e, clk.used)), Ok)
  {
    var size := SizeOfValue(value);
    var tbase := S.RemoveRow(t, key);
    SL.RemoveCounted(t, key);
    ST.EvictToFitLaws(lim, pick, tbase, size);
    var fit := S.EvictToFit(pick, tbase, size, lim.maxMemoryBytes);
    if isNew {
      ST.EvictToCountLaws(lim, pick, fit, size);
    }
    hide S.EvictToFit, S.EvictToCount, ST.EvictedFrom, ST.Minimal, S.Agree, S.RemoveRow;
  }

  /** An admitted write keeps the backends matched. */
  lemma StoreMatches(lim: Limits, s: M.Mem, t: S.Sql, key: Key, value: Bytes, ttl: Option<int>, clk: Readings,
                     pick: S.Pick)
    requires Matches(s, t) && ValidLimits(lim) && S.PicksOldest(pick) && StampedBefore(t.rows, clk.used)
    requires SizeOfValue(value) <= lim.maxValueBytes
    ensures var (s', r) := M.Put(lim, s, key, value, ttl, clk.stamp);
            var (t', r') := S.Put(lim, t, key, value, ttl, clk, pick);
            Matches(s', t') && r == r'
  {
    var e := MakeEntry(value, ttl, clk.stamp);
    var isNew := key !in s.entries;
    MatchesParts(s, t);
    MemPutUnfolds(lim, s, key, value, ttl, clk.stamp, isNew);
    SqlPutUnfolds(lim, t, key, value, ttl, clk, pick, isNew);
    hide Matches, StampedBefore, M.Put, S.Put, Kept, Room, S.NewRow, M.Drop, S.RemoveRow;
    RemoveMatches(s, t, key);
    EvictionsMatch(lim, M.Drop(s, {key}), S.RemoveRow(t, key), pick, Size(e), isNew);
    StaysAway(lim, s, key, Size(e), isNew);
    RoomStamps(lim, pick, t, key, Size(e), isNew, clk.used);
    RowOf(e, clk.used);
    AppendMatches(Kept(lim, M.Drop(s, {key}), Size(e), isNew), Room(lim, pick, S.RemoveRow(t, key), Size(e), isNew),
                  key, e, S.NewRow(e, clk.used));
  }

  lemma RowOf(e: Entry, used: Time)
    ensures Normalised(MakeEntry(e.value, e.ttl, e.createdAt))
    ensures Normalised(e) ==> S.EntryOf(S.NewRow(e, used)) == e
    ensures S.NewRow(e, used).sizeBytes == Size(e) && S.NewRow(e, used).lastAccessed == used
  {
  }

  lemma StaysAway(lim: Limits, s: M.Mem, key: Key, size: int, isNew: bool)
    requires isNew ==> lim.maxItems >= 1
    ensures key !in Kept(lim, M.Drop(s, {key}), size, isNew).entries
  {
  }

  lemma RoomStamps(lim: Limits, pick: S.Pick, t: S.Sql, key: Key, size: int, isNew: bool, used: Time)
    requires StampedBefore(t.rows, used)
    ensures StampedBefore(Room(lim, pick, S.RemoveRow(t, key), size, isNew).rows, used)
  {
    var tbase := S.RemoveRow(t, key);
    var fit := S.EvictToFit(pick, tbase, size, lim.maxMemoryBytes);
    EvictionsKeepRows(pick, tbase, size, lim.maxMemoryBytes, lim.maxItems);
    StampsOnlyRemoved(t.rows, tbase.rows, used);
    StampsOnlyRemoved(tbase.rows, fit.rows, used);
  }

  lemma EvictionsKeepRows(pick: S.Pick, t: S.Sql, size: int, max: int, maxItems: int)
    ensures var fit := S.EvictToFit(pick, t, size, max);
            && (forall k :: k in fit.rows ==> k in t.rows && fit.rows[k] == t.rows[k])
            && (forall k :: k in S.EvictToCount(pick, fit, maxItems).rows ==>
                k in fit.rows && S.EvictToCount(pick, fit, maxItems).rows[k] == fit.rows[k])
  {
    SL.EvictToFitRemoves(pick, t, size, max);
    SL.EvictToCountRemoves(pick, S.EvictToFit(pick, t, size, max), maxItems);
  }

  /** The one kind of step that tells the backends apart: an oversize write that is refused over a key
      they hold and that is not their most recently used one. In memory the key becomes the most
      recent; in the table it keeps its stamp. */
  predicate Diverges(lim: Limits, s: M.Mem, op: Op, clk: Readings) {
    && !Refused(op)
    && (op.Set? || (op.CompareAndSet? && op.key in s.entries && !Expired(s.entries[op.key], clk.check)
                    && s.entries[op.key].value == op.expected))
    && SizeOfValue(op.value) > lim.maxValueBytes
    && op.key in s.entries
    && s.order != [] && s.order[|s.order| - 1] != op.key
  }

  /** A refused oversize write keeps the backends matched exactly when its key is absent or already the
      most recent one. */
  lemma OversizeMatches(lim: Limits, s: M.Mem, t: S.Sql, key: Key, value: Bytes, ttl: Option<int>, clk: Readings,
                        pick: S.Pick)
    requires Matches(s, t) && SizeOfValue(value) > lim.maxValueBytes
    ensures var (s', r) := M.Put(lim, s, key, value, ttl, clk.stamp);
            var (t', r') := S.Put(lim, t, key, value, ttl, clk, pick);
            && r == r' && t'.rows == t.rows
            && (Matches(s', t') <==> key !in s.entries || s.order[|s.order| - 1] == key)
  {
    hide Matches, M.Consistent, M.MoveToEnd;
    MatchesParts(s, t);
    Recounted(s, t, s.c.(rejectedOversize := s.c.rejectedOversize + 1));
    if key in s.entries {
      MT.MoveFrame(s, key);
      MT.OrderCount(s);
      if s.order[|s.order| - 1] == key {
        MoveLast(s, key);
      } else {
        MoveBreaks(s, t, key, s.c.(rejectedOversize := s.c.rejectedOversize + 1));
      }
    }
  }

  lemma MoveLast(s: M.Mem, key: Key)
    requires M.WellFormed(s) && s.order != [] && s.order[|s.order| - 1] == key
    ensures M.MoveToEnd(s, key) == s
  {
    LastStays(s.order, s.entries.Keys);
  }

  /** Moving a key that is not the most recent one breaks the match with an unchanged table. */
  lemma MoveBreaks(s: M.Mem, t: S.Sql, key: Key, c: Counters)
    requires Matches(s, t) && key in s.entries && s.order != [] && s.order[|s.order| - 1] != key
    ensures !Matches(M.MoveToEnd(s, key).(c := c), t.(c := c))
  {
    var last, left := s.order[|s.order| - 1], s.entries.Keys - {key};
    var order := Keep(s.order, left) + [key];
    assert Before(s.order, key, last) by {
      assert key in Elems(s.order);
      LastBefore(s.order, key);
    }
    assert Before(order, last, key) by {
      assert last in Elems(s.order);
      KeepIn(s.order, left);
      BeforeSnoc(Keep(s.order, left), key, last, key);
    }
    hide M.Consistent, S.Agree, SameEntries, Before;
    assert t.rows[key].lastAccessed < t.rows[last].lastAccessed;
  }

  lemma LastStays(order: seq<Key>, keys: set<Key>)
    requires NoDup(order) && Elems(order) == keys && order != []
    ensures Keep(order, keys - {order[|order| - 1]}) + [order[|order| - 1]] == order
  {
    var n := |order| - 1;
    var k := order[n];
    assert order == order[..n] + [k];
    NoDupAppend(order[..n], [k]);
    KeepAppend(order[..n], [k], keys - {k});
    forall x | x in order[..n] ensures x in keys - {k} {
      assert x in Elems(order);
    }
    KeepAll(order[..n], keys - {k});
    KeepNone([k], keys - {k});
  }

  /** What one step does to matching backends: same result, and still matching exactly when the step
      is not the diverging one. */
  ghost predicate Agrees(lim: Limits, s: M.Mem, t: S.Sql, op: Op, clk: Readings, pick: S.Pick) {
    var (s', out) := M.Step(lim, s, op, clk);
    var (t', out') := S.Step(lim, t, op, clk, pick);
    && out == out'
    && (Matches(s', t') <==> !Diverges(lim, s, op, clk))
    && StampedBy(t'.rows, clk.used)
  }

  lemma PutAgrees(lim: Limits, s: M.Mem, t: S.Sql, key: Key, value: Bytes, ttl: Option<int>, clk: Readings,
                  pick: S.Pick)
    requires Matches(s, t) && ValidLimits(lim) && S.PicksOldest(pick) && StampedBefore(t.rows, clk.used)
    ensures var (s', r) := M.Put(lim, s, key, value, ttl, clk.stamp);
            var (t', r') := S.Put(lim, t, key, value, ttl, clk, pick);
            && r == r' && StampedBy(t'.rows, clk.used)
            && (Matches(s', t') <==>
                  !(SizeOfValue(value) > lim.maxValueBytes && key in s.entries && s.order != []
                    && s.order[|s.order| - 1] != key))
  {
    MatchesParts(s, t);
    MT.OrderCount(s);
    StampsWeaken(t.rows, clk.used);
    hide Matches, StampedBefore, StampedBy, M.Put, S.Put, M.Consistent, S.Agree;
    if SizeOfValue(value) > lim.maxValueBytes {
      OversizeMatches(lim, s, t, key, value, ttl, clk, pick);
    } else {
      StoreMatches(lim, s, t, key, value, ttl, clk, pick);
      StoreStamps(lim, t, key, value, ttl, clk, pick);
    }
  }

  lemma StoreStamps(lim: Limits, t: S.Sql, key: Key, value: Bytes, ttl: Option<int>, clk: Readings, pick: S.Pick)
    requires S.Counted(t) && ValidLimits(lim) && S.PicksOldest(pick) && StampedBefore(t.rows, clk.used)
    requires SizeOfValue(value) <= lim.maxValueBytes
    ensures StampedBy(S.Put(lim, t, key, value, ttl, clk, pick).0.rows, clk.used)
  {
    var isNew := key !in t.rows;
    SqlPutUnfolds(lim, t, key, value, ttl, clk, pick, isNew);
    hide S.Put, Room, S.RemoveRow, S.Agree;
    RoomStamps(lim, pick, t, key, SizeOfValue(value), isNew, clk.used);
  }

  lemma StampsWeaken(rows: S.Table, used: Time)
    requires StampedBefore(rows, used)
    ensures StampedBy(rows, used)
  {
  }

  lemma GetAgrees(lim: Limits, s: M.Mem, t: S.Sql, key: Key, clk: Readings, pick: S.Pick)
    requires Matches(s, t) && StampedBefore(t.rows, clk.used)
    ensures Agrees(lim, s, t, Get(key), clk, pick)
  {
    hide Matches, M.Drop, S.RemoveRow;
    SameEntry(s, t, key);
    if key in s.entries {
      var missed, hit := s.c.(misses := s.c.misses + 1), s.c.(hits := s.c.hits + 1);
      Recounted(s, t, missed);
      ExpireMatches(s.(c := missed), t.(c := missed), key);
      Recounted(s, t, hit);
      TouchMatches(s.(c := hit), t.(c := hit), key, clk.used);
    } else {
      Recounted(s, t, s.c.(misses := s.c.misses + 1));
    }
    StampsOnlyRemoved(t.rows, t.rows - {key}, clk.used);
    RemovedRows(t.(c := s.c.(misses := s.c.misses + 1)), key);
  }

  lemma SameEntry(s: M.Mem, t: S.Sql, key: Key)
    requires Matches(s, t)
    ensures s.c == t.c && (key in s.entries <==> key in t.rows)
    ensures key in s.entries ==> S.EntryOf(t.rows[key]) == s.entries[key] && t.rows[key].value == s.entries[key].value
  {
  }

  lemma RemovedRows(t: S.Sql, key: Key)
    ensures S.RemoveRow(t, key).rows == t.rows - {key}
    ensures S.Expire(t, key).rows == t.rows - {key}
  {
  }

  lemma ConditionalAgrees(lim: Limits, s: M.Mem, t: S.Sql, op: Op, clk: Readings, pick: S.Pick)
    requires Matches(s, t) && ValidLimits(lim) && S.PicksOldest(pick) && StampedBefore(t.rows, clk.used)
    requires (op.SetIfAbsent? || op.CompareAndSet?) && !Refused(op)
    ensures Agrees(lim, s, t, op, clk, pick)
  {
    hide Matches, M.Drop, S.RemoveRow, M.Put, S.Put, Refused;
    SameEntry(s, t, op.key);
    RemovedRows(t, op.key);
    StampsOnlyRemoved(t.rows, t.rows - {op.key}, clk.used);
    var stale := op.key in s.entries && Expired(s.entries[op.key], clk.check);
    if stale {
      ExpireMatches(s, t, op.key);
      ML.DropKeys(s, {op.key});
    }
    if op.SetIfAbsent? && stale {
      PutAgrees(lim, M.Expire(s, op.key), S.Expire(t, op.key), op.key, op.value, op.ttl, clk, pick);
    } else {
      PutAgrees(lim, s, t, op.key, op.value, op.ttl, clk, pick);
    }
  }

  lemma RemovalAgrees(lim: Limits, s: M.Mem, t: S.Sql, op: Op, clk: Readings, pick: S.Pick)
    requires Matches(s, t) && StampedBefore(t.rows, clk.used) && (op.Delete? || op.RemoveIfExpired?)
    ensures Agrees(lim, s, t, op, clk, pick)
  {
    hide Matches, M.Drop, S.RemoveRow;
    SameEntry(s, t, op.key);
    RemovedRows(t, op.key);
    StampsOnlyRemoved(t.rows, t.rows - {op.key}, clk.used);
    RemoveMatches(s, t, op.key);
    if op.key in s.entries {
      ExpireMatches(s, t, op.key);
    }
  }

  lemma PurgeAgrees(lim: Limits, s: M.Mem, t: S.Sql, clk: Readings, pick: S.Pick)
    requires Matches(s, t) && StampedBefore(t.rows, clk.used)
    ensures Agrees(lim, s, t, Stats, clk, pick)
  {
    hide Matches, M.Purge, S.Purge, StampedBefore, StampedBy;
    PurgeMatches(s, t, clk);
    PurgedStamps(t, clk);
    MatchesParts(M.Purge(s, clk), S.Purge(t, clk));
    SameAccounts(M.Purge(s, clk), S.Purge(t, clk));
  }

  lemma PurgedStamps(t: S.Sql, clk: Readings)
    requires StampedBefore(t.rows, clk.used)
    ensures StampedBy(S.Purge(t, clk).rows, clk.used)
  {
  }

  lemma EmptyMatches()
    ensures Matches(M.EMPTY, S.Open(map[]))
  {
  }

  lemma StepAgrees(lim: Limits, s: M.Mem, t: S.Sql, op: Op, clk: Readings, pick: S.Pick)
    requires Matches(s, t) && ValidLimits(lim) && S.PicksOldest(pick) && StampedBefore(t.rows, clk.used)
    ensures Agrees(lim, s, t, op, clk, pick)
  {
    if Refused(op) {
      return;
    }
    match op
    case Get(k) => GetAgrees(lim, s, t, k, clk, pick);
    case Set(k, v, ttl) => PutAgrees(lim, s, t, k, v, ttl, clk, pick);
    case SetIfAbsent(_, _, _) => ConditionalAgrees(lim, s, t, op, clk, pick);
    case CompareAndSet(_, _, _, _) => ConditionalAgrees(lim, s, t, op, clk, pick);
    case Delete(_) => RemovalAgrees(lim, s, t, op, clk, pick);
    case RemoveIfExpired(_) => RemovalAgrees(lim, s, t, op, clk, pick);
    case Stats => PurgeAgrees(lim, s, t, clk, pick);
    case Clear => EmptyMatches();
  }
}
