/** Laws of the table's size column: sums do not depend on the order of summation, and every
    building block of the store moves the two denormalised counters with the table. */
module SqliteLaws {
  import opened Types
  import opened Entries
  import opened SqliteSpec

  lemma {:induction false} SizesPull(rows: Table, ks: set<Key>, k: Key)
    requires k in ks
    ensures Sizes(rows, ks) == SizeAt(rows, k) + Sizes(rows, ks - {k})
    decreases ks
  {
    var x :| x in ks && Sizes(rows, ks) == SizeAt(rows, x) + Sizes(rows, ks - {x});
    if x != k {
      SizesPull(rows, ks - {x}, k);
      SizesPull(rows, ks - {k}, x);
      assert ks - {x} - {k} == ks - {k} - {x};
    }
  }

  lemma {:induction false} SizesAgree(rows: Table, rows': Table, ks: set<Key>)
    requires forall k :: k in ks ==> SizeAt(rows, k) == SizeAt(rows', k)
    ensures Sizes(rows, ks) == Sizes(rows', ks)
    decreases ks
  {
    if k :| k in ks {
      SizesAgree(rows, rows', ks - {k});
      SizesPull(rows, ks, k);
      SizesPull(rows', ks, k);
    }
  }

  lemma {:induction false} SizesSplit(rows: Table, ks: set<Key>, gone: set<Key>)
    requires gone <= ks
    ensures Sizes(rows, ks) == Sizes(rows, gone) + Sizes(rows, ks - gone)
    decreases gone
  {
    if k :| k in gone {
      SizesSplit(rows, ks - {k}, gone - {k});
      SizesPull(rows, ks, k);
      SizesPull(rows, gone, k);
      assert ks - {k} - (gone - {k}) == ks - gone;
    } else {
      assert ks - gone == ks;
    }
  }

  lemma RemoveCounted(t: Sql, k: Key)
    requires Counted(t)
    ensures Counted(RemoveRow(t, k))
  {
    if k in t.rows {
      Shrinks(t.rows, k);
      SizesPull(t.rows, t.rows.Keys, k);
      SizesAgree(t.rows, t.rows - {k}, t.rows.Keys - {k});
      assert (t.rows - {k}).Keys == t.rows.Keys - {k};
    }
  }

  lemma AddCounted(t: Sql, k: Key, row: Row)
    requires Counted(t) && k !in t.rows
    ensures Counted(AddRow(t, k, row))
  {
    var u := AddRow(t, k, row);
    assert u.rows - {k} == t.rows;
    Shrinks(u.rows, k);
    SizesPull(u.rows, u.rows.Keys, k);
    SizesAgree(t.rows, u.rows, t.rows.Keys);
    assert u.rows.Keys - {k} == t.rows.Keys;
  }

  lemma DropCounted(t: Sql, gone: set<Key>)
    requires Counted(t) && gone <= t.rows.Keys
    ensures Counted(DropRows(t, gone))
  {
    var u := DropRows(t, gone);
    assert u.rows.Keys == t.rows.Keys - gone;
    assert |u.rows.Keys| == |u.rows| && |t.rows.Keys| == |t.rows|;
    assert t.rows.Keys == (t.rows.Keys - gone) + gone;
    SizesSplit(t.rows, t.rows.Keys, gone);
    SizesAgree(t.rows, u.rows, u.rows.Keys);
  }

  lemma TouchCounted(t: Sql, k: Key, used: Time)
    requires Counted(t) && k in t.rows
    ensures Counted(t.(rows := t.rows[k := t.rows[k].(lastAccessed := used)]))
  {
    var rows := t.rows[k := t.rows[k].(lastAccessed := used)];
    assert rows.Keys == t.rows.Keys;
    assert |rows.Keys| == |rows| && |t.rows.Keys| == |t.rows|;
    SizesAgree(t.rows, rows, t.rows.Keys);
  }

  lemma DropMore(t: Sql, gone: set<Key>, k: Key)
    requires gone <= t.rows.Keys && k in t.rows && k !in gone
    ensures RemoveRow(DropRows(t, gone), k) == DropRows(t, gone + {k})
  {
    SizesPull(t.rows, gone + {k}, k);
    assert gone + {k} - {k} == gone;
    assert t.rows - gone - {k} == t.rows - (gone + {k});
  }

  lemma ExpireMore(t: Sql, gone: set<Key>, k: Key)
    requires gone <= t.rows.Keys && k in t.rows && k !in gone
    ensures Expire(DropRows(t, gone).(c := CountExpired(t.c, |gone|)), k)
              == DropRows(t, gone + {k}).(c := CountExpired(t.c, |gone + {k}|))
  {
    DropMore(t, gone, k);
  }

  lemma DueTest(rows: Table, clk: Readings, k: Key)
    requires k in rows
    ensures k in DueRows(rows, clk) <==> Expired(EntryOf(rows[k]), clk.At(k))
  {
  }

  lemma DueDone(rows: Table, clk: Readings)
    ensures DueRows(rows, clk) <= rows.Keys && DueRows(rows, clk) - rows.Keys == {}
  {
  }

  lemma DropNothing(t: Sql)
    ensures DropRows(t, {}) == t
  {
  }

  lemma {:induction false} EvictToFitRemoves(pick: Pick, t: Sql, required: int, max: int)
    ensures forall k :: k in EvictToFit(pick, t, required, max).rows ==>
              k in t.rows && EvictToFit(pick, t, required, max).rows[k] == t.rows[k]
    decreases |t.rows|
  {
    if t.bytes + required > max && pick(t.rows) in t.rows {
      Shrinks(t.rows, pick(t.rows));
      EvictToFitRemoves(pick, EvictOne(pick, t), required, max);
    }
  }

  lemma {:induction false} EvictToCountRemoves(pick: Pick, t: Sql, maxItems: int)
    ensures forall k :: k in EvictToCount(pick, t, maxItems).rows ==>
              k in t.rows && EvictToCount(pick, t, maxItems).rows[k] == t.rows[k]
    decreases |t.rows|
  {
    if t.count >= maxItems && pick(t.rows) in t.rows {
      Shrinks(t.rows, pick(t.rows));
      EvictToCountRemoves(pick, EvictOne(pick, t), maxItems);
    }
  }

  lemma FitsAlready(pick: Pick, t: Sql, required: int, max: int)
    requires t.bytes + required <= max
    ensures EvictToFit(pick, t, required, max) == t
  {
  }

  /** The four ways a write can end. */
  lemma PutCases(lim: Limits, t: Sql, key: Key, value: Bytes, ttl: Option<int>, clk: Readings, pick: Pick)
    ensures var r := Put(lim, t, key, value, ttl, clk, pick);
            var entry := MakeEntry(value, ttl, clk.stamp);
            var fit := EvictToFit(pick, RemoveRow(t, key), Size(entry), lim.maxMemoryBytes);
            var room := EvictToCount(pick, fit, lim.maxItems);
            if Size(entry) > lim.maxValueBytes then
              r == (t.(c := t.c.(rejectedOversize := t.c.rejectedOversize + 1)), ValueTooLarge)
            else if fit.bytes + Size(entry) > lim.maxMemoryBytes then
              r == (CountCapacity(if key in t.rows then AddRow(fit, key, t.rows[key]) else fit), CapacityExhausted)
            else if key in t.rows then
              r == (AddRow(fit, key, NewRow(entry, clk.used)), Ok)
            else if room.count >= lim.maxItems then
              r == (CountCapacity(room), CapacityExhausted)
            else
              r == (AddRow(room, key, NewRow(entry, clk.used)), Ok)
  {
  }
}
