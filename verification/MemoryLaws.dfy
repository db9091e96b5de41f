/** Laws of the in-memory store's building blocks: removals compose, keep the byte total exact,
    and evicting one at a time is evicting a prefix at once. */
module MemoryLaws {
  import opened Types
  import opened Entries
  import opened Order
  import opened MemorySpec

  lemma {:induction false} TotalAppend(s: seq<Key>, t: seq<Key>, m: map<Key, Entry>)
    ensures Total(s + t, m) == Total(s, m) + Total(t, m)
  {
    if s == [] {
      assert s + t == t;
    } else {
      assert (s + t)[1..] == s[1..] + t;
      TotalAppend(s[1..], t, m);
    }
  }

  lemma TotalCons(h: Key, t: seq<Key>, m: map<Key, Entry>)
    ensures Total([h] + t, m) == SizeAt(m, h) + Total(t, m)
  {
  }

  lemma {:induction false} TotalAgree(s: seq<Key>, m: map<Key, Entry>, m': map<Key, Entry>)
    requires forall k :: k in s ==> SizeAt(m, k) == SizeAt(m', k)
    ensures Total(s, m) == Total(s, m')
  {
    if s != [] {
      TotalAgree(s[1..], m, m');
    }
  }

  /** Bytes are neither lost nor invented when a sequence is split in two. */
  lemma {:induction false} TotalSplit(s: seq<Key>, a: set<Key>, b: set<Key>, m: map<Key, Entry>)
    requires forall k :: k in s ==> (k in a <==> k !in b)
    ensures Total(s, m) == Total(Keep(s, a), m) + Total(Keep(s, b), m)
  {
    if s != [] {
      TotalSplit(s[1..], a, b, m);
      TotalCons(s[0], Keep(s[1..], a), m);
      TotalCons(s[0], Keep(s[1..], b), m);
      assert [] + Keep(s[1..], a) == Keep(s[1..], a) && [] + Keep(s[1..], b) == Keep(s[1..], b);
      assert s[0] in s;
    }
  }

  lemma {:induction false} TotalNonNegative(s: seq<Key>, m: map<Key, Entry>)
    ensures Total(s, m) >= 0
  {
    if s != [] {
      TotalNonNegative(s[1..], m);
    }
  }

  lemma DropWellFormed(s: Mem, gone: set<Key>)
    requires WellFormed(s)
    ensures WellFormed(Drop(s, gone))
    ensures Drop(s, gone).bytes <= s.bytes && |Drop(s, gone).order| <= |s.order|
  {
    var left := s.entries.Keys - gone;
    KeepNoDup(s.order, left);
    KeepIn(s.order, left);
    TotalSplit(s.order, left, gone, s.entries);
    TotalAgree(Keep(s.order, left), s.entries, s.entries - gone);
    TotalNonNegative(Keep(s.order, gone), s.entries);
    assert (s.entries - gone).Keys == left;
    assert Elems(Keep(s.order, left)) == left by {
      forall k ensures k in Elems(Keep(s.order, left)) <==> k in left {
        assert k in left ==> k in Elems(s.order);
      }
    }
  }

  /** A well-formed state is determined by its order, its entries and its counters. */
  lemma SameState(s: Mem, t: Mem)
    requires WellFormed(s) && WellFormed(t)
    requires s.order == t.order && s.entries == t.entries && s.c == t.c
    ensures s == t
  {
  }

  lemma DropDrop(s: Mem, a: set<Key>, b: set<Key>)
    requires WellFormed(s)
    ensures Drop(Drop(s, a), b) == Drop(s, a + b)
  {
    var t, u := Drop(Drop(s, a), b), Drop(s, a + b);
    assert WellFormed(t) by {
      DropWellFormed(s, a);
      DropWellFormed(Drop(s, a), b);
    }
    assert WellFormed(u) by {
      DropWellFormed(s, a + b);
    }
    MinusMinus(s.entries, a, b);
    assert t.order == u.order by {
      var left, rest := s.entries.Keys - a, s.entries.Keys - (a + b);
      assert (s.entries - a).Keys == left;
      KeepKeep(s.order, left, left - b);
      assert left * (left - b) == rest;
    }
    SameState(t, u);
  }

  lemma DropNone(s: Mem, gone: set<Key>)
    requires WellFormed(s) && gone !! s.entries.Keys
    ensures Drop(s, gone) == s
  {
    DropWellFormed(s, gone);
    assert s.entries - gone == s.entries;
    forall k | k in s.order ensures k in s.entries.Keys - gone {
      assert k in Elems(s.order);
    }
    KeepAll(s.order, s.entries.Keys - gone);
  }

  lemma EvictOldestOrder(s: Mem, n: nat)
    requires WellFormed(s) && n <= |s.order|
    ensures WellFormed(EvictOldest(s, n))
    ensures EvictOldest(s, n).order == s.order[n..]
    ensures EvictOldest(s, n).entries.Keys == Elems(s.order[n..]) <= s.entries.Keys
  {
    var gone := Elems(s.order[..n]);
    DropWellFormed(s, gone);
    assert Keep(s.order, s.entries.Keys - gone) == s.order[n..] by {
      forall k | k in s.order ensures k in s.entries.Keys - gone <==> k !in s.order[..n] {
        assert k in Elems(s.order);
      }
      KeepSuffix(s.order, n, s.entries.Keys - gone);
    }
  }

  lemma EvictOldestBytes(s: Mem, n: nat)
    requires WellFormed(s) && n <= |s.order|
    ensures EvictOldest(s, n).bytes == s.bytes - Total(s.order[..n], s.entries) == Total(s.order[n..], s.entries)
  {
    assert s.order == s.order[..n] + s.order[n..];
    TotalAppend(s.order[..n], s.order[n..], s.entries);
    KeepPrefix(s.order, n);
  }

  lemma EvictCounts(s: Mem, n: nat)
    requires n < |s.order| && EvictOldest(s, n).order != []
    ensures EvictOldest(EvictOldest(s, n), 1).c == EvictOldest(s, n + 1).c
  {
  }

  lemma EvictOneMore(s: Mem, n: nat)
    requires WellFormed(s) && n < |s.order|
    ensures EvictOldest(s, n).order != []
    ensures EvictOldest(EvictOldest(s, n), 1) == EvictOldest(s, n + 1)
  {
    EvictOldestOrder(s, n);
    var e := EvictOldest(s, n);
    EvictCounts(s, n);
    var t, u := EvictOldest(e, 1), EvictOldest(s, n + 1);
    assert WellFormed(t) && t.order == s.order[n..][1..] by {
      EvictOldestOrder(e, 1);
    }
    assert WellFormed(u) && u.order == s.order[n + 1..] by {
      EvictOldestOrder(s, n + 1);
    }
    assert t.entries == u.entries by {
      PrefixElems(s.order, n);
      MinusMinus(s.entries, Elems(s.order[..n]), Elems(s.order[n..][..1]));
    }
    assert t.order == u.order by {
      SliceSlice(s.order, n);
    }
    SameState(t, u);
  }

  lemma DropKeys(s: Mem, gone: set<Key>)
    ensures Drop(s, gone).entries.Keys == s.entries.Keys - gone
    ensures Drop(s, gone).c == s.c
  {
  }

  lemma DropRecount(s: Mem, c: Counters, gone: set<Key>)
    ensures Drop(s.(c := c), gone) == Drop(s, gone).(c := c)
  {
  }

  /** `s` after the first `n` removals of a purge. */
  function PartlyPurged(s: Mem, expired: seq<Key>, n: nat): Mem
    requires n <= |expired|
  {
    Drop(s, Elems(expired[..n])).(c := CountExpired(s.c, n))
  }

  lemma PurgeSteps(s: Mem, expired: seq<Key>, clk: Readings)
    requires WellFormed(s) && NoDup(expired) && Elems(expired) == Due(s.entries, clk)
    ensures Elems(expired) <= s.entries.Keys
    ensures PartlyPurged(s, expired, 0) == s && PartlyPurged(s, expired, |expired|) == Purge(s, clk)
  {
    DropNone(s, {});
    assert expired[..0] == [] && expired[..|expired|] == expired;
    assert Elems(expired[..0]) == {};
    ElemsCount(expired);
    hide Consistent, NoDup, Drop;
  }

  /** One more removal in the purge of a list of distinct held keys. */
  lemma ExpireMore(s: Mem, expired: seq<Key>, i: nat)
    requires WellFormed(s) && NoDup(expired) && Elems(expired) <= s.entries.Keys && i < |expired|
    ensures var t := PartlyPurged(s, expired, i);
            expired[i] in t.entries && Expire(t, expired[i]) == PartlyPurged(s, expired, i + 1)
  {
    var k, gone := expired[i], Elems(expired[..i]);
    NextKey(expired, i);
    hide Consistent, NoDup, Drop, Elems;
    DropDrop(s, gone, {k});
    DropRecount(Drop(s, gone), CountExpired(s.c, i), {k});
    DropKeys(s, gone);
  }

  lemma NextKey(expired: seq<Key>, i: nat)
    requires NoDup(expired) && i < |expired|
    ensures Elems(expired[..i + 1]) == Elems(expired[..i]) + {expired[i]}
    ensures expired[i] in Elems(expired) && expired[i] !in Elems(expired[..i])
  {
    PrefixDistinct(expired, i);
    assert expired[..i + 1] == expired[..i] + [expired[i]];
  }

  lemma OldEntryNormalised(s: Mem, k: Key)
    requires WellFormed(s) && k in s.entries
    ensures Normalised(s.entries[k])
  {
  }

  lemma DropOne(s: Mem, k: Key)
    requires WellFormed(s) && k in s.entries
    ensures Drop(s, {k}).bytes == s.bytes - Size(s.entries[k])
  {
    assert k in Elems(s.order);
    SingleKeep(s.order, k);
    TotalCons(k, [], s.entries);
    assert [k] + [] == [k];
  }

  lemma EvictNone(s: Mem)
    requires WellFormed(s)
    ensures EvictOldest(s, 0) == s
  {
    DropNone(s, Elems(s.order[..0]));
  }

  lemma AppendWellFormed(s: Mem, k: Key, e: Entry)
    requires WellFormed(s) && k !in s.entries && Normalised(e)
    ensures WellFormed(Append(s, k, e))
  {
    assert k !in Elems(s.order);
    NoDupAppend(s.order, [k]);
    TotalAppend(s.order, [k], s.entries[k := e]);
    TotalAgree(s.order, s.entries, s.entries[k := e]);
    assert Elems(s.order + [k]) == Elems(s.order) + {k};
  }

  /** Putting an entry back where it was taken from is moving it to the end. */
  lemma ReinsertMovesToEnd(s: Mem, k: Key)
    requires WellFormed(s) && k in s.entries
    ensures Append(Drop(s, {k}), k, s.entries[k]) == MoveToEnd(s, k)
    ensures WellFormed(MoveToEnd(s, k))
  {
    DropWellFormed(s, {k});
    AppendWellFormed(Drop(s, {k}), k, s.entries[k]);
    assert (s.entries - {k})[k := s.entries[k]] == s.entries;
    assert Drop(s, {k}).bytes + Size(s.entries[k]) == s.bytes by {
      TotalAppend(Keep(s.order, s.entries.Keys - {k}), [k], s.entries);
      TotalSplit(s.order, s.entries.Keys - {k}, {k}, s.entries);
      SingleKeep(s.order, k);
    }
  }

  lemma SingleKeep(s: seq<Key>, k: Key)
    requires NoDup(s) && k in s
    ensures Keep(s, {k}) == [k]
  {
    var i :| 0 <= i < |s| && s[i] == k;
    assert s == s[..i] + [k] + s[i + 1..];
    NoDupAppend(s[..i] + [k], s[i + 1..]);
    NoDupAppend(s[..i], [k]);
    KeepAppend(s[..i] + [k], s[i + 1..], {k});
    KeepAppend(s[..i], [k], {k});
    KeepNone(s[..i], {k});
    KeepNone(s[i + 1..], {k});
  }

  /** `BytesDrop` is the least prefix whose removal frees `excess` bytes. */
  lemma {:induction false} BytesDropIsLeast(order: seq<Key>, m: map<Key, Entry>, excess: int)
    ensures var n := BytesDrop(order, m, excess);
            && (n < |order| || excess <= Total(order, m) ==> Total(order[..n], m) >= excess)
            && forall i :: 0 <= i < n ==> Total(order[..i], m) < excess
  {
    if order != [] && excess > 0 {
      var h, t := order[0], order[1..];
      BytesDropIsLeast(t, m, excess - SizeAt(m, h));
      forall i | 0 < i <= |order| ensures Total(order[..i], m) == SizeAt(m, h) + Total(t[..i - 1], m) {
        assert order[..i][1..] == t[..i - 1];
      }
    }
  }

  /** One iteration of the eviction loop, seen from the start of the loop. */
  lemma NextVictim(s: Mem, n: nat)
    requires WellFormed(s) && n < |s.order|
    ensures EvictOldest(s, n + 1).bytes == EvictOldest(s, n).bytes - SizeAt(s.entries, s.order[n])
    ensures forall excess :: excess > 0 ==>
              BytesDrop(s.order[n..], s.entries, excess)
                == 1 + BytesDrop(s.order[n + 1..], s.entries, excess - SizeAt(s.entries, s.order[n]))
  {
    EvictOldestBytes(s, n);
    EvictOldestBytes(s, n + 1);
    assert s.order[n..][1..] == s.order[n + 1..];
  }

  lemma NoVictim(order: seq<Key>, m: map<Key, Entry>, excess: int)
    requires order == [] || excess <= 0
    ensures BytesDrop(order, m, excess) == 0
  {
  }

  // How a write ends, by the size of its value.

  lemma PutRefuses(lim: Limits, s: Mem, key: Key, value: Bytes, ttl: Option<int>, now: Time)
    requires SizeOfValue(value) > lim.maxValueBytes
    ensures key in s.entries ==>
              Put(lim, s, key, value, ttl, now) == (CountOversize(MoveToEnd(s, key)), ValueTooLarge)
    ensures key !in s.entries ==> Put(lim, s, key, value, ttl, now) == (CountOversize(s), ValueTooLarge)
  {
  }

  lemma PutExhausts(lim: Limits, s: Mem, key: Key, value: Bytes, ttl: Option<int>, now: Time)
    requires SizeOfValue(value) <= lim.maxValueBytes
    requires SizeOfValue(value) > lim.maxMemoryBytes || (key !in s.entries && lim.maxItems < 1)
    ensures Put(lim, s, key, value, ttl, now) == (Exhaust(s, key), CapacityExhausted)
  {
  }

  lemma PutAdmits(lim: Limits, s: Mem, key: Key, value: Bytes, ttl: Option<int>, now: Time)
    requires SizeOfValue(value) <= lim.maxValueBytes && SizeOfValue(value) <= lim.maxMemoryBytes
    requires key !in s.entries ==> lim.maxItems >= 1
    ensures var base := Drop(s, {key});
            var n := Victims(lim, base, SizeOfValue(value), key !in s.entries);
            Put(lim, s, key, value, ttl, now) == (Append(EvictOldest(base, n), key, MakeEntry(value, ttl, now)), Ok)
  {
  }

  /** How many evictions each kind of write needs, in terms of its two loops. */
  lemma VictimsByLoop(lim: Limits, base: Mem, size: int)
    ensures var fit := BytesDrop(base.order, base.entries, base.bytes + size - lim.maxMemoryBytes);
            && Victims(lim, base, size, false) == fit
            && (lim.maxItems >= 1 ==> Victims(lim, base, size, true) == Max(fit, CountDrop(|base.order|, lim.maxItems)))
  {
  }

  /** The eviction loop stops because the bytes fit, or on an empty store, where nothing is counted. */
  lemma FitOrEmpty(s: Mem, size: int, max: int)
    requires WellFormed(s) && size > 0
    ensures var n := BytesDrop(s.order, s.entries, s.bytes + size - max);
            && (size <= max <==> EvictOldest(s, n).bytes + size <= max)
            && (size > max ==> n == |s.order|)
  {
    var n := BytesDrop(s.order, s.entries, s.bytes + size - max);
    BytesDropIsLeast(s.order, s.entries, s.bytes + size - max);
    EvictOldestBytes(s, n);
    TotalNonNegative(s.order[n..], s.entries);
    if n < |s.order| {
      assert s.order == s.order[..n] + s.order[n..];
      TotalAppend(s.order[..n], s.order[n..], s.entries);
    }
  }
}
