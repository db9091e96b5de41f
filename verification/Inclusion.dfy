/** The inclusion property of LRU: of two in-memory stores fed the same calls, the one with fewer item
    slots always holds a sub-dictionary of the other, in the same order. */
module Inclusion {
  import opened Types
  import opened Entries
  import opened Order
  import opened Validation
  import opened MemorySpec
  import opened MemoryLaws
  import opened MemoryTheorems

  /** `s` is the small store, `l` the large one; `n` and `m` are their item limits. */
  ghost predicate Included(n: nat, m: nat, s: Mem, l: Mem) {
    && WellFormed(s) && WellFormed(l)
    && SubDict(s.entries, l.entries)
    && s.order == Keep(l.order, s.entries.Keys)
    && |l.entries| - |s.entries| <= m - n
    && |s.entries| <= n && |l.entries| <= m
  }

  ghost predicate SubDict(a: map<Key, Entry>, b: map<Key, Entry>) {
    a.Keys <= b.Keys && forall k :: k in a ==> a[k] == b[k]
  }

  ghost predicate ValuesFit(lim: Limits, m: map<Key, Entry>) {
    forall k :: k in m ==> Size(m[k]) <= lim.maxValueBytes
  }

  lemma {:induction false} TotalIsBounded(order: seq<Key>, m: map<Key, Entry>, max: int)
    requires max >= 0 && forall k :: k in order && k in m ==> Size(m[k]) <= max
    ensures Total(order, m) <= |order| * max
  {
    if order != [] {
      TotalIsBounded(order[1..], m, max);
      assert order[0] in order;
      assert (|order| - 1) * max + max == |order| * max;
    }
  }

  /** A filter of both orders, followed by the same tail, keeps the small order inside the large one. */
  lemma KeepInside(lo: seq<Key>, keys: set<Key>, r: set<Key>, e: set<Key>, k: Key)
    requires e <= r && e <= keys && k !in r
    ensures Keep(Keep(lo, r), e) == Keep(Keep(lo, keys), e) == Keep(lo, e)
    ensures Keep(Keep(lo, r) + [k], e) == Keep(lo, e)
    ensures Keep(Keep(lo, r) + [k], e + {k}) == Keep(Keep(lo, keys), e) + [k]
  {
    KeepKeep(lo, r, e);
    KeepKeep(lo, keys, e);
    assert r * e == e == keys * e;
    KeepAppend(Keep(lo, r), [k], e);
    KeepNone([k], e);
    KeepAppend(Keep(lo, r), [k], e + {k});
    KeepAll([k], e + {k});
    KeepIn(lo, r);
    KeepAgree(Keep(lo, r), e, e + {k});
  }

  /** A store under these limits runs out of item slots before it runs out of bytes. */
  ghost predicate Ample(lim: Limits) {
    (lim.maxItems + 1) * lim.maxValueBytes <= lim.maxMemoryBytes
  }

  /** What an admitted write does when the byte limit cannot bind. */
  ghost predicate Shifted(s: Mem, key: Key, e: Entry, max: nat, t: Mem) {
    var others := t.entries.Keys - {key};
    && key in t.entries && t.entries[key] == e
    && t.order == Keep(s.order, others) + [key]
    && others <= s.entries.Keys - {key}
    && (forall k :: k in others ==> t.entries[k] == s.entries[k])
    && (others == s.entries.Keys - {key} ||
        (key !in s.entries && |s.entries| == max && s.order != [] && others == s.entries.Keys - {s.order[0]}))
    && (key !in s.entries && |s.entries| >= max ==> others != s.entries.Keys - {key})
  }

  lemma BytesNeverBind(lim: Limits, s: Mem, key: Key, size: int, i: nat)
    requires WellFormed(s) && ValidLimits(lim) && ValuesFit(lim, s.entries) && size <= lim.maxValueBytes
    requires |s.entries| <= lim.maxItems && Ample(lim)
    requires i <= |Keep(s.order, s.entries.Keys - {key})|
    ensures var L := Keep(s.order, s.entries.Keys - {key});
            Room(lim, L, s.entries, i, size, key !in s.entries) <==>
              (key !in s.entries ==> |s.entries| - i + 1 <= lim.maxItems)
  {
    var L := Keep(s.order, s.entries.Keys - {key});
    OrderCount(s);
    DropCount(s, key);
    TotalIsBounded(L[i..], s.entries, lim.maxValueBytes);
    hide Consistent, Total, Keep;
    RoomForOneMore(|L[i..]|, lim.maxItems, lim.maxValueBytes, Total(L[i..], s.entries), size, lim.maxMemoryBytes);
  }

  lemma RoomForOneMore(count: nat, slots: int, each: int, total: int, size: int, max: int)
    requires count <= slots && each >= 0 && total <= count * each && size <= each && (slots + 1) * each <= max
    ensures total + size <= max
  {
  }

  lemma PutShifts(lim: Limits, s: Mem, key: Key, value: Bytes, ttl: Option<int>, now: Time)
    requires WellFormed(s) && ValidLimits(lim) && ValuesFit(lim, s.entries) && SizeOfValue(value) <= lim.maxValueBytes
    requires |s.entries| <= lim.maxItems && Ample(lim)
    ensures var (t, status) := Put(lim, s, key, value, ttl, now);
            status == Ok && WellFormed(t) && Shifted(s, key, MakeEntry(value, ttl, now), lim.maxItems, t)
  {
    var left := s.entries.Keys - {key};
    var L := Keep(s.order, left);
    var t := Put(lim, s, key, value, ttl, now).0;
    var e := MakeEntry(value, ttl, now);
    var isNew := key !in s.entries;
    StoreEvictsTheLeastPrefix(lim, s, key, value, ttl, now);
    PutStores(lim, s, key, value, ttl, now);
    var n: nat :| StoredAfter(s, key, e, n, t)
      && Room(lim, L, s.entries, n, Size(e), isNew)
      && forall i :: 0 <= i < n ==> !Room(lim, L, s.entries, i, Size(e), isNew);
    BytesNeverBind(lim, s, key, Size(e), n);
    BytesNeverBind(lim, s, key, Size(e), 0);
    OrderCount(s);
    DropCount(s, key);
    if n > 1 {
      BytesNeverBind(lim, s, key, Size(e), 1);
    }
    hide Put, Room, Consistent;
    OrderDistinct(s);
    ShiftByOne(s, key, e, n, lim.maxItems, t);
  }

  lemma ShiftByOne(s: Mem, key: Key, e: Entry, n: nat, max: nat, t: Mem)
    requires NoDup(s.order) && Elems(s.order) == s.entries.Keys && |s.order| == |s.entries|
    requires StoredAfter(s, key, e, n, t) && n <= 1
    requires n == 0 <==> key in s.entries || |s.entries| < max
    requires |s.entries| <= max
    ensures Shifted(s, key, e, max, t)
  {
    var left := s.entries.Keys - {key};
    var L := Keep(s.order, left);
    var others := t.entries.Keys - {key};
    OthersAre(s.order, s.entries.Keys, key, n);
    assert others == Elems(L[n..]);
    hide NoDup, Elems, Keep;
  }

  lemma OthersAre(order: seq<Key>, keys: set<Key>, key: Key, n: nat)
    requires NoDup(order) && Elems(order) == keys && n <= |Keep(order, keys - {key})|
    ensures var L := Keep(order, keys - {key});
            && key !in Elems(L[n..]) && Elems(L[n..]) <= keys - {key}
            && Keep(order, Elems(L[n..])) == L[n..]
            && (n == 0 ==> Elems(L[n..]) == keys - {key})
            && (n == 1 && key !in keys ==>
                order != [] && Elems(L[n..]) == keys - {order[0]} && Elems(L[n..]) != keys - {key})
  {
    var left := keys - {key};
    var L := Keep(order, left);
    KeepIn(order, left);
    KeepNoDup(order, left);
    SliceNoDup(L, n);
    assert Elems(L) == left;
    KeepSuffix(L, n, Elems(L[n..]));
    KeepKeep(order, left, Elems(L[n..]));
    assert left * Elems(L[n..]) == Elems(L[n..]);
    if n == 1 && key !in keys {
      KeepAll(order, left);
      assert L[..1] == [L[0]];
      assert Elems(L[..1]) == {L[0]};
    }
  }

  // The shapes a pair of steps can take.

  /** Both lose keys; the small one keeps no key the large one loses. */
  lemma BothDrop(n: nat, m: nat, s: Mem, l: Mem, gone: set<Key>, gone': set<Key>)
    requires Included(n, m, s, l)
    requires gone <= s.entries.Keys && gone' <= l.entries.Keys && gone == gone' * s.entries.Keys
    ensures Included(n, m, Drop(s, gone), Drop(l, gone'))
  {
    DropWellFormed(s, gone);
    DropWellFormed(l, gone');
    DropKeys(s, gone);
    DropSub(s.entries, l.entries, gone, gone');
    DropOrders(s, l, gone, gone');
    DropCounts(s.entries, l.entries, gone, gone');
    assert Drop(s, gone).entries == s.entries - gone && Drop(l, gone').entries == l.entries - gone';
    hide Consistent, Keep, Drop, SubDict;
  }

  lemma DropOrders(s: Mem, l: Mem, gone: set<Key>, gone': set<Key>)
    requires s.order == Keep(l.order, s.entries.Keys) && gone == gone' * s.entries.Keys
    requires s.entries.Keys <= l.entries.Keys
    ensures Drop(s, gone).order == Keep(Drop(l, gone').order, s.entries.Keys - gone)
  {
    var e, r := s.entries.Keys - gone, l.entries.Keys - gone';
    KeepKeep(l.order, r, e);
    KeepKeep(l.order, s.entries.Keys, e);
    assert r * e == e == s.entries.Keys * e;
  }

  lemma DropCounts(a: map<Key, Entry>, b: map<Key, Entry>, gone: set<Key>, gone': set<Key>)
    requires gone <= a.Keys && gone' <= b.Keys && gone == gone' * a.Keys
    ensures |b - gone'| - |a - gone| <= |b| - |a| && |a - gone| <= |a| && |b - gone'| <= |b|
  {
    MinusCount(a, gone);
    MinusCount(b, gone');
    assert gone' == gone + (gone' - gone);
  }

  lemma DropSub(a: map<Key, Entry>, b: map<Key, Entry>, gone: set<Key>, gone': set<Key>)
    requires SubDict(a, b) && gone == gone' * a.Keys
    ensures SubDict(a - gone, b - gone')
  {
  }

  lemma MinusCount(m: map<Key, Entry>, gone: set<Key>)
    requires gone <= m.Keys
    ensures |m - gone| == |m| - |gone|
  {
  }

  lemma LargeMoves(n: nat, m: nat, s: Mem, l: Mem, k: Key)
    requires Included(n, m, s, l) && k in l.entries && k !in s.entries
    ensures Included(n, m, s, MoveToEnd(l, k))
  {
    var r, e := l.entries.Keys - {k}, s.entries.Keys;
    ReinsertMovesToEnd(l, k);
    MoveFrame(l, k);
    KeepInside(l.order, e, r, e, k);
    KeepKeep(l.order, e, e);
    assert e * e == e;
  }

  lemma BothMove(n: nat, m: nat, s: Mem, l: Mem, k: Key)
    requires Included(n, m, s, l) && k in s.entries
    ensures Included(n, m, MoveToEnd(s, k), MoveToEnd(l, k))
  {
    ReinsertMovesToEnd(s, k);
    ReinsertMovesToEnd(l, k);
    MoveFrame(s, k);
    MoveFrame(l, k);
    MoveOrders(s, l, k);
    hide Consistent, Keep, MoveToEnd;
  }

  lemma MoveOrders(s: Mem, l: Mem, k: Key)
    requires s.order == Keep(l.order, s.entries.Keys) && k in s.entries && s.entries.Keys <= l.entries.Keys
    ensures MoveToEnd(s, k).order == Keep(MoveToEnd(l, k).order, s.entries.Keys)
  {
    var r, e := l.entries.Keys - {k}, s.entries.Keys - {k};
    KeepInside(l.order, s.entries.Keys, r, e, k);
    assert e + {k} == s.entries.Keys;
  }

  lemma Recounted(n: nat, m: nat, s: Mem, l: Mem, c: Counters, c': Counters)
    requires Included(n, m, s, l)
    ensures Included(n, m, s.(c := c), l.(c := c'))
  {
  }

  lemma IncludedParts(n: nat, m: nat, s: Mem, l: Mem, k: Key)
    requires Included(n, m, s, l)
    ensures WellFormed(s) && WellFormed(l) && s.entries.Keys <= l.entries.Keys
    ensures k in s.entries ==> k in l.entries && s.entries[k] == l.entries[k]
    ensures |s.entries| <= n && |l.entries| <= m
  {
  }

  /** If the large store evicts, the small one is full and evicts too, and never keeps the key the
      large one loses. */
  lemma SmallLosesToo(n: nat, m: nat, s: Mem, l: Mem, k: Key, e: Entry, s': Mem, l': Mem)
    requires Included(n, m, s, l) && Shifted(s, k, e, n, s') && Shifted(l, k, e, m, l')
    ensures s'.entries.Keys - {k} <= l'.entries.Keys - {k}
  {
  }

  lemma StoredCount(s: Mem, k: Key, e: Entry, max: nat, t: Mem)
    requires Shifted(s, k, e, max, t) && WellFormed(s)
    ensures |t.entries| == if k in s.entries || |s.entries| >= max then |s.entries| else |s.entries| + 1
    ensures k !in s.entries && |s.entries| >= max ==> |s.entries| == max
  {
    hide Keep;
    var others := t.entries.Keys - {k};
    assert t.entries.Keys == others + {k};
    assert |t.entries.Keys| == |t.entries| && |s.entries.Keys| == |s.entries|;
    if k in s.entries {
      assert s.entries.Keys == (s.entries.Keys - {k}) + {k};
    } else if |s.entries| >= max {
      assert s.order[0] in Elems(s.order);
      assert s.entries.Keys == (s.entries.Keys - {s.order[0]}) + {s.order[0]};
    } else {
      assert s.entries.Keys - {k} == s.entries.Keys;
    }
  }

  lemma StoredOrders(s: Mem, l: Mem, k: Key, e: Entry, n: nat, m: nat, s': Mem, l': Mem)
    requires s.order == Keep(l.order, s.entries.Keys)
    requires Shifted(s, k, e, n, s') && Shifted(l, k, e, m, l')
    requires s'.entries.Keys - {k} <= l'.entries.Keys - {k}
    ensures s'.order == Keep(l'.order, s'.entries.Keys)
  {
    var r, others := l'.entries.Keys - {k}, s'.entries.Keys - {k};
    KeepInside(l.order, s.entries.Keys, r, others, k);
    assert others + {k} == s'.entries.Keys;
  }

  lemma BothStore(n: nat, m: nat, s: Mem, l: Mem, k: Key, e: Entry, s': Mem, l': Mem)
    requires n <= m && Included(n, m, s, l) && WellFormed(s') && WellFormed(l')
    requires Shifted(s, k, e, n, s') && Shifted(l, k, e, m, l')
    ensures Included(n, m, s', l')
  {
    IncludedParts(n, m, s, l, k);
    SmallLosesToo(n, m, s, l, k, e, s', l');
    StoredCount(s, k, e, n, s');
    StoredCount(l, k, e, m, l');
    StoredOrders(s, l, k, e, n, m, s', l');
    StoredSub(s, l, k, e, n, m, s', l');
    hide Consistent, Keep, Shifted, SubDict;
  }

  lemma StoredSub(s: Mem, l: Mem, k: Key, e: Entry, n: nat, m: nat, s': Mem, l': Mem)
    requires SubDict(s.entries, l.entries) && Shifted(s, k, e, n, s') && Shifted(l, k, e, m, l')
    requires s'.entries.Keys - {k} <= l'.entries.Keys - {k}
    ensures SubDict(s'.entries, l'.entries)
  {
    hide Keep;
    forall x | x in s'.entries.Keys ensures x in l'.entries.Keys && s'.entries[x] == l'.entries[x] {
      if x != k {
        assert x in s'.entries.Keys - {k} && x in l'.entries.Keys - {k};
      }
    }
  }

  lemma LargeStores(n: nat, m: nat, s: Mem, l: Mem, k: Key, e: Entry, l': Mem)
    requires Included(n, m, s, l) && k in l.entries && k !in s.entries && Shifted(l, k, e, m, l') && WellFormed(l')
    ensures Included(n, m, s, l')
  {
    StoredCount(l, k, e, m, l');
    LargeStoresOrder(s, l, k, e, m, l');
    hide Consistent, Keep, Shifted, SubDict;
  }

  lemma LargeStoresOrder(s: Mem, l: Mem, k: Key, e: Entry, m: nat, l': Mem)
    requires s.order == Keep(l.order, s.entries.Keys) && SubDict(s.entries, l.entries)
    requires k in l.entries && k !in s.entries && Shifted(l, k, e, m, l')
    ensures s.order == Keep(l'.order, s.entries.Keys) && SubDict(s.entries, l'.entries)
  {
    var r := l'.entries.Keys - {k};
    KeepInside(l.order, s.entries.Keys, r, s.entries.Keys, k);
    KeepKeep(l.order, s.entries.Keys, s.entries.Keys);
    assert s.entries.Keys * s.entries.Keys == s.entries.Keys;
    hide Keep;
    forall x | x in s.entries.Keys ensures x in l'.entries.Keys && s.entries[x] == l'.entries[x] {
      assert x in r;
    }
  }

  // The steps.

  function WithSlots(lim: Limits, n: nat): Limits {
    lim.(maxItems := n)
  }

  /** The byte limit cannot bind a store of `m` items. */
  ghost predicate BytesAmple(lim: Limits, n: nat, m: nat) {
    1 <= n <= m && ValidLimits(lim) && Ample(WithSlots(lim, m))
  }

  lemma FitsToo(lim: Limits, n: nat, m: nat)
    requires BytesAmple(lim, n, m)
    ensures ValidLimits(WithSlots(lim, n)) && ValidLimits(WithSlots(lim, m))
    ensures Ample(WithSlots(lim, n)) && Ample(WithSlots(lim, m)) && n <= m
  {
  }

  lemma SmallFits(lim: Limits, n: nat, m: nat, s: Mem, l: Mem)
    requires Included(n, m, s, l) && ValuesFit(lim, l.entries)
    ensures ValuesFit(lim, s.entries) && WellFormed(s) && WellFormed(l) && |s.entries| <= n && |l.entries| <= m
  {
  }

  lemma StoreIncluded(lim: Limits, n: nat, m: nat, s: Mem, l: Mem, key: Key, value: Bytes, ttl: Option<int>, now: Time)
    requires BytesAmple(lim, n, m) && Included(n, m, s, l) && ValuesFit(lim, l.entries)
    requires SizeOfValue(value) <= lim.maxValueBytes
    ensures var (s', r) := Put(WithSlots(lim, n), s, key, value, ttl, now);
            var (l', r') := Put(WithSlots(lim, m), l, key, value, ttl, now);
            && r == r' && Included(n, m, s', l')
            && (key in l.entries && key !in s.entries ==> Included(n, m, s, l'))
  {
    var (s', r) := Put(WithSlots(lim, n), s, key, value, ttl, now);
    var (l', r') := Put(WithSlots(lim, m), l, key, value, ttl, now);
    FitsToo(lim, n, m);
    hide Put, Included, Shifted, Consistent, ValuesFit, Ample, BytesAmple;
    SmallFits(lim, n, m, s, l);
    FitsEither(lim, n, s.entries);
    FitsEither(lim, m, l.entries);
    PutShifts(WithSlots(lim, n), s, key, value, ttl, now);
    PutShifts(WithSlots(lim, m), l, key, value, ttl, now);
    BothStore(n, m, s, l, key, MakeEntry(value, ttl, now), s', l');
    if key in l.entries && key !in s.entries {
      LargeStores(n, m, s, l, key, MakeEntry(value, ttl, now), l');
    }
  }

  lemma FitsEither(lim: Limits, slots: nat, m: map<Key, Entry>)
    ensures ValuesFit(WithSlots(lim, slots), m) <==> ValuesFit(lim, m)
  {
  }

  lemma PutIncluded(lim: Limits, n: nat, m: nat, s: Mem, l: Mem, key: Key, value: Bytes, ttl: Option<int>, now: Time)
    requires BytesAmple(lim, n, m) && Included(n, m, s, l) && ValuesFit(lim, l.entries)
    ensures var (s', r) := Put(WithSlots(lim, n), s, key, value, ttl, now);
            var (l', r') := Put(WithSlots(lim, m), l, key, value, ttl, now);
            && r == r' && Included(n, m, s', l')
            && (key in l.entries && key !in s.entries ==> Included(n, m, s, l'))
  {
    hide Put, Included, BytesAmple, ValuesFit;
    if SizeOfValue(value) <= lim.maxValueBytes {
      StoreIncluded(lim, n, m, s, l, key, value, ttl, now);
    } else {
      OversizeIncluded(lim, n, m, s, l, key, value, ttl, now);
    }
  }

  lemma OversizePut(lim: Limits, slots: nat, s: Mem, key: Key, value: Bytes, ttl: Option<int>, now: Time)
    requires SizeOfValue(value) > lim.maxValueBytes
    ensures var c := s.c.(rejectedOversize := s.c.rejectedOversize + 1);
            Put(WithSlots(lim, slots), s, key, value, ttl, now)
              == ((if key in s.entries then MoveToEnd(s, key) else s).(c := c), ValueTooLarge)
  {
  }

  lemma MaybeMove(n: nat, m: nat, s: Mem, l: Mem, key: Key, c: Counters, c': Counters)
    requires Included(n, m, s, l)
    ensures Included(n, m, (if key in s.entries then MoveToEnd(s, key) else s).(c := c),
                     (if key in l.entries then MoveToEnd(l, key) else l).(c := c'))
  {
    IncludedParts(n, m, s, l, key);
    hide Included, MoveToEnd;
    if key in s.entries {
      BothMove(n, m, s, l, key);
      Recounted(n, m, MoveToEnd(s, key), MoveToEnd(l, key), c, c');
    } else if key in l.entries {
      LargeMoves(n, m, s, l, key);
      Recounted(n, m, s, MoveToEnd(l, key), c, c');
    } else {
      Recounted(n, m, s, l, c, c');
    }
  }

  lemma OversizeIncluded(lim: Limits, n: nat, m: nat, s: Mem, l: Mem, key: Key, value: Bytes, ttl: Option<int>,
                         now: Time)
    requires Included(n, m, s, l) && SizeOfValue(value) > lim.maxValueBytes
    ensures var (s', r) := Put(WithSlots(lim, n), s, key, value, ttl, now);
            var (l', r') := Put(WithSlots(lim, m), l, key, value, ttl, now);
            && r == r' && Included(n, m, s', l')
            && (key in l.entries && key !in s.entries ==> Included(n, m, s, l'))
  {
    var c := s.c.(rejectedOversize := s.c.rejectedOversize + 1);
    var c' := l.c.(rejectedOversize := l.c.rejectedOversize + 1);
    OversizePut(lim, n, s, key, value, ttl, now);
    OversizePut(lim, m, l, key, value, ttl, now);
    hide Put, Included, MoveToEnd;
    MaybeMove(n, m, s, l, key, c, c');
    MaybeMove(n, m, s, l, key, s.c, c');
  }

  /** `set_if_absent` over a key only the large store still holds: one answers EXISTS, the other stores. */
  predicate Separates(lim: Limits, s: Mem, l: Mem, op: Op, clk: Readings) {
    && op.SetIfAbsent? && !Refused(op)
    && op.key in l.entries && !Expired(l.entries[op.key], clk.check) && op.key !in s.entries
    && SizeOfValue(op.value) <= lim.maxValueBytes
  }

  ghost predicate StepIncluded(lim: Limits, n: nat, m: nat, s: Mem, l: Mem, op: Op, clk: Readings) {
    Included(n, m, Step(WithSlots(lim, n), s, op, clk).0, Step(WithSlots(lim, m), l, op, clk).0)
  }

  lemma ExpireIncluded(n: nat, m: nat, s: Mem, l: Mem, k: Key, c: Counters, c': Counters)
    requires Included(n, m, s, l) && k in l.entries
    ensures Included(n, m, (if k in s.entries then Drop(s, {k}) else s).(c := c), Drop(l, {k}).(c := c'))
  {
    if k in s.entries {
      BothDrop(n, m, s, l, {k}, {k});
      Recounted(n, m, Drop(s, {k}), Drop(l, {k}), c, c');
    } else {
      BothDrop(n, m, s, l, {}, {k});
      DropNone(s, {});
      Recounted(n, m, s, Drop(l, {k}), c, c');
    }
  }

  /** `Lookup` as one of three moves. */
  lemma LookupCases(s: Mem, k: Key, clk: Readings)
    ensures var (t, v) := Lookup(s, k, clk);
            var missed, hit := s.c.(misses := s.c.misses + 1), s.c.(hits := s.c.hits + 1);
            && (k !in s.entries ==> t == s.(c := missed) && v == None)
            && (k in s.entries && Expired(s.entries[k], clk.check) ==>
                t == Drop(s, {k}).(c := CountExpired(missed, 1)) && v == None)
            && (k in s.entries && !Expired(s.entries[k], clk.check) ==>
                t == MoveToEnd(s, k).(c := hit) && v == Some(s.entries[k].value))
  {
  }

  lemma LookupIncluded(n: nat, m: nat, s: Mem, l: Mem, k: Key, clk: Readings)
    requires Included(n, m, s, l)
    ensures var (s', v) := Lookup(s, k, clk);
            var (l', v') := Lookup(l, k, clk);
            Included(n, m, s', l') && (v.Some? ==> v' == v)
  {
    IncludedParts(n, m, s, l, k);
    LookupCases(s, k, clk);
    LookupCases(l, k, clk);
    var c, c' := Lookup(s, k, clk).0.c, Lookup(l, k, clk).0.c;
    hide Included, Drop, MoveToEnd, Lookup;
    if k in l.entries && Expired(l.entries[k], clk.check) {
      ExpireIncluded(n, m, s, l, k, c, c');
    } else {
      MaybeMove(n, m, s, l, k, c, c');
    }
  }

  lemma GetIncluded(lim: Limits, n: nat, m: nat, s: Mem, l: Mem, k: Key, clk: Readings)
    requires Included(n, m, s, l)
    ensures StepIncluded(lim, n, m, s, l, Get(k), clk)
    ensures var small, large := Step(WithSlots(lim, n), s, Get(k), clk).1, Step(WithSlots(lim, m), l, Get(k), clk).1;
            small.Found? && small.found.Some? ==> large == small
  {
    hide Included, Lookup;
    LookupIncluded(n, m, s, l, k, clk);
  }

  lemma SetIncluded(lim: Limits, n: nat, m: nat, s: Mem, l: Mem, op: Op, clk: Readings)
    requires BytesAmple(lim, n, m) && Included(n, m, s, l) && ValuesFit(lim, l.entries) && op.Set? && !Refused(op)
    ensures StepIncluded(lim, n, m, s, l, op, clk)
  {
    hide Included, Put, Refused;
    PutIncluded(lim, n, m, s, l, op.key, op.value, op.ttl, clk.stamp);
  }

  /** Both drop an expired entry, the small store if it has it. */
  lemma ExpireBoth(n: nat, m: nat, s: Mem, l: Mem, k: Key)
    requires Included(n, m, s, l) && k in l.entries
    ensures Included(n, m, if k in s.entries then Expire(s, k) else s, Expire(l, k))
  {
    hide Included, Drop;
    ExpireIncluded(n, m, s, l, k, if k in s.entries then CountExpired(s.c, 1) else s.c, CountExpired(l.c, 1));
  }

  lemma SwapIncluded(lim: Limits, n: nat, m: nat, s: Mem, l: Mem, op: Op, clk: Readings)
    requires BytesAmple(lim, n, m) && Included(n, m, s, l) && ValuesFit(lim, l.entries) && op.CompareAndSet?
    requires !Refused(op)
    ensures StepIncluded(lim, n, m, s, l, op, clk)
  {
    IncludedParts(n, m, s, l, op.key);
    hide Included, Put, Refused, Expire;
    if op.key !in l.entries {
    } else if Expired(l.entries[op.key], clk.check) {
      ExpireBoth(n, m, s, l, op.key);
    } else if l.entries[op.key].value == op.expected {
      PutIncluded(lim, n, m, s, l, op.key, op.value, op.ttl, clk.stamp);
    }
  }

  lemma ExpiredFit(lim: Limits, l: Mem, k: Key)
    requires ValuesFit(lim, l.entries)
    ensures ValuesFit(lim, Expire(l, k).entries)
  {
  }

  lemma AbsentIncluded(lim: Limits, n: nat, m: nat, s: Mem, l: Mem, op: Op, clk: Readings)
    requires BytesAmple(lim, n, m) && Included(n, m, s, l) && ValuesFit(lim, l.entries) && op.SetIfAbsent?
    requires !Refused(op)
    requires !Separates(lim, s, l, op, clk)
    ensures StepIncluded(lim, n, m, s, l, op, clk)
  {
    IncludedParts(n, m, s, l, op.key);
    var stale := op.key in l.entries && Expired(l.entries[op.key], clk.check);
    if stale {
      ExpiredFit(lim, l, op.key);
    }
    hide Included, Put, Refused, Drop, ValuesFit;
    if stale {
      var s0 := if op.key in s.entries then Expire(s, op.key) else s;
      ExpireIncluded(n, m, s, l, op.key, s0.c, CountExpired(l.c, 1));
      PutIncluded(lim, n, m, s0, Expire(l, op.key), op.key, op.value, op.ttl, clk.stamp);
    } else if op.key !in l.entries {
      PutIncluded(lim, n, m, s, l, op.key, op.value, op.ttl, clk.stamp);
    } else if op.key !in s.entries {
      OversizeAbsent(lim, n, s, op, clk);
      Recounted(n, m, s, l, s.c.(rejectedOversize := s.c.rejectedOversize + 1), l.c);
    }
  }

  lemma OversizeAbsent(lim: Limits, n: nat, s: Mem, op: Op, clk: Readings)
    requires op.SetIfAbsent? && op.key !in s.entries && SizeOfValue(op.value) > lim.maxValueBytes
    ensures Put(WithSlots(lim, n), s, op.key, op.value, op.ttl, clk.stamp).0
              == s.(c := s.c.(rejectedOversize := s.c.rejectedOversize + 1))
  {
  }

  lemma DeleteIncluded(lim: Limits, n: nat, m: nat, s: Mem, l: Mem, op: Op, clk: Readings)
    requires Included(n, m, s, l) && op.Delete? && !Refused(op)
    ensures StepIncluded(lim, n, m, s, l, op, clk)
  {
    IncludedParts(n, m, s, l, op.key);
    DropFrame(s, op.key);
    DropFrame(l, op.key);
    hide Included, Drop, Refused;
    if op.key in l.entries {
      ExpireIncluded(n, m, s, l, op.key, s.c, l.c);
    }
  }

  lemma CleanupIncluded(lim: Limits, n: nat, m: nat, s: Mem, l: Mem, op: Op, clk: Readings)
    requires Included(n, m, s, l) && op.RemoveIfExpired?
    ensures StepIncluded(lim, n, m, s, l, op, clk)
  {
    IncludedParts(n, m, s, l, op.key);
    hide Included, Expire;
    if op.key in l.entries {
      ExpireBoth(n, m, s, l, op.key);
    }
  }

  lemma DropFrame(s: Mem, k: Key)
    ensures Drop(s, {k}).(c := s.c) == Drop(s, {k}) && s.(c := s.c) == s
  {
  }

  lemma PurgeIncluded(lim: Limits, n: nat, m: nat, s: Mem, l: Mem, clk: Readings)
    requires Included(n, m, s, l)
    ensures StepIncluded(lim, n, m, s, l, Stats, clk)
  {
    var gone, gone' := Due(s.entries, clk), Due(l.entries, clk);
    IncludedSub(n, m, s, l);
    hide Included, Drop, Due, SubDict, Purge, Step;
    PurgeSteps(lim, n, s, clk);
    PurgeSteps(lim, m, l, clk);
    DueShared(s.entries, l.entries, clk);
    BothDrop(n, m, s, l, gone, gone');
    Recounted(n, m, Drop(s, gone), Drop(l, gone'), CountExpired(s.c, |gone|), CountExpired(l.c, |gone'|));
  }

  lemma PurgeSteps(lim: Limits, n: nat, s: Mem, clk: Readings)
    ensures Step(WithSlots(lim, n), s, Stats, clk).0
              == Drop(s, Due(s.entries, clk)).(c := CountExpired(s.c, |Due(s.entries, clk)|))
  {
    hide Drop, Due;
  }

  lemma IncludedSub(n: nat, m: nat, s: Mem, l: Mem)
    requires Included(n, m, s, l)
    ensures SubDict(s.entries, l.entries)
  {
  }

  lemma DueShared(a: map<Key, Entry>, b: map<Key, Entry>, clk: Readings)
    requires SubDict(a, b)
    ensures Due(a, clk) == Due(b, clk) * a.Keys && Due(a, clk) <= a.Keys && Due(b, clk) <= b.Keys
  {
  }

  lemma ClearIncluded(n: nat, m: nat)
    requires n <= m
    ensures Included(n, m, EMPTY, EMPTY)
  {
  }

  /** Every step keeps the inclusion, `set_if_absent` unless it separates the stores. */
  lemma StepKeepsInclusion(lim: Limits, n: nat, m: nat, s: Mem, l: Mem, op: Op, clk: Readings)
    requires BytesAmple(lim, n, m) && Included(n, m, s, l) && ValuesFit(lim, l.entries)
    requires !Separates(lim, s, l, op, clk)
    ensures StepIncluded(lim, n, m, s, l, op, clk)
  {
    if Refused(op) {
      return;
    }
    hide Included, Refused;
    match op
    case Get(k) => GetIncluded(lim, n, m, s, l, k, clk);
    case Set(_, _, _) => SetIncluded(lim, n, m, s, l, op, clk);
    case SetIfAbsent(_, _, _) => AbsentIncluded(lim, n, m, s, l, op, clk);
    case CompareAndSet(_, _, _, _) => SwapIncluded(lim, n, m, s, l, op, clk);
    case Delete(_) => DeleteIncluded(lim, n, m, s, l, op, clk);
    case RemoveIfExpired(_) => CleanupIncluded(lim, n, m, s, l, op, clk);
    case Stats => PurgeIncluded(lim, n, m, s, l, clk);
    case Clear => ClearIncluded(n, m);
  }

  /** A step that separates the stores breaks the inclusion, unless the clock has not moved since the
      large store's entry was written. */
  lemma SeparationBreaksInclusion(lim: Limits, n: nat, m: nat, s: Mem, l: Mem, op: Op, clk: Readings)
    requires BytesAmple(lim, n, m) && Included(n, m, s, l) && Separates(lim, s, l, op, clk)
    requires l.entries[op.key].createdAt < clk.stamp
    ensures !StepIncluded(lim, n, m, s, l, op, clk)
    ensures Step(WithSlots(lim, n), s, op, clk).1 == ConditionalDone(Stored)
    ensures Step(WithSlots(lim, m), l, op, clk).1 == ConditionalDone(Exists)
  {
    FitsToo(lim, n, m);
    assert WellFormed(s);
    hide Put, Consistent, Included, Ample, BytesAmple;
    PutStores(WithSlots(lim, n), s, op.key, op.value, op.ttl, clk.stamp);
    SeparateSteps(lim, n, m, s, l, op, clk);
    DifferentEntry(n, m, Step(WithSlots(lim, n), s, op, clk).0, Step(WithSlots(lim, m), l, op, clk).0, op.key);
  }

  lemma SeparateSteps(lim: Limits, n: nat, m: nat, s: Mem, l: Mem, op: Op, clk: Readings)
    requires Separates(lim, s, l, op, clk)
    ensures Step(WithSlots(lim, m), l, op, clk) == (l, ConditionalDone(Exists))
    ensures var (t, r) := Put(WithSlots(lim, n), s, op.key, op.value, op.ttl, clk.stamp);
            Step(WithSlots(lim, n), s, op, clk) == (t, ConditionalDone(ConditionalFromSet(r)))
  {
    hide Put;
  }

  lemma DifferentEntry(n: nat, m: nat, s: Mem, l: Mem, k: Key)
    requires k in s.entries && k in l.entries && s.entries[k].createdAt != l.entries[k].createdAt
    ensures !Included(n, m, s, l)
  {
  }
}
