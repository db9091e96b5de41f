/** The dictionary order of the in-memory store is the order of last use, and an entry is evicted only
    when it and everything used after it no longer fit together. */
module Recency {
  import opened Types
  import opened Entries
  import opened Order
  import opened Validation
  import opened MemorySpec
  import opened MemoryLaws
  import opened MemoryTheorems

  /** The key a call used, judged by its result alone: a hit, a store, or a refused oversize write. */
  function Touched(op: Op, out: Outcome): Option<Key> {
    match op
    case Get(k) => if out.Found? && out.found.Some? then Some(k) else None
    case Set(k, _, _) => if out.SetDone? then Some(k) else None
    case SetIfAbsent(k, _, _) =>
      if out == ConditionalDone(Stored) || out == ConditionalDone(TooLarge) then Some(k) else None
    case CompareAndSet(k, _, _, _) =>
      if out == ConditionalDone(Stored) || out == ConditionalDone(TooLarge) then Some(k) else None
    case _ => None
  }

  function StateAt(lim: Limits, trace: seq<Timed>, n: nat): Mem
    requires n <= |trace|
  {
    Run(lim, EMPTY, trace[..n])
  }

  function ResultAt(lim: Limits, trace: seq<Timed>, n: nat): Outcome
    requires n < |trace|
  {
    Step(lim, StateAt(lim, trace, n), trace[n].op, trace[n].clk).1
  }

  /** The last of the first `n` calls that used `k`, or -1. */
  function LastUse(lim: Limits, trace: seq<Timed>, n: nat, k: Key): (i: int)
    requires n <= |trace|
    ensures -1 <= i < n
    ensures i >= 0 ==> Touched(trace[i].op, ResultAt(lim, trace, i)) == Some(k)
    ensures forall j :: i < j < n ==> Touched(trace[j].op, ResultAt(lim, trace, j)) != Some(k)
  {
    if n == 0 then -1
    else if Touched(trace[n - 1].op, ResultAt(lim, trace, n - 1)) == Some(k) then n - 1
    else LastUse(lim, trace, n - 1, k)
  }

  /** The order changes only by losing keys and by moving the used key to the recent end. */
  ghost predicate Reordered(before: seq<Key>, after: seq<Key>, used: Option<Key>) {
    forall x, y :: Before(after, x, y) ==> used != Some(x) && (used == Some(y) || Before(before, x, y))
  }

  lemma DropReorders(s: Mem, gone: set<Key>, used: Option<Key>)
    requires WellFormed(s) && (used.Some? ==> used.value in gone || used.value !in s.entries)
    ensures Reordered(s.order, Drop(s, gone).order, used)
  {
    var left := s.entries.Keys - gone;
    forall x, y | Before(Drop(s, gone).order, x, y) ensures Before(s.order, x, y) && used != Some(x) {
      KeepIn(s.order, left);
      KeepBefore(s.order, left, x, y);
    }
  }

  lemma KeepAndAppendReorders(order: seq<Key>, a: set<Key>, n: nat, k: Key)
    requires NoDup(order) && k !in a && n <= |Keep(order, a)|
    ensures Reordered(order, Keep(order, a)[n..] + [k], Some(k))
  {
    var L := Keep(order, a);
    forall x, y | Before(L[n..] + [k], x, y) ensures x != k && (y == k || Before(order, x, y)) {
      BeforeSnoc(L[n..], k, x, y);
      KeepIn(order, a);
      KeepNoDup(order, a);
      if Before(L[n..], x, y) {
        SuffixBefore(L, n, x, y);
        KeepBefore(order, a, x, y);
      }
    }
  }

  lemma SuffixBefore(s: seq<Key>, n: nat, x: Key, y: Key)
    requires n <= |s| && Before(s[n..], x, y)
    ensures Before(s, x, y) && x in s && y in s
  {
  }

  lemma PutReorders(lim: Limits, s: Mem, key: Key, value: Bytes, ttl: Option<int>, now: Time)
    requires WellFormed(s) && ValidLimits(lim)
    ensures Reordered(s.order, Put(lim, s, key, value, ttl, now).0.order, Some(key))
  {
    OversizeFrame(lim, s, key, value, ttl, now);
    var t := Put(lim, s, key, value, ttl, now).0;
    var left := s.entries.Keys - {key};
    OrderDistinct(s);
    if SizeOfValue(value) <= lim.maxValueBytes {
      PutStores(lim, s, key, value, ttl, now);
      KeepAndAppendReorders(s.order, left, Victims(lim, Drop(s, {key}), SizeOfValue(value), key !in s.entries), key);
    } else if key in s.entries {
      KeepAndAppendReorders(s.order, left, 0, key);
      assert Keep(s.order, left)[0..] == Keep(s.order, left);
    } else {
      DropNone(s, {});
      DropReorders(s, {}, Some(key));
    }
  }

  lemma ReorderedTwice(a: seq<Key>, b: seq<Key>, c: seq<Key>, used: Option<Key>)
    requires Reordered(a, b, None) && Reordered(b, c, used)
    ensures Reordered(a, c, used)
  {
  }

  ghost predicate StepMoves(lim: Limits, s: Mem, op: Op, clk: Readings) {
    var (t, out) := Step(lim, s, op, clk);
    Reordered(s.order, t.order, Touched(op, out))
  }

  lemma Unmoved(s: Mem)
    requires WellFormed(s)
    ensures Reordered(s.order, s.order, None)
  {
  }

  lemma GetReorders(lim: Limits, s: Mem, key: Key, clk: Readings)
    requires WellFormed(s)
    ensures StepMoves(lim, s, Get(key), clk)
  {
    hide Reordered, Consistent;
    Unmoved(s);
    DropReorders(s, {key}, None);
    OrderDistinct(s);
    var left := s.entries.Keys - {key};
    KeepAndAppendReorders(s.order, left, 0, key);
    assert Keep(s.order, left)[0..] == Keep(s.order, left);
  }

  lemma SetReorders(lim: Limits, s: Mem, op: Op, clk: Readings)
    requires WellFormed(s) && ValidLimits(lim) && op.Set? && !Refused(op)
    ensures StepMoves(lim, s, op, clk)
  {
    hide Reordered, Put, Consistent;
    PutReorders(lim, s, op.key, op.value, op.ttl, clk.stamp);
  }

  lemma ConditionalReorders(lim: Limits, s: Mem, op: Op, clk: Readings)
    requires WellFormed(s) && ValidLimits(lim) && (op.SetIfAbsent? || op.CompareAndSet?) && !Refused(op)
    ensures StepMoves(lim, s, op, clk)
  {
    hide Reordered, Put, Consistent, Drop, Refused;
    var k := op.key;
    Unmoved(s);
    DropReorders(s, {k}, None);
    DropWellFormed(s, {k});
    var before := if op.SetIfAbsent? && k in s.entries then Expire(s, k) else s;
    PutReorders(lim, before, k, op.value, op.ttl, clk.stamp);
    PutKeepsBounds(lim, before, k, op.value, op.ttl, clk.stamp);
    ReorderedTwice(s.order, before.order, Put(lim, before, k, op.value, op.ttl, clk.stamp).0.order, Some(k));
  }

  lemma RemovalReorders(lim: Limits, s: Mem, op: Op, clk: Readings)
    requires WellFormed(s) && (op.Delete? || op.RemoveIfExpired? || op.Stats? || op.Clear? || Refused(op))
    ensures StepMoves(lim, s, op, clk)
  {
    hide Reordered, Consistent, Drop;
    Unmoved(s);
    if op.Delete? || op.RemoveIfExpired? {
      DropReorders(s, {op.key}, None);
    }
    DropReorders(s, Due(s.entries, clk), None);
    ClearReorders(s.order);
  }

  lemma StepReorders(lim: Limits, s: Mem, op: Op, clk: Readings)
    requires WellFormed(s) && ValidLimits(lim)
    ensures StepMoves(lim, s, op, clk)
  {
    hide StepMoves, Refused;
    if Refused(op) {
      RemovalReorders(lim, s, op, clk);
    } else {
      match op
      case Get(k) => GetReorders(lim, s, k, clk);
      case Set(_, _, _) => SetReorders(lim, s, op, clk);
      case SetIfAbsent(_, _, _) => ConditionalReorders(lim, s, op, clk);
      case CompareAndSet(_, _, _, _) => ConditionalReorders(lim, s, op, clk);
      case _ => RemovalReorders(lim, s, op, clk);
    }
  }

  lemma ClearReorders(order: seq<Key>)
    ensures Reordered(order, [], None)
  {
  }

  /** After every prefix of every run, the dictionary order is the order of last use. */
  lemma {:induction false} OrderIsLastUse(lim: Limits, trace: seq<Timed>, n: nat, x: Key, y: Key)
    requires ValidLimits(lim) && n <= |trace|
    requires Before(StateAt(lim, trace, n).order, x, y)
    ensures LastUse(lim, trace, n, x) < LastUse(lim, trace, n, y)
  {
    if n > 0 {
      var s, last := StateAt(lim, trace, n - 1), trace[n - 1];
      assert trace[..n][..n - 1] == trace[..n - 1];
      RunKeepsBounds(lim, trace[..n - 1]);
      StepReorders(lim, s, last.op, last.clk);
      if Touched(last.op, ResultAt(lim, trace, n - 1)) != Some(y) {
        OrderIsLastUse(lim, trace, n - 1, x, y);
      }
    }
  }

  /** The keys other than `w` whose last use is no earlier than that of `k`. */
  function UsedSince(lim: Limits, trace: seq<Timed>, n: nat, k: Key, w: Key): set<Key>
    requires n <= |trace|
  {
    set x | x in StateAt(lim, trace, n).entries && x != w && LastUse(lim, trace, n, x) >= LastUse(lim, trace, n, k)
  }

  lemma UsedSinceIsSuffix(lim: Limits, trace: seq<Timed>, n: nat, k: Key, w: Key, i: nat)
    requires ValidLimits(lim) && n <= |trace| && WellFormed(StateAt(lim, trace, n))
    requires var s := StateAt(lim, trace, n);
             var L := Keep(s.order, s.entries.Keys - {w});
             i < |L| && L[i] == k
    ensures var s := StateAt(lim, trace, n);
            Keep(s.order, UsedSince(lim, trace, n, k, w)) == Keep(s.order, s.entries.Keys - {w})[i..]
  {
    var s := StateAt(lim, trace, n);
    var left, since := s.entries.Keys - {w}, UsedSince(lim, trace, n, k, w);
    var L := Keep(s.order, left);
    OrderDistinct(s);
    KeepNoDup(s.order, left);
    hide Consistent, LastUse;
    forall x | x in L ensures x in since <==> x !in L[..i] {
      UsedSinceAt(lim, trace, n, k, w, i, x);
    }
    KeepSuffix(L, i, since);
    KeepKeep(s.order, left, since);
    assert left * since == since;
  }

  lemma UsedSinceAt(lim: Limits, trace: seq<Timed>, n: nat, k: Key, w: Key, i: nat, x: Key)
    requires ValidLimits(lim) && n <= |trace| && WellFormed(StateAt(lim, trace, n))
    requires var s := StateAt(lim, trace, n);
             var L := Keep(s.order, s.entries.Keys - {w});
             i < |L| && L[i] == k && x in L
    ensures var s := StateAt(lim, trace, n);
            x in UsedSince(lim, trace, n, k, w) <==> x !in Keep(s.order, s.entries.Keys - {w})[..i]
  {
    var s := StateAt(lim, trace, n);
    var left := s.entries.Keys - {w};
    var L := Keep(s.order, left);
    OrderDistinct(s);
    KeepNoDup(s.order, left);
    KeepIn(s.order, left);
    hide Consistent, LastUse, Keep, NoDup;
    if x in L[..i] {
      var j :| 0 <= j < i && L[..i][j] == x;
      assert L[j] == x && Before(L, x, k);
      KeepBefore(s.order, left, x, k);
      OrderIsLastUse(lim, trace, n, x, k);
    } else if x != k {
      var j := PastPrefix(L, i, x);
      assert Before(L, k, x);
      KeepBefore(s.order, left, k, x);
      OrderIsLastUse(lim, trace, n, k, x);
    }
  }

  /** An admitted write to `w`, seen from the state `before` it puts the value into. */
  lemma VictimDidNotFit(lim: Limits, before: Mem, w: Key, value: Bytes, ttl: Option<int>, now: Time, i: nat,
                        isNew: bool)
    requires WellFormed(before) && ValidLimits(lim) && SizeOfValue(value) <= lim.maxValueBytes
    requires isNew == (w !in before.entries)
    requires var L := Keep(before.order, before.entries.Keys - {w});
             i < |L| && L[i] !in Put(lim, before, w, value, ttl, now).0.entries
    ensures var L := Keep(before.order, before.entries.Keys - {w});
            !Room(lim, L, before.entries, i, SizeOfValue(value), isNew)
  {
    var L := Keep(before.order, before.entries.Keys - {w});
    var t := Put(lim, before, w, value, ttl, now).0;
    StoreEvictsTheLeastPrefix(lim, before, w, value, ttl, now);
    var n: nat :| StoredAfter(before, w, MakeEntry(value, ttl, now), n, t)
      && Room(lim, L, before.entries, n, SizeOfValue(value), isNew)
      && forall j :: 0 <= j < n ==> !Room(lim, L, before.entries, j, SizeOfValue(value), isNew);
    hide Put, Consistent, Room;
    if i >= n {
      SuffixHolds(L, n, i);
    }
  }

  lemma SuffixHolds(s: seq<Key>, n: nat, i: nat)
    requires n <= i < |s|
    ensures s[i] in Elems(s[n..])
  {
  }

  /** Where a call that stored put its value: `set_if_absent` first drops an expired entry. */
  function PutInto(s: Mem, op: Op): Mem
    requires op.Set? || op.SetIfAbsent? || op.CompareAndSet?
  {
    if op.SetIfAbsent? && op.key in s.entries then Expire(s, op.key) else s
  }

  lemma StoringStep(lim: Limits, s: Mem, op: Op, clk: Readings)
    requires WellFormed(s) && ValidLimits(lim)
    requires var out := Step(lim, s, op, clk).1; out == SetDone(Ok) || out == ConditionalDone(Stored)
    ensures op.Set? || op.SetIfAbsent? || op.CompareAndSet?
    ensures WellFormed(PutInto(s, op)) && SizeOfValue(op.value) <= lim.maxValueBytes
    ensures Step(lim, s, op, clk).0 == Put(lim, PutInto(s, op), op.key, op.value, op.ttl, clk.stamp).0
  {
    hide Put, Consistent, Drop;
    if op.Set? || op.SetIfAbsent? || op.CompareAndSet? {
      DropWellFormed(s, {op.key});
      OversizeFrame(lim, PutInto(s, op), op.key, op.value, op.ttl, clk.stamp);
    }
  }

  lemma SameOthers(s: Mem, op: Op)
    requires WellFormed(s) && (op.Set? || op.SetIfAbsent? || op.CompareAndSet?)
    ensures var b := PutInto(s, op);
            Keep(b.order, b.entries.Keys - {op.key}) == Keep(s.order, s.entries.Keys - {op.key})
    ensures forall i :: 0 <= i <= |Keep(s.order, s.entries.Keys - {op.key})| ==>
              var W := Keep(s.order, s.entries.Keys - {op.key})[i..];
              Total(W, PutInto(s, op).entries) == Total(W, s.entries)
  {
    var b, left := PutInto(s, op), s.entries.Keys - {op.key};
    KeepIn(s.order, left);
    KeepKeep(s.order, left, left);
    DropKeys(s, {op.key});
    assert left * left == left && left - {op.key} == left;
    forall i | 0 <= i <= |Keep(s.order, left)|
      ensures Total(Keep(s.order, left)[i..], b.entries) == Total(Keep(s.order, left)[i..], s.entries)
    {
      TotalAgree(Keep(s.order, left)[i..], b.entries, s.entries);
    }
  }

  /** Working-set guarantee over every run: a store evicts `k` only if `k`, the entries used since `k`
      and the incoming entry together exceed the byte limit or, for a new key, the item limit. */
  lemma EvictedOnlyWhenFull(lim: Limits, trace: seq<Timed>, n: nat, k: Key)
    requires ValidLimits(lim) && n < |trace|
    requires ResultAt(lim, trace, n) == SetDone(Ok) || ResultAt(lim, trace, n) == ConditionalDone(Stored)
    requires k in StateAt(lim, trace, n).entries && k !in StateAt(lim, trace, n + 1).entries && k != trace[n].op.key
    ensures var s, op := StateAt(lim, trace, n), trace[n].op;
            var W := Keep(s.order, UsedSince(lim, trace, n, k, op.key));
            || Total(W, s.entries) + SizeOfValue(op.value) > lim.maxMemoryBytes
            || (|W| + 1 > lim.maxItems && (op.SetIfAbsent? || op.key !in s.entries))
  {
    var s, op, clk := StateAt(lim, trace, n), trace[n].op, trace[n].clk;
    assert trace[..n + 1][..n] == trace[..n];
    RunKeepsBounds(lim, trace[..n]);
    StoringStep(lim, s, op, clk);
    hide Put, Consistent, Step, UsedSince, LastUse;
    var i := IndexAmongOthers(s, op.key, k);
    SameOthers(s, op);
    PutIntoKeys(s, op);
    hide Keep;
    VictimDidNotFit(lim, PutInto(s, op), op.key, op.value, op.ttl, clk.stamp, i, op.key !in PutInto(s, op).entries);
    UsedSinceIsSuffix(lim, trace, n, k, op.key, i);
  }

  lemma IndexAmongOthers(s: Mem, w: Key, k: Key) returns (i: nat)
    requires WellFormed(s) && k in s.entries && k != w
    ensures var L := Keep(s.order, s.entries.Keys - {w}); i < |L| && L[i] == k
  {
    var left := s.entries.Keys - {w};
    OrderDistinct(s);
    KeepIn(s.order, left);
    assert k in Elems(s.order);
    i :| 0 <= i < |Keep(s.order, left)| && Keep(s.order, left)[i] == k;
  }

  lemma PutIntoKeys(s: Mem, op: Op)
    requires op.Set? || op.SetIfAbsent? || op.CompareAndSet?
    ensures op.key !in PutInto(s, op).entries ==> op.SetIfAbsent? || op.key !in s.entries
  {
  }
}
