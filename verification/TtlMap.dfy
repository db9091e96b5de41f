/** Every run of a backend against the simple form of a cache: an unbounded map that remembers the
    last successful write to each key until it is deleted or cleared. It starts from what the backend
    holds when it is opened: nothing in memory, the persisted rows in SQLite. */
module TtlMap {
  import opened Types
  import opened Entries
  import opened Validation
  import opened Port

  /** The reference map, computed from the calls and their results alone. */
  function LastWrites(start: map<Key, Entry>, events: seq<Event>): map<Key, Entry> {
    if events == [] then start
    else Remember(LastWrites(start, events[..|events| - 1]), events[|events| - 1])
  }

  function Remember(m: map<Key, Entry>, ev: Event): map<Key, Entry> {
    if Written(ev).Some? then m[ev.op.key := Written(ev).value]
    else if ev.op.Delete? && ev.out.Deleted? then m - {ev.op.key}
    else if ev.op.Clear? then map[]
    else m
  }

  lemma LastWritesStep(start: map<Key, Entry>, events: seq<Event>, n: nat)
    requires n < |events|
    ensures LastWrites(start, events[..n + 1]) == Remember(LastWrites(start, events[..n]), events[n])
  {
    assert events[..n + 1][..n] == events[..n];
  }

  /** Whatever a backend still holds is the last successful write to that key. */
  lemma {:induction false} HoldsOnlyLastWrites(lim: Limits, states: seq<Port>, events: seq<Event>, n: nat)
    requires Run(lim, states, events) && Clocked(events) && n <= |events|
    ensures forall k :: k in states[n].view ==>
              k in LastWrites(states[0].view, events[..n])
                && states[n].view[k] == LastWrites(states[0].view, events[..n])[k]
  {
    if n > 0 {
      var i := n - 1;
      HoldsOnlyLastWrites(lim, states, events, i);
      LastWritesStep(states[0].view, events, i);
      ClockedAt(events, i);
      assert Step(lim, states[i], events[i], states[n]);
      forall k | k in states[n].view
        ensures k in LastWrites(states[0].view, events[..n])
                  && states[n].view[k] == LastWrites(states[0].view, events[..n])[k]
      {
        StepAtKey(lim, states[i], events[i], states[n], k);
      }
    }
  }

  /** `get` answers nothing, or exactly the last successful write while that has not expired. */
  lemma GetReturnsLastWrite(lim: Limits, states: seq<Port>, events: seq<Event>, n: nat)
    requires Run(lim, states, events) && Clocked(events) && n < |events|
    requires events[n].op.Get? && events[n].out.Found?
    ensures var k, m := events[n].op.key, LastWrites(states[0].view, events[..n]);
            events[n].out.found.Some? ==>
              k in m && events[n].out.found.value == m[k].value && !Expired(m[k], events[n].clk.check)
  {
    HoldsOnlyLastWrites(lim, states, events, n);
    assert Step(lim, states[n], events[n], states[n + 1]);
  }

  /** As long as nothing was evicted, whatever the reference map holds and the backend does not
      had expired by the end of the last step. */
  lemma {:induction false} MissingHasExpired(lim: Limits, states: seq<Port>, events: seq<Event>, n: nat)
    requires Run(lim, states, events) && Clocked(events) && n <= |events|
    requires states[n].c.lruEvictions == 0
    ensures forall k :: k in LastWrites(states[0].view, events[..n]) && k !in states[n].view ==>
              n > 0 && Expired(LastWrites(states[0].view, events[..n])[k], events[n - 1].clk.used)
  {
    if n > 0 {
      var i := n - 1;
      var ev := events[i];
      var m, m' := LastWrites(states[0].view, events[..i]), LastWrites(states[0].view, events[..n]);
      LastWritesStep(states[0].view, events, i);
      ClockedAt(events, i);
      assert Step(lim, states[i], ev, states[n]);
      if !ev.op.Clear? {
        EvictionsOnlyGrow(lim, states[i], ev, states[n]);
        MissingHasExpired(lim, states, events, i);
        HoldsOnlyLastWrites(lim, states, events, i);
        forall k | k in m' && k !in states[n].view ensures Expired(m'[k], ev.clk.used) {
          StepAtKey(lim, states[i], ev, states[n], k);
          assert k in m && m'[k] == m[k];
          if k !in states[i].view {
            assert events[i - 1].clk.used <= ev.clk.check <= ev.clk.used;
          }
        }
      }
    }
  }

  /** Without evictions since construction or the last `clear`, the backend is the unbounded map:
      every `get` answers exactly what the map holds unexpired. */
  lemma WithoutEvictionGetIsExact(lim: Limits, states: seq<Port>, events: seq<Event>, n: nat)
    requires Run(lim, states, events) && Clocked(events) && n < |events|
    requires events[n].op.Get? && events[n].out.Found?
    requires states[n].c.lruEvictions == 0
    ensures var k, m := events[n].op.key, LastWrites(states[0].view, events[..n]);
            events[n].out ==
              if k in m && (m[k].ttl.None? || events[n].clk.check < m[k].createdAt + m[k].ttl.value as real)
              then Found(Some(m[k].value)) else Found(None)
  {
    var k, m := events[n].op.key, LastWrites(states[0].view, events[..n]);
    HoldsOnlyLastWrites(lim, states, events, n);
    MissingHasExpired(lim, states, events, n);
    assert Step(lim, states[n], events[n], states[n + 1]);
    ClockedAt(events, n);
  }

  // Expiry, in terms of the calls and their clock readings alone.

  /** Event `j` took `k` away from under its clients: deleted, cleared, evicted or written anew. */
  ghost predicate Disturbs(states: seq<Port>, events: seq<Event>, j: nat, k: Key)
    requires j < |events| < |states|
  {
    || WritesTo(events[j], k)
    || (events[j].op.Delete? && events[j].op.key == k && events[j].out == Deleted(true))
    || events[j].op.Clear?
    || Evicted(states[j], events[j], states[j + 1], k)
  }

  /** After `n` steps `e` is still held under `k`, or has gone because it had expired. */
  ghost predicate HeldOrExpired(states: seq<Port>, events: seq<Event>, n: nat, k: Key, e: Entry)
    requires n <= |events| < |states|
  {
    if k in states[n].view then states[n].view[k] == e else n > 0 && Expired(e, events[n - 1].clk.used)
  }

  lemma {:induction false} HeldUntilExpiry(lim: Limits, states: seq<Port>, events: seq<Event>, a: nat, n: nat, k: Key)
    requires Run(lim, states, events) && Clocked(events) && a <= n <= |events| && k in states[a].view
    requires forall j :: a <= j < n ==> !Disturbs(states, events, j, k)
    ensures HeldOrExpired(states, events, n, k, states[a].view[k])
    decreases n
  {
    if n > a {
      HeldUntilExpiry(lim, states, events, a, n - 1, k);
      hide Clocked, Step, Disturbs, HeldOrExpired;
      StaysUndisturbed(lim, states, events, n - 1, k, states[a].view[k]);
    }
  }

  lemma StaysUndisturbed(lim: Limits, states: seq<Port>, events: seq<Event>, j: nat, k: Key, e: Entry)
    requires Run(lim, states, events) && Clocked(events) && j < |events|
    requires HeldOrExpired(states, events, j, k, e) && !Disturbs(states, events, j, k)
    ensures HeldOrExpired(states, events, j + 1, k, e)
  {
    RunStep(lim, states, events, j);
    ClockedAt(events, j);
    StepAtKey(lim, states[j], events[j], states[j + 1], k);
    hide Run, Clocked, Step;
  }

  /** A key held after `a` steps and not disturbed since is answered exactly while its entry lives. */
  lemma UndisturbedGet(lim: Limits, states: seq<Port>, events: seq<Event>, a: nat, n: nat, k: Key)
    requires Run(lim, states, events) && Clocked(events) && a <= n < |events|
    requires k in states[a].view && events[n].op == Get(k) && !Refused(Get(k))
    requires forall j :: a <= j < n ==> !Disturbs(states, events, j, k)
    ensures var e := states[a].view[k];
            events[n].out == if e.ttl.None? || events[n].clk.check < e.createdAt + e.ttl.value as real
                             then Found(Some(e.value)) else Found(None)
  {
    HeldUntilExpiry(lim, states, events, a, n, k);
    RunStep(lim, states, events, n);
    ClockedAt(events, n);
    hide Run, Clocked;
    GetOfOne(lim, states[n], events[n], states[n + 1], states[a].view[k]);
  }

  lemma GetOfOne(lim: Limits, p: Port, ev: Event, q: Port, e: Entry)
    requires Step(lim, p, ev, q) && ev.op.Get? && !Refused(ev.op)
    requires if ev.op.key in p.view then p.view[ev.op.key] == e else Expired(e, ev.clk.check)
    ensures ev.out == if e.ttl.None? || ev.clk.check < e.createdAt + e.ttl.value as real
                      then Found(Some(e.value)) else Found(None)
  {
  }

  /** In every run, a value written with time-to-live `s` at `c` and not disturbed since is what `get`
      answers exactly while its clock reads less than `c + s`; none, or none above zero, means for ever. */
  lemma TtlIsExact(lim: Limits, states: seq<Port>, events: seq<Event>, i: nat, n: nat, k: Key)
    requires Run(lim, states, events) && Clocked(events) && i < n < |events|
    requires WritesTo(events[i], k) && events[n].op == Get(k)
    requires forall j :: i < j < n ==> !Disturbs(states, events, j, k)
    ensures var ttl, written := events[i].op.ttl, events[i].clk.stamp;
            events[n].out == if ttl.None? || ttl.value <= 0 || events[n].clk.check < written + ttl.value as real
                             then Found(Some(events[i].op.value)) else Found(None)
  {
    hide Clocked, Disturbs, Step;
    WrittenIsHeld(lim, states, events, i, k);
    UndisturbedGet(lim, states, events, i + 1, n, k);
  }

  lemma WrittenIsHeld(lim: Limits, states: seq<Port>, events: seq<Event>, i: nat, k: Key)
    requires Run(lim, states, events) && Clocked(events) && i < |events| && WritesTo(events[i], k)
    ensures k in states[i + 1].view && !Refused(Get(k))
    ensures var ev := events[i]; states[i + 1].view[k] == MakeEntry(ev.op.value, ev.op.ttl, ev.clk.stamp)
  {
    RunStep(lim, states, events, i);
    ClockedAt(events, i);
    StepAtKey(lim, states[i], events[i], states[i + 1], k);
    StoresValidKey(lim, states[i], events[i], states[i + 1]);
    hide Run, Clocked, Step;
  }

  lemma StoresValidKey(lim: Limits, p: Port, ev: Event, q: Port)
    requires Step(lim, p, ev, q) && Written(ev).Some?
    ensures !Refused(Get(ev.op.key))
  {
  }

  // Compare-and-set.

  /** A `compare_and_set` that stores replaces exactly the value of the preceding successful write. */
  lemma NoLostUpdate(lim: Limits, states: seq<Port>, events: seq<Event>, n: nat)
    requires Run(lim, states, events) && Clocked(events) && n < |events|
    requires events[n].op.CompareAndSet? && events[n].out == ConditionalDone(Stored)
    ensures var k, m := events[n].op.key, LastWrites(states[0].view, events[..n]);
            k in m && m[k].value == events[n].op.expected && !Expired(m[k], events[n].clk.check)
  {
    HoldsOnlyLastWrites(lim, states, events, n);
    assert Step(lim, states[n], events[n], states[n + 1]);
  }

  function Times(f: Bytes -> Bytes, n: nat, v: Bytes): Bytes {
    if n == 0 then v else f(Times(f, n - 1, v))
  }

  /** How many of the events `a .. n` stored a value under `k`. */
  function StoredCount(events: seq<Event>, k: Key, a: nat, n: nat): nat
    requires a <= n <= |events|
  {
    if n == a then 0 else StoredCount(events, k, a, n - 1) + (if WritesTo(events[n - 1], k) then 1 else 0)
  }

  /** From event `a` on, every client that touches `k` only reads it or swaps `f` of what it read for it. */
  ghost predicate OnlySwaps(events: seq<Event>, k: Key, f: Bytes -> Bytes, a: nat, n: nat)
    requires a <= n <= |events|
  {
    forall i :: a <= i < n ==>
      && (WritesTo(events[i], k) ==> events[i].op.CompareAndSet? && events[i].op.value == f(events[i].op.expected))
      && !(events[i].op.Delete? && events[i].op.key == k) && !events[i].op.Clear?
  }

  lemma OneSwap(lim: Limits, states: seq<Port>, events: seq<Event>, k: Key, f: Bytes -> Bytes, a: nat, n: nat)
    requires Run(lim, states, events) && Clocked(events) && a <= n < |events|
    requires OnlySwaps(events, k, f, a, n + 1) && k in LastWrites(states[0].view, events[..n])
    ensures var m, m' := LastWrites(states[0].view, events[..n]), LastWrites(states[0].view, events[..n + 1]);
            k in m' && m'[k].value == if WritesTo(events[n], k) then f(m[k].value) else m[k].value
  {
    LastWritesStep(states[0].view, events, n);
    hide Step, LastWrites;
    if WritesTo(events[n], k) {
      NoLostUpdate(lim, states, events, n);
    }
  }

  lemma {:induction false} LastWriteAfterSwaps(lim: Limits, states: seq<Port>, events: seq<Event>, k: Key,
                                               f: Bytes -> Bytes, a: nat, n: nat)
    requires Run(lim, states, events) && Clocked(events) && a <= n <= |events|
    requires OnlySwaps(events, k, f, a, n) && k in LastWrites(states[0].view, events[..a])
    ensures var m := LastWrites(states[0].view, events[..n]);
            && k in m
            && m[k].value == Times(f, StoredCount(events, k, a, n), LastWrites(states[0].view, events[..a])[k].value)
    decreases n
  {
    hide Run, Clocked, LastWrites, WritesTo;
    if n > a {
      LastWriteAfterSwaps(lim, states, events, k, f, a, n - 1);
      OneSwap(lim, states, events, k, f, a, n - 1);
      hide OnlySwaps;
    }
  }

  /** Under any interleaving of read-then-swap updates, the value is the first one updated exactly as
      many times as a swap reported success: none is lost and none is applied twice. */
  lemma SwapsAreCounted(lim: Limits, states: seq<Port>, events: seq<Event>, k: Key, f: Bytes -> Bytes, a: nat, n: nat)
    requires Run(lim, states, events) && Clocked(events) && a <= n <= |events|
    requires OnlySwaps(events, k, f, a, n) && k in LastWrites(states[0].view, events[..a])
    ensures var v := Times(f, StoredCount(events, k, a, n), LastWrites(states[0].view, events[..a])[k].value);
            && k in LastWrites(states[0].view, events[..n]) && LastWrites(states[0].view, events[..n])[k].value == v
            && (k in states[n].view ==> states[n].view[k].value == v)
  {
    LastWriteAfterSwaps(lim, states, events, k, f, a, n);
    HoldsOnlyLastWrites(lim, states, events, n);
    hide Step, OnlySwaps, LastWrites;
  }

  // Leases: set-if-absent as a lock.

  /** Step `i` ended the lease on `k`: the key was deleted, cleared, evicted, or its entry expired. */
  ghost predicate LeaseEnded(states: seq<Port>, events: seq<Event>, i: nat, k: Key)
    requires i < |events| && |states| == |events| + 1
  {
    && k in states[i].view
    && (|| events[i] == Event(Delete(k), events[i].clk, Deleted(true))
        || events[i].op.Clear?
        || Evicted(states[i], events[i], states[i + 1], k)
        || Expired(states[i].view[k], events[i].clk.used))
  }

  lemma {:induction false} HeldUntilEnded(lim: Limits, states: seq<Port>, events: seq<Event>, k: Key, a: nat, n: nat)
    requires Run(lim, states, events) && Clocked(events) && a <= n <= |events|
    requires k in states[a].view
    requires forall i :: a <= i < n ==> !LeaseEnded(states, events, i, k)
    ensures k in states[n].view
    decreases n
  {
    if n > a {
      HeldUntilEnded(lim, states, events, k, a, n - 1);
      hide Clocked, Step, LeaseEnded;
      HeldOneStep(lim, states, events, k, n - 1);
    }
  }

  lemma HeldOneStep(lim: Limits, states: seq<Port>, events: seq<Event>, k: Key, i: nat)
    requires Run(lim, states, events) && Clocked(events) && i < |events|
    requires k in states[i].view && !LeaseEnded(states, events, i, k)
    ensures k in states[i + 1].view
  {
    RunStep(lim, states, events, i);
    ClockedAt(events, i);
    StepAtKey(lim, states[i], events[i], states[i + 1], k);
    hide Run, Clocked, Step;
  }

  /** Two successful `set_if_absent` calls on one key are separated by the end of the first lease. */
  lemma LeaseExclusion(lim: Limits, states: seq<Port>, events: seq<Event>, k: Key, i: nat, j: nat)
    requires Run(lim, states, events) && Clocked(events) && i < j < |events|
    requires events[i].op.SetIfAbsent? && events[i].op.key == k && events[i].out == ConditionalDone(Stored)
    requires events[j].op.SetIfAbsent? && events[j].op.key == k && events[j].out == ConditionalDone(Stored)
    ensures exists m :: i < m <= j && LeaseEnded(states, events, m, k)
  {
    assert Step(lim, states[i], events[i], states[i + 1]);
    assert Step(lim, states[j], events[j], states[j + 1]);
    ClockedAt(events, i);
    ClockedAt(events, j);
    StepAtKey(lim, states[i], events[i], states[i + 1], k);
    if forall m :: i < m < j ==> !LeaseEnded(states, events, m, k) {
      HeldUntilEnded(lim, states, events, k, i + 1, j);
      assert LeaseEnded(states, events, j, k);
    }
  }
}
