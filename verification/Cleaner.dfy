/** The background cleaner as a protocol (memory_store_cleanup.py): it snapshots the store under the
    lock, filters the snapshot outside it on data that may be stale, then removes key by key, each
    time re-checking under the lock. Client calls may run between any two of its steps. */
module Cleaner {
  import opened Types
  import opened Entries
  import opened Port

  datatype Item = Item(key: Key, entry: Entry)

  /** `Filtering`: not yet tested, and found expired. `Removing`: still to be removed. */
  datatype Phase = Idle | Filtering(rest: seq<Item>, picked: seq<Item>) | Removing(todo: seq<Item>)

  /** `last` is the latest clock reading. `snapshot`, `snappedAt` and `condemned` record the current
      cycle for the statements below; no step reads them. */
  datatype System = System(port: Port, phase: Phase, last: Time, snapshot: set<Item>, snappedAt: Time,
                           condemned: set<Item>)

  datatype Action =
    | Client(ev: Event)
    | TakeSnapshot(items: seq<Item>, at: Time)
    | TestOne(at: Time)
    | EndTests
    | RemoveOne(clk: Readings)
    | EndCycle

  /** `items` lists the view, in any order. */
  ghost predicate Lists(items: seq<Item>, view: map<Key, Entry>) {
    && (forall it :: it in items ==> it.key in view && view[it.key] == it.entry)
    && forall k :: k in view ==> Item(k, view[k]) in items
  }

  ghost predicate CleanerStep(lim: Limits, s: System, a: Action, t: System) {
    match a
    case Client(_) => false
    case TakeSnapshot(items, at) =>
      && s.phase.Idle? && s.last <= at && Lists(items, s.port.view)
      && t == System(s.port, Filtering(items, []), at, (set it | it in items), at, {})
    case TestOne(at) =>
      && s.phase.Filtering? && s.phase.rest != [] && s.last <= at
      && var it := s.phase.rest[0];
         var due := Expired(it.entry, at);
         t == s.(phase := Filtering(s.phase.rest[1..], if due then s.phase.picked + [it] else s.phase.picked),
                 last := at,
                 condemned := if due then s.condemned + {it} else s.condemned)
    case EndTests =>
      && s.phase.Filtering? && s.phase.rest == []
      && t == s.(phase := if s.phase.picked == [] then Idle else Removing(s.phase.picked))
    case RemoveOne(clk) =>
      && s.phase.Removing? && s.phase.todo != [] && clk.Ordered() && s.last <= clk.check
      && Step(lim, s.port, Event(RemoveIfExpired(s.phase.todo[0].key), clk, Done), t.port)
      && t == s.(port := t.port, phase := Removing(s.phase.todo[1..]), last := clk.used)
    case EndCycle =>
      && s.phase.Removing? && s.phase.todo == []
      && t == s.(phase := Idle)
  }

  ghost predicate ClientStep(lim: Limits, s: System, ev: Event, t: System) {
    && ev.clk.Ordered() && s.last <= ev.clk.check
    && Step(lim, s.port, ev, t.port)
    && t == s.(port := t.port, last := ev.clk.used)
  }

  ghost predicate Next(lim: Limits, s: System, a: Action, t: System) {
    if a.Client? then ClientStep(lim, s, a.ev, t) else CleanerStep(lim, s, a, t)
  }

  ghost predicate Initial(s: System) {
    s.phase.Idle? && s.snapshot == {} && s.condemned == {}
    && forall k :: k in s.port.view ==> Normalised(s.port.view[k])
  }

  /** Found expired, not yet removed. */
  function Pending(p: Phase): seq<Item> {
    match p
    case Idle => []
    case Filtering(_, picked) => picked
    case Removing(todo) => todo
  }

  function Untested(p: Phase): seq<Item> {
    if p.Filtering? then p.rest else []
  }

  ghost predicate Holds(view: map<Key, Entry>, it: Item) {
    it.key in view && view[it.key] == it.entry
  }

  ghost predicate Invariant(s: System) {
    && (forall k :: k in s.port.view ==> Normalised(s.port.view[k]))
    && (forall it :: it in s.snapshot ==> Normalised(it.entry))
    && (forall it :: it in Untested(s.phase) ==> it in s.snapshot)
    && (forall it :: it in s.condemned ==> it in s.snapshot && Expired(it.entry, s.last))
    && (forall it :: it in s.snapshot ==>
        it in Untested(s.phase) || it in s.condemned || !Expired(it.entry, s.snappedAt))
    && (forall it :: it in s.condemned ==> it in Pending(s.phase) || !Holds(s.port.view, it))
    && s.snappedAt <= s.last
  }

  /** What a cleaner step takes out had expired when it held the lock; everything else is untouched. */
  lemma CleanerRemovesOnlyExpired(lim: Limits, s: System, a: Action, t: System, k: Key)
    requires CleanerStep(lim, s, a, t)
    ensures k in t.port.view ==> k in s.port.view && t.port.view[k] == s.port.view[k]
    ensures k in s.port.view && k !in t.port.view ==>
              a.RemoveOne? && k == s.phase.todo[0].key && Expired(s.port.view[k], a.clk.check)
  {
  }

  /** A step of anyone at or after `last` can put an entry back only if it was written at or after `last`. */
  lemma PortKeepsAway(lim: Limits, p: Port, ev: Event, q: Port, it: Item, last: Time)
    requires Step(lim, p, ev, q) && ev.clk.Ordered() && last <= ev.clk.check
    requires Normalised(it.entry) && Expired(it.entry, last) && !Holds(p.view, it)
    ensures !Holds(q.view, it)
  {
  }

  lemma PortStaysNormalised(lim: Limits, p: Port, ev: Event, q: Port)
    requires Step(lim, p, ev, q) && ev.clk.Ordered()
    requires forall k :: k in p.view ==> Normalised(p.view[k])
    ensures forall k :: k in q.view ==> Normalised(q.view[k])
  {
    forall k | k in q.view ensures Normalised(q.view[k]) {
      StepAtKey(lim, p, ev, q, k);
    }
  }

  lemma ClientKeepsInvariant(lim: Limits, s: System, ev: Event, t: System)
    requires Invariant(s) && ClientStep(lim, s, ev, t)
    ensures Invariant(t)
  {
    PortStaysNormalised(lim, s.port, ev, t.port);
    forall it | it in s.condemned ensures it in Pending(t.phase) || !Holds(t.port.view, it) {
      if it !in Pending(s.phase) {
        PortKeepsAway(lim, s.port, ev, t.port, it, s.last);
      }
    }
  }

  lemma RemovalKeepsInvariant(lim: Limits, s: System, clk: Readings, t: System)
    requires Invariant(s) && CleanerStep(lim, s, RemoveOne(clk), t)
    ensures Invariant(t)
  {
  }

  lemma CleanerKeepsInvariant(lim: Limits, s: System, a: Action, t: System)
    requires Invariant(s) && CleanerStep(lim, s, a, t)
    ensures Invariant(t)
  {
    match a
    case RemoveOne(clk) => RemovalKeepsInvariant(lim, s, clk, t);
    case TestOne(at) =>
      var it := s.phase.rest[0];
      assert s.phase.rest == [it] + s.phase.rest[1..];
    case _ =>
  }

  ghost predicate Behaviour(lim: Limits, states: seq<System>, actions: seq<Action>) {
    && |states| == |actions| + 1
    && Initial(states[0]) && states[0].snappedAt <= states[0].last
    && forall i :: 0 <= i < |actions| ==> Next(lim, states[i], actions[i], states[i + 1])
  }

  lemma StepOf(lim: Limits, states: seq<System>, actions: seq<Action>, i: nat)
    requires Behaviour(lim, states, actions) && i < |actions|
    ensures |states| == |actions| + 1 && Next(lim, states[i], actions[i], states[i + 1])
  {
  }

  lemma {:induction false} InvariantHolds(lim: Limits, states: seq<System>, actions: seq<Action>, n: nat)
    requires Behaviour(lim, states, actions) && n <= |actions|
    ensures Invariant(states[n])
  {
    if n > 0 {
      InvariantHolds(lim, states, actions, n - 1);
      assert Next(lim, states[n - 1], actions[n - 1], states[n]);
      if actions[n - 1].Client? {
        ClientKeepsInvariant(lim, states[n - 1], actions[n - 1].ev, states[n]);
      } else {
        CleanerKeepsInvariant(lim, states[n - 1], actions[n - 1], states[n]);
      }
    }
  }

  /** A finished cycle has done its job, whatever the clients did meanwhile: no entry of its snapshot
      that it found expired, and none that had expired when the snapshot was taken, is in the store. */
  lemma FinishedCycleIsComplete(lim: Limits, states: seq<System>, actions: seq<Action>, n: nat, it: Item)
    requires Behaviour(lim, states, actions) && n <= |actions|
    requires states[n].phase.Idle? && it in states[n].snapshot
    requires it in states[n].condemned || Expired(it.entry, states[n].snappedAt)
    ensures !Holds(states[n].port.view, it)
  {
    InvariantHolds(lim, states, actions, n);
  }

  lemma {:induction false} SnapshotIsKept(lim: Limits, states: seq<System>, actions: seq<Action>, m: nat, n: nat)
    requires Behaviour(lim, states, actions) && m < n <= |actions|
    requires forall i :: m < i < n ==> !actions[i].TakeSnapshot?
    ensures states[n].snapshot == states[m + 1].snapshot && states[n].snappedAt == states[m + 1].snappedAt
    decreases n
  {
    if n > m + 1 {
      SnapshotIsKept(lim, states, actions, m, n - 1);
      assert Next(lim, states[n - 1], actions[n - 1], states[n]);
    }
  }

  /** What `t` holds under `k` was there in `s` or was written since. */
  ghost predicate SameOrNewer(s: System, t: System, k: Key) {
    k in t.port.view ==> Holds(s.port.view, Item(k, t.port.view[k])) || t.port.view[k].createdAt >= s.last
  }

  lemma NewerTransitive(s: System, p: System, q: System, k: Key)
    requires SameOrNewer(s, p, k) && SameOrNewer(p, q, k) && s.last <= p.last
    ensures SameOrNewer(s, q, k)
  {
  }

  lemma {:induction false} SameOrWrittenSince(lim: Limits, states: seq<System>, actions: seq<Action>, m: nat, n: nat,
                                              k: Key)
    requires Behaviour(lim, states, actions) && m <= n <= |actions|
    ensures SameOrNewer(states[m], states[n], k)
    decreases n
  {
    if n > m {
      StepOf(lim, states, actions, n - 1);
      LastGrows(lim, states, actions, m, n - 1);
      hide Behaviour, Next, SameOrNewer;
      SameOrWrittenSince(lim, states, actions, m, n - 1, k);
      SameOrFresh(lim, states[n - 1], actions[n - 1], states[n], k);
      NewerTransitive(states[m], states[n - 1], states[n], k);
    }
  }

  lemma SameOrFresh(lim: Limits, p: System, a: Action, q: System, k: Key)
    requires Next(lim, p, a, q)
    ensures SameOrNewer(p, q, k)
  {
    if a.Client? {
      StepAtKey(lim, p.port, a.ev, q.port, k);
    } else {
      CleanerRemovesOnlyExpired(lim, p, a, q, k);
    }
  }

  lemma {:induction false} LastGrows(lim: Limits, states: seq<System>, actions: seq<Action>, m: nat, n: nat)
    requires Behaviour(lim, states, actions) && m <= n <= |actions|
    ensures states[m].last <= states[n].last
    decreases n
  {
    if n > m {
      LastGrows(lim, states, actions, m, n - 1);
      assert Next(lim, states[n - 1], actions[n - 1], states[n]);
    }
  }

  ghost predicate TakenByClient(s: System, a: Action, t: System, it: Item) {
    a.Client? && Holds(s.port.view, it) && !Holds(t.port.view, it)
  }

  /** Cleaner safety over any stretch of a behaviour: an entry that no client takes out and that has not
      expired by its end survives, however stale the cleaner's snapshots are. */
  lemma {:induction false} LiveEntriesSurvive(lim: Limits, states: seq<System>, actions: seq<Action>, m: nat, n: nat,
                                              it: Item)
    requires Behaviour(lim, states, actions) && m <= n <= |actions|
    requires Holds(states[m].port.view, it) && !Expired(it.entry, states[n].last)
    requires forall i :: m <= i < n ==> !TakenByClient(states[i], actions[i], states[i + 1], it)
    ensures Holds(states[n].port.view, it)
    decreases n
  {
    if n > m {
      hide Behaviour, Next, Holds;
      StepOf(lim, states, actions, n - 1);
      LastGrows(lim, states, actions, n - 1, n);
      LiveEntriesSurvive(lim, states, actions, m, n - 1, it);
      if !actions[n - 1].Client? {
        CleanerStepKeepsLive(lim, states[n - 1], actions[n - 1], states[n], it);
      }
    }
  }

  lemma CleanerStepKeepsLive(lim: Limits, s: System, a: Action, t: System, it: Item)
    requires Next(lim, s, a, t) && !a.Client? && Holds(s.port.view, it) && !Expired(it.entry, t.last)
    ensures Holds(t.port.view, it)
  {
    CleanerRemovesOnlyExpired(lim, s, a, t, it.key);
  }

  /** The cycle that snapshots at step `m` and is over at state `n`: a key that had expired when the
      snapshot was taken is gone, unless a client wrote it anew after that. */
  lemma CycleClearsTheExpired(lim: Limits, states: seq<System>, actions: seq<Action>, m: nat, n: nat, k: Key)
    requires Behaviour(lim, states, actions) && m < n <= |actions|
    requires actions[m].TakeSnapshot? && states[n].phase.Idle?
    requires forall i :: m < i < n ==> !actions[i].TakeSnapshot?
    requires k in states[m].port.view && Expired(states[m].port.view[k], actions[m].at)
    ensures k in states[n].port.view ==> states[n].port.view[k].createdAt >= actions[m].at
  {
    var it := Item(k, states[m].port.view[k]);
    assert Next(lim, states[m], actions[m], states[m + 1]);
    assert it in states[m + 1].snapshot;
    SnapshotIsKept(lim, states, actions, m, n);
    FinishedCycleIsComplete(lim, states, actions, n, it);
    SameOrWrittenSince(lim, states, actions, m + 1, n, k);
  }

  /** Steps left in the current cycle. */
  function Work(p: Phase): nat {
    match p
    case Idle => 0
    case Filtering(rest, picked) => 2 * |rest| + |picked| + 2
    case Removing(todo) => |todo| + 1
  }

  lemma StepsReduceWork(lim: Limits, s: System, a: Action, t: System)
    requires Next(lim, s, a, t)
    ensures a.Client? ==> t.phase == s.phase
    ensures !a.Client? && !a.TakeSnapshot? ==> Work(t.phase) < Work(s.phase)
    ensures a.TakeSnapshot? ==> Work(t.phase) == 2 * |a.items| + 2
  {
  }

  /** Until its cycle is over the cleaner always has a step to take. */
  lemma CleanerIsNeverStuck(lim: Limits, s: System)
    ensures !s.phase.Idle? ==> exists b, u :: CleanerStep(lim, s, b, u)
  {
    match s.phase
    case Idle =>
    case Filtering(rest, picked) =>
      if rest == [] {
        var u := s.(phase := if picked == [] then Idle else Removing(picked));
        assert CleanerStep(lim, s, EndTests, u);
      } else {
        var it, due := rest[0], Expired(rest[0].entry, s.last);
        var u := s.(phase := Filtering(rest[1..], if due then picked + [it] else picked),
                    condemned := if due then s.condemned + {it} else s.condemned);
        assert CleanerStep(lim, s, TestOne(s.last), u);
      }
    case Removing(todo) =>
      if todo == [] {
        assert CleanerStep(lim, s, EndCycle, s.(phase := Idle));
      } else {
        var k, clk := todo[0].key, Readings(s.last, s.last, s.last, map[]);
        var q := if k in s.port.view && !Live(s.port, k, s.last) then Expire(s.port, k) else s.port;
        assert Step(lim, s.port, Event(RemoveIfExpired(k), clk, Done), q);
        assert CleanerStep(lim, s, RemoveOne(clk), s.(port := q, phase := Removing(todo[1..])));
      }
  }

  /** How many of the actions `a .. n` are the cleaner's. */
  function CleanerSteps(actions: seq<Action>, a: nat, n: nat): nat
    requires a <= n <= |actions|
  {
    if n == a then 0 else CleanerSteps(actions, a, n - 1) + (if actions[n - 1].Client? then 0 else 1)
  }

  /** A cycle over k snapshot items is over after at most 2k + 2 cleaner steps, and until then one is
      always possible, however many client steps intervene. */
  lemma {:induction false} CycleEndsInTime(lim: Limits, states: seq<System>, actions: seq<Action>, m: nat, n: nat)
    requires Behaviour(lim, states, actions) && m < n <= |actions| && actions[m].TakeSnapshot?
    requires forall i :: m < i < n ==> !actions[i].TakeSnapshot?
    ensures Work(states[n].phase) + CleanerSteps(actions, m + 1, n) <= 2 * |actions[m].items| + 2
    ensures CleanerSteps(actions, m + 1, n) >= 2 * |actions[m].items| + 2 ==> states[n].phase.Idle?
    ensures !states[n].phase.Idle? ==> exists b, u :: CleanerStep(lim, states[n], b, u)
    decreases n
  {
    StepOf(lim, states, actions, n - 1);
    StepsReduceWork(lim, states[n - 1], actions[n - 1], states[n]);
    CleanerIsNeverStuck(lim, states[n]);
    hide Next, CleanerStep;
    if n > m + 1 {
      CycleEndsInTime(lim, states, actions, m, n - 1);
    }
  }
}
