/** The application service over a backend, end to end: what one namespace can and cannot see of
    another (service.py). */
module Service {
  import opened Types
  import opened Entries
  import opened Validation
  import opened Namespace
  import opened Port
  import opened TtlMap
  import MS = MemorySpec
  import MP = MemoryPort

  datatype Action =
    | Read
    | Write(value: Bytes, ttlSeconds: int)
    | WriteIfAbsent(value: Bytes, ttlSeconds: int)
    | WriteIfEqual(expected: Bytes, value: Bytes, ttlSeconds: int)
    | Erase

  datatype Request = Request(key: string, ns: Option<string>, action: Action)

  function TtlOf(seconds: int): Option<int> {
    if seconds > 0 then Some(seconds) else None
  }

  /** The store call a request becomes, or the error it is answered with before the store is reached. */
  function Translate(r: Request): Result<Op, ServiceError> {
    match StorageKey(r.key, r.ns)
    case Failure(e) => Failure(e)
    case Success(k) =>
      Success(match r.action
        case Read => Get(k)
        case Write(v, ttl) => Set(k, v, TtlOf(ttl))
        case WriteIfAbsent(v, ttl) => SetIfAbsent(k, v, TtlOf(ttl))
        case WriteIfEqual(x, v, ttl) => CompareAndSet(k, x, v, TtlOf(ttl))
        case Erase => Delete(k))
  }

  function Id(r: Request): Identity
    requires Translate(r).Success?
  {
    IdentityOf(r.key, r.ns)
  }

  /** A request is answered with an error before the store is reached exactly when it has no storage key. */
  lemma FailsForItsKeyOnly(r: Request)
    ensures Translate(r).Failure? <==> StorageKey(r.key, r.ns).Failure?
    ensures Translate(r).Failure? ==> Translate(r).error == StorageKey(r.key, r.ns).error
  {
  }

  /** No accepted request is refused by the store, and its call goes to the address of its identity. */
  lemma TranslationIsAccepted(r: Request)
    requires Translate(r).Success?
    ensures !Refused(Translate(r).value)
    ensures Translate(r).value.key == Address(Id(r))
  {
    StorageKeysAreValid(r.key, r.ns);
    StorageKeyIsAddress(r.key, r.ns);
  }

  /** `events` serves accepted requests, interleaved with the store's own `stats`, `clear` and cleaner steps. */
  ghost predicate Serves(requests: seq<Option<Request>>, events: seq<Event>) {
    && |requests| == |events|
    && forall i :: 0 <= i < |events| ==>
         match requests[i]
         case Some(r) => Translate(r) == Success(events[i].op)
         case None => events[i].op.Stats? || events[i].op.Clear? || events[i].op.RemoveIfExpired?
  }

  /** Nobody in `requests[a..n]` reaches the address of `id` under another identity: checked request by
      request, before any of them is served. */
  predicate Unspelled(requests: seq<Option<Request>>, a: nat, n: nat, id: Identity)
    requires a <= n <= |requests|
  {
    forall i :: a <= i < n && requests[i].Some? && Translate(requests[i].value).Success? ==>
      !Spells(Id(requests[i].value), id) && !Spells(id, Id(requests[i].value))
  }

  lemma UnspelledMeansApart(requests: seq<Option<Request>>, a: nat, n: nat, id: Identity, i: nat)
    requires a <= i < n <= |requests| && Unspelled(requests, a, n, id)
    requires requests[i].Some? && Translate(requests[i].value).Success?
    ensures Address(Id(requests[i].value)) == Address(id) <==> Id(requests[i].value) == id
  {
    AddressesMeetExactly(Id(requests[i].value), id);
  }

  /** The entry a served request wrote, in the request's own terms. */
  function RequestWritten(r: Request, ev: Event): Option<Entry> {
    match r.action
    case Write(v, ttl) => if ev.out == SetDone(Ok) then Some(MakeEntry(v, Some(ttl), ev.clk.stamp)) else None
    case WriteIfAbsent(v, ttl) =>
      if ev.out == ConditionalDone(Stored) then Some(MakeEntry(v, Some(ttl), ev.clk.stamp)) else None
    case WriteIfEqual(_, v, ttl) =>
      if ev.out == ConditionalDone(Stored) then Some(MakeEntry(v, Some(ttl), ev.clk.stamp)) else None
    case _ => None
  }

  /** The store writes what the request asked for: same value, and a time-to-live of zero or less seconds
      means none, whichever layer normalises it. */
  lemma WritesWhatWasAsked(r: Request, ev: Event)
    requires Translate(r) == Success(ev.op)
    ensures Written(ev) == RequestWritten(r, ev)
    ensures ev.op.Delete? <==> r.action.Erase?
  {
  }

  function Lookup(m: map<Key, Entry>, k: Key): Option<Entry> {
    if k in m then Some(m[k]) else None
  }

  /** The reference for one identity: the last successful write that named it, until it is deleted or the
      store is cleared; at first, what the store held under its address when it was opened. */
  function LastRequestWrite(start: Option<Entry>, requests: seq<Option<Request>>, events: seq<Event>,
                            id: Identity): Option<Entry>
    requires |requests| == |events|
  {
    if events == [] then start
    else
      var n := |events| - 1;
      RememberFor(LastRequestWrite(start, requests[..n], events[..n], id), requests[n], events[n], id)
  }

  function RememberFor(before: Option<Entry>, r: Option<Request>, ev: Event, id: Identity): Option<Entry> {
    if ev.op.Clear? then None
    else if !Names(r, id) then before
    else if RequestWritten(r.value, ev).Some? then RequestWritten(r.value, ev)
    else if r.value.action.Erase? && ev.out.Deleted? then None
    else before
  }

  /** `r` is an accepted request that names `id`. */
  predicate Names(r: Option<Request>, id: Identity) {
    r.Some? && Translate(r.value).Success? && Id(r.value) == id
  }

  /** The store-level reference map, read at an address, is the service-level one. */
  lemma {:induction false} WritesAgree(start: map<Key, Entry>, requests: seq<Option<Request>>, events: seq<Event>,
                                       n: nat, id: Identity)
    requires Serves(requests, events) && n <= |events| && Unspelled(requests, 0, n, id)
    ensures Lookup(LastWrites(start, events[..n]), Address(id))
         == LastRequestWrite(Lookup(start, Address(id)), requests[..n], events[..n], id)
  {
    if n > 0 {
      hide Address, Translate;
      WritesAgree(start, requests, events, n - 1, id);
      LastWritesStep(start, events, n - 1);
      assert requests[..n][..n - 1] == requests[..n - 1] && events[..n][..n - 1] == events[..n - 1];
      if requests[n - 1].Some? {
        UnspelledMeansApart(requests, 0, n, id, n - 1);
      }
      hide RememberFor, Remember;
      RememberTheSame(LastWrites(start, events[..n - 1]), requests[n - 1], events[n - 1], id);
    }
  }

  lemma RememberTheSame(m: map<Key, Entry>, r: Option<Request>, ev: Event, id: Identity)
    requires match r
             case Some(q) => Translate(q) == Success(ev.op) && (Address(Id(q)) == Address(id) <==> Id(q) == id)
             case None => ev.op.Stats? || ev.op.Clear? || ev.op.RemoveIfExpired?
    ensures Lookup(Remember(m, ev), Address(id)) == RememberFor(Lookup(m, Address(id)), r, ev, id)
  {
    if r.Some? {
      TranslationIsAccepted(r.value);
      WritesWhatWasAsked(r.value, ev);
      hide Translate, Address, Written, RequestWritten;
    }
  }

  /** What request `n` may see of `id`. */
  function Meant(states: seq<Port>, requests: seq<Option<Request>>, events: seq<Event>, n: nat,
                 id: Identity): Option<Entry>
    requires n <= |events| == |requests| && |states| > 0
  {
    LastRequestWrite(Lookup(states[0].view, Address(id)), requests[..n], events[..n], id)
  }

  /** Event `n` answers nothing, or the unexpired value last written under this identity. */
  predicate AnswersOwn(states: seq<Port>, requests: seq<Option<Request>>, events: seq<Event>, n: nat, id: Identity)
    requires n < |events| == |requests| && |states| > 0
  {
    && events[n].out.Found?
    && (events[n].out.found.Some? ==>
          var meant := Meant(states, requests, events, n, id);
          meant.Some? && events[n].out.found == Some(meant.value.value) && !Expired(meant.value, events[n].clk.check))
  }

  /** End-to-end isolation: whatever other namespaces, the cleaner and eviction do, a read answers nothing
      or the value of the last successful write that named the same namespace and key. */
  lemma ReadsSeeOnlyTheirNamespace(lim: Limits, states: seq<Port>, requests: seq<Option<Request>>,
                                   events: seq<Event>, n: nat, id: Identity)
    requires Run(lim, states, events) && Clocked(events) && Serves(requests, events)
    requires n < |events| && Names(requests[n], id) && requests[n].value.action.Read?
    requires Unspelled(requests, 0, n, id)
    ensures AnswersOwn(states, requests, events, n, id)
  {
    TranslationIsAccepted(requests[n].value);
    assert Step(lim, states[n], events[n], states[n + 1]);
    GetReturnsLastWrite(lim, states, events, n);
    WritesAgree(states[0].view, requests, events, n, id);
  }

  /** A conditional write is judged against its own namespace only: what it replaces is the last
      successful write that named the same namespace and key. */
  lemma SwapsSeeOnlyTheirNamespace(lim: Limits, states: seq<Port>, requests: seq<Option<Request>>,
                                   events: seq<Event>, n: nat, id: Identity)
    requires Run(lim, states, events) && Clocked(events) && Serves(requests, events)
    requires n < |events| && Names(requests[n], id) && requests[n].value.action.WriteIfEqual?
    requires Unspelled(requests, 0, n, id) && events[n].out == ConditionalDone(Stored)
    ensures var meant := Meant(states, requests, events, n, id);
            && meant.Some? && meant.value.value == requests[n].value.action.expected
            && !Expired(meant.value, events[n].clk.check)
  {
    TranslationIsAccepted(requests[n].value);
    NoLostUpdate(lim, states, events, n);
    WritesAgree(states[0].view, requests, events, n, id);
  }

  // When isolation holds, exactly.

  /** Some accepted request names this identity. */
  ghost predicate Accepted(id: Identity) {
    exists key, ns :: StorageKey(key, ns).Success? && IdentityOf(key, ns) == id
  }

  /** A request that spells the normalised namespace names the same identity. */
  lemma AcceptedNamesItself(id: Identity)
    requires Accepted(id)
    ensures StorageKey(id.1, id.0).Success? && IdentityOf(id.1, id.0) == id
  {
    var key, ns :| StorageKey(key, ns).Success? && IdentityOf(key, ns) == id;
    NormalisationIsIdempotent(ns);
    hide Encode, Strip, MatchesPattern;
  }

  predicate AllNamed(requests: seq<Option<Request>>, names: set<Identity>) {
    forall i :: 0 <= i < |requests| && requests[i].Some? && Translate(requests[i].value).Success? ==>
      Id(requests[i].value) in names
  }

  /** In every run of requests for `names`, whatever the store held at first, every read of `id` answers
      nothing or its own last write. */
  ghost predicate Isolated(lim: Limits, names: set<Identity>, id: Identity) {
    forall states: seq<Port>, requests: seq<Option<Request>>, events: seq<Event>, n: nat ::
      && Run(lim, states, events) && Clocked(events) && Serves(requests, events) && AllNamed(requests, names)
      && n < |events| && Names(requests[n], id) && requests[n].value.action.Read?
      ==> AnswersOwn(states, requests, events, n, id)
  }

  /** A client that uses `names` is isolated at `id` exactly when none of them spells `id` and `id` spells
      none of them; a namespaced `id` spells nothing, so there only un-namespaced keys matter. */
  lemma IsolatedExactly(lim: Limits, names: set<Identity>, id: Identity)
    requires ValidLimits(lim) && BYTES_OVERHEAD <= lim.maxValueBytes
    requires id in names && forall b :: b in names ==> Accepted(b)
    ensures Isolated(lim, names, id) <==> forall b :: b in names ==> !Spells(b, id) && !Spells(id, b)
  {
    if forall b :: b in names ==> !Spells(b, id) && !Spells(id, b) {
      forall states: seq<Port>, requests: seq<Option<Request>>, events: seq<Event>, n: nat |
        && Run(lim, states, events) && Clocked(events) && Serves(requests, events) && AllNamed(requests, names)
        && n < |events| && Names(requests[n], id) && requests[n].value.action.Read?
        ensures AnswersOwn(states, requests, events, n, id)
      {
        assert Unspelled(requests, 0, n, id);
        ReadsSeeOnlyTheirNamespace(lim, states, requests, events, n, id);
      }
    } else {
      var b :| b in names && (Spells(b, id) || Spells(id, b));
      SpellingLeaks(lim, names, id, b);
    }
  }

  /** On a new in-memory store, `b` writes and `id` reads what `b` wrote. */
  lemma SpellingLeaks(lim: Limits, names: set<Identity>, id: Identity, b: Identity)
    requires ValidLimits(lim) && BYTES_OVERHEAD <= lim.maxValueBytes
    requires id in names && b in names && Accepted(id) && Accepted(b) && (Spells(b, id) || Spells(id, b))
    ensures !Isolated(lim, names, id)
  {
    var k := Address(id);
    var trace := [Timed(Set(k, [], None), Instant(0.0)), Timed(Get(k), Instant(0.0))];
    var states, events := MP.States(lim, trace), MP.Events(lim, trace);
    var requests := [Some(Request(b.1, b.0, Write([], 0))), Some(Request(id.1, id.0, Read))];
    hide Isolated, MP.States, MP.Events, Run, Serves, AllNamed, Names, Spells, AnswersOwn, Meant, Monotone, Accepted;
    AcceptedNamesItself(id);
    StorageKeysAreValid(id.1, id.0);
    StorageKeyIsAddress(id.1, id.0);
    MP.MemoryRunsAreRuns(lim, trace);
    MP.WriteThenRead(lim, k, [], Instant(0.0));
    AllAtZero(trace);
    BothServed(requests, events, names, id, b);
    ReadsAnother(states, requests, events, id);
    Refutes(lim, names, id, states, requests, events, 1);
  }

  lemma AllAtZero(trace: seq<Timed>)
    requires forall i :: 0 <= i < |trace| ==> trace[i].clk == Instant(0.0)
    ensures Monotone(MS.Clocks(trace))
  {
  }

  lemma ReadsAnother(states: seq<Port>, requests: seq<Option<Request>>, events: seq<Event>, id: Identity)
    requires |requests| == |events| == 2 && |states| > 0 && states[0] == FRESH
    requires !Names(requests[0], id) && events[0].op.Set? && events[1].out == Found(Some([]))
    ensures !AnswersOwn(states, requests, events, 1, id)
  {
    assert requests[..1][..0] == [] && events[..1][..0] == [];
    assert LastRequestWrite(None, requests[..1], events[..1], id) == None;
  }

  lemma Refutes(lim: Limits, names: set<Identity>, id: Identity, states: seq<Port>, requests: seq<Option<Request>>,
                events: seq<Event>, n: nat)
    requires Run(lim, states, events) && Clocked(events) && Serves(requests, events) && AllNamed(requests, names)
    requires n < |events| && Names(requests[n], id) && requests[n].value.action.Read?
    requires !AnswersOwn(states, requests, events, n, id)
    ensures !Isolated(lim, names, id)
  {
    hide Run, Clocked, Serves, AllNamed, AnswersOwn;
  }

  lemma BothServed(requests: seq<Option<Request>>, events: seq<Event>, names: set<Identity>, id: Identity, b: Identity)
    requires id in names && b in names && Accepted(id) && Accepted(b) && (Spells(b, id) || Spells(id, b))
    requires requests == [Some(Request(b.1, b.0, Write([], 0))), Some(Request(id.1, id.0, Read))]
    requires |events| == 2 && events[0].op == Set(Address(id), [], None) && events[1].op == Get(Address(id))
    ensures Serves(requests, events) && AllNamed(requests, names)
    ensures Names(requests[1], id) && !Names(requests[0], id) && requests[1].value.action.Read?
  {
    AddressesMeetExactly(b, id);
    AcceptedNamesItself(b);
    AcceptedNamesItself(id);
    StorageKeyIsAddress(b.1, b.0);
    StorageKeyIsAddress(id.1, id.0);
    hide Address, StorageKey, IdentityOf;
  }

  /** `k` is absent, or holds what it held in `p`. */
  ghost predicate OnlyLost(p: Port, q: Port, k: Key) {
    k in q.view ==> k in p.view && q.view[k] == p.view[k]
  }

  /** Step `i` took `k` out by LRU eviction or after it had expired. */
  ghost predicate LostAt(states: seq<Port>, events: seq<Event>, i: nat, k: Key)
    requires i < |events| && |states| == |events| + 1
  {
    && k in states[i].view && k !in states[i + 1].view
    && (Evicted(states[i], events[i], states[i + 1], k) || Expired(states[i].view[k], events[i].clk.used))
  }

  /** Between states `a` and `n`, `k` kept its entry or was lost at some step to eviction or expiry. */
  ghost predicate KeptOrLost(states: seq<Port>, events: seq<Event>, a: nat, n: nat, k: Key)
    requires a <= n <= |events| && |states| == |events| + 1
  {
    && OnlyLost(states[a], states[n], k)
    && (k in states[a].view && k !in states[n].view ==> exists i :: a <= i < n && LostAt(states, events, i, k))
  }

  lemma KeptOneMore(states: seq<Port>, events: seq<Event>, a: nat, n: nat, k: Key)
    requires a <= n < |events| && |states| == |events| + 1
    requires KeptOrLost(states, events, a, n, k) && OnlyLost(states[n], states[n + 1], k)
    requires k in states[n].view && k !in states[n + 1].view ==> LostAt(states, events, n, k)
    ensures KeptOrLost(states, events, a, n + 1, k)
  {
  }

  /** Step `i` neither writes nor deletes `k` nor clears the store. */
  ghost predicate LeavesAlone(ev: Event, k: Key) {
    !ev.op.Clear? && !WritesTo(ev, k) && !(ev.op.Delete? && ev.op.key == k)
  }

  lemma OneOtherStep(lim: Limits, states: seq<Port>, events: seq<Event>, i: nat, k: Key)
    requires Run(lim, states, events) && Clocked(events) && i < |events| && LeavesAlone(events[i], k)
    ensures OnlyLost(states[i], states[i + 1], k)
    ensures k in states[i].view && k !in states[i + 1].view ==> LostAt(states, events, i, k)
  {
    assert Step(lim, states[i], events[i], states[i + 1]);
    ClockedAt(events, i);
    StepAtKey(lim, states[i], events[i], states[i + 1], k);
    hide Step, Run;
  }

  lemma {:induction false} KeptWhileAlone(lim: Limits, states: seq<Port>, events: seq<Event>, a: nat, n: nat, k: Key)
    requires Run(lim, states, events) && Clocked(events) && a <= n <= |events|
    requires forall i :: a <= i < n ==> LeavesAlone(events[i], k)
    ensures KeptOrLost(states, events, a, n, k)
    decreases n
  {
    hide *;
    RunLength(lim, states, events);
    if n > a {
      KeptWhileAlone(lim, states, events, a, n - 1, k);
      OneOtherStep(lim, states, events, n - 1, k);
      KeptOneMore(states, events, a, n - 1, k);
    } else {
      KeptAtFirst(states, events, a, k);
    }
  }

  lemma KeptAtFirst(states: seq<Port>, events: seq<Event>, a: nat, k: Key)
    requires a <= |events| && |states| == |events| + 1
    ensures KeptOrLost(states, events, a, a, k)
  {
  }

  /** Non-interference over any stretch of a run without `clear` in which nobody names `id`: its entry is
      untouched, or it was lost to eviction or expiry; a later read can only turn from that value to a
      miss. */
  lemma OthersCanOnlyEvict(lim: Limits, states: seq<Port>, requests: seq<Option<Request>>, events: seq<Event>,
                           id: Identity, a: nat, n: nat)
    requires Run(lim, states, events) && Clocked(events) && Serves(requests, events)
    requires a <= n <= |events| && Unspelled(requests, a, n, id)
    requires forall i :: a <= i < n ==> !events[i].op.Clear? && !Names(requests[i], id)
    ensures KeptOrLost(states, events, a, n, Address(id))
  {
    var k := Address(id);
    forall i | a <= i < n ensures LeavesAlone(events[i], k) {
      assert !Names(requests[i], id);
      if requests[i].Some? {
        TranslationIsAccepted(requests[i].value);
        UnspelledMeansApart(requests, a, n, id, i);
      }
    }
    hide *;
    KeptWhileAlone(lim, states, events, a, n, k);
  }
}
