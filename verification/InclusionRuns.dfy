/** The inclusion property over whole runs, with the exact condition under which it holds. */
module InclusionRuns {
  import opened Types
  import opened Entries
  import opened MemorySpec
  import opened MemoryTheorems
  import opened Inclusion
  import P = Port
  import MP = MemoryPort

  /** The store with `slots` item slots after the first `i` calls. */
  function After(lim: Limits, slots: nat, trace: seq<Timed>, i: nat): Mem
    requires i <= |trace|
  {
    Run(WithSlots(lim, slots), EMPTY, trace[..i])
  }

  function Result(lim: Limits, slots: nat, trace: seq<Timed>, i: nat): Outcome
    requires i < |trace|
  {
    Step(WithSlots(lim, slots), After(lim, slots, trace, i), trace[i].op, trace[i].clk).1
  }

  ghost predicate IncludedAt(lim: Limits, n: nat, m: nat, trace: seq<Timed>, i: nat)
    requires i <= |trace|
  {
    Included(n, m, After(lim, n, trace, i), After(lim, m, trace, i))
  }

  predicate SeparatesAt(lim: Limits, n: nat, m: nat, trace: seq<Timed>, i: nat)
    requires i < |trace|
  {
    Separates(lim, After(lim, n, trace, i), After(lim, m, trace, i), trace[i].op, trace[i].clk)
  }

  lemma AfterStep(lim: Limits, slots: nat, trace: seq<Timed>, i: nat)
    requires i < |trace|
    ensures After(lim, slots, trace, i + 1)
              == Step(WithSlots(lim, slots), After(lim, slots, trace, i), trace[i].op, trace[i].clk).0
  {
    assert trace[..i + 1][..i] == trace[..i];
  }

  lemma OneStep(lim: Limits, n: nat, m: nat, trace: seq<Timed>, i: nat)
    requires BytesAmple(lim, n, m) && i < |trace|
    requires IncludedAt(lim, n, m, trace, i) && !SeparatesAt(lim, n, m, trace, i)
    ensures IncludedAt(lim, n, m, trace, i + 1)
  {
    FitsToo(lim, n, m);
    RunKeepsBounds(WithSlots(lim, m), trace[..i]);
    AfterStep(lim, n, trace, i);
    AfterStep(lim, m, trace, i);
    hide Included, Separates, Step;
    StepKeepsInclusion(lim, n, m, After(lim, n, trace, i), After(lim, m, trace, i), trace[i].op, trace[i].clk);
  }

  lemma {:induction false} IncludedWhileTogether(lim: Limits, n: nat, m: nat, trace: seq<Timed>, i: nat)
    requires BytesAmple(lim, n, m) && i <= |trace|
    requires forall j :: 0 <= j < i ==> !SeparatesAt(lim, n, m, trace, j)
    ensures forall j :: 0 <= j <= i ==> IncludedAt(lim, n, m, trace, j)
  {
    if i == 0 {
      ClearIncluded(n, m);
    } else {
      IncludedWhileTogether(lim, n, m, trace, i - 1);
      OneStep(lim, n, m, trace, i - 1);
    }
  }

  /** LRU inclusion: without `set_if_absent`, after every call the small store's order is the large
      one's with keys left out, its entries are the same, and the sizes differ by at most `m - n`. */
  lemma LruInclusion(lim: Limits, n: nat, m: nat, trace: seq<Timed>)
    requires BytesAmple(lim, n, m)
    requires forall i :: 0 <= i < |trace| ==> !trace[i].op.SetIfAbsent?
    ensures forall i :: 0 <= i <= |trace| ==> IncludedAt(lim, n, m, trace, i)
  {
    forall i | 0 <= i < |trace| ensures !SeparatesAt(lim, n, m, trace, i) {
      assert !trace[i].op.SetIfAbsent?;
    }
    IncludedWhileTogether(lim, n, m, trace, |trace|);
  }

  /** A larger cache never turns a hit into a miss: each hit in the small store is a hit with the same
      value in the large one. */
  lemma HitsAreIncluded(lim: Limits, n: nat, m: nat, trace: seq<Timed>, i: nat)
    requires BytesAmple(lim, n, m) && i < |trace|
    requires forall j :: 0 <= j < i ==> !SeparatesAt(lim, n, m, trace, j)
    requires trace[i].op.Get? && Result(lim, n, trace, i).Found? && Result(lim, n, trace, i).found.Some?
    ensures Result(lim, m, trace, i) == Result(lim, n, trace, i)
  {
    IncludedWhileTogether(lim, n, m, trace, i);
    assert IncludedAt(lim, n, m, trace, i);
    hide Included, Step;
    GetIncluded(lim, n, m, After(lim, n, trace, i), After(lim, m, trace, i), trace[i].op.key, trace[i].clk);
  }

  /** Each write is stamped later than the ones before it. */
  ghost predicate CreatedInOrder(trace: seq<Timed>) {
    && (forall i :: 0 <= i < |trace| ==> trace[i].clk.Ordered())
    && forall i, j :: 0 <= i < j < |trace| ==> trace[i].clk.stamp < trace[j].clk.stamp
  }

  lemma {:induction false} CreatedEarlier(lim: Limits, trace: seq<Timed>, i: nat, k: Key)
    requires ValidLimits(lim) && CreatedInOrder(trace) && i < |trace|
    requires k in Run(lim, EMPTY, trace[..i]).entries
    ensures Run(lim, EMPTY, trace[..i]).entries[k].createdAt < trace[i].clk.stamp
  {
    if i > 0 {
      var s, last := Run(lim, EMPTY, trace[..i - 1]), trace[i - 1];
      assert trace[..i][..i - 1] == trace[..i - 1];
      var (t, out) := Step(lim, s, last.op, last.clk);
      RunKeepsBounds(lim, trace[..i - 1]);
      MP.StepKeepsContract(lim, s, last.op, last.clk);
      P.StepAtKey(lim, MP.View(s), P.Event(last.op, last.clk, out), MP.View(t), k);
      hide Step, P.Step;
      if k in s.entries {
        CreatedEarlier(lim, trace, i - 1, k);
      }
    }
  }

  /** With `set_if_absent` in the run, the inclusion holds throughout exactly when no such call finds a
      key live in the large store that the small one has already lost. */
  lemma InclusionExactly(lim: Limits, n: nat, m: nat, trace: seq<Timed>)
    requires BytesAmple(lim, n, m) && CreatedInOrder(trace)
    ensures (forall i :: 0 <= i <= |trace| ==> IncludedAt(lim, n, m, trace, i))
       <==> (forall i :: 0 <= i < |trace| ==> !SeparatesAt(lim, n, m, trace, i))
  {
    if forall i :: 0 <= i < |trace| ==> !SeparatesAt(lim, n, m, trace, i) {
      IncludedWhileTogether(lim, n, m, trace, |trace|);
    } else if forall i :: 0 <= i <= |trace| ==> IncludedAt(lim, n, m, trace, i) {
      forall i | 0 <= i < |trace| ensures !SeparatesAt(lim, n, m, trace, i) {
        if SeparatesAt(lim, n, m, trace, i) {
          Separated(lim, n, m, trace, i);
        }
      }
    }
  }

  lemma Separated(lim: Limits, n: nat, m: nat, trace: seq<Timed>, i: nat)
    requires BytesAmple(lim, n, m) && CreatedInOrder(trace) && i < |trace|
    requires IncludedAt(lim, n, m, trace, i) && SeparatesAt(lim, n, m, trace, i)
    ensures !IncludedAt(lim, n, m, trace, i + 1)
  {
    FitsToo(lim, n, m);
    CreatedEarlier(WithSlots(lim, m), trace, i, trace[i].op.key);
    AfterStep(lim, n, trace, i);
    AfterStep(lim, m, trace, i);
    hide Included, Step;
    SeparationBreaksInclusion(lim, n, m, After(lim, n, trace, i), After(lim, m, trace, i), trace[i].op, trace[i].clk);
  }

  // A reachable separation: one slot against two, and a key that only the larger store still holds.

  function Trial(): seq<Timed> {
    [Timed(Set("a", [], None), Instant(1.0)),
     Timed(Set("b", [], None), Instant(2.0)),
     Timed(SetIfAbsent("a", [], None), Instant(3.0))]
  }

  /** Under all limits: the third call stores in the small store and answers EXISTS in the large one, so a
      run from empty stores does separate them and inclusion fails after it. */
  lemma InclusionCanFail(lim: Limits)
    requires BytesAmple(lim, 1, 2) && BYTES_OVERHEAD <= lim.maxValueBytes
    ensures Result(lim, 1, Trial(), 2) == ConditionalDone(Stored)
              && Result(lim, 2, Trial(), 2) == ConditionalDone(Exists)
    ensures SeparatesAt(lim, 1, 2, Trial(), 2) && IncludedAt(lim, 1, 2, Trial(), 2)
              && !IncludedAt(lim, 1, 2, Trial(), 3)
  {
    ThirdCallSeparates(lim);
    hide IncludedAt, SeparatesAt, BytesAmple, Result, CreatedInOrder;
    NoEarlierSeparation(lim);
    IncludedWhileTogether(lim, 1, 2, Trial(), 2);
    Separated(lim, 1, 2, Trial(), 2);
  }

  lemma NoEarlierSeparation(lim: Limits)
    ensures |Trial()| == 3 && CreatedInOrder(Trial())
    ensures forall i :: 0 <= i < 2 ==> !SeparatesAt(lim, 1, 2, Trial(), i)
  {
    hide Run, Step;
  }

  lemma ThirdCallSeparates(lim: Limits)
    requires BytesAmple(lim, 1, 2) && BYTES_OVERHEAD <= lim.maxValueBytes
    ensures Result(lim, 1, Trial(), 2) == ConditionalDone(Stored)
              && Result(lim, 2, Trial(), 2) == ConditionalDone(Exists)
    ensures SeparatesAt(lim, 1, 2, Trial(), 2)
  {
    FitsToo(lim, 1, 2);
    RunKeepsBounds(WithSlots(lim, 1), Trial()[..2]);
    SmallLostA(WithSlots(lim, 1));
    LargeHoldsA(WithSlots(lim, 2));
    hide Step, Run, Separates, Consistent;
    LastCall(lim, After(lim, 1, Trial(), 2), After(lim, 2, Trial(), 2));
  }

  lemma FirstTwoCalls(lim: Limits)
    ensures var s := Put(lim, EMPTY, "a", [], None, 1.0).0;
            && Run(lim, EMPTY, Trial()[..1]) == s
            && Run(lim, EMPTY, Trial()[..2]) == Put(lim, s, "b", [], None, 2.0).0
  {
    hide Put;
    assert Trial()[..1] == [Trial()[0]] && Trial()[..2][..1] == Trial()[..1] && Trial()[..1][..0] == [];
    assert Run(lim, EMPTY, []) == EMPTY;
  }

  lemma SmallLostA(lim: Limits)
    requires ValidLimits(lim) && BYTES_OVERHEAD <= lim.maxValueBytes && lim.maxItems == 1
    ensures "a" !in Run(lim, EMPTY, Trial()[..2]).entries
  {
    var s, t := Run(lim, EMPTY, Trial()[..1]), Run(lim, EMPTY, Trial()[..2]);
    RunKeepsBounds(lim, Trial()[..1]);
    RunKeepsBounds(lim, Trial()[..2]);
    FirstTwoCalls(lim);
    StoreEvictsTheLeastPrefix(lim, s, "b", [], None, 2.0);
    OrderCount(t);
    hide Run, Put, Consistent;
    assert "b" in t.entries;
    assert |t.entries.Keys - {"b"}| == |t.entries| - 1;
    assert t.entries.Keys - {"b"} == {};
  }

  lemma LargeHoldsA(lim: Limits)
    requires ValidLimits(lim) && BYTES_OVERHEAD <= lim.maxValueBytes && lim.maxItems == 2
    requires 2 * lim.maxValueBytes <= lim.maxMemoryBytes
    ensures var m := Run(lim, EMPTY, Trial()[..2]).entries; "a" in m && m["a"] == Entry([], None, 1.0)
  {
    FirstTwoCalls(lim);
    EmptyKeepsBounds(lim);
    PutIntoRoom(lim, EMPTY, "a", [], None, 1.0);
    hide Run, Put, Consistent;
    PutIntoRoom(lim, Append(EMPTY, "a", Entry([], None, 1.0)), "b", [], None, 2.0);
  }

  lemma LastCall(lim: Limits, s: Mem, l: Mem)
    requires ValidLimits(WithSlots(lim, 1)) && BYTES_OVERHEAD <= lim.maxValueBytes && WellFormed(s)
    requires "a" !in s.entries && "a" in l.entries && l.entries["a"].ttl == None
    ensures Separates(lim, s, l, Trial()[2].op, Trial()[2].clk)
    ensures Step(WithSlots(lim, 1), s, Trial()[2].op, Trial()[2].clk).1 == ConditionalDone(Stored)
    ensures Step(WithSlots(lim, 2), l, Trial()[2].op, Trial()[2].clk).1 == ConditionalDone(Exists)
  {
    PutStores(WithSlots(lim, 1), s, "a", [], None, 3.0);
    hide Put, Consistent;
  }
}
