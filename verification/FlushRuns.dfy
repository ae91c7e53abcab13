/**
  What runs of write completions, flushes and reports guarantee (lib/cpp/ms/osfile.cxx).
*/
module FlushRuns {
  import opened FlushLedger

  lemma TakenStep(s: File, e: Step, s': File)
    requires StepsTo(s, e, s')
    ensures Enabled(s, e) && s' == Next(s, e)
  {}

  /** One step of a run keeps the invariant. */
  lemma StepOfRun(states: seq<File>, steps: seq<Step>, i: nat)
    requires IsRun(states, steps) && i < |steps|
    ensures Inv(states[i]) && Enabled(states[i], steps[i]) && states[i + 1] == Next(states[i], steps[i])
  {
    hide Inv, Next, Enabled;
    RunInv(states, steps, i);
    assert StepsTo(states[i], steps[i], states[i + 1]);
    TakenStep(states[i], steps[i], states[i + 1]);
  }

  // ----- nothing is lost -----

  /** No step loses a completed write, and once durable it stays durable. */
  lemma StepKeepsWrites(s: File, e: Step, w: nat)
    requires Inv(s) && Enabled(s, e) && w in Completed(s)
    ensures w in Completed(Next(s, e))
    ensures w in s.durable ==> w in Next(s, e).durable
    ensures w in s.open && w !in Next(s, e).open ==> e.SubUnflushed? && w in s.flushes[e.f].writes
    ensures w in s.airborne && w in Next(s, e).open ==> e.FailReturn? && w in s.flushes[e.f].writes
    ensures w !in s.durable && w in Next(s, e).durable ==> e.Succeed? && w in s.flushes[e.f].writes
  {
    hide Summed, LockHeld;
  }

  /** In every run a completed write stays open, airborne or durable, and a durable one durable. */
  lemma {:induction false} RunKeepsWrites(states: seq<File>, steps: seq<Step>, i: nat, j: nat, w: nat)
    requires IsRun(states, steps) && i <= j < |states| && w in Completed(states[i])
    ensures w in Completed(states[j])
    ensures w in states[i].durable ==> w in states[j].durable
    decreases j
  {
    hide Inv, Next, Enabled, StepsTo, Completed;
    if i >= j {
    } else {
      RunKeepsWrites(states, steps, i, j - 1, w);
      StepOfRun(states, steps, j - 1);
      StepKeepsWrites(states[j - 1], steps[j - 1], w);
    }
  }

  /** What a flush subtracts on success, and gives back on failure, is the count it read; the
      writes it covers are those that had completed by then, and no later ones. */
  lemma {:induction false} FlushCoversEarlierWrites(states: seq<File>, steps: seq<Step>, f: nat, i: nat, j: nat)
    requires IsRun(states, steps) && i < j < |states| && steps[i] == ReadCount(f)
    requires forall k :: i < k < j ==> steps[k] != Succeed(f) && steps[k] != FailDone(f)
    ensures f in states[j].flushes && !states[j].flushes[f].Checked?
    ensures states[j].flushes[f].writes == states[i].open && states[j].flushes[f].delta == states[i].cioUnflushed
    decreases j
  {
    hide StepsTo, Inv;
    StepOfRun(states, steps, j - 1);
    if i >= j - 1 {
    } else {
      FlushCoversEarlierWrites(states, steps, f, i, j - 1);
    }
  }

  /** A successful flush makes durable exactly the writes counted when it read the count. */
  lemma FlushMakesDurable(states: seq<File>, steps: seq<Step>, f: nat, i: nat, j: nat)
    requires IsRun(states, steps) && i < j < |steps| && steps[i] == ReadCount(f) && steps[j] == Succeed(f)
    requires forall k :: i < k < j ==> steps[k] != Succeed(f) && steps[k] != FailDone(f)
    ensures states[j + 1].durable == states[j].durable + states[i].open
    ensures states[j + 1].open == states[j].open
  {
    hide StepsTo, Inv;
    FlushCoversEarlierWrites(states, steps, f, i, j);
    StepOfRun(states, steps, j);
  }

  /** A failed one makes them open again, for the next to cover. */
  lemma FailureGivesBack(states: seq<File>, steps: seq<Step>, f: nat, i: nat, j: nat)
    requires IsRun(states, steps) && i < j < |steps| && steps[i] == ReadCount(f) && steps[j] == FailReturn(f)
    requires forall k :: i < k < j ==> steps[k] != Succeed(f) && steps[k] != FailDone(f)
    ensures states[j + 1].open == states[j].open + states[i].open
    ensures states[j + 1].durable == states[j].durable
  {
    hide StepsTo, Inv;
    FlushCoversEarlierWrites(states, steps, f, i, j);
    StepOfRun(states, steps, j);
  }

  lemma {:induction false} FailureStays(states: seq<File>, steps: seq<Step>, i: nat, j: nat)
    requires IsRun(states, steps) && i <= j < |states| && states[i].errFlushFailed != SUCCESS
    ensures states[j].errFlushFailed == states[i].errFlushFailed
    decreases j
  {
    hide StepsTo, Inv;
    if i >= j {
    } else {
      FailureStays(states, steps, i, j - 1);
      StepOfRun(states, steps, j - 1);
    }
  }

  /** No flush has failed before step j. */
  predicate NoneFailed(steps: seq<Step>, j: nat)
    requires j <= |steps|
  {
    forall k :: 0 <= k < j ==> !steps[k].FailMark?
  }

  lemma {:induction false} NoFailureYet(states: seq<File>, steps: seq<Step>, j: nat)
    requires IsRun(states, steps) && j < |states| && NoneFailed(steps, j)
    ensures states[j].errFlushFailed == SUCCESS
    decreases j
  {
    hide StepsTo, Inv;
    if j == 0 {
    } else {
      NoFailureYet(states, steps, j - 1);
      StepOfRun(states, steps, j - 1);
    }
  }

  /** From the first failure of a flush on, its error stays recorded and no flush gets past its first
      check. */
  lemma FailureIsFinal(states: seq<File>, steps: seq<Step>, i: nat, j: nat)
    requires IsRun(states, steps) && i < j < |states| && steps[i].FailMark? && NoneFailed(steps, i)
    ensures states[j].errFlushFailed == steps[i].err != SUCCESS
    ensures j < |steps| ==> !steps[j].Check?
  {
    hide StepsTo, Inv;
    NoFailureYet(states, steps, i);
    StepOfRun(states, steps, i);
    FailureStays(states, steps, i + 1, j);
    if j < |steps| {
      StepOfRun(states, steps, j);
    }
  }

  lemma {:induction false} FirstFailure(steps: seq<Step>, j: nat) returns (i: nat)
    requires j <= |steps| && !NoneFailed(steps, j)
    ensures i < j && steps[i].FailMark? && NoneFailed(steps, i)
    decreases j
  {
    i := j - 1;
    if NoneFailed(steps, j - 1) {
    } else {
      i := FirstFailure(steps, j - 1);
    }
  }

  /** A flush gets past its first check if and only if no flush has failed yet. */
  lemma CheckPassesIff(states: seq<File>, steps: seq<Step>, j: nat, f: nat)
    requires IsRun(states, steps) && j < |states| && f !in states[j].flushes
    ensures Enabled(states[j], Check(f)) <==> NoneFailed(steps, j)
  {
    hide StepsTo, Inv, NoneFailed;
    if NoneFailed(steps, j) {
      NoFailureYet(states, steps, j);
    } else {
      var i := FirstFailure(steps, j);
      FailureIsFinal(states, steps, i, j);
    }
  }

  /** The number being flushed is at every moment the sum of what the flushes have taken over. */
  lemma LedgerSums(states: seq<File>, steps: seq<Step>, i: nat)
    requires IsRun(states, steps) && i < |states|
    ensures states[i].cioFlushing == Shares(states[i].flushes)
  {
    hide StepsTo, Shares;
    RunInv(states, steps, i);
  }

  // ----- when the count is right -----

  /** The count of unflushed writes, and the counts the flushes read, are those of the writes. */
  ghost predicate Exact(s: File) {
    && s.cioUnflushed == |s.open|
    && forall f :: f in s.flushes && !s.flushes[f].Checked? ==> s.flushes[f].delta == |s.flushes[f].writes|
  }

  /** By how much a step changes the number of open writes. */
  function Change(s: File, e: Step): int
    requires Enabled(s, e)
  {
    match e
    case StoreCount(_) => 1
    case SubUnflushed(f) => -|s.flushes[f].writes|
    case FailReturn(f) => |s.flushes[f].writes|
    case _ => 0
  }

  lemma SizeOfRest(a: set<nat>, b: set<nat>)
    requires b <= a
    ensures |a - b| == |a| - |b|
  {
    assert (a - b) + b == a;
  }

  lemma SizeOfUnion(a: set<nat>, b: set<nat>)
    requires a !! b
    ensures |a + b| == |a| + |b|
  {}

  lemma StepChanges(s: File, e: Step)
    requires Inv(s) && Enabled(s, e)
    ensures |Next(s, e).open| == |s.open| + Change(s, e)
  {
    hide Summed, LockHeld;
    if e.SubUnflushed? {
      assert Fits(s.flushes[e.f], s.open, s.airborne);
      SizeOfRest(s.open, s.flushes[e.f].writes);
    } else if e.FailReturn? {
      assert Fits(s.flushes[e.f], s.open, s.airborne);
      SizeOfUnion(s.open, s.flushes[e.f].writes);
    }
  }

  lemma StoreExact(s: File, w: nat)
    requires Inv(s) && Exact(s) && Enabled(s, StoreCount(w))
    ensures var s' := Next(s, StoreCount(w));
            && (s'.cioUnflushed == |s'.open| <==> s.loading[w] == s.cioUnflushed)
            && (s'.cioUnflushed == |s'.open| ==> Exact(s'))
  {
    hide Inv;
    StepChanges(s, StoreCount(w));
  }

  lemma ResetExact(s: File)
    requires Exact(s)
    ensures var s' := Next(s, ResetCount);
            && (s'.cioUnflushed == |s'.open| <==> s.open == {})
            && (s'.cioUnflushed == |s'.open| ==> Exact(s'))
  {}

  lemma FlushExact(s: File, e: Step)
    requires Inv(s) && Exact(s) && Enabled(s, e) && !e.StoreCount? && !e.ResetCount?
    ensures Exact(Next(s, e))
  {
    hide Inv;
    StepChanges(s, e);
  }

  /** Only a store and a reset can make the count wrong: a store of another number than the count, a
      reset while writes are open. */
  lemma StepExact(s: File, e: Step)
    requires Inv(s) && Exact(s) && Enabled(s, e)
    ensures var s' := Next(s, e);
            && (s'.cioUnflushed == |s'.open| ==> Exact(s'))
            && (e.ResetCount? ==> (Exact(s') <==> s.open == {}))
            && (e.StoreCount? ==> (Exact(s') <==> s.loading[e.w] == s.cioUnflushed))
            && (!e.StoreCount? && !e.ResetCount? ==> Exact(s'))
  {
    hide Inv, Next;
    if e.StoreCount? {
      StoreExact(s, e.w);
    } else if e.ResetCount? {
      ResetExact(s);
    } else {
      FlushExact(s, e);
    }
  }

  /** The net change of open writes by the steps from i up to j. */
  ghost function NetChange(states: seq<File>, steps: seq<Step>, i: nat, j: nat): int
    requires IsRun(states, steps) && i <= j <= |steps|
    decreases j
  {
    if i == j then 0
    else
      StepOfRun(states, steps, j - 1);
      NetChange(states, steps, i, j - 1) + Change(states[j - 1], steps[j - 1])
  }

  lemma {:induction false} NetChangeIs(states: seq<File>, steps: seq<Step>, i: nat, j: nat)
    requires IsRun(states, steps) && i <= j <= |steps|
    ensures |states[j].open| == |states[i].open| + NetChange(states, steps, i, j)
    decreases j
  {
    hide StepsTo, Inv, Change, Next, Enabled;
    if i >= j {
    } else {
      NetChangeIs(states, steps, i, j - 1);
      StepOfRun(states, steps, j - 1);
      StepChanges(states[j - 1], steps[j - 1]);
    }
  }

  /** Step j stores what step l loaded. */
  ghost predicate Paired(steps: seq<Step>, l: nat, j: nat) {
    && l < j < |steps| && steps[j].StoreCount? && steps[l] == LoadCount(steps[j].w)
    && forall k :: l < k < j ==> steps[k] != LoadCount(steps[j].w) && steps[k] != StoreCount(steps[j].w)
  }

  lemma {:induction false} LoadedValue(states: seq<File>, steps: seq<Step>, w: nat, l: nat, k: nat)
    requires IsRun(states, steps) && l < k < |states| && steps[l] == LoadCount(w)
    requires forall m :: l < m < k ==> steps[m] != LoadCount(w) && steps[m] != StoreCount(w)
    ensures w in states[k].loading && states[k].loading[w] == states[l].cioUnflushed
    decreases k
  {
    hide StepsTo, Inv;
    StepOfRun(states, steps, k - 1);
    if l >= k - 1 {
    } else {
      LoadedValue(states, steps, w, l, k - 1);
    }
  }

  lemma {:induction false} LoadedSometime(states: seq<File>, steps: seq<Step>, w: nat, k: nat) returns (l: nat)
    requires IsRun(states, steps) && k < |states| && w in states[k].loading
    ensures l < k && steps[l] == LoadCount(w)
    ensures forall m :: l < m < k ==> steps[m] != LoadCount(w) && steps[m] != StoreCount(w)
    decreases k
  {
    hide Inv;
    if k == 0 {
      assert false;
    }
    StepOfRun(states, steps, k - 1);
    hide StepsTo;
    if steps[k - 1] == LoadCount(w) {
      l := k - 1;
    } else {
      l := LoadedSometime(states, steps, w, k - 1);
    }
  }

  /** Between the load and the store of every completion the other steps leave the number of open
      writes, on balance, as it was; and the count is reset only while no write is open. */
  ghost predicate Undisturbed(states: seq<File>, steps: seq<Step>)
    requires IsRun(states, steps)
  {
    && (forall l, j :: Paired(steps, l, j) ==> NetChange(states, steps, l, j) == 0)
    && (forall j :: 0 <= j < |steps| && steps[j].ResetCount? ==> states[j].open == {})
  }

  lemma StoredIsLoading(s: File, e: Step)
    requires Enabled(s, e) && e.StoreCount?
    ensures e.w in s.loading
  {}

  lemma {:induction false} UndisturbedIsExact(states: seq<File>, steps: seq<Step>, i: nat)
    requires IsRun(states, steps) && Undisturbed(states, steps) && i < |states|
    ensures Exact(states[i])
    decreases i
  {
    hide Inv, Next, Enabled, NetChange;
    if i == 0 {
    } else {
      var j := i - 1;
      UndisturbedIsExact(states, steps, j);
      StepOfRun(states, steps, j);
      StepExact(states[j], steps[j]);
      if steps[j].StoreCount? {
        StoredIsLoading(states[j], steps[j]);
        var l := LoadedSometime(states, steps, steps[j].w, j);
        LoadedValue(states, steps, steps[j].w, l, j);
        assert Paired(steps, l, j);
        UndisturbedIsExact(states, steps, l);
        NetChangeIs(states, steps, l, j);
      }
    }
  }

  lemma RightIsUndisturbed(states: seq<File>, steps: seq<Step>, l: nat, j: nat)
    requires IsRun(states, steps) && Paired(steps, l, j)
    requires states[l].cioUnflushed == |states[l].open| && states[j].cioUnflushed == |states[j].open|
    requires states[j + 1].cioUnflushed == |states[j + 1].open|
    ensures NetChange(states, steps, l, j) == 0
  {
    hide NetChange;
    LoadedValue(states, steps, steps[j].w, l, j);
    StepOfRun(states, steps, j);
    StepChanges(states[j], steps[j]);
    NetChangeIs(states, steps, l, j);
    hide Inv;
  }

  lemma RightIsNotReset(states: seq<File>, steps: seq<Step>, j: nat)
    requires IsRun(states, steps) && j < |steps| && steps[j].ResetCount?
    requires states[j + 1].cioUnflushed == |states[j + 1].open|
    ensures states[j].open == {}
  {
    hide Inv;
    StepOfRun(states, steps, j);
  }

  /** The count of unflushed writes is right throughout a run if and only if no completion is
      disturbed between its load and its store and no open write is forgotten by a reset; and then
      the flushes' counts are right too. */
  lemma CountRightIff(states: seq<File>, steps: seq<Step>)
    requires IsRun(states, steps)
    ensures (forall i :: 0 <= i < |states| ==> states[i].cioUnflushed == |states[i].open|)
            <==> Undisturbed(states, steps)
    ensures Undisturbed(states, steps) ==> forall i :: 0 <= i < |states| ==> Exact(states[i])
  {
    hide Inv, Next, Enabled, NetChange;
    if Undisturbed(states, steps) {
      forall i | 0 <= i < |states| ensures Exact(states[i]) { UndisturbedIsExact(states, steps, i); }
    }
    if forall i :: 0 <= i < |states| ==> states[i].cioUnflushed == |states[i].open| {
      forall l, j | Paired(steps, l, j) ensures NetChange(states, steps, l, j) == 0 {
        RightIsUndisturbed(states, steps, l, j);
      }
      forall j | 0 <= j < |steps| && steps[j].ResetCount? ensures states[j].open == {} {
        RightIsNotReset(states, steps, j);
      }
    }
  }

  // ----- what the number being flushed counts -----

  /** A flush whose writes are open and, for the moment, in both numbers. */
  predicate InBoth(x: Flush) {
    x.Added? || x.Returned?
  }

  /** The open writes that are, for the moment, in both numbers. */
  ghost function Twice(s: File): set<nat> {
    set w | w in s.open && exists f :: f in s.flushes && InBoth(s.flushes[f]) && w in s.flushes[f].writes
  }

  lemma TwiceIs(s: File, f: nat)
    requires Inv(s) && f in s.flushes && InBoth(s.flushes[f])
    ensures Twice(s) == s.flushes[f].writes
  {
    hide Summed;
    assert Fits(s.flushes[f], s.open, s.airborne);
    forall w | w in Twice(s) ensures w in s.flushes[f].writes {
      var g :| g in s.flushes && InBoth(s.flushes[g]) && w in s.flushes[g].writes;
      assert InLock(s.flushes[f]) && InLock(s.flushes[g]);
    }
  }

  lemma TwiceNone(s: File)
    requires forall f :: f in s.flushes ==> !InBoth(s.flushes[f])
    ensures Twice(s) == {}
  {}

  /** Nothing is in both numbers unless a flush in the lock says so. */
  lemma NoneInBoth(s: File, f: nat)
    requires LockHeld(s) && (!s.locked || (f in s.flushes && InLock(s.flushes[f]) && !InBoth(s.flushes[f])))
    ensures Twice(s) == {}
  {
    forall g | g in s.flushes ensures !InBoth(s.flushes[g]) {
      if InBoth(s.flushes[g]) {
        assert InLock(s.flushes[g]);
      }
    }
    TwiceNone(s);
  }

  /** The number being flushed counts the airborne writes, and those in both numbers. */
  ghost predicate FlushingCounts(s: File) {
    s.cioFlushing == |s.airborne| + |Twice(s)|
  }

  lemma FitsItsSets(s: File, f: nat)
    requires Sorted(s) && f in s.flushes && !s.flushes[f].Checked?
    ensures s.flushes[f].writes <= if Carries(s.flushes[f]) then s.airborne else s.open
    ensures s.open !! s.airborne
  {
    assert Fits(s.flushes[f], s.open, s.airborne);
  }

  lemma AddCounts(s: File, f: nat)
    requires Inv(s) && Exact(s) && FlushingCounts(s) && Enabled(s, AddFlushing(f))
    ensures FlushingCounts(Next(s, AddFlushing(f)))
  {
    hide Summed, Sorted, Twice, LockHeld, Shares;
    StepInv(s, AddFlushing(f));
    var s', w := Next(s, AddFlushing(f)), s.flushes[f].writes;
    NoneInBoth(s, f);
    TwiceIs(s', f);
  }

  lemma SubCounts(s: File, f: nat)
    requires Inv(s) && Exact(s) && FlushingCounts(s) && Enabled(s, SubUnflushed(f))
    ensures FlushingCounts(Next(s, SubUnflushed(f)))
  {
    hide Summed, Sorted, Twice, LockHeld, Shares;
    StepInv(s, SubUnflushed(f));
    var s', w := Next(s, SubUnflushed(f)), s.flushes[f].writes;
    FitsItsSets(s, f);
    TwiceIs(s, f);
    NoneInBoth(s', f);
    SizeOfUnion(s.airborne, w);
  }

  lemma ReturnCounts(s: File, f: nat)
    requires Inv(s) && Exact(s) && FlushingCounts(s) && Enabled(s, FailReturn(f))
    ensures FlushingCounts(Next(s, FailReturn(f)))
  {
    hide Summed, Sorted, Twice, LockHeld, Shares;
    StepInv(s, FailReturn(f));
    var s', w := Next(s, FailReturn(f)), s.flushes[f].writes;
    FitsItsSets(s, f);
    NoneInBoth(s, f);
    TwiceIs(s', f);
    SizeOfRest(s.airborne, w);
  }

  lemma DoneCounts(s: File, f: nat)
    requires Inv(s) && Exact(s) && FlushingCounts(s) && Enabled(s, FailDone(f))
    ensures FlushingCounts(Next(s, FailDone(f)))
  {
    hide Summed, Sorted, Twice, LockHeld, Shares;
    StepInv(s, FailDone(f));
    var s', w := Next(s, FailDone(f)), s.flushes[f].writes;
    TwiceIs(s, f);
    NoneInBoth(s', f);
  }

  lemma SucceedCounts(s: File, f: nat)
    requires Inv(s) && Exact(s) && FlushingCounts(s) && Enabled(s, Succeed(f))
    ensures FlushingCounts(Next(s, Succeed(f)))
  {
    hide Summed, Sorted, Twice, LockHeld, Shares;
    StepInv(s, Succeed(f));
    var s', w := Next(s, Succeed(f)), s.flushes[f].writes;
    FitsItsSets(s, f);
    NoneInBoth(s, f);
    NoneInBoth(s', f);
    SizeOfRest(s.airborne, w);
  }

  lemma LockCounts(s: File, e: Step)
    requires Inv(s) && FlushingCounts(s) && Enabled(s, e) && (e.FailMark? || e.ReadCount?)
    ensures FlushingCounts(Next(s, e))
  {
    hide Summed, Sorted, Twice, LockHeld, Shares;
    StepInv(s, e);
    NoneInBoth(s, e.f);
    NoneInBoth(Next(s, e), e.f);
  }

  lemma SameTwice(s: File, s': File)
    requires Inv(s) && s.open <= s'.open
    requires forall f :: f in s'.flushes && InBoth(s'.flushes[f]) ==> f in s.flushes && s.flushes[f] == s'.flushes[f]
    requires forall f :: f in s.flushes ==> f in s'.flushes && s.flushes[f] == s'.flushes[f]
    ensures Twice(s') == Twice(s)
  {
    hide Summed, LockHeld;
    forall w | w in Twice(s') ensures w in Twice(s) {
      var f :| f in s'.flushes && InBoth(s'.flushes[f]) && w in s'.flushes[f].writes;
      assert Fits(s.flushes[f], s.open, s.airborne);
      assert f in s.flushes && InBoth(s.flushes[f]) && w in s.flushes[f].writes;
    }
    forall w | w in Twice(s) ensures w in Twice(s') {
      var f :| f in s.flushes && InBoth(s.flushes[f]) && w in s.flushes[f].writes;
      assert f in s'.flushes && InBoth(s'.flushes[f]) && w in s'.flushes[f].writes;
    }
  }

  lemma QuietCounts(s: File, e: Step)
    requires Inv(s) && FlushingCounts(s) && Enabled(s, e)
    requires e.Check? || e.LoadCount? || e.StoreCount? || e.ResetCount? || e.LoadFirst? || e.LoadSecond?
    ensures FlushingCounts(Next(s, e))
  {
    hide Inv, Twice;
    SameTwice(s, Next(s, e));
  }

  lemma StepCounts(s: File, e: Step)
    requires Inv(s) && Exact(s) && FlushingCounts(s) && Enabled(s, e)
    ensures FlushingCounts(Next(s, e))
  {
    hide Inv, Exact, FlushingCounts, Next;
    match e
    case AddFlushing(f) => AddCounts(s, f);
    case SubUnflushed(f) => SubCounts(s, f);
    case FailReturn(f) => ReturnCounts(s, f);
    case FailDone(f) => DoneCounts(s, f);
    case Succeed(f) => SucceedCounts(s, f);
    case FailMark(_, _) => LockCounts(s, e);
    case ReadCount(_) => LockCounts(s, e);
    case _ => QuietCounts(s, e);
  }

  lemma OpenedCounts()
    ensures FlushingCounts(Opened)
  {
    TwiceNone(Opened);
  }

  lemma {:induction false} RunFlushingCounts(states: seq<File>, steps: seq<Step>, i: nat)
    requires IsRun(states, steps) && Undisturbed(states, steps) && i < |states|
    ensures FlushingCounts(states[i])
    decreases i
  {
    hide Inv, Next, Enabled, Undisturbed, StepsTo, FlushingCounts, Exact;
    if i == 0 {
      OpenedCounts();
    } else {
      RunFlushingCounts(states, steps, i - 1);
      UndisturbedIsExact(states, steps, i - 1);
      StepOfRun(states, steps, i - 1);
      StepCounts(states[i - 1], steps[i - 1]);
    }
  }

  /** Both numbers, looked at in one moment, never add up to fewer than the writes that are not
      durable. The surplus is exactly the writes that a flush in the lock has in both numbers. */
  lemma SnapshotCounts(states: seq<File>, steps: seq<Step>, i: nat)
    requires IsRun(states, steps) && Undisturbed(states, steps) && i < |states|
    ensures var s := states[i];
            s.cioUnflushed + s.cioFlushing == |s.open| + |s.airborne| + |Twice(s)|
  {
    hide Undisturbed, StepsTo, Twice;
    UndisturbedIsExact(states, steps, i);
    RunFlushingCounts(states, steps, i);
  }

  // ----- reports -----

  /** What a report returns when its loads are the steps i and j. */
  function Sum(s: File, t: File, fUnflushedFirst: bool): int {
    if fUnflushedFirst then s.cioUnflushed + t.cioFlushing else s.cioFlushing + t.cioUnflushed
  }

  ghost predicate Reports(steps: seq<Step>, r: nat, fUnflushedFirst: bool, i: nat, j: nat) {
    i < j < |steps| && steps[i] == LoadFirst(r, fUnflushedFirst) && steps[j] == LoadSecond(r)
  }

  lemma {:induction false} HalfOrWhole(states: seq<File>, steps: seq<Step>, r: nat, fUnflushedFirst: bool, i: nat,
                                       k: nat)
    requires IsRun(states, steps) && i < k < |states| && steps[i] == LoadFirst(r, fUnflushedFirst)
    ensures r in states[k].reports
    ensures states[k].reports[r].Half? ==>
              states[k].reports[r] == Half(fUnflushedFirst,
                                           if fUnflushedFirst then states[i].cioUnflushed else states[i].cioFlushing)
    decreases k
  {
    hide StepsTo, Inv;
    StepOfRun(states, steps, k - 1);
    if i >= k - 1 {
    } else {
      HalfOrWhole(states, steps, r, fUnflushedFirst, i, k - 1);
    }
  }

  lemma ReportIsSum(states: seq<File>, steps: seq<Step>, r: nat, fUnflushedFirst: bool, i: nat, j: nat)
    requires IsRun(states, steps) && Reports(steps, r, fUnflushedFirst, i, j)
    ensures r in states[j + 1].reports
    ensures states[j + 1].reports[r] == Reported(Sum(states[i], states[j], fUnflushedFirst))
  {
    hide StepsTo, Inv;
    HalfOrWhole(states, steps, r, fUnflushedFirst, i, j);
    StepOfRun(states, steps, j);
  }

  function NotDurable(s: File): set<nat> {
    s.open + s.airborne
  }

  /** The writes completed by the first load that are not durable at the second either. */
  function Still(s: File, t: File): set<nat> {
    NotDurable(s) * NotDurable(t)
  }

  /** The one way a report can miss writes: they moved, between the loads, from the number read
      second into the number read first. The report makes up for it by what is durable by now, by
      what came into the number read second, and by what is in both. */
  ghost predicate MadeUpFor(s: File, t: File, fUnflushedFirst: bool) {
    if fUnflushedFirst
    then |s.airborne * t.open| <= |s.open * t.durable| + |t.airborne - s.airborne| + |Twice(t)|
    else |s.open * t.airborne| <= |s.airborne * t.durable| + |t.open - s.open| + |Twice(s)|
  }

  lemma Split3(a: set<nat>, x: set<nat>, y: set<nat>, z: set<nat>)
    requires a <= x + y + z && x !! y !! z
    ensures |a| == |a * x| + |a * y| + |a * z|
  {
    assert a == (a * x) + (a * y) + (a * z);
    SizeOfUnion(a * x, a * y);
    SizeOfUnion((a * x) + (a * y), a * z);
  }

  lemma StillSize(s: File, t: File)
    requires s.open !! s.airborne && t.open !! t.airborne
    ensures |Still(s, t)|
            == |s.open * t.open| + |s.open * t.airborne| + |s.airborne * t.open| + |s.airborne * t.airborne|
  {
    var a, b := s.open * t.open + s.open * t.airborne, s.airborne * t.open + s.airborne * t.airborne;
    assert Still(s, t) == a + b;
    SizeOfUnion(a, b);
    SizeOfUnion(s.open * t.open, s.open * t.airborne);
    SizeOfUnion(s.airborne * t.open, s.airborne * t.airborne);
  }

  lemma Rest(a: set<nat>, b: set<nat>)
    ensures |a| == |a * b| + |a - b|
  {
    assert a == (a * b) + (a - b);
  }

  lemma Commute(s: File, t: File)
    ensures t.airborne * s.airborne == s.airborne * t.airborne && t.open * s.open == s.open * t.open
  {}

  lemma SplitCounts(s: File, t: File, fUnflushedFirst: bool)
    requires Sorted(s) && Sorted(t) && Completed(s) <= Completed(t)
    requires s.cioUnflushed == |s.open| && t.cioUnflushed == |t.open| && FlushingCounts(s) && FlushingCounts(t)
    ensures Sum(s, t, fUnflushedFirst) >= |Still(s, t)| <==> MadeUpFor(s, t, fUnflushedFirst)
  {
    hide Twice;
    StillSize(s, t);
    if fUnflushedFirst {
      Split3(s.open, t.open, t.airborne, t.durable);
      Rest(t.airborne, s.airborne);
    } else {
      Split3(s.airborne, t.open, t.airborne, t.durable);
      Rest(t.open, s.open);
    }
    Commute(s, t);
  }

  /** A report in terms of the writes at its two loads. */
  lemma MadeUpForIff(states: seq<File>, steps: seq<Step>, r: nat, fUnflushedFirst: bool, i: nat, j: nat)
    requires IsRun(states, steps) && Undisturbed(states, steps) && Reports(steps, r, fUnflushedFirst, i, j)
    ensures r in states[j + 1].reports && states[j + 1].reports[r].Reported?
    ensures states[j + 1].reports[r].value >= |Still(states[i], states[j])|
            <==> MadeUpFor(states[i], states[j], fUnflushedFirst)
  {
    hide Undisturbed, StepsTo, MadeUpFor, FlushingCounts, Sum, Still;
    var s, t := states[i], states[j];
    ReportIsSum(states, steps, r, fUnflushedFirst, i, j);
    RunInv(states, steps, i);
    RunInv(states, steps, j);
    UndisturbedIsExact(states, steps, i);
    UndisturbedIsExact(states, steps, j);
    RunFlushingCounts(states, steps, i);
    RunFlushingCounts(states, steps, j);
    forall w | w in Completed(s) ensures w in Completed(t) { RunKeepsWrites(states, steps, i, j, w); }
    SplitCounts(s, t, fUnflushedFirst);
  }

  /** A step that moves writes from the number read second into the number read first. */
  predicate MovesAgainst(s: File, e: Step, fUnflushedFirst: bool)
    requires Enabled(s, e)
  {
    if fUnflushedFirst then e.FailReturn? && s.flushes[e.f].writes != {}
    else e.SubUnflushed? && s.flushes[e.f].writes != {}
  }

  ghost predicate NothingAgainst(states: seq<File>, steps: seq<Step>, fUnflushedFirst: bool, i: nat, j: nat)
    requires IsRun(states, steps) && i <= j <= |steps|
  {
    forall k :: i <= k < j ==>
      StepsTo(states[k], steps[k], states[k + 1]) && !MovesAgainst(states[k], steps[k], fUnflushedFirst)
  }

  /** A write carried at the first load is not open later, unless a failed flush gives it back. */
  lemma {:induction false} NotGivenBack(states: seq<File>, steps: seq<Step>, i: nat, j: nat, w: nat)
    requires IsRun(states, steps) && i <= j < |states| && NothingAgainst(states, steps, true, i, j)
    requires w in states[i].airborne
    ensures w in Completed(states[j]) && w !in states[j].open
    decreases j
  {
    hide Next, Enabled, Summed, LockHeld;
    RunInv(states, steps, j);
    if i >= j {
    } else {
      NotGivenBack(states, steps, i, j - 1, w);
      StepOfRun(states, steps, j - 1);
      StepKeepsWrites(states[j - 1], steps[j - 1], w);
    }
  }

  /** A write open at the first load is not carried later, unless a flush takes it. */
  lemma {:induction false} NotTaken(states: seq<File>, steps: seq<Step>, i: nat, j: nat, w: nat)
    requires IsRun(states, steps) && i <= j < |states| && NothingAgainst(states, steps, false, i, j)
    requires w in states[i].open
    ensures w in states[j].open
    decreases j
  {
    hide Next, Enabled, Summed, LockHeld;
    RunInv(states, steps, j);
    if i >= j {
    } else {
      NotTaken(states, steps, i, j - 1, w);
      StepOfRun(states, steps, j - 1);
      StepKeepsWrites(states[j - 1], steps[j - 1], w);
    }
  }

  lemma OpenNotCarried(s: File)
    requires Inv(s)
    ensures s.open !! s.airborne
  {}

  /** So a report is right unless such a step falls between its loads: a failed flush giving
      writes back when the unflushed number is read first, a flush taking writes over when it is
      read second. */
  lemma ReportRight(states: seq<File>, steps: seq<Step>, r: nat, fUnflushedFirst: bool, i: nat, j: nat)
    requires IsRun(states, steps) && Undisturbed(states, steps) && Reports(steps, r, fUnflushedFirst, i, j)
    requires NothingAgainst(states, steps, fUnflushedFirst, i, j)
    ensures r in states[j + 1].reports && states[j + 1].reports[r].Reported?
    ensures states[j + 1].reports[r].value >= |Still(states[i], states[j])|
  {
    hide Undisturbed, StepsTo, NothingAgainst, Still, Inv, Twice;
    var s, t := states[i], states[j];
    MadeUpForIff(states, steps, r, fUnflushedFirst, i, j);
    if fUnflushedFirst {
      forall w | w in s.airborne ensures w !in t.open { NotGivenBack(states, steps, i, j, w); }
      assert s.airborne * t.open == {};
    } else {
      RunInv(states, steps, j);
      OpenNotCarried(t);
      forall w | w in s.open ensures w !in t.airborne { NotTaken(states, steps, i, j, w); }
      assert s.open * t.airborne == {};
    }
  }

  /** What a step in state t takes from a report whose first load was in state s. With the
      unflushed number read first: what a failed flush takes out of the number being flushed, and
      of a successful one the writes that completed after the first load, less what a flush puts
      in. With it read second: what a flush takes out of the unflushed number, less the writes that
      complete, that a failed flush gives back, or that become durable. */
  function Taken(s: File, t: File, e: Step, fUnflushedFirst: bool): int
    requires Enabled(t, e)
  {
    if fUnflushedFirst then
      match e
      case AddFlushing(f) => -|t.flushes[f].writes|
      case Succeed(f) => |t.flushes[f].writes - NotDurable(s)|
      case FailDone(f) => |t.flushes[f].writes|
      case _ => 0
    else
      match e
      case StoreCount(_) => -1
      case SubUnflushed(f) => |t.flushes[f].writes|
      case Succeed(f) => -|t.flushes[f].writes * NotDurable(s)|
      case FailReturn(f) => -|t.flushes[f].writes|
      case _ => 0
  }

  /** What the steps from i up to j take from a report whose first load is step i. */
  ghost function TakenBetween(states: seq<File>, steps: seq<Step>, fUnflushedFirst: bool, i: nat, j: nat): int
    requires IsRun(states, steps) && i <= j <= |steps|
    decreases j
  {
    if i == j then 0
    else
      StepOfRun(states, steps, j - 1);
      TakenBetween(states, steps, fUnflushedFirst, i, j - 1)
      + Taken(states[i], states[j - 1], steps[j - 1], fUnflushedFirst)
  }

  lemma SucceedStill(s: File, t: File, f: nat)
    requires Sorted(t) && Enabled(t, Succeed(f))
    ensures |Still(s, Next(t, Succeed(f)))| == |Still(s, t)| - |t.flushes[f].writes * NotDurable(s)|
    ensures |t.flushes[f].writes|
            == |t.flushes[f].writes * NotDurable(s)| + |t.flushes[f].writes - NotDurable(s)|
  {
    var w, t' := t.flushes[f].writes, Next(t, Succeed(f));
    FitsItsSets(t, f);
    Rest(w, NotDurable(s));
    assert NotDurable(t') == NotDurable(t) - w;
    assert Still(s, t') == Still(s, t) - (w * NotDurable(s));
    SizeOfRest(Still(s, t), w * NotDurable(s));
  }

  lemma SameStill(s: File, t: File, e: Step)
    requires Sorted(t) && Enabled(t, e) && !e.Succeed? && Completed(s) <= Completed(t)
    ensures Still(s, Next(t, e)) == Still(s, t)
  {
    if e.SubUnflushed? || e.FailReturn? {
      FitsItsSets(t, e.f);
      assert NotDurable(Next(t, e)) == NotDurable(t);
    }
  }

  /** Each step moves the report, against the writes still not durable, by what it takes. */
  lemma StepTakes(s: File, t: File, e: Step, fUnflushedFirst: bool)
    requires Inv(t) && Exact(t) && Enabled(t, e) && Exact(Next(t, e)) && Completed(s) <= Completed(t)
    ensures Sum(s, Next(t, e), fUnflushedFirst) - |Still(s, Next(t, e))|
            == Sum(s, t, fUnflushedFirst) - |Still(s, t)| - Taken(s, t, e, fUnflushedFirst)
  {
    hide Still, Summed, LockHeld, Sorted;
    StepChanges(t, e);
    if e.Succeed? {
      SucceedStill(s, t, e.f);
    } else {
      SameStill(s, t, e);
    }
  }

  lemma SumAtOnce(states: seq<File>, steps: seq<Step>, fUnflushedFirst: bool, i: nat)
    requires IsRun(states, steps) && Undisturbed(states, steps) && i < |states|
    ensures Sum(states[i], states[i], fUnflushedFirst) == |Still(states[i], states[i])| + |Twice(states[i])|
  {
    hide Undisturbed, StepsTo, Twice, Inv;
    var s := states[i];
    SnapshotCounts(states, steps, i);
    RunInv(states, steps, i);
    OpenNotCarried(s);
    SizeOfUnion(s.open, s.airborne);
    assert Still(s, s) == s.open + s.airborne;
  }

  lemma {:induction false} SumIs(states: seq<File>, steps: seq<Step>, fUnflushedFirst: bool, i: nat, j: nat)
    requires IsRun(states, steps) && Undisturbed(states, steps) && i <= j < |states|
    ensures Sum(states[i], states[j], fUnflushedFirst)
            == |Still(states[i], states[j])| + |Twice(states[i])| - TakenBetween(states, steps, fUnflushedFirst, i, j)
    decreases j
  {
    hide Undisturbed, StepsTo, Still, Taken, Twice, Next, Enabled, Inv, Exact, Sum, Completed;
    if i == j {
      SumAtOnce(states, steps, fUnflushedFirst, i);
    } else {
      SumIs(states, steps, fUnflushedFirst, i, j - 1);
      StepOfRun(states, steps, j - 1);
      UndisturbedIsExact(states, steps, j - 1);
      UndisturbedIsExact(states, steps, j);
      forall w | w in Completed(states[i]) ensures w in Completed(states[j - 1]) {
        RunKeepsWrites(states, steps, i, j - 1, w);
      }
      StepTakes(states[i], states[j - 1], steps[j - 1], fUnflushedFirst);
    }
  }

  /** In every run a report, its loads apart by any steps, is the number of writes durable at neither
      load, plus those in both numbers at the first, less what the steps in between take. So it
      reports all those writes if and only if the steps take no more than was in both numbers. */
  lemma SplitReportIff(states: seq<File>, steps: seq<Step>, r: nat, fUnflushedFirst: bool, i: nat, j: nat)
    requires IsRun(states, steps) && Undisturbed(states, steps) && Reports(steps, r, fUnflushedFirst, i, j)
    ensures r in states[j + 1].reports && states[j + 1].reports[r].Reported?
    ensures states[j + 1].reports[r].value
            == |Still(states[i], states[j])| + |Twice(states[i])| - TakenBetween(states, steps, fUnflushedFirst, i, j)
    ensures states[j + 1].reports[r].value >= |Still(states[i], states[j])|
            <==> TakenBetween(states, steps, fUnflushedFirst, i, j) <= |Twice(states[i])|
  {
    hide Undisturbed, StepsTo, Sum, Still, Twice, TakenBetween;
    ReportIsSum(states, steps, r, fUnflushedFirst, i, j);
    SumIs(states, steps, fUnflushedFirst, i, j);
  }

  // ----- runs in which a number is too small -----

  lemma TakeStep(s: File, e: Step)
    requires Enabled(s, e)
    ensures StepsTo(s, e, Next(s, e))
  {}

  lemma Extended(states: seq<File>, steps: seq<Step>, e: Step) returns (states': seq<File>, steps': seq<Step>)
    requires IsRun(states, steps) && Enabled(states[|steps|], e)
    ensures steps' == steps + [e] && states' == states + [Next(states[|steps|], e)]
    ensures IsRun(states', steps')
  {
    hide Enabled, Next;
    states', steps' := states + [Next(states[|steps|], e)], steps + [e];
    TakeStep(states[|steps|], e);
    forall i | 0 <= i < |steps'| ensures StepsTo(states'[i], steps'[i], states'[i + 1]) {
      if i < |steps| {
        assert StepsTo(states[i], steps[i], states[i + 1]);
      }
    }
  }

  /** A write has completed and a flush has read the count. */
  lemma FlushBegun() returns (states: seq<File>, steps: seq<Step>)
    ensures IsRun(states, steps) && |steps| == 4
    ensures states[4] == File(1, 0, SUCCESS, true, map[0 := Read(1, {7})], map[], map[], {7}, {}, {})
    ensures states[2].cioUnflushed == 1 && states[2].open == {7}
    ensures steps == [LoadCount(7), StoreCount(7), Check(0), ReadCount(0)]
  {
    states, steps := [Opened], [];
    states, steps := Extended(states, steps, LoadCount(7));
    states, steps := Extended(states, steps, StoreCount(7));
    assert states[2] == File(1, 0, SUCCESS, false, map[], map[], map[], {7}, {}, {}) by {
      assert states[2].loading == map[];
    }
    states, steps := Extended(states, steps, Check(0));
    states, steps := Extended(states, steps, ReadCount(0));
  }

  /** The flush is under way and carries the write. */
  lemma FlushUnderWay() returns (states: seq<File>, steps: seq<Step>)
    ensures IsRun(states, steps) && |steps| == 6
    ensures states[6] == File(0, 1, SUCCESS, false, map[0 := Flying(1, {7})], map[], map[], {}, {7}, {})
    ensures steps == [LoadCount(7), StoreCount(7), Check(0), ReadCount(0), AddFlushing(0), SubUnflushed(0)]
  {
    states, steps := FlushBegun();
    states, steps := Extended(states, steps, AddFlushing(0));
    states, steps := Extended(states, steps, SubUnflushed(0));
  }

  /** The unflushed number is read, the flush fails, the number being flushed is read: the report
      is zero, though the write is durable at neither load. */
  lemma ReportMissesReturned() returns (states: seq<File>, steps: seq<Step>)
    ensures IsRun(states, steps) && |steps| == 11 && Reports(steps, 0, true, 6, 10)
    ensures 0 in states[11].reports && states[11].reports[0] == Reported(0)
    ensures 7 in Still(states[6], states[10])
  {
    states, steps := FlushUnderWay();
    states, steps := Extended(states, steps, LoadFirst(0, true));
    states, steps := Extended(states, steps, FailMark(0, -1));
    states, steps := Extended(states, steps, FailReturn(0));
    states, steps := Extended(states, steps, FailDone(0));
    states, steps := Extended(states, steps, LoadSecond(0));
  }

  /** Read the other way round, an ordinary flush that takes the write over in between is enough. */
  lemma ReportMissesTaken() returns (states: seq<File>, steps: seq<Step>)
    ensures IsRun(states, steps) && |steps| == 8 && Reports(steps, 0, false, 4, 7)
    ensures 0 in states[8].reports && states[8].reports[0] == Reported(0)
    ensures 7 in Still(states[4], states[7])
  {
    states, steps := FlushBegun();
    states, steps := Extended(states, steps, LoadFirst(0, false));
    states, steps := Extended(states, steps, AddFlushing(0));
    states, steps := Extended(states, steps, SubUnflushed(0));
    states, steps := Extended(states, steps, LoadSecond(0));
  }

  lemma WrongIsDisturbed(states: seq<File>, steps: seq<Step>, i: nat)
    requires IsRun(states, steps) && i < |states| && states[i].cioUnflushed != |states[i].open|
    ensures !Undisturbed(states, steps)
  {
    hide IsRun, Undisturbed;
    CountRightIff(states, steps);
  }

  /** A completion loads the count, a failed flush gives one write back, the completion stores: two
      writes are open and, even in one look at both numbers, one is counted. */
  lemma StoreLosesReturned() returns (states: seq<File>, steps: seq<Step>)
    ensures IsRun(states, steps) && |steps| == 11 && Paired(steps, 6, 10)
    ensures var s := states[11];
            s.open == {7, 8} && s.airborne == {} && s.cioUnflushed + s.cioFlushing == 1
    ensures !Undisturbed(states, steps)
  {
    states, steps := FlushUnderWay();
    states, steps := Extended(states, steps, LoadCount(8));
    states, steps := Extended(states, steps, FailMark(0, -1));
    states, steps := Extended(states, steps, FailReturn(0));
    states, steps := Extended(states, steps, FailDone(0));
    states, steps := Extended(states, steps, StoreCount(8));
    assert steps[7] == FailMark(0, -1) && steps[8] == FailReturn(0) && steps[9] == FailDone(0);
    assert Paired(steps, 6, 10);
    assert |states[11].open| == 2;
    WrongIsDisturbed(states, steps, 11);
  }

  /** A write completes and the count is reset: the write is open and not counted. */
  lemma ResetForgets() returns (states: seq<File>, steps: seq<Step>)
    ensures IsRun(states, steps) && steps == [LoadCount(7), StoreCount(7), ResetCount]
    ensures states[3].open == {7} && states[3].cioUnflushed + states[3].cioFlushing == 0
    ensures !Undisturbed(states, steps)
  {
    states, steps := [Opened], [];
    states, steps := Extended(states, steps, LoadCount(7));
    states, steps := Extended(states, steps, StoreCount(7));
    states, steps := Extended(states, steps, ResetCount);
    WrongIsDisturbed(states, steps, 3);
  }
}
