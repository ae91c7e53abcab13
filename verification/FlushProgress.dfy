/**
  What flushes can still achieve from any state of any run (lib/cpp/ms/osfile.cxx).
*/
module FlushProgress {
  import opened FlushLedger
  import opened FlushRuns

  /** A continuation from one state to another. */
  predicate Goes(s: File, es: seq<Step>, t: File)
    decreases |es|
  {
    if |es| == 0 then s == t else Enabled(s, es[0]) && Goes(Next(s, es[0]), es[1..], t)
  }

  lemma {:induction false} GoesOn(s: File, es: seq<Step>, t: File, e: Step)
    requires Goes(s, es, t) && Enabled(t, e)
    ensures Goes(s, es + [e], Next(t, e))
    decreases |es|
  {
    hide Enabled, Next;
    if |es| == 0 {
      assert (es + [e])[1..] == [];
      assert Goes(Next(t, e), [], Next(t, e));
    } else {
      GoesOn(Next(s, es[0]), es[1..], t, e);
      assert (es + [e])[1..] == es[1..] + [e];
    }
  }

  /** A step of a flush that does not fail. */
  predicate Flushes(e: Step) {
    e.Check? || e.ReadCount? || e.AddFlushing? || e.SubUnflushed? || e.Succeed?
  }

  predicate AllFlush(es: seq<Step>) {
    forall i :: 0 <= i < |es| ==> Flushes(es[i])
  }

  // ----- who stands behind the lock, a failure, a write in the air -----

  predicate Failed(x: Flush) {
    x.Failing? || x.Returned?
  }

  ghost predicate LockHasHolder(s: File) {
    s.locked ==> exists f :: f in s.flushes && InLock(s.flushes[f])
  }

  ghost predicate FailureShows(s: File) {
    forall f :: f in s.flushes && Failed(s.flushes[f]) ==> s.errFlushFailed != SUCCESS
  }

  ghost predicate IsCarried(s: File, w: nat) {
    exists f :: f in s.flushes && Carries(s.flushes[f]) && w in s.flushes[f].writes
  }

  ghost predicate AirHasCarrier(s: File) {
    forall w :: w in s.airborne ==> IsCarried(s, w)
  }

  ghost predicate Backed(s: File) {
    LockHasHolder(s) && FailureShows(s) && AirHasCarrier(s)
  }

  lemma StepLockHasHolder(s: File, e: Step)
    requires Inv(s) && LockHasHolder(s) && Enabled(s, e)
    ensures LockHasHolder(Next(s, e))
  {
    hide Summed, Sorted;
    var t := Next(s, e);
    if t.locked {
      if s.locked {
        var f :| f in s.flushes && InLock(s.flushes[f]);
        assert f in t.flushes && InLock(t.flushes[f]);
      } else {
        assert e.f in t.flushes && InLock(t.flushes[e.f]);
      }
    }
  }

  lemma StepFailureShows(s: File, e: Step)
    requires FailureShows(s) && Enabled(s, e)
    ensures FailureShows(Next(s, e))
  {}

  lemma CarrierStays(s: File, e: Step, f: nat)
    requires Enabled(s, e) && f in s.flushes && Carries(s.flushes[f])
    requires !((e.Succeed? || e.FailReturn?) && e.f == f)
    ensures var t := Next(s, e); f in t.flushes && Carries(t.flushes[f]) && t.flushes[f].writes == s.flushes[f].writes
  {}

  lemma StepIsCarried(s: File, e: Step, w: nat)
    requires Inv(s) && AirHasCarrier(s) && Enabled(s, e) && w in Next(s, e).airborne
    ensures IsCarried(Next(s, e), w)
  {
    hide Summed, LockHeld;
    var t := Next(s, e);
    if w in s.airborne {
      assert IsCarried(s, w);
      var f :| f in s.flushes && Carries(s.flushes[f]) && w in s.flushes[f].writes;
      CarrierStays(s, e, f);
      assert f in t.flushes && Carries(t.flushes[f]) && w in t.flushes[f].writes;
    } else {
      assert e.SubUnflushed? && e.f in t.flushes && Carries(t.flushes[e.f]) && w in t.flushes[e.f].writes;
    }
  }

  lemma StepBacked(s: File, e: Step)
    requires Inv(s) && Backed(s) && Enabled(s, e)
    ensures Backed(Next(s, e))
  {
    hide Inv, Next, Enabled, LockHasHolder, FailureShows, IsCarried;
    StepLockHasHolder(s, e);
    StepFailureShows(s, e);
    forall w | w in Next(s, e).airborne ensures IsCarried(Next(s, e), w) { StepIsCarried(s, e, w); }
  }

  lemma OpenedBacked()
    ensures Backed(Opened)
  {}

  lemma {:induction false} RunBacked(states: seq<File>, steps: seq<Step>, i: nat)
    requires IsRun(states, steps) && i < |states|
    ensures Backed(states[i])
  {
    hide Inv, Next, Enabled, StepsTo, Backed;
    if i == 0 {
      OpenedBacked();
    } else {
      RunBacked(states, steps, i - 1);
      StepOfRun(states, steps, i - 1);
      StepBacked(states[i - 1], steps[i - 1]);
    }
  }

  // ----- bringing every write to rest -----

  ghost predicate Good(s: File) {
    Inv(s) && Backed(s) && s.errFlushFailed == SUCCESS
  }

  /** Reached by flush steps alone, with the same writes completed. */
  ghost predicate Leads(s: File, es: seq<Step>, t: File) {
    Goes(s, es, t) && AllFlush(es) && Completed(t) == Completed(s) && Good(t)
  }

  lemma SameCompleted(t: File, e: Step)
    requires Inv(t) && Enabled(t, e) && Flushes(e)
    ensures Completed(Next(t, e)) == Completed(t) && Next(t, e).errFlushFailed == t.errFlushFailed
  {
    hide Summed, LockHeld;
    if e.SubUnflushed? || e.Succeed? {
      assert Fits(t.flushes[e.f], t.open, t.airborne);
    }
  }

  lemma LeadsOn(s: File, es: seq<Step>, t: File, e: Step)
    requires Leads(s, es, t) && Enabled(t, e) && Flushes(e)
    ensures Leads(s, es + [e], Next(t, e))
  {
    hide Inv, Backed, Goes;
    GoesOn(s, es, t, e);
    StepInv(t, e);
    StepBacked(t, e);
    SameCompleted(t, e);
  }

  lemma LeadsNowhere(s: File)
    requires Good(s)
    ensures Leads(s, [], s)
  {}

  lemma Holder(s: File) returns (f: nat)
    requires Good(s) && s.locked
    ensures f in s.flushes && (s.flushes[f].Read? || s.flushes[f].Added?)
  {
    f :| f in s.flushes && InLock(s.flushes[f]);
  }

  /** The flush that has the lock takes the writes it counted into the air. */
  lemma Unlock(s: File) returns (es: seq<Step>, t: File)
    requires Good(s)
    ensures Leads(s, es, t) && !t.locked
  {
    hide Inv, Goes, Leads;
    es, t := [], s;
    LeadsNowhere(s);
    if s.locked {
      var f := Holder(s);
      if s.flushes[f].Read? {
        LeadsOn(s, es, t, AddFlushing(f));
        es, t := es + [AddFlushing(f)], Next(t, AddFlushing(f));
      }
      LeadsOn(s, es, t, SubUnflushed(f));
      es, t := es + [SubUnflushed(f)], Next(t, SubUnflushed(f));
    }
  }

  ghost function Flying(s: File): set<nat> {
    set f | f in s.flushes && s.flushes[f].Flying?
  }

  lemma SomethingFlies(t: File, w: nat)
    requires Good(t) && w in t.airborne
    ensures Flying(t) != {}
  {
    hide Inv;
    assert IsCarried(t, w);
    var f :| f in t.flushes && Carries(t.flushes[f]) && w in t.flushes[f].writes;
    assert !Failed(t.flushes[f]);
    assert f in Flying(t);
  }

  lemma NothingFlies(s: File, es: seq<Step>, t: File)
    requires Leads(s, es, t) && Flying(t) == {}
    ensures t.airborne == {}
  {
    hide Goes, Good, Flying;
    if w :| w in t.airborne {
      SomethingFlies(t, w);
    }
  }

  /** The flushes in the air succeed one after the other. */
  lemma {:induction false} Land(s: File, es: seq<Step>, t: File) returns (es': seq<Step>, t': File)
    requires Leads(s, es, t) && !t.locked
    ensures Leads(s, es', t') && !t'.locked && t'.airborne == {}
    decreases |Flying(t)|
  {
    hide Inv, Goes, Leads, Backed;
    if Flying(t) == {} {
      es', t' := es, t;
      NothingFlies(s, es, t);
    } else {
      var f :| f in Flying(t);
      var u := Next(t, Succeed(f));
      LeadsOn(s, es, t, Succeed(f));
      assert Flying(u) == Flying(t) - {f};
      es', t' := Land(s, es + [Succeed(f)], u);
    }
  }

  lemma {:induction false} Unused(used: set<nat>) returns (f: nat)
    ensures f !in used && forall g :: g in used ==> g < f
  {
    f := 0;
    if used == {} {
    } else {
      var g :| g in used;
      var rest := used - {g};
      var h := Unused(rest);
      f := if g < h then h else g + 1;
      forall x | x in used ensures x < f {
        assert x == g || x in rest;
      }
    }
  }

  lemma Ends(s: File, es: seq<Step>, t: File)
    requires Leads(s, es, t)
    ensures Goes(s, es, t) && AllFlush(es) && Completed(t) == Completed(s) && t.errFlushFailed == SUCCESS
  {}

  /** One more flush covers everything that is open. */
  lemma FlushOnce(s: File, es: seq<Step>, t: File) returns (es': seq<Step>, t': File)
    requires Leads(s, es, t) && !t.locked && t.airborne == {}
    ensures Leads(s, es', t') && t'.open == {} && t'.airborne == {}
  {
    hide Inv, Goes, Leads;
    var f := Unused(t.flushes.Keys);
    assert t.errFlushFailed == SUCCESS by { Ends(s, es, t); }
    es', t' := es, t;
    LeadsOn(s, es', t', Check(f));
    es', t' := es' + [Check(f)], Next(t', Check(f));
    LeadsOn(s, es', t', ReadCount(f));
    es', t' := es' + [ReadCount(f)], Next(t', ReadCount(f));
    LeadsOn(s, es', t', AddFlushing(f));
    es', t' := es' + [AddFlushing(f)], Next(t', AddFlushing(f));
    LeadsOn(s, es', t', SubUnflushed(f));
    es', t' := es' + [SubUnflushed(f)], Next(t', SubUnflushed(f));
    assert t'.flushes[f].writes == t.open && t'.airborne == t.open && t'.open == {};
    LeadsOn(s, es', t', Succeed(f));
    es', t' := es' + [Succeed(f)], Next(t', Succeed(f));
  }

  /** From every state of every run in which no flush has failed, flush steps alone can make every
      completed write durable. */
  lemma AllCanBecomeDurable(states: seq<File>, steps: seq<Step>, i: nat) returns (es: seq<Step>, t: File)
    requires IsRun(states, steps) && i < |states| && NoneFailed(steps, i)
    ensures Goes(states[i], es, t) && AllFlush(es)
    ensures t.durable == Completed(states[i]) && t.open == {} && t.airborne == {}
  {
    hide StepsTo, Inv, Goes, Backed, AllFlush, Leads;
    var s := states[i];
    RunInv(states, steps, i);
    RunBacked(states, steps, i);
    NoFailureYet(states, steps, i);
    es, t := Unlock(s);
    es, t := Land(s, es, t);
    es, t := FlushOnce(s, es, t);
    Ends(s, es, t);
  }
}
