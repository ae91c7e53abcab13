/**
  What the calls of the timer task protocol bring about (lib/cpp/ms/ostimerqueue.cxx): which
  schedule calls are accepted, and that a run and a cancel can always be completed.
*/
module TimerRuns {
  import opened TimerTask

  // ----- the schedule calls of a run -----

  /** Whether a cancel is under way after a step. */
  predicate StillCancelling(e: Step, fCancelling: bool) {
    if e.CancelMark? then true else if e.CancelDone? then false else fCancelling
  }

  /** The contexts of the schedule calls made while no cancel was under way. */
  function Calls(steps: seq<Step>, fCancelling: bool): seq<Context>
    decreases |steps|
  {
    if |steps| == 0 then []
    else
      (if steps[0].Schedule? && !fCancelling then [steps[0].context] else [])
      + Calls(steps[1..], StillCancelling(steps[0], fCancelling))
  }

  function Fires(steps: seq<Step>): nat {
    if |steps| == 0 then 0 else (if steps[0].Fire? then 1 else 0) + Fires(steps[1..])
  }

  /** A callback that is about to start the task does so in the scheduled state. */
  lemma NobodyRuns(t: Task, c: nat)
    requires Inv(t) && At(t, c, Holding)
    ensures t.idRun != t.idSchedule ==> !t.state.Cancelling?
  {}

  lemma StepCancelling(t: Task, e: Step)
    requires Inv(t) && Enabled(t, e)
    ensures Next(t, e).state.Cancelling? <==> StillCancelling(e, t.state.Cancelling?)
  {
    hide OneHolder, Accounted, Counted;
    if e.Check? {
      NobodyRuns(t, e.c);
    }
  }

  /** A schedule call made while no cancel is under way gets the next number, keeps its context and
      sets the timer; no other step accepts anything. */
  lemma StepAccepts(t: Task, e: Step)
    requires Inv(t) && Enabled(t, e)
    ensures if e.Schedule? && !t.state.Cancelling?
            then Next(t, e).idSchedule == t.idSchedule + 1 && Next(t, e).fArmed
                 && Next(t, e).accepted == t.accepted[t.idSchedule + 1 := e.context]
            else Next(t, e).idSchedule == t.idSchedule && Next(t, e).accepted == t.accepted
    ensures Next(t, e).fArmed ==> t.fArmed || (e.Schedule? && !t.state.Cancelling?)
    ensures e.Fire? ==> t.fArmed && !Next(t, e).fArmed
  {}

  /** The contexts accepted after call number n are the given ones, in order. */
  predicate Numbered(accepted: map<nat, Context>, n: nat, calls: seq<Context>) {
    forall id :: n < id <= n + |calls| ==> id in accepted && accepted[id] == calls[id - n - 1]
  }

  lemma NumberedFrom(accepted: map<nat, Context>, n: nat, context: Context, calls: seq<Context>)
    requires n + 1 in accepted && accepted[n + 1] == context && Numbered(accepted, n + 1, calls)
    ensures Numbered(accepted, n, [context] + calls)
  {
    var all := [context] + calls;
    forall id | n < id <= n + |all| ensures id in accepted && accepted[id] == all[id - n - 1] {
      if id > n + 1 {
        assert all[id - n - 1] == calls[id - (n + 1) - 1];
      }
    }
  }

  ghost predicate Extends(accepted': map<nat, Context>, accepted: map<nat, Context>) {
    forall id :: id in accepted ==> id in accepted' && accepted'[id] == accepted[id]
  }

  lemma NumberedNone(t: Task, n: nat)
    ensures Numbered(t.accepted, n, []) && Extends(t.accepted, t.accepted)
  {}

  lemma NewAccepted(u: Task, id: nat, accepted': map<nat, Context>)
    requires id in u.accepted && Extends(accepted', u.accepted)
    ensures id in accepted' && accepted'[id] == u.accepted[id]
  {}

  lemma OldAccepted(t: Task, e: Step, accepted': map<nat, Context>)
    requires Inv(t) && Enabled(t, e) && Extends(accepted', Next(t, e).accepted)
    ensures Extends(accepted', t.accepted)
  {
    hide OneHolder, Generations, States, Counted;
    forall id | id in t.accepted ensures id in accepted' && accepted'[id] == t.accepted[id] {
      assert id in Next(t, e).accepted && Next(t, e).accepted[id] == t.accepted[id];
    }
  }

  /** A run accepts exactly the contexts of the schedule calls made while no cancel was under way,
      numbered in order, and keeps those accepted before. */
  lemma {:induction false} RunAccepts(t: Task, steps: seq<Step>, t': Task)
    requires Inv(t) && Runs(t, steps, t')
    ensures var calls := Calls(steps, t.state.Cancelling?);
            && t'.idSchedule == t.idSchedule + |calls| && Numbered(t'.accepted, t.idSchedule, calls)
            && Extends(t'.accepted, t.accepted)
    decreases |steps|
  {
    hide Inv, Enabled, Next, Numbered, Extends;
    if |steps| == 0 {
      NumberedNone(t, t.idSchedule);
    } else {
      var u := Next(t, steps[0]);
      StepInv(t, steps[0]);
      StepCancelling(t, steps[0]);
      StepAccepts(t, steps[0]);
      RunAccepts(u, steps[1..], t');
      OldAccepted(t, steps[0], t'.accepted);
      var rest := Calls(steps[1..], u.state.Cancelling?);
      if steps[0].Schedule? && !t.state.Cancelling? {
        NewAccepted(u, t.idSchedule + 1, t'.accepted);
        NumberedFrom(t'.accepted, t.idSchedule, steps[0].context, rest);
      } else {
        assert [] + rest == rest;
      }
    }
  }

  lemma {:induction false} RunFires(t: Task, steps: seq<Step>, t': Task)
    requires Inv(t) && Runs(t, steps, t')
    ensures Fires(steps) + (if t'.fArmed then 1 else 0)
            <= |Calls(steps, t.state.Cancelling?)| + if t.fArmed then 1 else 0
    decreases |steps|
  {
    hide Inv, Enabled, Next;
    if |steps| == 0 {
    } else {
      StepInv(t, steps[0]);
      StepCancelling(t, steps[0]);
      StepAccepts(t, steps[0]);
      RunFires(Next(t, steps[0]), steps[1..], t');
    }
  }

  /** From the creation of a task on: the contexts accepted are exactly those of the schedule calls made
      while no cancel was under way, numbered in order, and each lets the timer fire at most once. */
  lemma ScheduledContexts(steps: seq<Step>, t: Task)
    requires Runs(Created, steps, t)
    ensures var calls := Calls(steps, false);
            && (forall id :: id in t.accepted <==> 0 < id <= |calls|)
            && (forall id :: 0 < id <= |calls| ==> t.accepted[id] == calls[id - 1])
            && Fires(steps) <= |calls|
  {
    hide Runs, OneHolder, Generations, States, Counted, Calls, Fires;
    CreatedInv();
    RunInv(Created, steps, t);
    RunAccepts(Created, steps, t);
    RunFires(Created, steps, t);
  }

  // ----- a scheduled task can run -----

  lemma {:induction false} RunsOn(t: Task, steps: seq<Step>, u: Task, e: Step)
    requires Runs(t, steps, u) && Enabled(u, e)
    ensures Runs(t, steps + [e], Next(u, e))
    decreases |steps|
  {
    hide Enabled, Next;
    if |steps| == 0 {
      assert (steps + [e])[1..] == [];
      assert Runs(Next(u, e), [], Next(u, e));
    } else {
      RunsOn(Next(t, steps[0]), steps[1..], u, e);
      assert (steps + [e])[1..] == steps[1..] + [e];
    }
  }

  /** A step of a callback or of the canceller. */
  predicate Inner(e: Step) {
    !e.Schedule? && !e.CancelMark?
  }

  predicate AllInner(steps: seq<Step>) {
    forall i :: 0 <= i < |steps| ==> Inner(steps[i])
  }

  /** The context of call number id is pending: reached from t by inner steps alone. */
  ghost predicate Waits(t: Task, steps: seq<Step>, u: Task, context: Context, id: nat) {
    && Runs(t, steps, u) && AllInner(steps) && Inv(u)
    && u.idRun < u.idSchedule == id && u.pvTaskRuntimeContext == context
  }

  lemma WaitsOn(t: Task, steps: seq<Step>, u: Task, context: Context, id: nat, e: Step)
    requires Waits(t, steps, u, context, id) && Enabled(u, e) && Inner(e) && !e.Check?
    ensures Waits(t, steps + [e], Next(u, e), context, id)
  {
    hide Runs, Inv;
    RunsOn(t, steps, u, e);
    StepInv(u, e);
  }

  /** A callback that has the semaphore starts the task with the pending context. */
  lemma Starts(t: Task, steps: seq<Step>, u: Task, context: Context, id: nat, c: nat)
    requires Waits(t, steps, u, context, id) && At(u, c, Holding)
    ensures Runs(t, steps + [Check(c)], Next(u, Check(c))) && AllInner(steps + [Check(c)])
    ensures At(Next(u, Check(c)), c, Executing(context, id))
  {
    hide Runs, Inv;
    RunsOn(t, steps, u, Check(c));
  }

  lemma {:induction false} Unused(used: set<nat>) returns (c: nat)
    ensures c !in used && forall d :: d in used ==> d < c
  {
    c := 0;
    if used == {} {
    } else {
      var d :| d in used;
      var rest := used - {d};
      var b := Unused(rest);
      c := if d < b then b else d + 1;
      forall x | x in used ensures x < c {
        assert x == d || x in rest;
      }
    }
  }

  lemma Holder(t: Task, steps: seq<Step>, u: Task, context: Context, id: nat) returns (c: nat)
    requires Waits(t, steps, u, context, id) && !u.fExecFree
    ensures c in u.callbacks && Holds(u.callbacks[c])
  {
    hide Runs, Generations, States, Accounted, Counted;
    c := HolderOf(u);
  }

  /** The callback that has the semaphore gives it back, or is about to start the task. */
  lemma FreeSemaphore(t: Task, steps: seq<Step>, u: Task, context: Context, id: nat)
    returns (steps': seq<Step>, u': Task)
    requires Waits(t, steps, u, context, id)
    ensures Waits(t, steps', u', context, id) && u'.fArmed == u.fArmed
    ensures u'.fExecFree || exists c :: At(u', c, Holding)
  {
    hide Waits, Inv;
    steps', u' := steps, u;
    if !u.fExecFree {
      var h := Holder(t, steps, u, context, id);
      if u.callbacks[h].Holding? {
        assert At(u', h, Holding);
      } else {
        if u.callbacks[h].Executing? {
          WaitsOn(t, steps', u', context, id, Finish(h));
          steps', u' := steps' + [Finish(h)], Next(u', Finish(h));
        }
        WaitsOn(t, steps', u', context, id, Release(h));
        steps', u' := steps' + [Release(h)], Next(u', Release(h));
      }
    }
  }

  /** A timer that is set leads to a run of the task with the pending context. */
  lemma ArmedRuns(t: Task, steps: seq<Step>, u: Task, context: Context, id: nat)
    returns (steps': seq<Step>, u': Task, c: nat)
    requires Waits(t, steps, u, context, id) && u.fArmed
    ensures Runs(t, steps', u') && AllInner(steps') && At(u', c, Executing(context, id))
  {
    hide Waits, Inv, Runs, AllInner;
    steps', u' := FreeSemaphore(t, steps, u, context, id);
    if d :| At(u', d, Holding) {
      c := d;
    } else {
      c := Unused(u'.callbacks.Keys);
      WaitsOn(t, steps', u', context, id, Fire(c));
      steps', u' := steps' + [Fire(c)], Next(u', Fire(c));
      WaitsOn(t, steps', u', context, id, Enter(c));
      steps', u' := steps' + [Enter(c)], Next(u', Enter(c));
      WaitsOn(t, steps', u', context, id, Acquire(c));
      steps', u' := steps' + [Acquire(c)], Next(u', Acquire(c));
    }
    Starts(t, steps', u', context, id, c);
    steps', u' := steps' + [Check(c)], Next(u', Check(c));
  }

  lemma ScheduledAfter(t: Task, context: Context)
    requires Inv(t) && !t.state.Cancelling?
    ensures var u := Next(t, Schedule(context));
            u.idRun < u.idSchedule == t.idSchedule + 1 && u.pvTaskRuntimeContext == context && u.fArmed
  {
    hide OneHolder, States, Accounted, Counted;
  }

  lemma WaitsAtOnce(t: Task, context: Context)
    requires Inv(t) && !t.state.Cancelling?
    ensures var u := Next(t, Schedule(context)); Waits(u, [], u, context, t.idSchedule + 1) && u.fArmed
  {
    hide OneHolder, Generations, States, Accounted, Counted;
    StepInv(t, Schedule(context));
    ScheduledAfter(t, context);
  }

  /** From every state of every run in which no cancel is under way, a schedule call can be followed,
      without another call, by a run of the task with its context and under its number. */
  lemma ScheduleLeadsToRun(steps: seq<Step>, t: Task, context: Context)
    returns (more: seq<Step>, u: Task, c: nat)
    requires Runs(Created, steps, t) && !t.state.Cancelling?
    ensures Runs(Next(t, Schedule(context)), more, u) && AllInner(more)
    ensures At(u, c, Executing(context, t.idSchedule + 1))
  {
    hide Runs, Inv, Waits, AllInner;
    CreatedInv();
    RunInv(Created, steps, t);
    WaitsAtOnce(t, context);
    var s := Next(t, Schedule(context));
    more, u, c := ArmedRuns(s, [], s, context, t.idSchedule + 1);
  }

  // ----- a cancel can be completed -----

  /** Reached from t by steps of callbacks that are let go, during a cancel. */
  ghost predicate Quiets(t: Task, steps: seq<Step>, u: Task) {
    && Runs(t, steps, u) && AllInner(steps) && Inv(u)
    && u.state.Cancelling? && u.canceller == t.canceller && u.fates == t.fates
  }

  predicate LetsGo(e: Step) {
    e.Acquire? || e.Check? || e.Finish? || e.Release? || e.Leave? || e.DropQueued?
  }

  lemma QuietsOn(t: Task, steps: seq<Step>, u: Task, e: Step)
    requires Quiets(t, steps, u) && Enabled(u, e) && LetsGo(e)
    ensures Quiets(t, steps + [e], Next(u, e))
    ensures e.Check? ==> At(Next(u, e), e.c, Leaving)
  {
    hide Runs, OneHolder, Accounted, Counted;
    RunsOn(t, steps, u, e);
    StepInv(u, e);
  }

  lemma QuietHolder(t: Task, steps: seq<Step>, u: Task) returns (c: nat)
    requires Quiets(t, steps, u) && !u.fExecFree
    ensures c in u.callbacks && Holds(u.callbacks[c])
  {
    hide Runs, Generations, States, Accounted, Counted;
    c := HolderOf(u);
  }

  lemma NoHolder(t: Task, steps: seq<Step>, u: Task, c: nat)
    requires Quiets(t, steps, u) && u.fExecFree && c in u.callbacks
    ensures !Holds(u.callbacks[c])
  {
    hide Runs, Generations, States, Accounted, Counted;
  }

  /** The callback that has the semaphore leaves. */
  lemma HolderLeaves(t: Task, steps: seq<Step>, u: Task, c: nat) returns (steps': seq<Step>, u': Task)
    requires Quiets(t, steps, u) && c in u.callbacks && Holds(u.callbacks[c])
    ensures Quiets(t, steps', u') && u'.callbacks == u.callbacks - {c}
  {
    hide Quiets, Inv;
    steps', u' := steps, u;
    if u.callbacks[c].Holding? {
      QuietsOn(t, steps', u', Check(c));
      steps', u' := steps' + [Check(c)], Next(u', Check(c));
    } else if u.callbacks[c].Executing? {
      QuietsOn(t, steps', u', Finish(c));
      steps', u' := steps' + [Finish(c)], Next(u', Finish(c));
    }
    QuietsOn(t, steps', u', Release(c));
    steps', u' := steps' + [Release(c)], Next(u', Release(c));
    QuietsOn(t, steps', u', Leave(c));
    steps', u' := steps' + [Leave(c)], Next(u', Leave(c));
  }

  lemma QuietsCanceller(t: Task, steps: seq<Step>, u: Task)
    requires Quiets(t, steps, u)
    ensures Runs(t, steps, u) && AllInner(steps) && Inv(u) && u.state.Cancelling?
    ensures u.canceller == t.canceller && u.fates == t.fates
  {}

  lemma CallbackLeaves(t: Task, steps: seq<Step>, u: Task) returns (steps': seq<Step>, u': Task, c: nat)
    requires Quiets(t, steps, u) && u.callbacks != map[] && (t.canceller.Marked? || t.canceller.Disarmed?)
    ensures Quiets(t, steps', u') && c in u.callbacks && u'.callbacks == u.callbacks - {c}
  {
    hide Quiets, Inv;
    assert u.canceller == t.canceller by { QuietsCanceller(t, steps, u); }
    if !u.fExecFree {
      c := QuietHolder(t, steps, u);
      steps', u' := HolderLeaves(t, steps, u, c);
    } else {
      c :| c in u.callbacks;
      NoHolder(t, steps, u, c);
      steps', u' := steps, u;
      if u.callbacks[c].Queued? {
        QuietsOn(t, steps', u', DropQueued(c));
        steps', u' := steps' + [DropQueued(c)], Next(u', DropQueued(c));
      } else if u.callbacks[c].Released? {
        QuietsOn(t, steps', u', Leave(c));
        steps', u' := steps' + [Leave(c)], Next(u', Leave(c));
      } else {
        QuietsOn(t, steps', u', Acquire(c));
        steps', u' := steps' + [Acquire(c)], Next(u', Acquire(c));
        steps', u' := HolderLeaves(t, steps', u', c);
      }
    }
  }

  /** All callbacks leave. */
  lemma {:induction false} AllLeave(t: Task, steps: seq<Step>, u: Task) returns (steps': seq<Step>, u': Task)
    requires Quiets(t, steps, u) && (t.canceller.Marked? || t.canceller.Disarmed?)
    ensures Quiets(t, steps', u') && u'.callbacks == map[]
    decreases |u.callbacks|
  {
    hide Quiets, Inv;
    if u.callbacks == map[] {
      steps', u' := steps, u;
    } else {
      var c;
      steps', u', c := CallbackLeaves(t, steps, u);
      assert u'.callbacks.Keys == u.callbacks.Keys - {c};
      steps', u' := AllLeave(t, steps', u');
    }
  }

  /** Reached from t by inner steps, with the same fates. */
  ghost predicate Goes(t: Task, steps: seq<Step>, u: Task) {
    Runs(t, steps, u) && AllInner(steps) && Inv(u) && u.fates == t.fates
  }

  lemma GoesOn(t: Task, steps: seq<Step>, u: Task, e: Step)
    requires Goes(t, steps, u) && Enabled(u, e)
    requires e.WaitOnce? || e.Disarm? || e.WaitTwice? || e.CancelDone?
    ensures Goes(t, steps + [e], Next(u, e))
  {
    hide Runs, Inv;
    RunsOn(t, steps, u, e);
    StepInv(u, e);
  }

  lemma {:induction false} RunsThrough(t: Task, steps: seq<Step>, u: Task, more: seq<Step>, v: Task)
    requires Runs(t, steps, u) && Runs(u, more, v)
    ensures Runs(t, steps + more, v)
    decreases |steps|
  {
    hide Enabled, Next;
    if |steps| == 0 {
      assert steps + more == more;
    } else {
      RunsThrough(Next(t, steps[0]), steps[1..], u, more, v);
      assert (steps + more)[1..] == steps[1..] + more;
    }
  }

  lemma QuietsNow(u: Task)
    requires Inv(u) && u.state.Cancelling?
    ensures Quiets(u, [], u)
  {}

  /** The wait of the canceller: afterwards no callback is left. */
  lemma WaitOut(t: Task, steps: seq<Step>, u: Task) returns (steps': seq<Step>, u': Task)
    requires Goes(t, steps, u) && u.state.Cancelling? && (u.canceller.Marked? || u.canceller.Disarmed?)
    ensures Goes(t, steps', u') && u'.callbacks == map[] && u'.state.Cancelling? && u'.canceller == u.canceller
  {
    hide Runs, Inv, Quiets;
    assert Quiets(u, [], u) by { QuietsNow(u); }
    var more, v := AllLeave(u, [], u);
    QuietsCanceller(u, more, v);
    RunsThrough(t, steps, u, more, v);
    steps', u' := steps + more, v;
  }

  lemma CancellerThere(t: Task)
    requires Inv(t) && t.state.Cancelling?
    ensures t.canceller != Absent
  {
    hide OneHolder, Generations, Accounted, Counted;
  }

  lemma GoesNowhere(t: Task)
    requires Inv(t)
    ensures Goes(t, [], t)
  {}

  /** From every state of every run in which a cancel is under way it can be completed, by steps of
      the callbacks and the canceller alone, and what became of every context stays as it was. */
  lemma CancelCompletes(steps: seq<Step>, t: Task) returns (more: seq<Step>, u: Task)
    requires Runs(Created, steps, t) && t.state.Cancelling?
    ensures Runs(t, more, u) && AllInner(more) && u.state.Cancelled? && u.fates == t.fates
  {
    hide Runs, Inv, AllInner;
    CreatedInv();
    RunInv(Created, steps, t);
    CancellerThere(t);
    more, u := [], t;
    assert Goes(t, [], t) by { GoesNowhere(t); }
    if u.canceller.Marked? {
      more, u := WaitOut(t, more, u);
      GoesOn(t, more, u, WaitOnce);
      more, u := more + [WaitOnce], Next(u, WaitOnce);
    }
    if u.canceller.WaitedOnce? {
      GoesOn(t, more, u, Disarm);
      more, u := more + [Disarm], Next(u, Disarm);
    }
    if u.canceller.Disarmed? {
      more, u := WaitOut(t, more, u);
      GoesOn(t, more, u, WaitTwice);
      more, u := more + [WaitTwice], Next(u, WaitTwice);
    }
    GoesOn(t, more, u, CancelDone);
    more, u := more + [CancelDone], Next(u, CancelDone);
  }

  /** A task that is not cancelled yet can be; the cancel hands the pending context back. */
  lemma CancelReturnsContext(steps: seq<Step>, t: Task)
    requires Runs(Created, steps, t) && !t.state.Cancelling? && !t.state.Cancelled?
    ensures Enabled(t, CancelMark) && Next(t, CancelMark).state.Cancelling?
    ensures t.pvTaskRuntimeContext != NULL ==>
              var u := Next(t, CancelMark); t.idSchedule in u.fates && u.fates[t.idSchedule] == ReturnedByCancel
  {
    hide Runs, OneHolder, Counted, States;
    CreatedInv();
    RunInv(Created, steps, t);
  }

  /** Both waits of the canceller return only when no callback is left. */
  lemma WaitsReturnQuiet(steps: seq<Step>, t: Task, e: Step)
    requires Runs(Created, steps, t) && Enabled(t, e) && (e.WaitOnce? || e.WaitTwice?)
    ensures t.cInCallback == 0 && forall c :: !Executes(t, c)
  {
    hide Runs, OneHolder, Generations, States, Accounted;
    CreatedInv();
    RunInv(Created, steps, t);
    assert InCallback(t) == {};
  }
}
