/**
  The timer task protocol (lib/cpp/ms/ostimerqueue.cxx): callers schedule a task, thread pool
  callbacks run it, one caller cancels it. They share a lock, a semaphore and two generation
  counters. Each step below is one lock hold, one semaphore operation, one atomic operation or
  one thread pool call, so a run is any interleaving of the threads.
*/
module TimerTask {

  datatype TaskState = Inactive | Scheduled | Running | Cancelling | Cancelled

  /** A caller's context pointer. */
  type Context = int
  const NULL: Context := 0

  /** Where a callback of the thread pool is.
      Queued: the timer fired, the pool has not started it. Entered: counted in m_cInCallback.
      Holding: has the semaphore. Executing: in the task body, with the context it took and the
      schedule it took it from. Leaving: done, semaphore still held. Released: gave it back. */
  datatype Phase =
    | Queued
    | Entered
    | Holding
    | Executing(context: Context, id: nat)
    | Leaving
    | Released

  /** Where the cancelling thread is. */
  datatype Canceller = Absent | Marked | WaitedOnce | Disarmed | WaitedTwice

  /** What became of the context of a schedule call. */
  datatype Fate = RunBy(callback: nat) | SupplantedBy(id: nat) | ReturnedByCancel

  datatype Task = Task(
    state: TaskState,
    cInCallback: int,
    pvTaskRuntimeContext: Context,
    idSchedule: nat,
    idRun: nat,
    fExecFree: bool,
    fArmed: bool,
    callbacks: map<nat, Phase>,
    canceller: Canceller,
    accepted: map<nat, Context>,   // contexts by the schedule call that brought them
    fates: map<nat, Fate>)         // contexts that have gone somewhere, by schedule call

  datatype Step =
    | Schedule(context: Context)
    | Fire(c: nat)
    | Enter(c: nat)
    | Acquire(c: nat)
    | Check(c: nat)
    | Finish(c: nat)
    | Release(c: nat)
    | Leave(c: nat)
    | CancelMark
    | DropQueued(c: nat)
    | WaitOnce
    | Disarm
    | WaitTwice
    | CancelDone

  const Created := Task(Inactive, 0, NULL, 0, 0, true, false, map[], Absent, map[], map[])

  predicate At(t: Task, c: nat, p: Phase) {
    c in t.callbacks && t.callbacks[c] == p
  }

  predicate Executes(t: Task, c: nat) {
    c in t.callbacks && t.callbacks[c].Executing?
  }

  /** When a step can be taken. */
  predicate Enabled(t: Task, e: Step) {
    match e
    case Schedule(_) => true
    case Fire(c) => t.fArmed && c !in t.callbacks
    case Enter(c) => At(t, c, Queued)
    case Acquire(c) => At(t, c, Entered) && t.fExecFree
    case Check(c) => At(t, c, Holding)
    case Finish(c) => Executes(t, c)
    case Release(c) => At(t, c, Leaving)
    case Leave(c) => At(t, c, Released)
    case CancelMark => t.state.Inactive? || t.state.Scheduled? || t.state.Running?
    case DropQueued(c) => (t.canceller.Marked? || t.canceller.Disarmed?) && At(t, c, Queued)
    case WaitOnce => t.canceller.Marked? && t.callbacks == map[]
    case Disarm => t.canceller.WaitedOnce?
    case WaitTwice => t.canceller.Disarmed? && t.callbacks == map[]
    case CancelDone => t.canceller.WaitedTwice?
  }

  function Disposed(t: Task, fate: Fate): map<nat, Fate> {
    if t.pvTaskRuntimeContext != NULL then t.fates[t.idSchedule := fate] else t.fates
  }

  function ScheduleStep(t: Task, context: Context): Task {
    if t.state.Cancelling? then t
    else
      t.(state := if t.state.Running? then Running else Scheduled,
         idSchedule := t.idSchedule + 1,
         fates := Disposed(t, SupplantedBy(t.idSchedule + 1)),
         pvTaskRuntimeContext := context,
         accepted := t.accepted[t.idSchedule + 1 := context],
         fArmed := true)
  }

  function CheckStep(t: Task, c: nat): Task {
    if t.idRun == t.idSchedule then t.(callbacks := t.callbacks[c := Leaving])
    else
      t.(callbacks := t.callbacks[c := Executing(t.pvTaskRuntimeContext, t.idSchedule)],
         fates := Disposed(t, RunBy(c)),
         pvTaskRuntimeContext := NULL,
         idRun := t.idSchedule,
         state := Running)
  }

  function FinishStep(t: Task, c: nat): Task {
    t.(callbacks := t.callbacks[c := Leaving],
       state := if !t.state.Running? then t.state
                else if t.idRun == t.idSchedule then Inactive
                else Scheduled)
  }

  function CancelMarkStep(t: Task): Task {
    t.(state := Cancelling, idRun := t.idSchedule, fates := Disposed(t, ReturnedByCancel),
       pvTaskRuntimeContext := NULL, canceller := Marked)
  }

  function Next(t: Task, e: Step): Task
    requires Enabled(t, e)
  {
    match e
    case Schedule(context) => ScheduleStep(t, context)
    case Fire(c) => t.(fArmed := false, callbacks := t.callbacks[c := Queued])
    case Enter(c) => t.(cInCallback := t.cInCallback + 1, callbacks := t.callbacks[c := Entered])
    case Acquire(c) => t.(fExecFree := false, callbacks := t.callbacks[c := Holding])
    case Check(c) => CheckStep(t, c)
    case Finish(c) => FinishStep(t, c)
    case Release(c) => t.(fExecFree := true, callbacks := t.callbacks[c := Released])
    case Leave(c) => t.(cInCallback := t.cInCallback - 1, callbacks := t.callbacks - {c})
    case CancelMark => CancelMarkStep(t)
    case DropQueued(c) => t.(callbacks := t.callbacks - {c})
    case WaitOnce => t.(canceller := WaitedOnce)
    case Disarm => t.(canceller := Disarmed, fArmed := false)
    case WaitTwice => t.(canceller := WaitedTwice)
    case CancelDone => t.(canceller := Absent, state := Cancelled)
  }

  /** A run from one task value to another. */
  predicate Runs(t: Task, steps: seq<Step>, t': Task)
    decreases |steps|
  {
    if |steps| == 0 then t == t'
    else Enabled(t, steps[0]) && Runs(Next(t, steps[0]), steps[1..], t')
  }

  // ----- the invariant -----

  /** Callbacks that hold the semaphore. */
  predicate Holds(p: Phase) {
    p.Holding? || p.Executing? || p.Leaving?
  }

  ghost predicate OneHolder(t: Task) {
    && (forall c, d :: c in t.callbacks && d in t.callbacks && Holds(t.callbacks[c]) && Holds(t.callbacks[d]) ==>
          c == d)
    && (t.fExecFree <==> forall c :: c in t.callbacks ==> !Holds(t.callbacks[c]))
  }

  /** A callback that has yet to look at the generation counters. */
  ghost predicate Coming(t: Task) {
    exists c :: c in t.callbacks && (t.callbacks[c].Queued? || t.callbacks[c].Entered? || t.callbacks[c].Holding?)
  }

  ghost predicate Generations(t: Task) {
    && t.idRun <= t.idSchedule
    && (t.idRun == t.idSchedule ==> t.pvTaskRuntimeContext == NULL && !t.state.Scheduled?)
    && (t.idRun < t.idSchedule ==> (t.state.Scheduled? || t.state.Running?) && (t.fArmed || Coming(t)))
  }

  ghost predicate States(t: Task) {
    && (forall c :: Executes(t, c) ==> t.state.Running? || t.state.Cancelling?)
    && (t.state.Running? ==> exists c :: Executes(t, c))
    && (t.canceller != Absent <==> t.state.Cancelling?)
    && (t.canceller.Disarmed? || t.canceller.WaitedTwice? || t.state.Cancelled? ==> !t.fArmed)
    && (t.canceller.WaitedTwice? || t.state.Cancelled? ==> t.callbacks == map[])
  }

  /** Every context accepted is pending or has gone exactly one way. */
  ghost predicate Accounted(t: Task) {
    && (forall id :: id in t.accepted <==> 0 < id <= t.idSchedule)
    && t.pvTaskRuntimeContext == (if t.idRun < t.idSchedule then t.accepted[t.idSchedule] else NULL)
    && (forall id :: id in t.fates <==>
          id in t.accepted && t.accepted[id] != NULL && !(id == t.idSchedule && t.idRun < t.idSchedule))
    && (forall c :: Executes(t, c) ==>
          var p := t.callbacks[c];
          && p.id in t.accepted && p.context == t.accepted[p.id]
          && (p.context != NULL ==> p.id in t.fates && t.fates[p.id] == RunBy(c)))
  }

  ghost function InCallback(t: Task): set<nat> {
    set c | c in t.callbacks && !t.callbacks[c].Queued?
  }

  ghost predicate Counted(t: Task) {
    t.cInCallback == |InCallback(t)|
  }

  ghost predicate Inv(t: Task) {
    OneHolder(t) && Generations(t) && States(t) && Accounted(t) && Counted(t)
  }

  ghost function HolderOf(t: Task): (c: nat)
    requires OneHolder(t) && !t.fExecFree
    ensures c in t.callbacks && Holds(t.callbacks[c])
  {
    var c :| c in t.callbacks && Holds(t.callbacks[c]);
    c
  }

  lemma StepOneHolder(t: Task, e: Step)
    requires Inv(t) && Enabled(t, e)
    ensures OneHolder(Next(t, e))
  {
    hide Generations, States, Accounted, Counted;
    var t' := Next(t, e);
    if !t'.fExecFree {
      var c := if e.Acquire? then e.c else HolderOf(t);
      assert c in t'.callbacks && Holds(t'.callbacks[c]);
    }
  }

  /** Whether a callback is counted. */
  predicate Inside(t: Task, c: nat) {
    c in t.callbacks && !t.callbacks[c].Queued?
  }

  lemma CountedKept(t: Task, t': Task)
    requires Counted(t) && t'.cInCallback == t.cInCallback && forall c :: Inside(t, c) <==> Inside(t', c)
    ensures Counted(t')
  {
    forall c ensures c in InCallback(t) <==> c in InCallback(t') {
      assert Inside(t, c) <==> Inside(t', c);
    }
    assert InCallback(t') == InCallback(t);
  }

  lemma EnterCounted(t: Task, c: nat)
    requires Counted(t) && At(t, c, Queued)
    ensures Counted(Next(t, Enter(c)))
  {
    assert InCallback(Next(t, Enter(c))) == InCallback(t) + {c};
  }

  lemma LeaveCounted(t: Task, c: nat)
    requires Counted(t) && At(t, c, Released)
    ensures Counted(Next(t, Leave(c)))
  {
    assert InCallback(Next(t, Leave(c))) == InCallback(t) - {c};
  }

  lemma StepCounted(t: Task, e: Step)
    requires Inv(t) && Enabled(t, e)
    ensures Counted(Next(t, e))
  {
    hide OneHolder, Generations, States, Accounted, Counted;
    match e
    case Enter(c) => EnterCounted(t, c);
    case Leave(c) => LeaveCounted(t, c);
    case _ => CountedKept(t, Next(t, e));
  }

  lemma ComingKept(t: Task, t': Task, c: nat)
    requires forall d :: d in t.callbacks && d != c ==> d in t'.callbacks && t'.callbacks[d] == t.callbacks[d]
    requires c in t.callbacks && (t.callbacks[c].Queued? || t.callbacks[c].Entered? || t.callbacks[c].Holding?) ==>
               c in t'.callbacks && (t'.callbacks[c].Queued? || t'.callbacks[c].Entered? || t'.callbacks[c].Holding?)
    ensures Coming(t) ==> Coming(t')
  {
    if Coming(t) {
      var d :| d in t.callbacks && (t.callbacks[d].Queued? || t.callbacks[d].Entered? || t.callbacks[d].Holding?);
      assert d in t'.callbacks && (t'.callbacks[d].Queued? || t'.callbacks[d].Entered? || t'.callbacks[d].Holding?);
    }
  }

  lemma QueuedComes(t: Task, c: nat)
    requires At(t, c, Queued)
    ensures Coming(t)
  {}

  lemma StepGenerations(t: Task, e: Step)
    requires Inv(t) && Enabled(t, e)
    ensures Generations(Next(t, e))
  {
    hide Accounted, Counted, Coming;
    var t' := Next(t, e);
    match e
    case Fire(c) => QueuedComes(t', c);
    case Enter(c) => ComingKept(t, t', c);
    case Acquire(c) => ComingKept(t, t', c);
    case Finish(c) => ComingKept(t, t', c);
    case Release(c) => ComingKept(t, t', c);
    case Leave(c) => ComingKept(t, t', c);
    case Check(_) =>
    case DropQueued(_) =>
    case _ => ComingKept(t, t', 0);
  }

  lemma OneExecutes(t: Task)
    requires OneHolder(t)
    ensures forall c, d :: Executes(t, c) && Executes(t, d) ==> c == d
  {
    forall c, d | Executes(t, c) && Executes(t, d) ensures c == d {
      assert Holds(t.callbacks[c]) && Holds(t.callbacks[d]);
    }
  }

  lemma StepExecuting(t: Task, e: Step, c: nat)
    requires Inv(t) && Enabled(t, e) && Executes(Next(t, e), c)
    ensures Next(t, e).state.Running? || Next(t, e).state.Cancelling?
  {
    OneExecutes(t);
    hide Accounted, Counted, OneHolder, Generations;
    if !Executes(t, c) {
      assert e == Check(c) && t.idRun != t.idSchedule;
    }
  }

  lemma StepRunning(t: Task, e: Step)
    requires Inv(t) && Enabled(t, e) && Next(t, e).state.Running?
    ensures exists c :: Executes(Next(t, e), c)
  {
    hide Accounted, Counted, OneHolder, Generations;
    if e.Check? && t.idRun != t.idSchedule {
      assert Executes(Next(t, e), e.c);
    } else {
      var c :| Executes(t, c);
      assert Executes(Next(t, e), c);
    }
  }

  lemma StepStates(t: Task, e: Step)
    requires Inv(t) && Enabled(t, e)
    ensures States(Next(t, e))
  {
    hide Accounted, Counted, OneHolder;
    var t' := Next(t, e);
    forall c | Executes(t', c) ensures t'.state.Running? || t'.state.Cancelling? { StepExecuting(t, e, c); }
    if t'.state.Running? { StepRunning(t, e); }
  }

  lemma AccountedKept(t: Task, t': Task)
    requires Accounted(t) && t'.accepted == t.accepted && t'.fates == t.fates
    requires t'.pvTaskRuntimeContext == t.pvTaskRuntimeContext && t'.idSchedule == t.idSchedule && t'.idRun == t.idRun
    requires forall c :: Executes(t', c) ==> Executes(t, c) && t'.callbacks[c] == t.callbacks[c]
    ensures Accounted(t')
  {}

  lemma ScheduleAccounted(t: Task, context: Context)
    requires Inv(t) && !t.state.Cancelling?
    ensures Accounted(ScheduleStep(t, context))
  {
    hide OneHolder, States, Counted, Coming;
    var t' := ScheduleStep(t, context);
    forall c | Executes(t', c)
      ensures var p := t'.callbacks[c];
              p.id in t'.accepted && p.context == t'.accepted[p.id]
              && (p.context != NULL ==> p.id in t'.fates && t'.fates[p.id] == RunBy(c))
    {
      assert Executes(t, c);
    }
  }

  lemma CheckAccounted(t: Task, c: nat)
    requires Inv(t) && At(t, c, Holding) && t.idRun != t.idSchedule
    ensures Accounted(CheckStep(t, c))
  {
    hide States, Counted, Coming;
    var t' := CheckStep(t, c);
    forall d | Executes(t', d)
      ensures d == c
    {
      assert Holds(t'.callbacks[d]);
    }
  }

  lemma CancelAccounted(t: Task)
    requires Inv(t)
    ensures Accounted(CancelMarkStep(t))
  {
    hide OneHolder, States, Counted, Coming;
    var t' := CancelMarkStep(t);
    forall c | Executes(t', c)
      ensures var p := t'.callbacks[c];
              p.id in t'.accepted && p.context == t'.accepted[p.id]
              && (p.context != NULL ==> p.id in t'.fates && t'.fates[p.id] == RunBy(c))
    {
      assert Executes(t, c);
    }
  }

  lemma StepAccounted(t: Task, e: Step)
    requires Inv(t) && Enabled(t, e)
    ensures Accounted(Next(t, e))
  {
    hide OneHolder, Generations, States, Counted, Accounted;
    if e.Schedule? && !t.state.Cancelling? {
      ScheduleAccounted(t, e.context);
    } else if e.Check? && t.idRun != t.idSchedule {
      CheckAccounted(t, e.c);
    } else if e.CancelMark? {
      CancelAccounted(t);
    } else {
      AccountedKept(t, Next(t, e));
    }
  }

  lemma StepInv(t: Task, e: Step)
    requires Inv(t) && Enabled(t, e)
    ensures Inv(Next(t, e))
  {
    hide OneHolder, Generations, States, Counted, Accounted, Next;
    StepOneHolder(t, e);
    StepGenerations(t, e);
    StepStates(t, e);
    StepAccounted(t, e);
    StepCounted(t, e);
  }

  /** The invariant holds in every state of every interleaving. */
  lemma {:induction false} RunInv(t: Task, steps: seq<Step>, t': Task)
    requires Inv(t) && Runs(t, steps, t')
    ensures Inv(t')
    decreases |steps|
  {
    hide Inv, Next, Enabled;
    if |steps| == 0 {
    } else {
      StepInv(t, steps[0]);
      RunInv(Next(t, steps[0]), steps[1..], t');
    }
  }

  lemma CreatedInv()
    ensures Inv(Created)
  {
    assert InCallback(Created) == {};
  }

  // ----- what every run guarantees -----

  /** The task body never overlaps itself, and the generation counters tell what is pending. */
  lemma Protocol(steps: seq<Step>, t: Task)
    requires Runs(Created, steps, t)
    ensures forall c, d :: Executes(t, c) && Executes(t, d) ==> c == d
    ensures t.idRun <= t.idSchedule
    ensures t.idRun == t.idSchedule ==> t.pvTaskRuntimeContext == NULL && !t.state.Scheduled?
    ensures t.idRun < t.idSchedule ==> (t.state.Scheduled? || t.state.Running?) && (t.fArmed || Coming(t))
  {
    hide Runs, States, Accounted, Counted;
    CreatedInv();
    RunInv(Created, steps, t);
    OneExecutes(t);
  }

  lemma HolderExcludes(t: Task, c: nat, d: nat)
    requires OneHolder(t) && At(t, c, Holding)
    ensures !Executes(t, d)
  {}

  /** The assertions of the callback and of the canceller hold whenever they are reached. */
  lemma AssertionsHold(steps: seq<Step>, t: Task, c: nat)
    requires Runs(Created, steps, t)
    ensures At(t, c, Holding) && t.idRun == t.idSchedule ==> t.pvTaskRuntimeContext == NULL
    ensures At(t, c, Holding) && t.idRun != t.idSchedule ==> t.state.Scheduled?
    ensures Executes(t, c) ==> t.state.Running? || t.state.Cancelling?
    ensures Executes(t, c) ==> !FinishStep(t, c).state.Running?
    ensures t.canceller.WaitedTwice? ==> t.cInCallback == 0
  {
    hide Runs, Accounted;
    CreatedInv();
    RunInv(Created, steps, t);
    forall d | At(t, c, Holding) ensures !Executes(t, d) {
      HolderExcludes(t, c, d);
    }
    if t.canceller.WaitedTwice? {
      assert InCallback(t) == {};
    }
  }

  /** Once the cancel has returned, nothing runs or is going to run until the next schedule. */
  lemma CancelledIsQuiet(steps: seq<Step>, t: Task)
    requires Runs(Created, steps, t) && t.state.Cancelled?
    ensures t.callbacks == map[] && !t.fArmed && t.cInCallback == 0 && t.pvTaskRuntimeContext == NULL
  {
    hide Runs, Accounted;
    CreatedInv();
    RunInv(Created, steps, t);
    assert InCallback(t) == {};
  }

  /** What became of a context is settled once: no step changes it. */
  lemma FateIsFinal(t: Task, e: Step, id: nat)
    requires Inv(t) && Enabled(t, e) && id in t.fates
    ensures id in Next(t, e).fates && Next(t, e).fates[id] == t.fates[id]
  {
    hide OneHolder, States, Counted, Coming;
  }

  lemma {:induction false} FateIsFinalInRuns(t: Task, steps: seq<Step>, t': Task, id: nat)
    requires Inv(t) && Runs(t, steps, t') && id in t.fates
    ensures id in t'.fates && t'.fates[id] == t.fates[id]
    decreases |steps|
  {
    hide Inv, Next, Enabled;
    if |steps| == 0 {
    } else {
      StepInv(t, steps[0]);
      FateIsFinal(t, steps[0], id);
      FateIsFinalInRuns(Next(t, steps[0]), steps[1..], t', id);
    }
  }

  /** Each context accepted has been taken by one run, one later schedule or one cancel, unless
      it is the latest and still waits; and it cannot wait with no timer set and no callback on
      its way. */
  lemma EveryContextConsumed(steps: seq<Step>, t: Task, id: nat)
    requires Runs(Created, steps, t) && id in t.accepted && t.accepted[id] != NULL
    ensures id in t.fates <==> !(id == t.idSchedule && t.pvTaskRuntimeContext == t.accepted[id])
    ensures !t.fArmed && !Coming(t) ==> id in t.fates
    ensures t.canceller != Absent ==> id in t.fates
  {
    hide Runs, OneHolder, Counted, Coming;
    CreatedInv();
    RunInv(Created, steps, t);
  }

  /** A callback runs the context of the schedule call it took, and is that context's one fate. */
  lemma RunTakesItsContext(steps: seq<Step>, t: Task, c: nat)
    requires Runs(Created, steps, t) && Executes(t, c)
    ensures var p := t.callbacks[c];
            p.id in t.accepted && p.context == t.accepted[p.id]
            && (p.context != NULL ==> p.id in t.fates && t.fates[p.id] == RunBy(c))
  {
    hide Runs, OneHolder, Counted, Coming, States, Generations;
    CreatedInv();
    RunInv(Created, steps, t);
  }
}
