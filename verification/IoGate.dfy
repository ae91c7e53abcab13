/**
  The gate between concurrent and exclusive I/O on a disk (lib/cpp/ms/osdisk.cxx). Each step is
  one hold of the queue lock, one atomic counter operation or one read of a counter.
*/
module IoGate {

  /** Where a thread that wants exclusive use is. Draining: it has set the flag and waits.
      SawNoDispatch: it read the dispatch count as zero and has yet to read the foreground count.
      Owning: both reads were zero. */
  datatype Exclusive = Draining | SawNoDispatch | Owning

  datatype Disk = Disk(
    fExclusiveIo: bool,
    cioDispatching: int,
    cioForeground: int,
    exclusive: map<nat, Exclusive>,
    dispatched: set<nat>,           // asynchronous operations in flight
    foreground: set<nat>)           // synchronous operations in flight

  datatype Step =
    | BeginConcurrentIo(io: nat, fForegroundSyncIO: bool)
    | IncDispatching(io: nat)
    | EndConcurrentIo(io: nat, fForegroundSyncIO: bool)
    | SetExclusive(t: nat)
    | ReadDispatched(t: nat)
    | ReadForeground(t: nat)
    | EndExclusiveIo(t: nat)

  const Idle := Disk(false, 0, 0, map[], {}, {})

  /** A begin step is one that the gate lets through: while the flag is set a synchronous caller
      sleeps and an asynchronous one is told to come back. A piece of a split run is counted
      without passing the gate, which happens only while its run is still counted. */
  predicate Enabled(d: Disk, e: Step) {
    match e
    case BeginConcurrentIo(io, _) => !d.fExclusiveIo && io !in d.dispatched + d.foreground
    case IncDispatching(io) => d.cioDispatching >= 1 && io !in d.dispatched + d.foreground
    case EndConcurrentIo(io, fForegroundSyncIO) => io in if fForegroundSyncIO then d.foreground else d.dispatched
    case SetExclusive(t) => !d.fExclusiveIo && t !in d.exclusive
    case ReadDispatched(t) => t in d.exclusive && d.exclusive[t].Draining?
    case ReadForeground(t) => t in d.exclusive && d.exclusive[t].SawNoDispatch?
    case EndExclusiveIo(t) => t in d.exclusive && d.exclusive[t].Owning?
  }

  function Next(d: Disk, e: Step): Disk
    requires Enabled(d, e)
  {
    match e
    case BeginConcurrentIo(io, fForegroundSyncIO) =>
      if fForegroundSyncIO
      then d.(cioForeground := d.cioForeground + 1, foreground := d.foreground + {io})
      else d.(cioDispatching := d.cioDispatching + 1, dispatched := d.dispatched + {io})
    case IncDispatching(io) =>
      d.(cioDispatching := d.cioDispatching + 1, dispatched := d.dispatched + {io})
    case EndConcurrentIo(io, fForegroundSyncIO) =>
      if fForegroundSyncIO
      then d.(cioForeground := d.cioForeground - 1, foreground := d.foreground - {io})
      else d.(cioDispatching := d.cioDispatching - 1, dispatched := d.dispatched - {io})
    case SetExclusive(t) =>
      d.(fExclusiveIo := true, exclusive := d.exclusive[t := Draining])
    case ReadDispatched(t) =>
      if d.cioDispatching == 0 then d.(exclusive := d.exclusive[t := SawNoDispatch]) else d
    case ReadForeground(t) =>
      d.(exclusive := d.exclusive[t := if d.cioForeground == 0 then Owning else Draining])
    case EndExclusiveIo(t) =>
      d.(fExclusiveIo := false, exclusive := d.exclusive - {t})
  }

  predicate Runs(d: Disk, steps: seq<Step>, d': Disk)
    decreases |steps|
  {
    if |steps| == 0 then d == d'
    else Enabled(d, steps[0]) && Runs(Next(d, steps[0]), steps[1..], d')
  }

  ghost predicate Counted(d: Disk) {
    d.cioDispatching == |d.dispatched| && d.cioForeground == |d.foreground|
  }

  /** At most one thread at the gate, behind the flag, and what it has seen still holds. */
  ghost predicate Guarded(d: Disk) {
    && (d.fExclusiveIo <==> exists t :: t in d.exclusive)
    && (forall t, u :: t in d.exclusive && u in d.exclusive ==> t == u)
    && (forall t :: t in d.exclusive && !d.exclusive[t].Draining? ==> d.cioDispatching == 0)
    && (forall t :: t in d.exclusive && d.exclusive[t].Owning? ==> d.cioForeground == 0)
  }

  ghost predicate Inv(d: Disk) {
    Counted(d) && Guarded(d)
  }

  lemma StepCounted(d: Disk, e: Step)
    requires Counted(d) && Enabled(d, e)
    ensures Counted(Next(d, e))
  {}

  lemma StepGuarded(d: Disk, e: Step)
    requires Counted(d) && Guarded(d) && Enabled(d, e)
    ensures Guarded(Next(d, e))
  {
    assert e.EndConcurrentIo? && !e.fForegroundSyncIO ==> |d.dispatched| > 0;
    assert e.EndConcurrentIo? && e.fForegroundSyncIO ==> |d.foreground| > 0;
    var d' := Next(d, e);
    if e.SetExclusive? {
      assert e.t in d'.exclusive && forall t :: t in d'.exclusive ==> t == e.t;
    } else {
      assert forall t :: t in d'.exclusive ==> t in d.exclusive;
      assert !e.EndExclusiveIo? ==> forall t :: t in d.exclusive ==> t in d'.exclusive;
    }
  }

  lemma StepInv(d: Disk, e: Step)
    requires Inv(d) && Enabled(d, e)
    ensures Inv(Next(d, e))
  {
    hide Counted, Guarded, Next, Enabled;
    StepCounted(d, e);
    StepGuarded(d, e);
  }

  lemma {:induction false} RunInv(d: Disk, steps: seq<Step>, d': Disk)
    requires Inv(d) && Runs(d, steps, d')
    ensures Inv(d')
    decreases |steps|
  {
    hide Inv, Next, Enabled;
    if |steps| == 0 {
    } else {
      StepInv(d, steps[0]);
      RunInv(Next(d, steps[0]), steps[1..], d');
    }
  }

  /** In every interleaving there is at most one exclusive owner or thread waiting to be it, and
      while a thread owns the disk no operation of any other kind is in flight. */
  lemma ExclusiveMeansAlone(steps: seq<Step>, d: Disk)
    requires Runs(Idle, steps, d)
    ensures forall t, u :: t in d.exclusive && u in d.exclusive ==> t == u
    ensures (exists t :: t in d.exclusive && d.exclusive[t].Owning?) ==>
              && d.fExclusiveIo && d.dispatched == {} && d.foreground == {}
              && d.cioDispatching == 0 && d.cioForeground == 0
  {
    RunInv(Idle, steps, d);
    hide Runs;
    if t :| t in d.exclusive && d.exclusive[t].Owning? {
      assert |d.dispatched| == 0 && |d.foreground| == 0;
    }
  }

  /** From owning the disk until giving it up, nothing can begin. */
  lemma OwnerIsUndisturbed(steps: seq<Step>, d: Disk, t: nat, e: Step)
    requires Runs(Idle, steps, d) && t in d.exclusive && d.exclusive[t].Owning? && Enabled(d, e)
    ensures e == EndExclusiveIo(t)
  {
    RunInv(Idle, steps, d);
    hide Runs;
    assert |d.dispatched| == 0 && |d.foreground| == 0;
  }

  // ----- what the steps amount to -----

  /** The operations of one kind in flight after some steps: those begun and not ended. */
  function InFlight(steps: seq<Step>, fForegroundSyncIO: bool, before: set<nat>): set<nat>
    decreases |steps|
  {
    if |steps| == 0 then before
    else
      InFlight(steps[1..], fForegroundSyncIO,
               match steps[0]
               case BeginConcurrentIo(io, f) => if f == fForegroundSyncIO then before + {io} else before
               case IncDispatching(io) => if fForegroundSyncIO then before else before + {io}
               case EndConcurrentIo(io, f) => if f == fForegroundSyncIO then before - {io} else before
               case _ => before)
  }

  /** Every run counts exactly the operations begun and not ended. */
  lemma {:induction false} CountsWhatIsInFlight(d: Disk, steps: seq<Step>, d': Disk)
    requires Inv(d) && Runs(d, steps, d')
    ensures d'.dispatched == InFlight(steps, false, d.dispatched)
    ensures d'.foreground == InFlight(steps, true, d.foreground)
    ensures d'.cioDispatching == |d'.dispatched| && d'.cioForeground == |d'.foreground|
    decreases |steps|
  {
    hide Guarded;
    if |steps| == 0 {
    } else {
      StepInv(d, steps[0]);
      CountsWhatIsInFlight(Next(d, steps[0]), steps[1..], d');
    }
  }

  /** The gate lets an operation begin if and only if no thread has or wants the disk for itself. */
  lemma GateOpenIff(steps: seq<Step>, d: Disk, io: nat, fForegroundSyncIO: bool)
    requires Runs(Idle, steps, d) && io !in d.dispatched + d.foreground
    ensures Enabled(d, BeginConcurrentIo(io, fForegroundSyncIO)) <==> d.exclusive == map[]
  {
    RunInv(Idle, steps, d);
    hide Runs;
  }

  /** When the owner gives the disk up, operations can begin again and so can another owner. */
  lemma GateReopens(steps: seq<Step>, d: Disk, t: nat)
    requires Runs(Idle, steps, d) && t in d.exclusive && d.exclusive[t].Owning?
    ensures Enabled(d, EndExclusiveIo(t))
    ensures var d' := Next(d, EndExclusiveIo(t));
            && d'.exclusive == map[]
            && (forall io, f :: Enabled(d', BeginConcurrentIo(io, f)))
            && (forall u :: Enabled(d', SetExclusive(u)))
  {
    ExclusiveMeansAlone(steps, d);
    RunInv(Idle, steps, d);
    hide Runs;
  }

  // ----- an exclusive thread is let in -----

  lemma {:induction false} RunsOn(d: Disk, steps: seq<Step>, d': Disk, e: Step)
    requires Runs(d, steps, d') && Enabled(d', e)
    ensures Runs(d, steps + [e], Next(d', e))
    decreases |steps|
  {
    hide Enabled, Next;
    if |steps| == 0 {
      assert (steps + [e])[1..] == [];
      assert Runs(Next(d', e), [], Next(d', e));
    } else {
      RunsOn(Next(d, steps[0]), steps[1..], d', e);
      assert (steps + [e])[1..] == steps[1..] + [e];
    }
  }

  /** Steps by which operations end and one thread looks at the counters. */
  predicate LetsIn(e: Step, t: nat) {
    e.EndConcurrentIo? || e == ReadDispatched(t) || e == ReadForeground(t)
  }

  predicate AllLetIn(steps: seq<Step>, t: nat) {
    forall i :: 0 <= i < |steps| ==> LetsIn(steps[i], t)
  }

  /** All operations in flight end. */
  lemma {:induction false} Drain(d: Disk, t: nat) returns (steps: seq<Step>, d': Disk)
    requires Inv(d) && t in d.exclusive
    ensures Runs(d, steps, d') && AllLetIn(steps, t) && Inv(d')
    ensures d'.dispatched == {} && d'.foreground == {} && d'.exclusive == d.exclusive
    decreases |d.dispatched| + |d.foreground|
  {
    hide Inv;
    if d.dispatched == {} && d.foreground == {} {
      steps, d' := [], d;
    } else {
      var e;
      if io :| io in d.dispatched {
        e := EndConcurrentIo(io, false);
      } else {
        var io :| io in d.foreground;
        e := EndConcurrentIo(io, true);
      }
      StepInv(d, e);
      var rest;
      rest, d' := Drain(Next(d, e), t);
      steps := [e] + rest;
      assert steps[1..] == rest;
    }
  }

  lemma IdleInv()
    ensures Inv(Idle)
  {}

  lemma Uncounted(d: Disk)
    requires Inv(d) && d.dispatched == {} && d.foreground == {}
    ensures d.cioDispatching == 0 && d.cioForeground == 0
  {}

  /** Every thread that has set the flag can come to own the disk, by nothing but the ending of the
      operations in flight and its own looking. */
  lemma WaiterCanOwn(steps: seq<Step>, d: Disk, t: nat) returns (more: seq<Step>, d': Disk)
    requires Runs(Idle, steps, d) && t in d.exclusive
    ensures Runs(d, more, d') && AllLetIn(more, t) && t in d'.exclusive && d'.exclusive[t].Owning?
  {
    hide Runs, Inv;
    assert Inv(d) by { IdleInv(); RunInv(Idle, steps, d); }
    more, d' := Drain(d, t);
    Uncounted(d');
    if d'.exclusive[t].Draining? {
      RunsOn(d, more, d', ReadDispatched(t));
      more, d' := more + [ReadDispatched(t)], Next(d', ReadDispatched(t));
    }
    if d'.exclusive[t].SawNoDispatch? {
      RunsOn(d, more, d', ReadForeground(t));
      more, d' := more + [ReadForeground(t)], Next(d', ReadForeground(t));
    }
  }
}
