/**
  Counting writes that are not yet flushed (lib/cpp/ms/osfile.cxx), for files with a write-back
  cache. Each step is one load or store of a counter, one atomic operation, or one uninterrupted
  stretch under the lock, so a run is any interleaving of write completions, of any number of
  flushes and of readers of the count.
*/
module FlushLedger {

  const SUCCESS: int := 0

  /** Where a flush is. The writes are those completed when it read the count, the delta that
      count.
      Checked: it saw no earlier failure. Read, Added: in the lock, moving the count over.
      Flying: the operating system is flushing. Failing, Returned: in the lock, moving the count
      back after a failure. */
  datatype Flush =
    | Checked
    | Read(delta: int, writes: set<nat>)
    | Added(delta: int, writes: set<nat>)
    | Flying(delta: int, writes: set<nat>)
    | Failing(delta: int, writes: set<nat>)
    | Returned(delta: int, writes: set<nat>)

  /** A report of the writes not flushed: half of it read, or its value. */
  datatype Report = Half(fUnflushedFirst: bool, value: int) | Reported(value: int)

  datatype File = File(
    cioUnflushed: int,
    cioFlushing: int,
    errFlushFailed: int,
    locked: bool,
    flushes: map<nat, Flush>,
    loading: map<nat, int>,     // completions that have loaded the count and not stored it
    reports: map<nat, Report>,
    open: set<nat>,             // completed writes that the next flush will cover
    airborne: set<nat>,         // completed writes that a flush in progress covers
    durable: set<nat>)          // completed writes that a successful flush has covered

  /** The increment at a completion is a load and a store. So is the sum a report returns two
      loads, in an order that the language leaves open. ResetCount: the file is declared to need
      no flush. */
  datatype Step =
    | LoadCount(w: nat)
    | StoreCount(w: nat)
    | ResetCount
    | Check(f: nat)
    | ReadCount(f: nat)
    | AddFlushing(f: nat)
    | SubUnflushed(f: nat)
    | Succeed(f: nat)
    | FailMark(f: nat, err: int)
    | FailReturn(f: nat)
    | FailDone(f: nat)
    | LoadFirst(r: nat, fUnflushedFirst: bool)
    | LoadSecond(r: nat)

  const Opened := File(0, 0, SUCCESS, false, map[], map[], map[], {}, {}, {})

  function Completed(s: File): set<nat> {
    s.open + s.airborne + s.durable
  }

  /** A flush that finds an earlier failure ends there: it takes no step. */
  predicate Enabled(s: File, e: Step) {
    match e
    case LoadCount(w) => w !in s.loading && w !in Completed(s)
    case StoreCount(w) => w in s.loading
    case ResetCount => true
    case Check(f) => s.errFlushFailed == SUCCESS && f !in s.flushes
    case ReadCount(f) => f in s.flushes && s.flushes[f].Checked? && !s.locked
    case AddFlushing(f) => f in s.flushes && s.flushes[f].Read?
    case SubUnflushed(f) => f in s.flushes && s.flushes[f].Added?
    case Succeed(f) => f in s.flushes && s.flushes[f].Flying? && !s.locked
    case FailMark(f, err) => f in s.flushes && s.flushes[f].Flying? && !s.locked && err != SUCCESS
    case FailReturn(f) => f in s.flushes && s.flushes[f].Failing?
    case FailDone(f) => f in s.flushes && s.flushes[f].Returned?
    case LoadFirst(r, _) => r !in s.reports
    case LoadSecond(r) => r in s.reports && s.reports[r].Half?
  }

  function Next(s: File, e: Step): File
    requires Enabled(s, e)
  {
    match e
    case LoadCount(w) => s.(loading := s.loading[w := s.cioUnflushed])
    case StoreCount(w) =>
      s.(cioUnflushed := s.loading[w] + 1, loading := s.loading - {w}, open := s.open + {w})
    case ResetCount => s.(cioUnflushed := 0)
    case Check(f) => s.(flushes := s.flushes[f := Checked])
    case ReadCount(f) => s.(locked := true, flushes := s.flushes[f := Read(s.cioUnflushed, s.open)])
    case AddFlushing(f) =>
      var d, w := s.flushes[f].delta, s.flushes[f].writes;
      s.(cioFlushing := s.cioFlushing + d, flushes := s.flushes[f := Added(d, w)])
    case SubUnflushed(f) =>
      var d, w := s.flushes[f].delta, s.flushes[f].writes;
      s.(cioUnflushed := s.cioUnflushed - d, locked := false, flushes := s.flushes[f := Flying(d, w)],
         open := s.open - w, airborne := s.airborne + w)
    case Succeed(f) =>
      var d, w := s.flushes[f].delta, s.flushes[f].writes;
      s.(cioFlushing := s.cioFlushing - d, flushes := s.flushes - {f},
         airborne := s.airborne - w, durable := s.durable + w)
    case FailMark(f, err) =>
      var d, w := s.flushes[f].delta, s.flushes[f].writes;
      s.(errFlushFailed := if s.errFlushFailed == SUCCESS then err else s.errFlushFailed,
         locked := true, flushes := s.flushes[f := Failing(d, w)])
    case FailReturn(f) =>
      var d, w := s.flushes[f].delta, s.flushes[f].writes;
      s.(cioUnflushed := s.cioUnflushed + d, flushes := s.flushes[f := Returned(d, w)],
         open := s.open + w, airborne := s.airborne - w)
    case FailDone(f) =>
      s.(cioFlushing := s.cioFlushing - s.flushes[f].delta, locked := false, flushes := s.flushes - {f})
    case LoadFirst(r, fUnflushedFirst) =>
      s.(reports := s.reports[r := Half(fUnflushedFirst, if fUnflushedFirst then s.cioUnflushed else s.cioFlushing)])
    case LoadSecond(r) =>
      var half := s.reports[r];
      s.(reports := s.reports[r :=
           Reported(half.value + if half.fUnflushedFirst then s.cioFlushing else s.cioUnflushed)])
  }

  predicate StepsTo(s: File, e: Step, s': File) {
    Enabled(s, e) && s' == Next(s, e)
  }

  /** The states of a run and the steps between them. */
  ghost predicate IsRun(states: seq<File>, steps: seq<Step>) {
    && |states| == |steps| + 1 && states[0] == Opened
    && forall i :: 0 <= i < |steps| ==> StepsTo(states[i], steps[i], states[i + 1])
  }

  // ----- the invariant -----

  predicate InLock(x: Flush) {
    x.Read? || x.Added? || x.Failing? || x.Returned?
  }

  predicate Carries(x: Flush) {
    x.Flying? || x.Failing?
  }

  /** What a flush counts in the number being flushed. */
  function Share(x: Flush): int {
    if x.Checked? || x.Read? then 0 else x.delta
  }

  /** The sum of the shares of all flushes. */
  ghost function Shares(flushes: map<nat, Flush>): int {
    if flushes.Keys == {} then 0
    else
      var f :| f in flushes.Keys;
      Share(flushes[f]) + Shares(flushes - {f})
  }

  lemma {:induction false} SharesWithout(flushes: map<nat, Flush>, f: nat)
    requires f in flushes
    ensures Shares(flushes) == Share(flushes[f]) + Shares(flushes - {f})
    decreases |flushes|
  {
    assert flushes.Keys != {};
    var g :| g in flushes && Shares(flushes) == Share(flushes[g]) + Shares(flushes - {g});
    hide Shares;
    if g == f {
    } else {
      SharesWithout(flushes - {g}, f);
      SharesWithout(flushes - {f}, g);
      assert flushes - {g} - {f} == flushes - {f} - {g};
    }
  }

  lemma SharesNone()
    ensures Shares(map[]) == 0
  {}

  lemma SharesSet(flushes: map<nat, Flush>, f: nat, x: Flush)
    ensures Shares(flushes[f := x]) == Shares(flushes - {f}) + Share(x)
  {
    hide Shares;
    SharesWithout(flushes[f := x], f);
    assert flushes[f := x] - {f} == flushes - {f};
  }

  /** The number being flushed is the sum of what the flushes in progress carry. */
  ghost predicate Summed(s: File) {
    s.cioFlushing == Shares(s.flushes)
  }

  ghost predicate LockHeld(s: File) {
    && (forall f :: f in s.flushes && InLock(s.flushes[f]) ==> s.locked)
    && (forall f, g :: f in s.flushes && g in s.flushes && InLock(s.flushes[f]) && InLock(s.flushes[g]) ==> f == g)
  }

  /** A flush fits the sets of writes: what it carries is airborne, what it is moving in or out
      under the lock is open. */
  ghost predicate Fits(x: Flush, open: set<nat>, airborne: set<nat>) {
    x.Checked? || x.writes <= if Carries(x) then airborne else open
  }

  ghost predicate Apart(x: Flush, y: Flush) {
    Carries(x) && Carries(y) ==> x.writes !! y.writes
  }

  /** Each completed write is open, carried by one flush, or durable. */
  ghost predicate Sorted(s: File) {
    && s.open !! s.airborne !! s.durable
    && (forall w :: w in s.loading ==> w !in Completed(s))
    && (forall f :: f in s.flushes ==> Fits(s.flushes[f], s.open, s.airborne))
    && (forall f, g :: f in s.flushes && g in s.flushes && f != g ==> Apart(s.flushes[f], s.flushes[g]))
  }

  ghost predicate Inv(s: File) {
    Summed(s) && LockHeld(s) && Sorted(s)
  }

  lemma StepSummed(s: File, e: Step)
    requires Inv(s) && Enabled(s, e)
    ensures Summed(Next(s, e))
  {
    hide Shares;
    if !e.LoadCount? && !e.StoreCount? && !e.ResetCount? && !e.LoadFirst? && !e.LoadSecond? {
      var f := e.f;
      if f in s.flushes {
        SharesWithout(s.flushes, f);
      } else {
        assert s.flushes - {f} == s.flushes;
      }
      if !e.Succeed? && !e.FailDone? {
        SharesSet(s.flushes, f, Next(s, e).flushes[f]);
      }
    }
  }

  lemma StepLockHeld(s: File, e: Step)
    requires Inv(s) && Enabled(s, e)
    ensures LockHeld(Next(s, e))
  {
    hide Summed, Sorted;
  }

  /** The other flushes still fit when only the writes of one flush move. */
  lemma OthersFit(s: File, f: nat, g: nat, w: set<nat>, open: set<nat>, airborne: set<nat>)
    requires LockHeld(s) && Sorted(s) && f in s.flushes && g in s.flushes && f != g
    requires !s.flushes[f].Checked? && w == s.flushes[f].writes
    requires InLock(s.flushes[f]) || !s.locked
    requires Carries(s.flushes[f]) ==> s.airborne - w <= airborne
    requires !Carries(s.flushes[f]) ==> s.airborne <= airborne
    ensures Fits(s.flushes[g], open, airborne)
  {
    assert !InLock(s.flushes[g]);
    assert Apart(s.flushes[f], s.flushes[g]);
  }

  lemma MovedApart(s: File, f: nat, g: nat)
    requires Sorted(s) && f in s.flushes && g in s.flushes && f != g && !s.flushes[f].Checked?
    requires Carries(s.flushes[f]) || s.flushes[f].writes !! s.airborne
    ensures Carries(s.flushes[g]) ==> s.flushes[f].writes !! s.flushes[g].writes
  {
    assert Apart(s.flushes[f], s.flushes[g]);
    assert Fits(s.flushes[g], s.open, s.airborne);
  }

  lemma MoveSorted(s: File, f: nat, s': File)
    requires LockHeld(s) && Sorted(s) && f in s.flushes && !s.flushes[f].Checked?
    requires InLock(s.flushes[f]) || !s.locked
    requires Carries(s.flushes[f]) ==> s.airborne - s.flushes[f].writes <= s'.airborne
    requires !Carries(s.flushes[f]) ==> s.airborne <= s'.airborne
    requires forall g :: g in s'.flushes && g != f ==> g in s.flushes && s'.flushes[g] == s.flushes[g]
    requires f in s'.flushes ==> Fits(s'.flushes[f], s'.open, s'.airborne)
    requires f in s'.flushes && Carries(s'.flushes[f]) ==> s'.flushes[f].writes == s.flushes[f].writes
    requires f in s'.flushes && Carries(s'.flushes[f]) && !Carries(s.flushes[f]) ==> s.flushes[f].writes !! s.airborne
    requires s'.open !! s'.airborne !! s'.durable && forall w :: w in s'.loading ==> w !in Completed(s')
    ensures Sorted(s')
  {
    forall g | g in s'.flushes ensures Fits(s'.flushes[g], s'.open, s'.airborne) {
      if g != f {
        OthersFit(s, f, g, s.flushes[f].writes, s'.open, s'.airborne);
      }
    }
    forall g, h | g in s'.flushes && h in s'.flushes && g != h ensures Apart(s'.flushes[g], s'.flushes[h]) {
      if g != f && h != f {
        assert Apart(s.flushes[g], s.flushes[h]);
      } else {
        MovedApart(s, f, if g == f then h else g);
      }
    }
  }

  lemma StillSorted(s: File, s': File, f: nat)
    requires Sorted(s) && s'.airborne == s.airborne && s.open <= s'.open && s'.durable == s.durable
    requires s'.open !! s'.airborne !! s'.durable && forall w :: w in s'.loading ==> w !in Completed(s')
    requires forall g :: g in s'.flushes && g != f ==> g in s.flushes && s'.flushes[g] == s.flushes[g]
    requires f in s'.flushes ==> !Carries(s'.flushes[f]) && Fits(s'.flushes[f], s'.open, s'.airborne)
    ensures Sorted(s')
  {
    forall g | g in s'.flushes ensures Fits(s'.flushes[g], s'.open, s'.airborne) {
      if g != f {
        assert Fits(s.flushes[g], s.open, s.airborne);
      }
    }
    forall g, h | g in s'.flushes && h in s'.flushes && g != h ensures Apart(s'.flushes[g], s'.flushes[h]) {
      if g != f && h != f {
        assert Apart(s.flushes[g], s.flushes[h]);
      }
    }
  }

  lemma SubSorted(s: File, f: nat)
    requires Inv(s) && Enabled(s, SubUnflushed(f))
    ensures Sorted(Next(s, SubUnflushed(f)))
  {
    hide Summed;
    assert Fits(s.flushes[f], s.open, s.airborne);
    MoveSorted(s, f, Next(s, SubUnflushed(f)));
  }

  lemma SucceedSorted(s: File, f: nat)
    requires Inv(s) && Enabled(s, Succeed(f))
    ensures Sorted(Next(s, Succeed(f)))
  {
    hide Summed;
    assert Fits(s.flushes[f], s.open, s.airborne);
    var s' := Next(s, Succeed(f));
    assert s'.open !! s'.airborne !! s'.durable;
    hide LockHeld, Sorted, Fits;
    MoveSorted(s, f, s');
  }

  lemma FailSorted(s: File, e: Step)
    requires Inv(s) && Enabled(s, e) && (e.FailMark? || e.FailReturn? || e.FailDone?)
    ensures Sorted(Next(s, e))
  {
    hide Summed;
    assert Fits(s.flushes[e.f], s.open, s.airborne);
    MoveSorted(s, e.f, Next(s, e));
  }

  lemma OtherSorted(s: File, e: Step)
    requires Inv(s) && Enabled(s, e) && (e.Check? || e.ReadCount? || e.AddFlushing?)
    ensures Sorted(Next(s, e))
  {
    hide Summed, LockHeld;
    if e.AddFlushing? {
      assert Fits(s.flushes[e.f], s.open, s.airborne);
    }
    StillSorted(s, Next(s, e), e.f);
  }

  lemma WriteSorted(s: File, e: Step)
    requires Inv(s) && Enabled(s, e)
    requires e.LoadCount? || e.StoreCount? || e.ResetCount? || e.LoadFirst? || e.LoadSecond?
    ensures Sorted(Next(s, e))
  {
    hide Summed, LockHeld;
    var s' := Next(s, e);
    forall g | g in s'.flushes ensures Fits(s'.flushes[g], s'.open, s'.airborne) {
      assert Fits(s.flushes[g], s.open, s.airborne);
    }
  }

  lemma StepInv(s: File, e: Step)
    requires Inv(s) && Enabled(s, e)
    ensures Inv(Next(s, e))
  {
    hide Summed, LockHeld, Sorted, Next;
    StepSummed(s, e);
    StepLockHeld(s, e);
    match e
    case Check(_) => OtherSorted(s, e);
    case ReadCount(_) => OtherSorted(s, e);
    case AddFlushing(_) => OtherSorted(s, e);
    case SubUnflushed(f) => SubSorted(s, f);
    case Succeed(f) => SucceedSorted(s, f);
    case FailMark(_, _) => FailSorted(s, e);
    case FailReturn(_) => FailSorted(s, e);
    case FailDone(_) => FailSorted(s, e);
    case _ => WriteSorted(s, e);
  }

  lemma OpenedInv()
    ensures Inv(Opened)
  {
    SharesNone();
  }

  lemma {:induction false} RunInv(states: seq<File>, steps: seq<Step>, i: nat)
    requires IsRun(states, steps) && i < |states|
    ensures Inv(states[i])
  {
    hide Inv, Next, Enabled;
    if i == 0 {
      OpenedInv();
    } else {
      RunInv(states, steps, i - 1);
      assert StepsTo(states[i - 1], steps[i - 1], states[i]);
      StepInv(states[i - 1], steps[i - 1]);
    }
  }
}
