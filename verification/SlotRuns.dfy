/**
  Where the requests of the slot ledger go (lib/cpp/ms/osdisk.cxx): in every run each one allocated
  is in the ledger until it is freed or completed, and from every state all of them can be, so that
  every slot comes back.
*/
module SlotRuns {
  import opened IoRun
  import opened SlotLedger

  // ----- no request is lost or made -----

  /** How often a request, but for who holds which slot, is among the given ones. */
  function Times(reqs: seq<Request>, x: Request): nat {
    multiset(BareAll(reqs))[x]
  }

  function Once(r: Request, x: Request): nat {
    if Bare(r) == x then 1 else 0
  }

  /** How often it is in the ledger. */
  function Count(entries: seq<Entry>, x: Request): nat {
    if |entries| == 0 then 0 else Count(entries[..|entries| - 1], x) + Times(entries[|entries| - 1].reqs, x)
  }

  lemma {:induction false} CountUpdate(entries: seq<Entry>, i: int, e: Entry, x: Request)
    requires 0 <= i < |entries|
    ensures Count(entries[i := e], x) == Count(entries, x) - Times(entries[i].reqs, x) + Times(e.reqs, x)
  {
    hide Times;
    var n := |entries| - 1;
    if i < n {
      CountUpdate(entries[..n], i, e, x);
      assert entries[i := e][..n] == entries[..n][i := e];
    } else {
      assert entries[i := e][..n] == entries[..n];
    }
  }

  lemma CountAppend(entries: seq<Entry>, e: Entry, x: Request)
    ensures Count(entries + [e], x) == Count(entries, x) + Times(e.reqs, x)
  {
    assert (entries + [e])[..|entries|] == entries;
  }

  lemma TimesNone(x: Request)
    ensures Times([], x) == 0
  {
    assert BareAll([]) == [];
  }

  lemma TimesOne(r: Request, x: Request)
    ensures Times([r], x) == Once(r, x)
  {
    assert BareAll([r]) == [Bare(r)];
  }

  lemma TimesCons(reqs: seq<Request>, x: Request)
    requires |reqs| > 0
    ensures Times(reqs, x) == Once(reqs[0], x) + Times(reqs[1..], x)
  {
    assert BareAll(reqs) == [Bare(reqs[0])] + BareAll(reqs[1..]);
  }

  /** How often a step allocates a request, and how often it frees or completes it. */
  function Enters(e: Step, x: Request): nat {
    match e
    case AllocCombinable(_, r, _) => Once(r, x)
    case AllocReserve(_, r, _) => Once(r, x)
    case _ => 0
  }

  ghost function Leaves(l: Ledger, e: Step, x: Request): nat
    requires Enabled(l, e)
  {
    match e
    case FreeUnused(i) => Once(l.entries[i].reqs[0], x)
    case Complete(i) => Once(l.entries[i].reqs[0], x)
    case _ => 0
  }

  /** What there is after a step, and what left, is what there was and what came. */
  ghost predicate Conserves(l: Ledger, e: Step, x: Request)
    requires Enabled(l, e)
  {
    Count(Next(l, e).entries, x) + Leaves(l, e, x) == Count(l.entries, x) + Enters(e, x)
  }

  lemma MoveConserves(l: Ledger, i: nat, place: Place, x: Request)
    requires i < |l.entries|
    ensures Count(Move(l, i, place).entries, x) == Count(l.entries, x)
  {
    hide Count, Times;
    CountUpdate(l.entries, i, l.entries[i].(place := place), x);
  }

  lemma TimesMerged(base: seq<Request>, toAdd: seq<Request>, x: Request)
    requires |base| > 0 && |toAdd| > 0
    ensures Times(MergedRun(base, toAdd), x) == Times(base, x) + Times(toAdd, x)
  {
    hide MergedRun;
    MergeKeepsRequests(base, toAdd);
  }

  lemma JoinConserves(l: Ledger, i: nat, j: nat, x: Request)
    requires i != j && i < |l.entries| && j < |l.entries| && |l.entries[i].reqs| > 0 && |l.entries[j].reqs| > 0
    ensures Count(Join(l, i, j).entries, x) == Count(l.entries, x)
  {
    hide Count, MergedRun, Times;
    var base, toAdd := l.entries[j].reqs, l.entries[i].reqs;
    TimesNone(x);
    TimesMerged(base, toAdd, x);
    CountUpdate(l.entries, i, Entry(Gone, []), x);
    CountUpdate(l.entries[i := Entry(Gone, [])], j, l.entries[j].(reqs := MergedRun(base, toAdd)), x);
  }

  lemma SameTimes(a: seq<Request>, b: seq<Request>, x: Request)
    requires |a| == |b| && forall i :: 0 <= i < |a| ==> Bare(a[i]) == Bare(b[i])
    ensures Times(a, x) == Times(b, x)
  {
    assert BareAll(a) == BareAll(b);
  }

  lemma SplitTimes(chain: seq<Request>, x: Request)
    requires |chain| > 0
    ensures var (p, rest) := SplitPop(chain); Times([p], x) + Times(rest, x) == Times(chain, x)
  {
    hide Times;
    var (p, rest) := SplitPop(chain);
    TimesOne(p, x);
    TimesCons(chain, x);
    SameTimes(rest, chain[1..], x);
  }

  lemma BackTimes(p: Request, rest: seq<Request>, x: Request)
    ensures Times(SplitBack(p, rest), x) == Times([p], x) + Times(rest, x)
  {
    hide Times;
    var chain := SplitBack(p, rest);
    TimesOne(p, x);
    TimesCons(chain, x);
    SameTimes(chain[1..], rest, x);
  }

  lemma PieceConserves(l: Ledger, i: nat, x: Request)
    requires At(l, i, Flight)
    ensures Count(PieceNext(l, i).entries, x) == Count(l.entries, x)
  {
    hide Count, Times, SplitPop;
    var (p, rest) := SplitPop(l.entries[i].reqs);
    SplitTimes(l.entries[i].reqs, x);
    CountAppend(l.entries, Entry(Issuing, [p]), x);
    CountUpdate(l.entries + [Entry(Issuing, [p])], i, Entry(Splitting(|l.entries|), rest), x);
  }

  lemma ReturnConserves(l: Ledger, i: nat, x: Request)
    requires HasPiece(l, i) && |l.entries[l.entries[i].place.piece].reqs| == 1
    ensures Count(ReturnNext(l, i).entries, x) == Count(l.entries, x)
  {
    hide Count, Times, SplitBack;
    var k := l.entries[i].place.piece;
    var p, rest := l.entries[k].reqs[0], l.entries[i].reqs;
    assert l.entries[k].reqs == [p];
    var c := Entry(Flight, SplitBack(p, rest));
    BackTimes(p, rest, x);
    TimesNone(x);
    CountUpdate(l.entries, i, c, x);
    CountUpdate(l.entries[i := c], k, Entry(Gone, []), x);
  }

  lemma AllocConserves(l: Ledger, e: Step, x: Request)
    requires Enabled(l, e) && (e.AllocCombinable? || e.AllocReserve?)
    ensures Conserves(l, e, x)
  {
    hide Count, Times;
    if e.AllocCombinable? {
      TimesOne(e.r, x);
      CountAppend(l.entries, Entry(Aiming(e.t, e.j), [e.r]), x);
    } else {
      var q := Reserve(l, e.r).1;
      TimesOne(q, x);
      CountAppend(l.entries, Entry(Loose(e.t), [q]), x);
    }
  }

  lemma ReserveConserves(l: Ledger, i: nat, f: bool, x: Request)
    requires Inv(l) && Enabled(l, ReserveLater(i, f))
    ensures Conserves(l, ReserveLater(i, f), x)
  {
    hide Count, CanAdd, Times;
    assert Sound(l.cfg, l.entries, i);
    var r := l.entries[i].reqs[0];
    var q := Reserve(l, r).1.(fCanCombineIO := false);
    assert l.entries[i].reqs == [r];
    TimesOne(r, x);
    TimesOne(q, x);
    CountUpdate(l.entries, i, Entry(Loose(l.entries[i].place.thread), [q]), x);
  }

  lemma FreeConserves(l: Ledger, i: nat, x: Request)
    requires Inv(l) && Enabled(l, FreeUnused(i))
    ensures Conserves(l, FreeUnused(i), x)
  {
    hide Count, CanAdd, Times;
    assert Sound(l.cfg, l.entries, i);
    assert l.entries[i].reqs == [l.entries[i].reqs[0]];
    TimesOne(l.entries[i].reqs[0], x);
    TimesNone(x);
    CountUpdate(l.entries, i, Entry(Gone, []), x);
  }

  lemma CompleteConserves(l: Ledger, i: nat, x: Request)
    requires Enabled(l, Complete(i))
    ensures Conserves(l, Complete(i), x)
  {
    hide Count, Times;
    TimesCons(l.entries[i].reqs, x);
    CountUpdate(l.entries, i, Entry(Completing, l.entries[i].reqs[1..]), x);
  }

  lemma PoolConserves(l: Ledger, i: nat, j: nat, x: Request)
    requires Enabled(l, PoolAdd(i, j))
    ensures Count(PoolNext(l, i, j).entries, x) == Count(l.entries, x)
  {
    hide Count, Accepts, CanAdd, MergedRun;
    if Accepts(l.cfg, l.entries[j].reqs, l.entries[i].reqs) {
      JoinConserves(l, i, j, x);
    } else {
      MoveConserves(l, j, Transit, x);
      MoveConserves(Move(l, j, Transit), i, Pooled(l.entries[i].place.thread), x);
    }
  }

  lemma StepConserves(l: Ledger, e: Step, x: Request)
    requires Inv(l) && Enabled(l, e)
    ensures Conserves(l, e, x)
  {
    hide Inv, Accepts, CanAdd, MergedRun, SplitPop, Count, Times, Join, Reserve, Release, Once;
    match e
    case AllocCombinable(_, _, _) => AllocConserves(l, e, x);
    case AllocReserve(_, _, _) => AllocConserves(l, e, x);
    case ReserveLater(i, f) => ReserveConserves(l, i, f, x);
    case FreeUnused(i) => FreeConserves(l, i, x);
    case PoolNew(i) => MoveConserves(l, i, Pooled(l.entries[i].place.thread), x);
    case PoolAdd(i, j) => PoolConserves(l, i, j, x);
    case PoolEvict(j) => MoveConserves(l, j, Transit, x);
    case GoDirect(i) => MoveConserves(l, i, Transit, x);
    case InsertHeap(i) => MoveConserves(l, i, Heap, x);
    case InsertMetered(i) => MoveConserves(l, i, Metered, x);
    case MergeMetered(i, j) => JoinConserves(l, i, j, x);
    case InsertVip(i) => MoveConserves(l, i, Vip, x);
    case ExtractHeap(i) => MoveConserves(l, i, Combining, x);
    case Combine(i, j) => JoinConserves(l, i, j, x);
    case Dispatch(i) => MoveConserves(l, i, Flight, x);
    case Extract(i) => MoveConserves(l, i, Flight, x);
    case SplitPiece(i) => PieceConserves(l, i, x);
    case SplitIssued(i) =>
      MoveConserves(l, i, Flight, x);
      MoveConserves(Move(l, i, Flight), l.entries[i].place.piece, Completing, x);
    case SplitReturned(i) =>
      PieceIsOwn(l, i);
      ReturnConserves(l, i, x);
    case Requeue(i) => MoveConserves(l, i, Transit, x);
    case Complete(i) => CompleteConserves(l, i, x);
  }

  function Allocated(steps: seq<Step>, x: Request): nat {
    if |steps| == 0 then 0 else Enters(steps[0], x) + Allocated(steps[1..], x)
  }

  ghost function Retired(l: Ledger, steps: seq<Step>, l': Ledger, x: Request): nat
    requires Runs(l, steps, l')
    decreases |steps|
  {
    if |steps| == 0 then 0 else Leaves(l, steps[0], x) + Retired(Next(l, steps[0]), steps[1..], l', x)
  }

  lemma {:induction false} RunConserves(l: Ledger, steps: seq<Step>, l': Ledger, x: Request)
    requires Inv(l) && Runs(l, steps, l')
    ensures Count(l'.entries, x) + Retired(l, steps, l', x) == Count(l.entries, x) + Allocated(steps, x)
    decreases |steps|
  {
    hide Inv, Next, Enabled, Count, Enters, Leaves;
    if |steps| == 0 {
    } else {
      StepInv(l, steps[0]);
      StepConserves(l, steps[0], x);
      RunConserves(Next(l, steps[0]), steps[1..], l', x);
    }
  }

  lemma NothingInitially(cfg: FsConfig, cioreqMax: nat, x: Request)
    ensures Inv(Initial(cfg, cioreqMax)) && Count(Initial(cfg, cioreqMax).entries, x) == 0
  {}

  /** In every run each request is in the ledger exactly as often as it was allocated and not yet freed
      or completed, and none is in an entry that is gone. */
  lemma {:induction false} RequestsAccounted(cfg: FsConfig, cioreqMax: nat, steps: seq<Step>, l: Ledger, x: Request)
    requires Runs(Initial(cfg, cioreqMax), steps, l)
    ensures Count(l.entries, x) + Retired(Initial(cfg, cioreqMax), steps, l, x) == Allocated(steps, x)
    ensures forall i :: 0 <= i < |l.entries| && l.entries[i].place.Gone? ==> l.entries[i].reqs == []
  {
    hide Runs, CanAdd, Count, Retired, Allocated, Held;
    NothingInitially(cfg, cioreqMax, x);
    RunConserves(Initial(cfg, cioreqMax), steps, l, x);
    ReachableInv(cfg, cioreqMax, steps, l);
    forall i | 0 <= i < |l.entries| && l.entries[i].place.Gone? ensures l.entries[i].reqs == [] {
      assert Sound(l.cfg, l.entries, i);
    }
  }

  // ----- a slot is taken when there is one -----

  /** A request allocated for a run of its own holds a reservation exactly if a slot was free; only one
      backed by the reserve pool is allocated otherwise. */
  lemma AllocationReserves(l: Ledger, t: nat, r: Request, fPoolReserved: bool)
    requires Enabled(l, AllocReserve(t, r, fPoolReserved))
    ensures var m := Next(l, AllocReserve(t, r, fPoolReserved));
            && |m.entries| == |l.entries| + 1 && m.entries[|l.entries|].place == Loose(t)
            && (Holds(m.entries[|l.entries|].reqs) <==> l.cFree > 0)
            && (Holds(m.entries[|l.entries|].reqs) ==> m.cFree == l.cFree - 1)
            && (!fPoolReserved ==> Holds(m.entries[|l.entries|].reqs))
  {}

  /** So does one that reserves later, because it was not combined after all. */
  lemma LaterReserves(l: Ledger, i: nat, fPoolReserved: bool)
    requires Enabled(l, ReserveLater(i, fPoolReserved))
    ensures var m := Next(l, ReserveLater(i, fPoolReserved));
            && (Holds(m.entries[i].reqs) <==> l.cFree > 0) && !m.entries[i].reqs[0].fCanCombineIO
            && (Holds(m.entries[i].reqs) ==> m.cFree == l.cFree - 1)
            && (!fPoolReserved ==> Holds(m.entries[i].reqs))
  {}

  /** A request backed by the reserve pool never waits for a slot; any other waits until one is free. */
  lemma WaitsForSlotIff(l: Ledger, t: nat, r: Request, fPoolReserved: bool)
    requires !r.fHasHeapReservation && !r.fCanCombineIO
    ensures !Enabled(l, AllocReserve(t, r, fPoolReserved)) <==> !fPoolReserved && l.cFree <= 0
  {}

  // ----- re-queueing -----

  ghost predicate ComesOut(l: Ledger, i: nat, reqs: seq<Request>) {
    Enabled(l, Extract(i)) && At(Next(l, Extract(i)), i, Flight) && Next(l, Extract(i)).entries[i].reqs == reqs
  }

  /** The run is in the given place of the ledger with the given requests. */
  predicate Stands(l: Ledger, i: nat, place: Place, reqs: seq<Request>) {
    At(l, i, place) && l.entries[i].reqs == reqs
  }

  /** A run whose issue failed for a moment is queued again with its requests. */
  lemma RequeueKeeps(l: Ledger, i: nat)
    requires At(l, i, Flight)
    ensures Enabled(l, Requeue(i)) && Stands(Next(l, Requeue(i)), i, Transit, l.entries[i].reqs)
  {}

  /** From there it can go to the list of preferred runs, and comes out for issue as it was. */
  lemma VipComesOut(l: Ledger, i: nat)
    requires At(l, i, Transit)
    ensures Enabled(l, InsertVip(i)) && Enabled(Next(l, InsertVip(i)), Extract(i))
    ensures Stands(Next(Next(l, InsertVip(i)), Extract(i)), i, Flight, l.entries[i].reqs)
  {}

  /** If its head holds a reservation, it can go to the metered queue as well. */
  lemma MeteredComesOut(l: Ledger, i: nat)
    requires At(l, i, Transit) && Holds(l.entries[i].reqs)
    ensures Enabled(l, InsertMetered(i)) && Enabled(Next(l, InsertMetered(i)), Extract(i))
    ensures Stands(Next(Next(l, InsertMetered(i)), Extract(i)), i, Flight, l.entries[i].reqs)
  {}

  lemma OneMove(l: Ledger, i: nat, e: Step, place: Place)
    requires i < |l.entries| && |l.entries[i].reqs| > 0 && Enabled(l, e) && Next(l, e) == Move(l, i, place)
    ensures Stands(Next(l, e), i, place, l.entries[i].reqs)
  {}

  /** And to the heaps. */
  lemma HeapComesOut(l: Ledger, i: nat)
    requires At(l, i, Transit) && Holds(l.entries[i].reqs)
    ensures Enabled(l, InsertHeap(i)) && Enabled(Next(l, InsertHeap(i)), ExtractHeap(i))
    ensures var c := Next(Next(l, InsertHeap(i)), ExtractHeap(i));
            Enabled(c, Dispatch(i)) && Stands(Next(c, Dispatch(i)), i, Flight, l.entries[i].reqs)
  {
    hide Accepts, CanAdd, Join, PoolNext, PieceNext, ReturnNext, Reserve, Release;
    OneMove(l, i, InsertHeap(i), Heap);
    var h := Next(l, InsertHeap(i));
    OneMove(h, i, ExtractHeap(i), Combining);
    OneMove(Next(h, ExtractHeap(i)), i, Dispatch(i), Flight);
  }

  // ----- pooling and splitting -----

  /** A request that starts a pooled run stands in the pool, where exactly the requests it can be
      combined with are allocated without a slot. */
  lemma PooledGathers(l: Ledger, i: nat, r: Request)
    requires Enabled(l, PoolNew(i)) && !r.fHasHeapReservation && r.fCanCombineIO
    ensures var m, t := Next(l, PoolNew(i)), l.entries[i].place.thread;
            && Stands(m, i, Pooled(t), l.entries[i].reqs)
            && (Enabled(m, AllocCombinable(t, r, i)) <==> CanAdd(l.cfg, l.entries[i].reqs, r))
  {
    hide CanAdd;
  }

  lemma MergedSomething(base: seq<Request>, toAdd: seq<Request>)
    requires |base| > 0 && |toAdd| > 0
    ensures |MergedRun(base, toAdd)| > 0
  {}

  /** A request for the pool joins the run of its file, or takes its place; the run then goes on to the
      queue with all its requests. */
  lemma PoolingTurnsOut(l: Ledger, i: nat, j: nat)
    requires Enabled(l, PoolAdd(i, j))
    ensures var m, t := Next(l, PoolAdd(i, j)), l.entries[i].place.thread;
            if Accepts(l.cfg, l.entries[j].reqs, l.entries[i].reqs)
            then Stands(m, j, Pooled(t), MergedRun(l.entries[j].reqs, l.entries[i].reqs))
            else Stands(m, j, Transit, l.entries[j].reqs) && Stands(m, i, Pooled(t), l.entries[i].reqs)
  {
    hide Accepts, CanAdd, MergedRun;
    MergedSomething(l.entries[j].reqs, l.entries[i].reqs);
  }

  /** A request that was found combinable joins the run of its file, without a slot of its own. */
  lemma CombinableJoins(l: Ledger, i: nat)
    requires Inv(l) && i < |l.entries| && l.entries[i].place.Aiming?
    requires NoOtherAim(l, l.entries[i].place.thread, i)
    ensures var t, j := l.entries[i].place.thread, l.entries[i].place.run;
            && Enabled(l, PoolAdd(i, j)) && |l.entries[i].reqs| == 1
            && var m := Next(l, PoolAdd(i, j));
               Stands(m, j, Pooled(t), MergedRun(l.entries[j].reqs, l.entries[i].reqs)) && m.cFree == l.cFree
  {
    hide Accepts, CanAdd, MergedRun, Held, AllDistinct;
    assert Sound(l.cfg, l.entries, i);
    AimStands(l, i, l.entries[i].place.run);
    PoolingTurnsOut(l, i, l.entries[i].place.run);
  }

  /** A run taken from the heap takes along the next one there, and a metered run one that is inserted,
      if the two can be merged. */
  lemma QueuedRunsMerge(l: Ledger, i: nat, j: nat)
    requires i < |l.entries| && j < |l.entries| && |l.entries[i].reqs| > 0 && |l.entries[j].reqs| > 0
    requires Accepts(l.cfg, l.entries[j].reqs, l.entries[i].reqs)
    ensures var reqs := MergedRun(l.entries[j].reqs, l.entries[i].reqs);
            && (At(l, i, Heap) && At(l, j, Combining) ==>
                  Enabled(l, Combine(i, j)) && Stands(Next(l, Combine(i, j)), j, Combining, reqs))
            && (At(l, i, Transit) && Holds(l.entries[i].reqs) && At(l, j, Metered) ==>
                  Enabled(l, MergeMetered(i, j)) && Stands(Next(l, MergeMetered(i, j)), j, Metered, reqs))
  {
    hide Accepts, CanAdd, MergedRun;
    MergedSomething(l.entries[j].reqs, l.entries[i].reqs);
  }

  /** A pooled run that is given up, and a request that is not for the pool, go on to the queue. */
  lemma GoesToQueue(l: Ledger, i: nat)
    ensures Enabled(l, GoDirect(i)) ==> Stands(Next(l, GoDirect(i)), i, Transit, l.entries[i].reqs)
    ensures Enabled(l, PoolEvict(i)) && |l.entries[i].reqs| > 0 ==>
              Stands(Next(l, PoolEvict(i)), i, Transit, l.entries[i].reqs)
  {
    hide CanAdd, Accepts;
  }

  /** A chain is split into its first request and the rest. Issued, the piece is to be completed and the
      rest to be issued; put back, the chain is one run again, its first request the piece. */
  lemma SplitTurnsOut(l: Ledger, i: nat)
    requires Inv(l) && At(l, i, Flight) && |l.entries[i].reqs| > 1
    ensures var m, n := Next(l, SplitPiece(i)), |l.entries|;
            && HasPiece(m, i) && m.entries[i].place.piece == n && |m.entries[n].reqs| == 1
            && m.entries[n].reqs[0].id == l.entries[i].reqs[0].id && |m.entries[i].reqs| == |l.entries[i].reqs| - 1
            && Stands(Next(m, SplitIssued(i)), n, Completing, m.entries[n].reqs)
            && Stands(Next(m, SplitIssued(i)), i, Flight, m.entries[i].reqs)
            && Stands(Next(m, SplitReturned(i)), i, Flight, l.entries[i].reqs)
  {
    hide CanAdd, Accepts, Held, AllDistinct;
    FlightReady(l, i);
    SplitRoundTrip(l.entries[i].reqs);
  }

  // ----- every slot can come back -----

  ghost predicate IsOwned(entries: seq<Entry>, i: int) {
    exists k :: 0 <= k < |entries| && entries[k].place.Splitting? && entries[k].place.piece == i
  }

  /** Every piece is named by a chain being split. */
  ghost predicate PiecesOwned(entries: seq<Entry>) {
    forall i :: 0 <= i < |entries| && entries[i].place.Issuing? ==> IsOwned(entries, i)
  }

  lemma OwnedPut(entries: seq<Entry>, i: int, e: Entry)
    requires PiecesOwned(entries) && 0 <= i < |entries| && !entries[i].place.Splitting? && !e.place.Issuing?
    ensures PiecesOwned(entries[i := e])
  {
    var es := entries[i := e];
    forall g | 0 <= g < |es| && es[g].place.Issuing? ensures IsOwned(es, g) {
      assert IsOwned(entries, g);
      var k :| 0 <= k < |entries| && entries[k].place.Splitting? && entries[k].place.piece == g;
      assert es[k].place.Splitting? && es[k].place.piece == g;
    }
  }

  lemma OwnedAppend(entries: seq<Entry>, e: Entry)
    requires PiecesOwned(entries) && !e.place.Issuing?
    ensures PiecesOwned(entries + [e])
  {
    var es := entries + [e];
    forall g | 0 <= g < |es| && es[g].place.Issuing? ensures IsOwned(es, g) {
      assert IsOwned(entries, g);
      var k :| 0 <= k < |entries| && entries[k].place.Splitting? && entries[k].place.piece == g;
      assert es[k].place.Splitting? && es[k].place.piece == g;
    }
  }

  lemma OwnedSplit(l: Ledger, i: nat)
    requires PiecesOwned(l.entries) && At(l, i, Flight)
    ensures PiecesOwned(PieceNext(l, i).entries)
  {
    hide SplitPop;
    var es := PieceNext(l, i).entries;
    forall g | 0 <= g < |es| && es[g].place.Issuing? ensures IsOwned(es, g) {
      if g == |l.entries| {
        assert es[i].place.Splitting? && es[i].place.piece == g;
      } else {
        assert IsOwned(l.entries, g);
        var k :| 0 <= k < |l.entries| && l.entries[k].place.Splitting? && l.entries[k].place.piece == g;
        assert es[k].place.Splitting? && es[k].place.piece == g;
      }
    }
  }

  /** When a piece is settled, the others keep their chains. */
  lemma OwnedSettled(entries: seq<Entry>, i: nat, c: Entry, e: Entry)
    requires PiecesOwned(entries) && i < |entries| && entries[i].place.Splitting?
    requires entries[i].place.piece < |entries| && entries[i].place.piece != i
    requires entries[entries[i].place.piece].place.Issuing? && !c.place.Issuing? && !e.place.Issuing?
    ensures PiecesOwned(entries[i := c][entries[i].place.piece := e])
  {
    var p := entries[i].place.piece;
    var es := entries[i := c][p := e];
    forall g | 0 <= g < |es| && es[g].place.Issuing? ensures IsOwned(es, g) {
      assert IsOwned(entries, g);
      var k :| 0 <= k < |entries| && entries[k].place.Splitting? && entries[k].place.piece == g;
      assert es[k].place.Splitting? && es[k].place.piece == g;
    }
  }

  lemma JoinOwned(l: Ledger, i: nat, j: nat)
    requires PiecesOwned(l.entries) && i < |l.entries| && j < |l.entries| && i != j
    requires |l.entries[i].reqs| > 0 && |l.entries[j].reqs| > 0
    requires !l.entries[i].place.Splitting? && !l.entries[j].place.Splitting? && !l.entries[j].place.Issuing?
    ensures PiecesOwned(Join(l, i, j).entries)
  {
    hide PiecesOwned, MergedRun;
    var g := Entry(Gone, []);
    OwnedPut(l.entries, i, g);
    OwnedPut(l.entries[i := g], j, l.entries[j].(reqs := MergedRun(l.entries[j].reqs, l.entries[i].reqs)));
  }

  lemma MoveOwned(l: Ledger, i: nat, place: Place)
    requires PiecesOwned(l.entries) && i < |l.entries| && !l.entries[i].place.Splitting? && !place.Issuing?
    ensures PiecesOwned(Move(l, i, place).entries)
  {
    hide PiecesOwned;
    OwnedPut(l.entries, i, l.entries[i].(place := place));
  }

  lemma SplitOwned(l: Ledger, e: Step)
    requires Inv(l) && PiecesOwned(l.entries) && Enabled(l, e) && (e.SplitIssued? || e.SplitReturned?)
    ensures PiecesOwned(Next(l, e).entries)
  {
    hide Inv, PiecesOwned, SplitBack;
    var i, k := e.i, l.entries[e.i].place.piece;
    PieceIsOwn(l, i);
    if e.SplitIssued? {
      OwnedSettled(l.entries, i, l.entries[i].(place := Flight), l.entries[k].(place := Completing));
    } else {
      OwnedSettled(l.entries, i, Entry(Flight, SplitBack(l.entries[k].reqs[0], l.entries[i].reqs)), Entry(Gone, []));
    }
  }

  lemma PoolOwned(l: Ledger, i: nat, j: nat)
    requires PiecesOwned(l.entries) && Enabled(l, PoolAdd(i, j))
    ensures PiecesOwned(PoolNext(l, i, j).entries)
  {
    hide PiecesOwned, Accepts, MergedRun;
    if Accepts(l.cfg, l.entries[j].reqs, l.entries[i].reqs) {
      JoinOwned(l, i, j);
    } else {
      MoveOwned(l, j, Transit);
      MoveOwned(Move(l, j, Transit), i, Pooled(l.entries[i].place.thread));
    }
  }

  lemma StepOwned(l: Ledger, e: Step)
    requires Inv(l) && PiecesOwned(l.entries) && Enabled(l, e)
    ensures PiecesOwned(Next(l, e).entries)
  {
    hide Inv, Accepts, CanAdd, MergedRun, SplitPop, PiecesOwned;
    match e
    case AllocCombinable(t, r, j) => OwnedAppend(l.entries, Entry(Aiming(t, j), [r]));
    case AllocReserve(t, r, _) => OwnedAppend(l.entries, Entry(Loose(t), [Reserve(l, r).1]));
    case ReserveLater(i, _) =>
      var q := Reserve(l, l.entries[i].reqs[0]).1.(fCanCombineIO := false);
      OwnedPut(l.entries, i, Entry(Loose(l.entries[i].place.thread), [q]));
    case FreeUnused(i) => OwnedPut(l.entries, i, Entry(Gone, []));
    case PoolNew(i) => MoveOwned(l, i, Pooled(l.entries[i].place.thread));
    case PoolAdd(i, j) => PoolOwned(l, i, j);
    case PoolEvict(j) => MoveOwned(l, j, Transit);
    case GoDirect(i) => MoveOwned(l, i, Transit);
    case InsertHeap(i) => MoveOwned(l, i, Heap);
    case InsertMetered(i) => MoveOwned(l, i, Metered);
    case MergeMetered(i, j) => JoinOwned(l, i, j);
    case InsertVip(i) => MoveOwned(l, i, Vip);
    case ExtractHeap(i) => MoveOwned(l, i, Combining);
    case Combine(i, j) => JoinOwned(l, i, j);
    case Dispatch(i) => MoveOwned(l, i, Flight);
    case Extract(i) => MoveOwned(l, i, Flight);
    case SplitPiece(i) => OwnedSplit(l, i);
    case SplitIssued(_) => SplitOwned(l, e);
    case SplitReturned(_) => SplitOwned(l, e);
    case Requeue(i) => MoveOwned(l, i, Transit);
    case Complete(i) => OwnedPut(l.entries, i, Entry(Completing, l.entries[i].reqs[1..]));
  }

  lemma {:induction false} RunOwned(l: Ledger, steps: seq<Step>, l': Ledger)
    requires Inv(l) && PiecesOwned(l.entries) && Runs(l, steps, l')
    ensures PiecesOwned(l'.entries)
    decreases |steps|
  {
    hide Inv, Next, Enabled, PiecesOwned;
    if |steps| == 0 {
    } else {
      StepInv(l, steps[0]);
      StepOwned(l, steps[0]);
      RunOwned(Next(l, steps[0]), steps[1..], l');
    }
  }

  /** How many steps an entry is at most from being gone. */
  function Distance(e: Entry): nat {
    if e.place.Splitting? then |e.reqs| + 2
    else if |e.reqs| == 0 then 0
    else
      match e.place
      case Loose(_) | Aiming(_, _) => 1
      case Pooled(_) => |e.reqs| + 4
      case Transit | Heap => |e.reqs| + 3
      case Metered | Vip | Combining => |e.reqs| + 2
      case Flight | Issuing => |e.reqs| + 1
      case _ => |e.reqs|
  }

  function Total(entries: seq<Entry>): nat {
    if |entries| == 0 then 0 else Total(entries[..|entries| - 1]) + Distance(entries[|entries| - 1])
  }

  lemma {:induction false} TotalUpdate(entries: seq<Entry>, i: int, e: Entry)
    requires 0 <= i < |entries|
    ensures Total(entries[i := e]) == Total(entries) - Distance(entries[i]) + Distance(e)
  {
    hide Distance;
    var n := |entries| - 1;
    if i < n {
      TotalUpdate(entries[..n], i, e);
      assert entries[i := e][..n] == entries[..n][i := e];
    } else {
      assert entries[i := e][..n] == entries[..n];
    }
  }

  lemma {:induction false} Somewhere(entries: seq<Entry>) returns (i: nat)
    requires Total(entries) > 0
    ensures i < |entries| && Distance(entries[i]) > 0
  {
    hide Distance;
    var n := |entries| - 1;
    if Distance(entries[n]) > 0 {
      i := n;
    } else {
      i := Somewhere(entries[..n]);
    }
  }

  /** A step that allocates nothing. */
  predicate Drains(e: Step) {
    !e.AllocCombinable? && !e.AllocReserve?
  }

  predicate AllDrain(steps: seq<Step>) {
    forall i :: 0 <= i < |steps| ==> Drains(steps[i])
  }

  /** A step of an entry alone towards being gone. */
  function Onward(place: Place, i: nat): Step {
    match place
    case Pooled(_) => PoolEvict(i)
    case Transit => InsertVip(i)
    case Heap => ExtractHeap(i)
    case Combining => Dispatch(i)
    case Metered | Vip => Extract(i)
    case _ => Complete(i)
  }

  lemma OnwardCloser(l: Ledger, i: nat)
    requires i < |l.entries| && |l.entries[i].reqs| > 0
    requires !InHand(l, i) && !l.entries[i].place.Splitting? && !l.entries[i].place.Issuing?
    requires !l.entries[i].place.Gone? && (l.entries[i].place.Pooled? ==> NoOtherAim(l, l.entries[i].place.thread, -1))
    ensures var e := Onward(l.entries[i].place, i);
            Enabled(l, e) && Drains(e) && Total(Next(l, e).entries) < Total(l.entries)
  {
    hide Total;
    var e := Onward(l.entries[i].place, i);
    TotalUpdate(l.entries, i, Next(l, e).entries[i]);
  }

  lemma FreeCloser(l: Ledger, i: nat)
    requires InHand(l, i)
    ensures Enabled(l, FreeUnused(i)) && Total(Next(l, FreeUnused(i)).entries) < Total(l.entries)
  {
    hide Total;
    TotalUpdate(l.entries, i, Entry(Gone, []));
  }

  lemma IssueCloser(l: Ledger, i: nat)
    requires Inv(l) && i < |l.entries| && l.entries[i].place.Splitting?
    ensures Enabled(l, SplitIssued(i)) && Total(Next(l, SplitIssued(i)).entries) < Total(l.entries)
  {
    hide Total, Inv;
    PieceThere(l, i);
    PieceIsOwn(l, i);
    var k := l.entries[i].place.piece;
    var c := l.entries[i].(place := Flight);
    TotalUpdate(l.entries, i, c);
    TotalUpdate(l.entries[i := c], k, l.entries[k].(place := Completing));
  }

  lemma HandHasRequest(l: Ledger, i: nat)
    requires Inv(l) && i < |l.entries| && (l.entries[i].place.Aiming? || l.entries[i].place.Loose?)
    ensures InHand(l, i)
  {
    hide CanAdd;
    assert Sound(l.cfg, l.entries, i);
  }

  lemma NotIssuing(l: Ledger, i: nat)
    requires PiecesOwned(l.entries) && i < |l.entries|
    requires forall k :: 0 <= k < |l.entries| ==> !l.entries[k].place.Splitting?
    ensures !l.entries[i].place.Issuing?
  {
    assert l.entries[i].place.Issuing? ==> IsOwned(l.entries, i);
  }

  lemma GoneIsEmpty(l: Ledger, i: nat)
    requires Inv(l) && i < |l.entries| && Distance(l.entries[i]) > 0
    ensures !l.entries[i].place.Gone?
  {
    assert Sound(l.cfg, l.entries, i);
  }

  /** As long as there is a request, some step brings one closer to being gone. */
  lemma Closer(l: Ledger) returns (e: Step)
    requires Inv(l) && PiecesOwned(l.entries) && Total(l.entries) > 0
    ensures Enabled(l, e) && Drains(e) && Total(Next(l, e).entries) < Total(l.entries)
  {
    hide Inv, Total, CanAdd;
    if i: nat :| i < |l.entries| && (l.entries[i].place.Aiming? || l.entries[i].place.Loose?) {
      HandHasRequest(l, i);
      FreeCloser(l, i);
      e := FreeUnused(i);
    } else if i: nat :| i < |l.entries| && l.entries[i].place.Splitting? {
      IssueCloser(l, i);
      e := SplitIssued(i);
    } else {
      var i := Somewhere(l.entries);
      NotIssuing(l, i);
      assert !l.entries[i].place.Gone? by { GoneIsEmpty(l, i); }
      OnwardCloser(l, i);
      e := Onward(l.entries[i].place, i);
    }
  }

  lemma {:induction false} DrainFrom(l: Ledger) returns (steps: seq<Step>, l': Ledger)
    requires Inv(l) && PiecesOwned(l.entries)
    ensures Runs(l, steps, l') && AllDrain(steps) && Inv(l') && l'.cioreqMax == l.cioreqMax && Total(l'.entries) == 0
    decreases Total(l.entries)
  {
    hide Inv, Total, Enabled, Next, PiecesOwned;
    if Total(l.entries) == 0 {
      steps, l' := [], l;
    } else {
      var e := Closer(l);
      StepInv(l, e);
      StepOwned(l, e);
      StepKeepsMax(l, e);
      var rest;
      rest, l' := DrainFrom(Next(l, e));
      steps := [e] + rest;
      assert steps[1..] == rest;
    }
  }

  lemma {:induction false} NothingLeft(entries: seq<Entry>)
    requires Total(entries) == 0
    ensures Held(entries) == 0 && forall i :: 0 <= i < |entries| ==> entries[i].reqs == []
  {
    var n := |entries| - 1;
    if n < 0 {
    } else {
      NothingLeft(entries[..n]);
      forall i | 0 <= i < |entries| ensures entries[i].reqs == [] {
        assert i < n ==> entries[..n][i] == entries[i];
      }
    }
  }

  lemma EmptyInv(cfg: FsConfig, cioreqMax: nat)
    ensures Inv(Initial(cfg, cioreqMax))
  {}

  lemma InitiallyOwned(cfg: FsConfig, cioreqMax: nat)
    ensures PiecesOwned(Initial(cfg, cioreqMax).entries)
  {}

  lemma BalancedNow(l: Ledger)
    requires Inv(l)
    ensures l.cFree + Held(l.entries) == l.cioreqMax
  {}

  /** From every state of every run, without another allocation, all requests can be freed or completed;
      then no request is left and every slot is free. */
  lemma AllSlotsComeBack(cfg: FsConfig, cioreqMax: nat, steps: seq<Step>, l: Ledger)
    returns (more: seq<Step>, l': Ledger)
    requires Runs(Initial(cfg, cioreqMax), steps, l)
    ensures Runs(l, more, l') && AllDrain(more)
    ensures l'.cFree == cioreqMax && forall i :: 0 <= i < |l'.entries| ==> l'.entries[i].reqs == []
  {
    hide Runs, Inv, Total, Held, PiecesOwned;
    EmptyInv(cfg, cioreqMax);
    InitiallyOwned(cfg, cioreqMax);
    ReachableInv(cfg, cioreqMax, steps, l);
    RunOwned(Initial(cfg, cioreqMax), steps, l);
    more, l' := DrainFrom(l);
    NothingLeft(l'.entries);
    assert l'.cFree + Held(l'.entries) == l'.cioreqMax by { BalancedNow(l'); }
  }
}
