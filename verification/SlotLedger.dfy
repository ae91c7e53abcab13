/**
  The slot ledger of the disk queue (lib/cpp/ms/osdisk.cxx). The queue has a fixed number of
  slots, counted by a semaphore. A request reserves one before it may start a run; the
  reservation moves to whichever request heads the run, through pooling, merging, splitting and
  re-queueing, and is given back when its holder completes.
*/
module SlotLedger {
  import opened IoRun

  /** Where a run of requests is.
      Loose: a single request in the hands of the thread that allocated it. Aiming: the same, found
      combinable with a run of that thread's pool. Pooled: in a thread's combining pool. Transit: on
      its way into the queue. Heap, Metered, Vip: queued. Combining: taken from the heap, more of it
      may be added. Flight: dequeued, being issued. Splitting: the rest of a chain whose first piece
      is being issued by itself. Issuing: that piece. Completing: issued, to be completed. */
  datatype Place =
    | Loose(thread: nat)
    | Aiming(thread: nat, run: nat)
    | Pooled(thread: nat)
    | Transit
    | Heap
    | Metered
    | Vip
    | Combining
    | Flight
    | Splitting(piece: nat)
    | Issuing
    | Completing
    | Gone

  datatype Entry = Entry(place: Place, reqs: seq<Request>)

  datatype Ledger = Ledger(cfg: FsConfig, cioreqMax: nat, cFree: int, entries: seq<Entry>)

  datatype Step =
    | AllocCombinable(t: nat, r: Request, j: nat)
    | AllocReserve(t: nat, r: Request, fPoolReserved: bool)
    | ReserveLater(i: nat, fPoolReserved: bool)
    | FreeUnused(i: nat)
    | PoolNew(i: nat)
    | PoolAdd(i: nat, j: nat)
    | PoolEvict(j: nat)
    | GoDirect(i: nat)
    | InsertHeap(i: nat)
    | InsertMetered(i: nat)
    | MergeMetered(i: nat, j: nat)
    | InsertVip(i: nat)
    | ExtractHeap(i: nat)
    | Combine(i: nat, j: nat)
    | Dispatch(i: nat)
    | Extract(i: nat)
    | SplitPiece(i: nat)
    | SplitIssued(i: nat)
    | SplitReturned(i: nat)
    | Requeue(i: nat)
    | Complete(i: nat)

  predicate At(l: Ledger, i: nat, place: Place) {
    i < |l.entries| && l.entries[i].place == place && |l.entries[i].reqs| > 0
  }

  /** A request in the hands of a thread. */
  predicate InHand(l: Ledger, i: nat) {
    i < |l.entries| && (l.entries[i].place.Loose? || l.entries[i].place.Aiming?) && |l.entries[i].reqs| > 0
  }

  predicate Holds(reqs: seq<Request>) {
    |reqs| > 0 && reqs[0].fHasHeapReservation
  }

  /** Every request has a reservation, or came without one because it could be combined. */
  predicate Flagged(reqs: seq<Request>) {
    forall i :: 0 <= i < |reqs| ==> reqs[i].fHasHeapReservation || reqs[i].fCanCombineIO
  }

  predicate Ready(reqs: seq<Request>) {
    Holds(reqs) && Flagged(reqs)
  }

  /** A reservation is taken if a slot is free; if none is, a request backed by the reserve pool
      goes without and any other waits. */
  predicate CanReserve(l: Ledger, fPoolReserved: bool) {
    l.cFree > 0 || fPoolReserved
  }

  /** A thread works on one combinable request at a time: none but entry i aims at its pool. */
  ghost predicate NoOtherAim(l: Ledger, t: nat, i: int) {
    forall k :: 0 <= k < |l.entries| && l.entries[k].place.Aiming? && l.entries[k].place.thread == t ==> k == i
  }

  /** The request goes to the pool rather than straight to the queue. */
  predicate ForPool(r: Request) {
    r.fHasHeapReservation || r.fCanCombineIO
  }

  /** Chain i is being split: the piece it names is there. */
  predicate HasPiece(l: Ledger, i: nat) {
    && i < |l.entries| && l.entries[i].place.Splitting?
    && l.entries[i].place.piece < |l.entries| && l.entries[i].place.piece != i
    && |l.entries[l.entries[i].place.piece].reqs| > 0
  }

  ghost predicate Enabled(l: Ledger, e: Step) {
    match e
    case AllocCombinable(t, r, j) =>
      && !r.fHasHeapReservation && r.fCanCombineIO
      && At(l, j, Pooled(t)) && CanAdd(l.cfg, l.entries[j].reqs, r)
    case AllocReserve(t, r, fPoolReserved) =>
      !r.fHasHeapReservation && !r.fCanCombineIO && CanReserve(l, fPoolReserved)
    case ReserveLater(i, fPoolReserved) => InHand(l, i) && !Holds(l.entries[i].reqs) && CanReserve(l, fPoolReserved)
    case FreeUnused(i) => InHand(l, i)
    case PoolNew(i) =>
      && InHand(l, i) && ForPool(l.entries[i].reqs[0])
      && forall k :: 0 <= k < |l.entries| && At(l, k, Pooled(l.entries[i].place.thread)) ==>
           l.entries[k].reqs[0].file != l.entries[i].reqs[0].file
    case PoolAdd(i, j) =>
      && InHand(l, i) && ForPool(l.entries[i].reqs[0]) && At(l, j, Pooled(l.entries[i].place.thread))
      && l.entries[j].reqs[0].file == l.entries[i].reqs[0].file
      && NoOtherAim(l, l.entries[i].place.thread, i)
    case PoolEvict(j) =>
      j < |l.entries| && l.entries[j].place.Pooled? && NoOtherAim(l, l.entries[j].place.thread, -1)
    case GoDirect(i) => InHand(l, i) && !ForPool(l.entries[i].reqs[0])
    case InsertHeap(i) => At(l, i, Transit) && Holds(l.entries[i].reqs)
    case InsertMetered(i) => At(l, i, Transit) && Holds(l.entries[i].reqs)
    case MergeMetered(i, j) =>
      && At(l, i, Transit) && Holds(l.entries[i].reqs)
      && At(l, j, Metered) && Accepts(l.cfg, l.entries[j].reqs, l.entries[i].reqs)
    case InsertVip(i) => At(l, i, Transit)
    case ExtractHeap(i) => At(l, i, Heap)
    case Combine(i, j) =>
      At(l, i, Heap) && At(l, j, Combining) && Accepts(l.cfg, l.entries[j].reqs, l.entries[i].reqs)
    case Dispatch(i) => At(l, i, Combining)
    case Extract(i) => At(l, i, Metered) || At(l, i, Vip)
    case SplitPiece(i) => At(l, i, Flight)
    case SplitIssued(i) => HasPiece(l, i)
    case SplitReturned(i) => HasPiece(l, i)
    case Requeue(i) => At(l, i, Flight)
    case Complete(i) => At(l, i, Flight) || At(l, i, Completing)
  }

  function Reserve(l: Ledger, r: Request): (Ledger, Request) {
    if l.cFree > 0 then (l.(cFree := l.cFree - 1), r.(fHasHeapReservation := true))
    else (l, r.(fHasHeapReservation := false))
  }

  function Put(l: Ledger, i: nat, e: Entry): Ledger
    requires i < |l.entries|
  {
    l.(entries := l.entries[i := e])
  }

  function Move(l: Ledger, i: nat, place: Place): Ledger
    requires i < |l.entries|
  {
    Put(l, i, l.entries[i].(place := place))
  }

  function Append(l: Ledger, e: Entry): Ledger {
    l.(entries := l.entries + [e])
  }

  /** The requests of entry i join those of entry j. */
  function Join(l: Ledger, i: nat, j: nat): Ledger
    requires i < |l.entries| && j < |l.entries| && |l.entries[i].reqs| > 0 && |l.entries[j].reqs| > 0
  {
    Put(Put(l, i, Entry(Gone, [])), j, l.entries[j].(reqs := MergedRun(l.entries[j].reqs, l.entries[i].reqs)))
  }

  /** The piece split off a chain, and what is left: the reservation stays with the chain. */
  function SplitPop(chain: seq<Request>): (Request, seq<Request>)
    requires |chain| > 0
  {
    var p, rest := chain[0], chain[1..];
    if |rest| > 0 && !rest[0].fHasHeapReservation
    then (p.(fHasHeapReservation := false), rest[0 := rest[0].(fHasHeapReservation := p.fHasHeapReservation)])
    else (p, rest)
  }

  /** A piece that could not be issued goes back to the front, and takes the reservation back. */
  function SplitBack(p: Request, rest: seq<Request>): seq<Request> {
    if |rest| > 0 && !p.fHasHeapReservation
    then [p.(fHasHeapReservation := true)] + rest[0 := rest[0].(fHasHeapReservation := false)]
    else [p] + rest
  }

  /** The slot of a completed request is given back. */
  function Release(l: Ledger, r: Request): Ledger {
    if r.fHasHeapReservation then l.(cFree := l.cFree + 1) else l
  }

  /** A pooled run takes the request, or gives up its place in the pool to it. */
  ghost function PoolNext(l: Ledger, i: nat, j: nat): Ledger
    requires InHand(l, i) && j < |l.entries| && |l.entries[j].reqs| > 0
  {
    if Accepts(l.cfg, l.entries[j].reqs, l.entries[i].reqs) then Join(l, i, j)
    else Move(Move(l, j, Transit), i, Pooled(l.entries[i].place.thread))
  }

  function PieceNext(l: Ledger, i: nat): Ledger
    requires i < |l.entries| && |l.entries[i].reqs| > 0
  {
    var (p, rest) := SplitPop(l.entries[i].reqs);
    Put(Append(l, Entry(Issuing, [p])), i, Entry(Splitting(|l.entries|), rest))
  }

  function ReturnNext(l: Ledger, i: nat): Ledger
    requires HasPiece(l, i)
  {
    var k := l.entries[i].place.piece;
    Put(Put(l, i, Entry(Flight, SplitBack(l.entries[k].reqs[0], l.entries[i].reqs))), k, Entry(Gone, []))
  }

  ghost function Next(l: Ledger, e: Step): Ledger
    requires Enabled(l, e)
  {
    match e
    case AllocCombinable(t, r, j) => Append(l, Entry(Aiming(t, j), [r]))
    case AllocReserve(t, r, _) =>
      var (m, q) := Reserve(l, r); Append(m, Entry(Loose(t), [q]))
    case ReserveLater(i, _) =>
      var (m, q) := Reserve(l, l.entries[i].reqs[0]);
      Put(m, i, Entry(Loose(l.entries[i].place.thread), [q.(fCanCombineIO := false)]))
    case FreeUnused(i) =>
      var r := l.entries[i].reqs[0];
      Put(if r.fCanCombineIO then l else Release(l, r), i, Entry(Gone, []))
    case PoolNew(i) => Move(l, i, Pooled(l.entries[i].place.thread))
    case PoolAdd(i, j) => PoolNext(l, i, j)
    case PoolEvict(j) => Move(l, j, Transit)
    case GoDirect(i) => Move(l, i, Transit)
    case InsertHeap(i) => Move(l, i, Heap)
    case InsertMetered(i) => Move(l, i, Metered)
    case MergeMetered(i, j) => Join(l, i, j)
    case InsertVip(i) => Move(l, i, Vip)
    case ExtractHeap(i) => Move(l, i, Combining)
    case Combine(i, j) => Join(l, i, j)
    case Dispatch(i) => Move(l, i, Flight)
    case Extract(i) => Move(l, i, Flight)
    case SplitPiece(i) => PieceNext(l, i)
    case SplitIssued(i) => Move(Move(l, i, Flight), l.entries[i].place.piece, Completing)
    case SplitReturned(i) => ReturnNext(l, i)
    case Requeue(i) => Move(l, i, Transit)
    case Complete(i) =>
      Put(Release(l, l.entries[i].reqs[0]), i, Entry(Completing, l.entries[i].reqs[1..]))
  }

  // ----- the invariant -----

  function Held(entries: seq<Entry>): nat {
    if |entries| == 0 then 0 else Held(entries[..|entries| - 1]) + Reserved(entries[|entries| - 1].reqs)
  }

  /** Free slots and reservations held always make up all the slots. */
  predicate Balanced(l: Ledger) {
    0 <= l.cFree && l.cFree + Held(l.entries) == l.cioreqMax
  }

  /** The rest of a chain can take its piece back: if the piece handed the reservation over, the rest's
      head was one that came without. */
  predicate Rejoins(p: Request, rest: seq<Request>) {
    Ready(rest) && (p.fHasHeapReservation || rest[0].fCanCombineIO)
  }

  /** What holds of an entry by its place. The head of a pooled, queued or combining run holds a
      reservation; so does that of any run of several requests, and of what is left of a chain. */
  ghost predicate Sound(cfg: FsConfig, entries: seq<Entry>, i: int)
    requires 0 <= i < |entries|
  {
    var reqs := entries[i].reqs;
    match entries[i].place
    case Loose(_) => |reqs| == 1 && !reqs[0].fCanCombineIO
    case Aiming(t, j) =>
      && |reqs| == 1 && !reqs[0].fHasHeapReservation && reqs[0].fCanCombineIO
      && j < |entries| && entries[j].place == Pooled(t) && |entries[j].reqs| > 0
      && CanAdd(cfg, entries[j].reqs, reqs[0])
    case Pooled(_) => Ready(reqs)
    case Heap => Ready(reqs)
    case Metered => Ready(reqs)
    case Combining => Ready(reqs)
    case Transit => |reqs| > 1 ==> Ready(reqs)
    case Vip => |reqs| > 1 ==> Ready(reqs)
    case Flight => |reqs| > 1 ==> Ready(reqs)
    case Splitting(k) =>
      && k < |entries| && k != i && entries[k].place.Issuing? && |entries[k].reqs| == 1
      && (|reqs| > 0 ==> Rejoins(entries[k].reqs[0], reqs))
    case Issuing => |reqs| == 1
    case Completing => true
    case Gone => reqs == []
  }

  ghost predicate AllSound(cfg: FsConfig, entries: seq<Entry>) {
    forall i :: 0 <= i < |entries| ==> Sound(cfg, entries, i)
  }

  /** Two entries a thread's pool, or two chains, may not both have: one run per file, one piece
      per chain. */
  ghost predicate Distinct(a: Entry, b: Entry) {
    && (a.place.Pooled? && a.place == b.place && |a.reqs| > 0 && |b.reqs| > 0 ==> a.reqs[0].file != b.reqs[0].file)
    && (a.place.Splitting? ==> a.place != b.place)
  }

  ghost predicate AllDistinct(entries: seq<Entry>) {
    forall i, j :: 0 <= i < |entries| && 0 <= j < |entries| && i != j ==> Distinct(entries[i], entries[j])
  }

  ghost predicate Inv(l: Ledger) {
    Balanced(l) && AllSound(l.cfg, l.entries) && AllDistinct(l.entries)
  }

  lemma PieceThere(l: Ledger, i: nat)
    requires Inv(l) && i < |l.entries| && l.entries[i].place.Splitting?
    ensures HasPiece(l, i)
  {
    assert Sound(l.cfg, l.entries, i);
  }

  // ----- changing one entry -----

  lemma {:induction false} HeldUpdate(entries: seq<Entry>, i: int, e: Entry)
    requires 0 <= i < |entries|
    ensures Held(entries[i := e]) == Held(entries) - Reserved(entries[i].reqs) + Reserved(e.reqs)
  {
    var n := |entries| - 1;
    if i < n {
      HeldUpdate(entries[..n], i, e);
      assert entries[i := e][..n] == entries[..n][i := e];
    } else {
      assert entries[i := e][..n] == entries[..n];
    }
  }

  lemma HeldAppend(entries: seq<Entry>, e: Entry)
    ensures Held(entries + [e]) == Held(entries) + Reserved(e.reqs)
  {
    assert (entries + [e])[..|entries|] == entries;
  }

  lemma ReservedCons(r: Request, rest: seq<Request>)
    ensures Reserved([r] + rest) == (if r.fHasHeapReservation then 1 else 0) + Reserved(rest)
  {
    assert ([r] + rest)[1..] == rest;
  }

  lemma ReservedHead(run: seq<Request>)
    requires |run| > 0
    ensures Reserved(run) == (if run[0].fHasHeapReservation then 1 else 0) + Reserved(run[1..])
  {}

  /** An entry that speaks of entry i: it aims at it, or has it as its piece. */
  predicate Names(e: Entry, i: int) {
    (e.place.Aiming? && e.place.run == i) || (e.place.Splitting? && e.place.piece == i)
  }

  /** No other entry speaks of entry i. */
  ghost predicate Unnamed(entries: seq<Entry>, i: int) {
    forall k :: 0 <= k < |entries| && k != i ==> !Names(entries[k], i)
  }

  /** Only a pooled run and a piece can be spoken of. */
  lemma MostlyUnnamed(cfg: FsConfig, entries: seq<Entry>, i: int)
    requires AllSound(cfg, entries) && 0 <= i < |entries| && !entries[i].place.Pooled? && !entries[i].place.Issuing?
    ensures Unnamed(entries, i)
  {
    hide CanAdd;
    forall k | 0 <= k < |entries| && k != i ensures !Names(entries[k], i) {
      assert Sound(cfg, entries, k);
    }
  }

  lemma PutSound(cfg: FsConfig, entries: seq<Entry>, i: int, e: Entry)
    requires AllSound(cfg, entries) && 0 <= i < |entries| && Unnamed(entries, i)
    requires Sound(cfg, entries[i := e], i)
    ensures AllSound(cfg, entries[i := e])
  {
    hide CanAdd, Holds;
    var es := entries[i := e];
    forall k | 0 <= k < |es| ensures Sound(cfg, es, k) {
      if k != i {
        assert Sound(cfg, entries, k);
      }
    }
  }

  lemma PutDistinct(entries: seq<Entry>, i: int, e: Entry)
    requires AllDistinct(entries) && 0 <= i < |entries|
    requires forall k :: 0 <= k < |entries| && k != i ==> Distinct(e, entries[k]) && Distinct(entries[k], e)
    ensures AllDistinct(entries[i := e])
  {
    hide Distinct;
    var es := entries[i := e];
    forall j, k | 0 <= j < |es| && 0 <= k < |es| && j != k ensures Distinct(es[j], es[k]) {
      if j != i && k != i {
        assert Distinct(entries[j], entries[k]);
      }
    }
  }

  /** An entry of a kind that is never in conflict with another. */
  lemma NoConflict(e: Entry, other: Entry)
    requires !e.place.Pooled? && !e.place.Splitting?
    ensures Distinct(e, other) && Distinct(other, e)
  {}

  lemma AppendSound(cfg: FsConfig, entries: seq<Entry>, e: Entry)
    requires AllSound(cfg, entries) && AllDistinct(entries) && Sound(cfg, entries + [e], |entries|)
    requires !e.place.Pooled? && !e.place.Splitting?
    ensures AllSound(cfg, entries + [e]) && AllDistinct(entries + [e])
  {
    hide CanAdd, Holds, Distinct;
    var es := entries + [e];
    forall k | 0 <= k < |es| ensures Sound(cfg, es, k) {
      if k < |entries| {
        assert Sound(cfg, entries, k);
      }
    }
    forall j, k | 0 <= j < |es| && 0 <= k < |es| && j != k ensures Distinct(es[j], es[k]) {
      NoConflict(e, es[j]);
      NoConflict(e, es[k]);
    }
  }

  /** Replacing an entry that nobody speaks of by one without conflicts. */
  lemma PutPlain(cfg: FsConfig, entries: seq<Entry>, i: nat, e: Entry)
    requires AllSound(cfg, entries) && AllDistinct(entries) && i < |entries| && Unnamed(entries, i)
    requires Sound(cfg, entries[i := e], i) && !e.place.Pooled? && !e.place.Splitting?
    ensures AllSound(cfg, entries[i := e]) && AllDistinct(entries[i := e])
    ensures Held(entries[i := e]) == Held(entries) - Reserved(entries[i].reqs) + Reserved(e.reqs)
  {
    hide CanAdd, Holds, Distinct, Sound, Unnamed, Reserved;
    HeldUpdate(entries, i, e);
    PutSound(cfg, entries, i, e);
    forall k | 0 <= k < |entries| && k != i ensures Distinct(e, entries[k]) && Distinct(entries[k], e) {
      NoConflict(e, entries[k]);
    }
    PutDistinct(entries, i, e);
  }

  /** The same with the reservations accounted for. */
  lemma PutInv(l: Ledger, m: Ledger, i: nat, e: Entry)
    requires AllSound(l.cfg, l.entries) && AllDistinct(l.entries) && i < |l.entries| && Unnamed(l.entries, i)
    requires Sound(l.cfg, l.entries[i := e], i) && !e.place.Pooled? && !e.place.Splitting?
    requires m.cfg == l.cfg && m.cioreqMax == l.cioreqMax && m.entries == l.entries && 0 <= m.cFree
    requires m.cFree + Held(l.entries) - Reserved(l.entries[i].reqs) + Reserved(e.reqs) == l.cioreqMax
    ensures Inv(Put(m, i, e))
  {
    hide CanAdd, Holds, Distinct, Sound, Unnamed, AllSound, AllDistinct, Held, Reserved;
    PutPlain(l.cfg, l.entries, i, e);
  }

  lemma MoveInv(l: Ledger, i: nat, place: Place)
    requires Inv(l) && i < |l.entries| && Unnamed(l.entries, i)
    requires !place.Pooled? && !place.Splitting? && Sound(l.cfg, Move(l, i, place).entries, i)
    ensures Inv(Move(l, i, place))
  {
    hide CanAdd, Holds, Distinct, Sound, Unnamed, AllSound, AllDistinct;
    PutInv(l, l, i, l.entries[i].(place := place));
  }

  // ----- splitting -----

  /** Splitting keeps the number of reservations, and a reserved chain reserved. */
  lemma SplitKeepsReservations(chain: seq<Request>)
    requires |chain| > 0
    ensures var (p, rest) := SplitPop(chain);
            Reserved([p]) + Reserved(rest) == Reserved(chain)
            && (|rest| > 0 && chain[0].fHasHeapReservation ==> rest[0].fHasHeapReservation)
  {
    var (p, rest) := SplitPop(chain);
    ReservedCons(p, []);
    ReservedHead(chain);
    if |rest| > 0 {
      ReservedHead(rest);
      ReservedHead(chain[1..]);
      assert rest[1..] == chain[1..][1..];
    }
  }

  /** So does putting a piece back before a chain that is reserved; the chain stays reserved. */
  lemma BackKeepsReservations(p: Request, rest: seq<Request>)
    requires |rest| > 0 ==> Holds(rest)
    ensures Reserved(SplitBack(p, rest)) == Reserved([p]) + Reserved(rest)
    ensures |rest| > 0 ==> Holds(SplitBack(p, rest))
  {
    ReservedCons(p, []);
    ReservedCons(p, rest);
    if |rest| > 0 && !p.fHasHeapReservation {
      var q := rest[0 := rest[0].(fHasHeapReservation := false)];
      ReservedCons(p.(fHasHeapReservation := true), q);
      ReservedHead(rest);
      ReservedHead(q);
      assert q[1..] == rest[1..];
    }
  }

  /** A piece put back at once leaves the chain exactly as it was. */
  lemma SplitRoundTrip(chain: seq<Request>)
    requires |chain| > 0 && chain[0].fHasHeapReservation
    ensures var (p, rest) := SplitPop(chain); SplitBack(p, rest) == chain
  {
    var (p, rest) := SplitPop(chain);
    assert chain == [chain[0]] + chain[1..];
    if |rest| > 0 {
      assert rest[0 := chain[1]] == chain[1..];
    }
  }

  lemma SplitSizes(chain: seq<Request>)
    requires |chain| > 0
    ensures |SplitPop(chain).1| == |chain| - 1
  {}

  lemma FlightReady(l: Ledger, i: nat)
    requires AllSound(l.cfg, l.entries) && At(l, i, Flight)
    ensures |l.entries[i].reqs| > 1 ==> Ready(l.entries[i].reqs)
  {
    assert Sound(l.cfg, l.entries, i);
  }

  /** A split leaves a rest that can take its piece back. */
  lemma SplitRejoins(chain: seq<Request>)
    requires |chain| > 1 && Ready(chain)
    ensures var (p, rest) := SplitPop(chain); Rejoins(p, rest)
  {
    var (p, rest) := SplitPop(chain);
    assert chain[1..][0] == chain[1];
    forall i | 0 <= i < |rest| ensures rest[i].fHasHeapReservation || rest[i].fCanCombineIO {
      assert chain[1..][i] == chain[i + 1];
    }
  }

  /** The chain with its piece back is as it was allowed to be before. */
  lemma BackReady(p: Request, rest: seq<Request>)
    requires |rest| > 0 && Rejoins(p, rest)
    ensures Ready(SplitBack(p, rest))
  {
    var chain := SplitBack(p, rest);
    forall i | 0 <= i < |chain| ensures chain[i].fHasHeapReservation || chain[i].fCanCombineIO {
      if i > 0 {
        assert rest[i - 1].fHasHeapReservation || rest[i - 1].fCanCombineIO;
      }
    }
  }

  lemma ReadyAlone(reqs: seq<Request>)
    requires Holds(reqs) && |reqs| == 1
    ensures Ready(reqs)
  {}

  lemma NewPieceDistinct(l: Ledger, i: nat, es: seq<Entry>, e: Entry)
    requires AllSound(l.cfg, l.entries) && i < |l.entries| && |es| == |l.entries| + 1 && es[..|l.entries|] == l.entries
    requires e.place == Splitting(|l.entries|) && es[|l.entries|].place.Issuing?
    ensures forall k :: 0 <= k < |es| && k != i ==> Distinct(e, es[k]) && Distinct(es[k], e)
  {
    hide CanAdd, Holds;
    forall k | 0 <= k < |es| && k != i ensures Distinct(e, es[k]) && Distinct(es[k], e) {
      if k < |l.entries| {
        assert es[k] == es[..|l.entries|][k] == l.entries[k];
        assert Sound(l.cfg, l.entries, k);
      }
    }
  }

  lemma PieceInv(l: Ledger, i: nat)
    requires Inv(l) && At(l, i, Flight)
    ensures Inv(PieceNext(l, i))
  {
    hide CanAdd, AllSound, AllDistinct, Held, Reserved, SplitPop;
    var (p, rest) := SplitPop(l.entries[i].reqs);
    SplitKeepsReservations(l.entries[i].reqs);
    SplitSizes(l.entries[i].reqs);
    FlightReady(l, i);
    if |l.entries[i].reqs| > 1 {
      SplitRejoins(l.entries[i].reqs);
    }
    var es, k := l.entries + [Entry(Issuing, [p])], |l.entries|;
    var e := Entry(Splitting(k), rest);
    HeldAppend(l.entries, Entry(Issuing, [p]));
    AppendSound(l.cfg, l.entries, Entry(Issuing, [p]));
    MostlyUnnamed(l.cfg, es, i);
    HeldUpdate(es, i, e);
    PutSound(l.cfg, es, i, e);
    NewPieceDistinct(l, i, es, e);
    PutDistinct(es, i, e);
  }

  /** Of a chain being split: its piece is named by it alone. */
  lemma PieceIsOwn(l: Ledger, i: nat)
    requires Inv(l) && HasPiece(l, i)
    ensures var k := l.entries[i].place.piece;
            && l.entries[k].place.Issuing? && |l.entries[k].reqs| == 1
            && (|l.entries[i].reqs| > 0 ==> Rejoins(l.entries[k].reqs[0], l.entries[i].reqs))
            && forall g :: 0 <= g < |l.entries| && g != i ==> !Names(l.entries[g], k)
  {
    hide CanAdd;
    var k := l.entries[i].place.piece;
    assert Sound(l.cfg, l.entries, i);
    forall g | 0 <= g < |l.entries| && g != i ensures !Names(l.entries[g], k) {
      assert Sound(l.cfg, l.entries, g) && Distinct(l.entries[i], l.entries[g]);
    }
  }

  lemma UnnamedAfter(entries: seq<Entry>, i: nat, e: Entry, k: nat)
    requires i < |entries| && k < |entries| && i != k && !Names(e, k)
    requires forall g :: 0 <= g < |entries| && g != i ==> !Names(entries[g], k)
    ensures Unnamed(entries[i := e], k)
  {}

  /** The last chain entry after a piece is settled, one way or the other. */
  lemma {:induction false} SettleInv(l: Ledger, i: nat, chain: seq<Request>, e: Entry)
    requires Inv(l) && HasPiece(l, i) && (|chain| > 1 ==> Ready(chain))
    requires e.place.Completing? || (e.place.Gone? && e.reqs == [])
    requires |e.reqs| <= 1
    requires Reserved(chain) + Reserved(e.reqs)
             == Reserved(l.entries[i].reqs) + Reserved(l.entries[l.entries[i].place.piece].reqs)
    ensures Inv(Put(Put(l, i, Entry(Flight, chain)), l.entries[i].place.piece, e))
  {
    hide CanAdd, Held, Reserved, AllSound, AllDistinct;
    var k, c := l.entries[i].place.piece, Entry(Flight, chain);
    PieceIsOwn(l, i);
    MostlyUnnamed(l.cfg, l.entries, i);
    UnnamedAfter(l.entries, i, c, k);
    var m := Put(l, i, c);
    PutPlain(l.cfg, l.entries, i, c);
    PutInv(m, m, k, e);
  }

  lemma IssuedInv(l: Ledger, i: nat)
    requires Inv(l) && HasPiece(l, i)
    ensures Inv(Move(Move(l, i, Flight), l.entries[i].place.piece, Completing))
  {
    hide CanAdd, Held, Reserved, AllSound, AllDistinct, Inv;
    PieceIsOwn(l, i);
    SettleInv(l, i, l.entries[i].reqs, l.entries[l.entries[i].place.piece].(place := Completing));
  }

  lemma ReservedNone()
    ensures Reserved([]) == 0
  {}

  lemma ReturnedInv(l: Ledger, i: nat)
    requires Inv(l) && HasPiece(l, i)
    ensures Inv(ReturnNext(l, i))
  {
    hide CanAdd, Held, Reserved, AllSound, AllDistinct, Inv;
    PieceIsOwn(l, i);
    var k := l.entries[i].place.piece;
    var p, rest := l.entries[k].reqs[0], l.entries[i].reqs;
    assert l.entries[k].reqs == [p];
    BackKeepsReservations(p, rest);
    if |rest| > 0 {
      BackReady(p, rest);
    }
    ReservedNone();
    SettleInv(l, i, SplitBack(p, rest), Entry(Gone, []));
  }

  // ----- joining -----

  /** What joins a run starts somewhere else than the run. */
  lemma AcceptedApart(cfg: FsConfig, run: seq<Request>, toAdd: seq<Request>)
    requires |run| > 0 && |toAdd| > 0 && Accepts(cfg, run, toAdd)
    ensures run[0].ibOffset != toAdd[0].ibOffset && run[0].file == toAdd[0].file
  {
    assert [] + Merged(run, toAdd) == Merged(run, toAdd);
    if run[0].ibOffset == toAdd[0].ibOffset {
      EqualOverlaps(cfg, run[0].fWrite, toAdd[0].fOverrideIOMax, [], run, toAdd);
    }
  }

  lemma MergedHead(base: seq<Request>, toAdd: seq<Request>)
    requires |base| > 0 && |toAdd| > 0 && base[0].file == toAdd[0].file
    ensures |MergedRun(base, toAdd)| > 0 && MergedRun(base, toAdd)[0].file == base[0].file
  {}

  /** A run that may be joined: pooled, metered or being combined. */
  predicate Joinable(place: Place) {
    place.Pooled? || place.Metered? || place.Combining?
  }

  lemma MergedFlagged(a: seq<Request>, b: seq<Request>)
    requires Flagged(a) && Flagged(b)
    ensures Flagged(Merged(a, b))
  {
    MergedElements(a, b);
    var m := Merged(a, b);
    forall i | 0 <= i < |m| ensures m[i].fHasHeapReservation || m[i].fCanCombineIO {
      assert m[i] in multiset(m);
    }
  }

  /** The hand-over leaves no request without both flags. */
  lemma HandOverFlagged(base: seq<Request>, toAdd: seq<Request>)
    requires |base| > 0 && |toAdd| > 0 && Ready(base) && Flagged(toAdd)
    ensures Flagged(MergedRun(base, toAdd))
  {
    hide Merged;
    assert toAdd[0].fHasHeapReservation || toAdd[0].fCanCombineIO;
    MergedFlagged(BaseAfter(base, toAdd), ToAddAfter(base, toAdd));
  }

  /** The joined run: its head holds the reservation, and it is still the run of its file. */
  lemma JoinedRun(l: Ledger, j: nat, toAdd: seq<Request>)
    requires Inv(l) && j < |l.entries| && Joinable(l.entries[j].place) && |l.entries[j].reqs| > 0 && |toAdd| > 0
    requires Accepts(l.cfg, l.entries[j].reqs, toAdd) && Flagged(toAdd)
    ensures var reqs := MergedRun(l.entries[j].reqs, toAdd);
            && Ready(reqs) && reqs[0].file == l.entries[j].reqs[0].file
            && Reserved(reqs) == Reserved(l.entries[j].reqs) + Reserved(toAdd)
  {
    hide Accepts, MergedRun, CanAdd, Reserved, Flagged;
    assert Sound(l.cfg, l.entries, j);
    AcceptedApart(l.cfg, l.entries[j].reqs, toAdd);
    MergeKeepsReservations(l.entries[j].reqs, toAdd);
    HandOverFlagged(l.entries[j].reqs, toAdd);
    MergedHead(l.entries[j].reqs, toAdd);
  }

  lemma SameHeadDistinct(a: Entry, b: Entry, other: Entry)
    requires Distinct(a, other) && Distinct(other, a) && |a.reqs| > 0 && |b.reqs| > 0
    requires a.place == b.place && a.reqs[0].file == b.reqs[0].file
    ensures Distinct(b, other) && Distinct(other, b)
  {}

  /** Only entry i may speak of entry j. */
  ghost predicate NamedOnlyBy(entries: seq<Entry>, j: int, i: int) {
    forall g :: 0 <= g < |entries| && g != i && g != j ==> !Names(entries[g], j)
  }

  lemma JoinedDistinct(es: seq<Entry>, j: nat, e: Entry)
    requires AllDistinct(es) && j < |es| && |es[j].reqs| > 0 && |e.reqs| > 0
    requires e.place == es[j].place && e.reqs[0].file == es[j].reqs[0].file
    ensures forall k :: 0 <= k < |es| && k != j ==> Distinct(e, es[k]) && Distinct(es[k], e)
  {
    hide Distinct;
    forall k | 0 <= k < |es| && k != j ensures Distinct(e, es[k]) && Distinct(es[k], e) {
      SameHeadDistinct(es[j], e, es[k]);
    }
  }

  lemma {:induction false} JoinInv(l: Ledger, i: nat, j: nat)
    requires Inv(l) && i != j && i < |l.entries| && j < |l.entries|
    requires |l.entries[i].reqs| > 0 && |l.entries[j].reqs| > 0 && Joinable(l.entries[j].place)
    requires Unnamed(l.entries, i) && NamedOnlyBy(l.entries, j, i) && Flagged(l.entries[i].reqs)
    requires Accepts(l.cfg, l.entries[j].reqs, l.entries[i].reqs)
    ensures Inv(Join(l, i, j))
  {
    hide Accepts, MergedRun, CanAdd, Held, Reserved, AllSound, AllDistinct, Distinct;
    var g := Entry(Gone, []);
    var e := l.entries[j].(reqs := MergedRun(l.entries[j].reqs, l.entries[i].reqs));
    JoinedRun(l, j, l.entries[i].reqs);
    ReservedNone();
    PutPlain(l.cfg, l.entries, i, g);
    var es := l.entries[i := g];
    assert Unnamed(es, j);
    HeldUpdate(es, j, e);
    PutSound(l.cfg, es, j, e);
    JoinedDistinct(es, j, e);
    PutDistinct(es, j, e);
  }

  // ----- the pool -----

  /** A pooled run is spoken of only by requests of its thread that aim at it. */
  lemma PooledNamed(l: Ledger, j: nat, i: int)
    requires Inv(l) && j < |l.entries| && l.entries[j].place.Pooled?
    requires NoOtherAim(l, l.entries[j].place.thread, i)
    ensures NamedOnlyBy(l.entries, j, i)
  {
    hide CanAdd;
    forall g | 0 <= g < |l.entries| && g != i && g != j ensures !Names(l.entries[g], j) {
      assert Sound(l.cfg, l.entries, g);
    }
  }

  /** A request found combinable with a pooled run finds that run, or one of its file, still there
      and still willing to take it. */
  lemma AimStands(l: Ledger, i: nat, j: nat)
    requires Inv(l) && i < |l.entries| && l.entries[i].place.Aiming?
    ensures var e := l.entries[i];
            && |e.reqs| == 1 && At(l, e.place.run, Pooled(e.place.thread))
            && l.entries[e.place.run].reqs[0].file == e.reqs[0].file
            && (At(l, j, Pooled(e.place.thread)) && l.entries[j].reqs[0].file == e.reqs[0].file ==>
                  Accepts(l.cfg, l.entries[j].reqs, e.reqs))
  {
    hide Mergeable, FOSDiskICanAppendRun, Accepts;
    var e := l.entries[i];
    assert Sound(l.cfg, l.entries, i);
    if At(l, j, Pooled(e.place.thread)) {
      assert j == e.place.run || Distinct(l.entries[e.place.run], l.entries[j]);
      AcceptsIsCanAdd(l.cfg, l.entries[j].reqs, e.reqs[0]);
      assert e.reqs == [e.reqs[0]];
    }
  }

  /** So only a request that holds a reservation starts a run of its own. */
  lemma NewRunHolds(l: Ledger, i: nat)
    requires Inv(l) && Enabled(l, PoolNew(i))
    ensures Ready(l.entries[i].reqs) && l.entries[i].place.Loose?
  {
    hide CanAdd;
    assert Sound(l.cfg, l.entries, i);
    if l.entries[i].place.Aiming? {
      AimStands(l, i, i);
    }
  }

  /** And only such a request is turned away by the run of its file. */
  lemma RefusedHolds(l: Ledger, i: nat, j: nat)
    requires Inv(l) && Enabled(l, PoolAdd(i, j)) && !Accepts(l.cfg, l.entries[j].reqs, l.entries[i].reqs)
    ensures Ready(l.entries[i].reqs) && l.entries[i].place.Loose?
  {
    hide CanAdd, Accepts;
    assert Sound(l.cfg, l.entries, i);
    if l.entries[i].place.Aiming? {
      AimStands(l, i, j);
    }
  }

  /** Entry i becomes the only run of its file in the pool of its thread. */
  lemma PoolInv(l: Ledger, i: nat, t: nat)
    requires Inv(l) && i < |l.entries| && Ready(l.entries[i].reqs) && Unnamed(l.entries, i)
    requires forall k :: 0 <= k < |l.entries| && At(l, k, Pooled(t)) ==>
               l.entries[k].reqs[0].file != l.entries[i].reqs[0].file
    ensures Inv(Move(l, i, Pooled(t)))
  {
    hide CanAdd, Held, Reserved, AllSound, AllDistinct;
    var e := l.entries[i].(place := Pooled(t));
    HeldUpdate(l.entries, i, e);
    PutSound(l.cfg, l.entries, i, e);
    forall k | 0 <= k < |l.entries| && k != i ensures Distinct(e, l.entries[k]) && Distinct(l.entries[k], e) {
      assert At(l, k, Pooled(t)) ==> l.entries[k].reqs[0].file != l.entries[i].reqs[0].file;
    }
    PutDistinct(l.entries, i, e);
  }

  lemma PoolNewInv(l: Ledger, i: nat)
    requires Inv(l) && Enabled(l, PoolNew(i))
    ensures Inv(Next(l, PoolNew(i)))
  {
    hide CanAdd, Held, Reserved, AllDistinct;
    NewRunHolds(l, i);
    MostlyUnnamed(l.cfg, l.entries, i);
    PoolInv(l, i, l.entries[i].place.thread);
  }

  lemma EvictInv(l: Ledger, j: nat)
    requires Inv(l) && j < |l.entries| && l.entries[j].place.Pooled? && Unnamed(l.entries, j)
    ensures Inv(Move(l, j, Transit))
  {
    hide CanAdd, Held, Reserved, AllDistinct;
    assert Sound(l.cfg, l.entries, j);
    MoveInv(l, j, Transit);
  }

  /** No other run of the thread is of the file of pooled run j. */
  lemma OnlyRunOfFile(l: Ledger, j: nat, k: nat)
    requires Inv(l) && j < |l.entries| && k < |l.entries| && j != k && l.entries[j].place.Pooled?
    requires |l.entries[j].reqs| > 0 && |l.entries[k].reqs| > 0 && l.entries[j].place == l.entries[k].place
    ensures l.entries[k].reqs[0].file != l.entries[j].reqs[0].file
  {
    assert Distinct(l.entries[j], l.entries[k]);
  }

  lemma UnnamedIn(l: Ledger, i: nat)
    requires Inv(l) && i < |l.entries| && !l.entries[i].place.Pooled? && !l.entries[i].place.Issuing?
    ensures Unnamed(l.entries, i)
  {
    MostlyUnnamed(l.cfg, l.entries, i);
  }

  /** A request turned away by the pooled run of its file takes that run's place. */
  lemma ReplaceInv(l: Ledger, i: nat, j: nat)
    requires Inv(l) && Enabled(l, PoolAdd(i, j)) && !Accepts(l.cfg, l.entries[j].reqs, l.entries[i].reqs)
    ensures Inv(Next(l, PoolAdd(i, j)))
  {
    hide CanAdd, Held, Reserved, Accepts, AllSound, AllDistinct, Inv;
    RefusedHolds(l, i, j);
    var t := l.entries[i].place.thread;
    PooledNamed(l, j, i);
    EvictInv(l, j);
    var m := Move(l, j, Transit);
    UnnamedIn(m, i);
    forall k | 0 <= k < |m.entries| && At(m, k, Pooled(t))
      ensures m.entries[k].reqs[0].file != m.entries[i].reqs[0].file
    {
      OnlyRunOfFile(l, j, k);
    }
    PoolInv(m, i, t);
  }

  lemma InHandFlagged(l: Ledger, i: nat)
    requires Inv(l) && InHand(l, i) && ForPool(l.entries[i].reqs[0])
    ensures Flagged(l.entries[i].reqs)
  {
    hide CanAdd;
    assert Sound(l.cfg, l.entries, i);
  }

  lemma PoolAddInv(l: Ledger, i: nat, j: nat)
    requires Inv(l) && Enabled(l, PoolAdd(i, j))
    ensures Inv(Next(l, PoolAdd(i, j)))
  {
    hide CanAdd, Held, Reserved, Accepts, AllSound, AllDistinct, Inv;
    if Accepts(l.cfg, l.entries[j].reqs, l.entries[i].reqs) {
      UnnamedIn(l, i);
      PooledNamed(l, j, i);
      InHandFlagged(l, i);
      JoinInv(l, i, j);
    } else {
      ReplaceInv(l, i, j);
    }
  }

  // ----- taking and giving back a slot -----

  lemma ReserveBalanced(l: Ledger, r: Request)
    requires 0 <= l.cFree && !r.fHasHeapReservation
    ensures var (m, q) := Reserve(l, r);
            && 0 <= m.cFree && m.cFree + Reserved([q]) == l.cFree && m.entries == l.entries
            && m.cfg == l.cfg && m.cioreqMax == l.cioreqMax && q.fCanCombineIO == r.fCanCombineIO
            && Reserved([q.(fCanCombineIO := false)]) == Reserved([q])
  {}

  lemma AllocInv(l: Ledger, e: Step)
    requires Inv(l) && Enabled(l, e) && (e.AllocCombinable? || e.AllocReserve?)
    ensures Inv(Next(l, e))
  {
    hide AllSound, AllDistinct, Held;
    match e
    case AllocCombinable(t, r, j) =>
      HeldAppend(l.entries, Entry(Aiming(t, j), [r]));
      AppendSound(l.cfg, l.entries, Entry(Aiming(t, j), [r]));
    case AllocReserve(t, r, _) =>
      ReserveBalanced(l, r);
      HeldAppend(l.entries, Entry(Loose(t), [Reserve(l, r).1]));
      AppendSound(l.cfg, l.entries, Entry(Loose(t), [Reserve(l, r).1]));
  }

  lemma ReserveLaterInv(l: Ledger, i: nat, fPoolReserved: bool)
    requires Inv(l) && Enabled(l, ReserveLater(i, fPoolReserved))
    ensures Inv(Next(l, ReserveLater(i, fPoolReserved)))
  {
    hide CanAdd, AllDistinct, Held;
    var r := l.entries[i].reqs[0];
    assert Sound(l.cfg, l.entries, i);
    assert l.entries[i].reqs == [r];
    ReserveBalanced(l, r);
    MostlyUnnamed(l.cfg, l.entries, i);
    var (m, q) := Reserve(l, r);
    PutInv(l, m, i, Entry(Loose(l.entries[i].place.thread), [q.(fCanCombineIO := false)]));
  }

  lemma ReleaseInv(l: Ledger, i: nat, e: Entry)
    requires Inv(l) && i < |l.entries| && |l.entries[i].reqs| > 0
    requires !l.entries[i].place.Pooled? && !l.entries[i].place.Issuing?
    requires e.place.Completing? || (e.place.Gone? && e.reqs == [])
    requires e.reqs == l.entries[i].reqs[1..]
    ensures Inv(Put(Release(l, l.entries[i].reqs[0]), i, e))
  {
    hide CanAdd, AllDistinct, Held;
    ReservedHead(l.entries[i].reqs);
    MostlyUnnamed(l.cfg, l.entries, i);
    PutInv(l, Release(l, l.entries[i].reqs[0]), i, e);
  }

  lemma FreeInv(l: Ledger, i: nat)
    requires Inv(l) && Enabled(l, FreeUnused(i))
    ensures Inv(Next(l, FreeUnused(i)))
  {
    hide CanAdd, AllDistinct, Held;
    assert Sound(l.cfg, l.entries, i);
    ReleaseInv(l, i, Entry(Gone, []));
  }

  // ----- moving through the queue -----

  predicate Queued(place: Place) {
    place.Transit? || place.Heap? || place.Metered? || place.Vip? || place.Combining? || place.Flight?
  }

  lemma QueueInv(l: Ledger, i: nat, place: Place)
    requires Inv(l) && i < |l.entries| && Queued(l.entries[i].place) && Queued(place)
    requires place.Heap? || place.Metered? || place.Combining? ==> Holds(l.entries[i].reqs)
    ensures Inv(Move(l, i, place))
  {
    hide CanAdd, AllDistinct, Held, Flagged;
    assert Sound(l.cfg, l.entries, i);
    if |l.entries[i].reqs| == 1 && Holds(l.entries[i].reqs) {
      ReadyAlone(l.entries[i].reqs);
    }
    MostlyUnnamed(l.cfg, l.entries, i);
    MoveInv(l, i, place);
  }

  lemma HeapHeadHolds(l: Ledger, i: nat)
    requires Inv(l) && i < |l.entries| && (l.entries[i].place.Heap? || l.entries[i].place.Metered?)
    ensures Holds(l.entries[i].reqs)
  {
    assert Sound(l.cfg, l.entries, i);
  }

  lemma DirectInv(l: Ledger, i: nat)
    requires Inv(l) && Enabled(l, GoDirect(i))
    ensures Inv(Move(l, i, Transit))
  {
    hide CanAdd, AllDistinct, Held;
    assert Sound(l.cfg, l.entries, i);
    MostlyUnnamed(l.cfg, l.entries, i);
    MoveInv(l, i, Transit);
  }

  lemma QueuedFlagged(l: Ledger, i: nat)
    requires Inv(l) && i < |l.entries| && (l.entries[i].place.Transit? || l.entries[i].place.Heap?)
    requires Holds(l.entries[i].reqs) || l.entries[i].place.Heap?
    ensures Flagged(l.entries[i].reqs)
  {
    hide CanAdd;
    assert Sound(l.cfg, l.entries, i);
  }

  lemma QueueJoinInv(l: Ledger, i: nat, j: nat)
    requires Inv(l) && i < |l.entries| && j < |l.entries| && |l.entries[i].reqs| > 0 && |l.entries[j].reqs| > 0
    requires (l.entries[i].place.Transit? && Holds(l.entries[i].reqs) && l.entries[j].place.Metered?)
          || (l.entries[i].place.Heap? && l.entries[j].place.Combining?)
    requires Accepts(l.cfg, l.entries[j].reqs, l.entries[i].reqs)
    ensures Inv(Join(l, i, j))
  {
    hide CanAdd, Held, Reserved, Accepts, AllSound, AllDistinct, Inv;
    UnnamedIn(l, i);
    UnnamedIn(l, j);
    QueuedFlagged(l, i);
    JoinInv(l, i, j);
  }

  lemma StepInv(l: Ledger, e: Step)
    requires Inv(l) && Enabled(l, e)
    ensures Inv(Next(l, e))
  {
    hide Inv, Accepts, CanAdd, MergedRun, Reserved, SplitPop;
    match e
    case AllocCombinable(_, _, _) => AllocInv(l, e);
    case AllocReserve(_, _, _) => AllocInv(l, e);
    case ReserveLater(i, f) => ReserveLaterInv(l, i, f);
    case FreeUnused(i) => FreeInv(l, i);
    case PoolNew(i) => PoolNewInv(l, i);
    case PoolAdd(i, j) => PoolAddInv(l, i, j);
    case PoolEvict(j) =>
      PooledNamed(l, j, -1);
      EvictInv(l, j);
    case GoDirect(i) => DirectInv(l, i);
    case InsertHeap(i) => QueueInv(l, i, Heap);
    case InsertMetered(i) => QueueInv(l, i, Metered);
    case MergeMetered(i, j) => QueueJoinInv(l, i, j);
    case InsertVip(i) => QueueInv(l, i, Vip);
    case ExtractHeap(i) =>
      HeapHeadHolds(l, i);
      QueueInv(l, i, Combining);
    case Combine(i, j) => QueueJoinInv(l, i, j);
    case Dispatch(i) => QueueInv(l, i, Flight);
    case Extract(i) => QueueInv(l, i, Flight);
    case SplitPiece(i) => PieceInv(l, i);
    case SplitIssued(i) => IssuedInv(l, i);
    case SplitReturned(i) => ReturnedInv(l, i);
    case Requeue(i) => QueueInv(l, i, Transit);
    case Complete(i) => ReleaseInv(l, i, Entry(Completing, l.entries[i].reqs[1..]));
  }

  // ----- every run of the queue -----

  ghost predicate Runs(l: Ledger, steps: seq<Step>, l': Ledger)
    decreases |steps|
  {
    if |steps| == 0 then l == l'
    else Enabled(l, steps[0]) && Runs(Next(l, steps[0]), steps[1..], l')
  }

  lemma StepKeepsMax(l: Ledger, e: Step)
    requires Enabled(l, e)
    ensures Next(l, e).cioreqMax == l.cioreqMax
  {}

  lemma {:induction false} RunInv(l: Ledger, steps: seq<Step>, l': Ledger)
    requires Inv(l) && Runs(l, steps, l')
    ensures Inv(l') && l'.cioreqMax == l.cioreqMax
    decreases |steps|
  {
    hide Inv, Next, Enabled;
    if |steps| == 0 {
    } else {
      StepInv(l, steps[0]);
      StepKeepsMax(l, steps[0]);
      RunInv(Next(l, steps[0]), steps[1..], l');
    }
  }

  /** The queue as it is initialised: every slot free. */
  function Initial(cfg: FsConfig, cioreqMax: nat): Ledger {
    Ledger(cfg, cioreqMax, cioreqMax, [])
  }

  lemma {:induction false} ReachableInv(cfg: FsConfig, cioreqMax: nat, steps: seq<Step>, l: Ledger)
    requires Runs(Initial(cfg, cioreqMax), steps, l)
    ensures Inv(l) && l.cioreqMax == cioreqMax
  {
    hide Runs;
    RunInv(Initial(cfg, cioreqMax), steps, l);
  }

  /** The head of a pooled, heap, metered or combining run holds a reservation, and so does that of
      any run of several requests on its way or being issued, and of what is left of a chain. The other
      requests of these runs each hold one or came without one because they could be combined. */
  predicate HeadHolds(e: Entry) {
    match e.place
    case Pooled(_) | Heap | Metered | Combining => Ready(e.reqs)
    case Splitting(_) => |e.reqs| > 0 ==> Ready(e.reqs)
    case Transit | Vip | Flight => |e.reqs| > 1 ==> Ready(e.reqs)
    case Loose(_) | Aiming(_, _) | Issuing | Completing | Gone => true
  }

  /** In every run, free slots and held reservations add up to the number of slots, and the heads
      hold their reservations. */
  lemma {:induction false} LedgerBalances(cfg: FsConfig, cioreqMax: nat, steps: seq<Step>, l: Ledger)
    requires Runs(Initial(cfg, cioreqMax), steps, l)
    ensures 0 <= l.cFree && l.cFree + Held(l.entries) == cioreqMax
    ensures forall i :: 0 <= i < |l.entries| ==> HeadHolds(l.entries[i])
  {
    hide Runs, CanAdd;
    ReachableInv(cfg, cioreqMax, steps, l);
    forall i | 0 <= i < |l.entries| ensures HeadHolds(l.entries[i]) {
      assert Sound(l.cfg, l.entries, i);
    }
  }

  /** A piece that cannot be issued: the rest of the chain has the reservation, the piece takes it
      back, and the chain is again one run whose head holds it. */
  lemma {:induction false} ReturnedPiece(cfg: FsConfig, cioreqMax: nat, steps: seq<Step>, l: Ledger, i: nat)
    requires Runs(Initial(cfg, cioreqMax), steps, l) && i < |l.entries| && l.entries[i].place.Splitting?
    ensures Enabled(l, SplitReturned(i))
    ensures var m := Next(l, SplitReturned(i));
            && m.cFree == l.cFree && Held(m.entries) == Held(l.entries)
            && m.entries[i].reqs[0].id == l.entries[l.entries[i].place.piece].reqs[0].id
            && (|l.entries[i].reqs| > 0 ==> Holds(l.entries[i].reqs) && Holds(m.entries[i].reqs))
  {
    hide Runs, CanAdd, Held, Reserved, AllDistinct;
    ReachableInv(cfg, cioreqMax, steps, l);
    PieceThere(l, i);
    assert Sound(l.cfg, l.entries, i);
    ReturnedInv(l, i);
    BackKeepsReservations(l.entries[l.entries[i].place.piece].reqs[0], l.entries[i].reqs);
  }

  function HeapCount(entries: seq<Entry>): nat {
    if |entries| == 0 then 0
    else HeapCount(entries[..|entries| - 1]) + if entries[|entries| - 1].place.Heap? then 1 else 0
  }

  lemma {:induction false} HeapHolds(entries: seq<Entry>)
    requires forall k :: 0 <= k < |entries| && entries[k].place.Heap? ==> Holds(entries[k].reqs)
    ensures HeapCount(entries) <= Held(entries)
  {
    var n := |entries| - 1;
    if n < 0 {
    } else {
      HeapHolds(entries[..n]);
    }
  }

  lemma {:induction false} HeapCountUpdate(entries: seq<Entry>, i: int, e: Entry)
    requires 0 <= i < |entries| && !entries[i].place.Heap? && e.place.Heap?
    ensures HeapCount(entries[i := e]) == HeapCount(entries) + 1
  {
    var n := |entries| - 1;
    if i < n {
      HeapCountUpdate(entries[..n], i, e);
      assert entries[i := e][..n] == entries[..n][i := e];
    } else {
      assert entries[i := e][..n] == entries[..n];
    }
  }

  /** The heaps have room whenever a run is put into them, so the capacity check cannot fail. */
  lemma {:induction false} HeapNeverOverflows(cfg: FsConfig, cioreqMax: nat, steps: seq<Step>, l: Ledger, i: nat)
    requires Runs(Initial(cfg, cioreqMax), steps, l) && Enabled(l, InsertHeap(i))
    ensures HeapCount(l.entries) + 1 <= cioreqMax
  {
    hide Runs, CanAdd, Held, Reserved, AllDistinct;
    ReachableInv(cfg, cioreqMax, steps, l);
    var m := Move(l, i, Heap);
    StepInv(l, InsertHeap(i));
    forall k | 0 <= k < |m.entries| && m.entries[k].place.Heap? ensures Holds(m.entries[k].reqs) {
      HeapHeadHolds(m, k);
    }
    HeapHolds(m.entries);
    HeapCountUpdate(l.entries, i, l.entries[i].(place := Heap));
  }
}
