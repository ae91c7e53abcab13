/**
  The elevator over the two heaps (lib/cpp/ms/osdisk.cxx): which heap a request is added to,
  which heap is served next, and what that means over whole runs of the queue.
*/
module Elevator {
  import opened IoHeaps

  // ----- the queue as a value -----

  /** The requests of the two heaps, the heap being swept, and the position reached. */
  datatype Sweep = Sweep(a: set<Ioreq>, b: set<Ioreq>, fUseHeapA: bool, current: int)

  /** The requests of the sweep under way, and those left for the next one. */
  ghost function Active(s: Sweep): set<Ioreq> {
    if s.fUseHeapA then s.a else s.b
  }

  ghost function Waiting(s: Sweep): set<Ioreq> {
    if s.fUseHeapA then s.b else s.a
  }

  ghost predicate Queued(s: Sweep, r: Ioreq) {
    r in Active(s) || r in Waiting(s)
  }

  ghost function Added(s: Sweep, r: Ioreq): Sweep {
    if (Key(r) > s.current) == s.fUseHeapA then s.(a := s.a + {r}) else s.(b := s.b + {r})
  }

  ghost function Removed(s: Sweep, r: Ioreq): Sweep {
    if r in s.a then Sweep(s.a - {r}, s.b, true, Key(r)) else Sweep(s.a, s.b - {r}, false, Key(r))
  }

  ghost predicate Least(r: Ioreq, heap: set<Ioreq>) {
    r in heap && forall q :: q in heap ==> Key(r) <= Key(q)
  }

  /** The request served next: a least one of the active heap or, when that is empty, of the
      waiting one. */
  ghost predicate IsTop(s: Sweep, r: Ioreq) {
    if Active(s) != {} then Least(r, Active(s)) else Least(r, Waiting(s))
  }

  datatype Event = Add(r: Ioreq) | Take(r: Ioreq)

  ghost predicate Step(s: Sweep, e: Event, s': Sweep, cioreqMax: nat) {
    match e
    case Add(r) => !Queued(s, r) && InRange(r) && |Active(s)| + |Waiting(s)| < cioreqMax && s' == Added(s, r)
    case Take(r) => IsTop(s, r) && s' == Removed(s, r)
  }

  ghost predicate Run(states: seq<Sweep>, events: seq<Event>, cioreqMax: nat) {
    |states| == |events| + 1
    && forall i :: 0 <= i < |events| ==> Step(states[i], events[i], states[i + 1], cioreqMax)
  }

  // ----- the elevator invariant -----

  const LAST: int := TWO63 * TWO63

  /** What the elevator asks of the two heaps, without the queue around them. */
  ghost predicate Sides(ahead: set<Ioreq>, behind: set<Ioreq>, current: int, cioreqMax: nat) {
    && ahead !! behind
    && (forall r :: r in ahead ==> InRange(r) && current <= Key(r))
    && (forall r :: r in behind ==> InRange(r) && Key(r) <= current)
    && |ahead| + |behind| <= cioreqMax
  }

  /** Everything active lies at or ahead of the current position, everything waiting at or
      behind it. */
  ghost predicate Elevating(s: Sweep, cioreqMax: nat) {
    0 <= s.current < LAST && Sides(Active(s), Waiting(s), s.current, cioreqMax)
  }

  lemma KeyRange(r: Ioreq)
    requires InRange(r)
    ensures 0 <= Key(r) < LAST
  {}

  lemma StartElevating(cioreqMax: nat)
    ensures Elevating(Sweep({}, {}, true, 0), cioreqMax)
  {}

  lemma AddShape(s: Sweep, r: Ioreq)
    ensures var s' := Added(s, r);
            && s'.current == s.current
            && Active(s') == (if Key(r) > s.current then Active(s) + {r} else Active(s))
            && Waiting(s') == (if Key(r) > s.current then Waiting(s) else Waiting(s) + {r})
  {}

  lemma TakeShape(s: Sweep, r: Ioreq)
    requires IsTop(s, r) && Active(s) !! Waiting(s)
    ensures var s' := Removed(s, r);
            && s'.current == Key(r)
            && Active(s') == (if Active(s) != {} then Active(s) else Waiting(s)) - {r}
            && Waiting(s') == (if Active(s) != {} then Waiting(s) else {})
            && (s'.fUseHeapA != s.fUseHeapA <==> Active(s) == {})
  {}

  lemma Ranges(ahead: set<Ioreq>, behind: set<Ioreq>, ahead': set<Ioreq>, behind': set<Ioreq>, r: Ioreq, current: int,
               cioreqMax: nat)
    requires Sides(ahead, behind, current, cioreqMax) && r !in ahead + behind && InRange(r)
    requires |ahead| + |behind| < cioreqMax
    requires if Key(r) > current then ahead' == ahead + {r} && behind' == behind
             else ahead' == ahead && behind' == behind + {r}
    ensures Sides(ahead', behind', current, cioreqMax)
  {
    hide Key, InRange;
  }

  lemma AddElevating(s: Sweep, r: Ioreq, s': Sweep, cioreqMax: nat)
    requires Elevating(s, cioreqMax) && Step(s, Add(r), s', cioreqMax)
    ensures Elevating(s', cioreqMax)
  {
    hide Key, InRange, Active, Waiting, Added;
    AddShape(s, r);
    Ranges(Active(s), Waiting(s), Active(s'), Waiting(s'), r, s.current, cioreqMax);
  }

  lemma TakeElevating(s: Sweep, r: Ioreq, s': Sweep, cioreqMax: nat)
    requires Elevating(s, cioreqMax) && Step(s, Take(r), s', cioreqMax)
    ensures Elevating(s', cioreqMax)
  {
    hide Key, InRange, Active, Waiting, Removed;
    TakeShape(s, r);
    KeyRange(r);
  }

  lemma StepElevating(s: Sweep, e: Event, s': Sweep, cioreqMax: nat)
    requires Elevating(s, cioreqMax) && Step(s, e, s', cioreqMax)
    ensures Elevating(s', cioreqMax)
  {
    hide Elevating, Step;
    if e.Add? {
      AddElevating(s, e.r, s', cioreqMax);
    } else {
      TakeElevating(s, e.r, s', cioreqMax);
    }
  }

  /** A removal turns the elevator around exactly when the active heap is empty; otherwise the
      position does not go back. */
  lemma TakeForward(s: Sweep, r: Ioreq, s': Sweep, cioreqMax: nat)
    requires Elevating(s, cioreqMax) && Step(s, Take(r), s', cioreqMax)
    ensures s'.fUseHeapA != s.fUseHeapA <==> Active(s) == {}
    ensures Active(s) != {} ==> s.current <= s'.current
  {
    hide Key, InRange, Active, Waiting, Removed;
    TakeShape(s, r);
  }

  lemma StepForward(s: Sweep, e: Event, s': Sweep, cioreqMax: nat)
    requires Elevating(s, cioreqMax) && Step(s, e, s', cioreqMax) && s'.fUseHeapA == s.fUseHeapA
    ensures s.current <= s'.current
  {
    if e.Take? {
      TakeForward(s, e.r, s', cioreqMax);
    }
  }

  lemma {:induction false} RunElevating(states: seq<Sweep>, events: seq<Event>, cioreqMax: nat, i: nat)
    requires Run(states, events, cioreqMax) && Elevating(states[0], cioreqMax) && i < |states|
    ensures Elevating(states[i], cioreqMax)
    decreases i
  {
    if i == 0 {
    } else {
      RunElevating(states, events, cioreqMax, i - 1);
      StepElevating(states[i - 1], events[i - 1], states[i], cioreqMax);
    }
  }

  /** Within one sweep the position never goes back, whatever is added meanwhile. */
  lemma {:induction false} SweepForward(states: seq<Sweep>, events: seq<Event>, cioreqMax: nat, i: nat, j: nat)
    requires Run(states, events, cioreqMax) && Elevating(states[0], cioreqMax) && i <= j < |states|
    requires forall k :: i <= k <= j ==> states[k].fUseHeapA == states[i].fUseHeapA
    ensures states[i].current <= states[j].current
    decreases j
  {
    hide Elevating, Step;
    if i >= j {
    } else {
      SweepForward(states, events, cioreqMax, i, j - 1);
      RunElevating(states, events, cioreqMax, j - 1);
      StepForward(states[j - 1], events[j - 1], states[j], cioreqMax);
    }
  }

  // ----- every request is served -----

  /** The active requests exactly at the current position. */
  ghost function AtCurrent(s: Sweep): set<Ioreq> {
    set r | r in Active(s) && Key(r) == s.current
  }

  /** What is left of the sweep: positions ahead first, requests at this position second. */
  ghost function Measure(s: Sweep, cioreqMax: nat): int {
    (LAST - s.current) * (cioreqMax + 1) + |AtCurrent(s)|
  }

  /** A bound on the length of any sweep. */
  ghost function WholeSweep(cioreqMax: nat): int {
    (LAST + 1) * (cioreqMax + 1)
  }

  lemma MeasureRange(x: int, most: int, m: int, n: int)
    requires 0 <= x <= most && 0 <= n < m
    ensures 0 <= x * m + n < (most + 1) * m
  {
    assert x * m <= most * m;
    assert (most + 1) * m == most * m + m;
  }

  lemma {:induction false} SubsetSize(s: set<Ioreq>, t: set<Ioreq>)
    requires s <= t
    ensures |s| <= |t|
    decreases t
  {
    if s == {} {
    } else {
      var x :| x in s;
      SubsetSize(s - {x}, t - {x});
    }
  }

  lemma AtCurrentBound(s: Sweep, cioreqMax: nat)
    requires Elevating(s, cioreqMax)
    ensures |AtCurrent(s)| <= cioreqMax
    ensures 0 <= Measure(s, cioreqMax) < WholeSweep(cioreqMax)
  {
    SubsetSize(AtCurrent(s), Active(s));
    MeasureRange(LAST - s.current, LAST, cioreqMax + 1, |AtCurrent(s)|);
  }

  lemma MeasureLower(x: int, x': int, m: int, n: int, n': int)
    requires x' < x && 0 <= n && 0 <= n' < m
    ensures x' * m + n' < x * m + n
  {
    assert x' * m <= (x - 1) * m;
    assert (x - 1) * m == x * m - m;
  }

  /** Serving the active heap uses up the sweep. */
  lemma TakeLowers(s: Sweep, r: Ioreq, s': Sweep, cioreqMax: nat)
    requires Elevating(s, cioreqMax) && Step(s, Take(r), s', cioreqMax) && Active(s) != {}
    ensures Measure(s', cioreqMax) < Measure(s, cioreqMax)
  {
    hide Key, InRange, Active, Waiting, Removed;
    TakeShape(s, r);
    StepElevating(s, Take(r), s', cioreqMax);
    AtCurrentBound(s', cioreqMax);
    if Key(r) == s.current {
      assert AtCurrent(s') == AtCurrent(s) - {r};
    } else {
      MeasureLower(LAST - s.current, LAST - s'.current, cioreqMax + 1, |AtCurrent(s)|, |AtCurrent(s')|);
    }
  }

  /** Adding does not prolong it: an addition at the current position joins the next sweep. */
  lemma AddKeeps(s: Sweep, r: Ioreq, s': Sweep, cioreqMax: nat)
    requires Elevating(s, cioreqMax) && Step(s, Add(r), s', cioreqMax)
    ensures Measure(s', cioreqMax) == Measure(s, cioreqMax)
  {
    hide Key, InRange, Active, Waiting, Added;
    AddShape(s, r);
    assert AtCurrent(s') == AtCurrent(s);
  }

  /** How many removals a request can still be passed over by. */
  ghost function Patience(s: Sweep, r: Ioreq, cioreqMax: nat): int {
    Measure(s, cioreqMax) + if r in Active(s) then 0 else WholeSweep(cioreqMax)
  }

  lemma StepPatience(s: Sweep, e: Event, s': Sweep, cioreqMax: nat, r: Ioreq)
    requires Elevating(s, cioreqMax) && Step(s, e, s', cioreqMax) && Queued(s, r) && e != Take(r)
    ensures Queued(s', r)
    ensures Patience(s', r, cioreqMax) + (if e.Take? then 1 else 0) <= Patience(s, r, cioreqMax)
  {
    hide Key, InRange, Active, Waiting, Removed, Added, Measure, WholeSweep;
    StepElevating(s, e, s', cioreqMax);
    AtCurrentBound(s, cioreqMax);
    AtCurrentBound(s', cioreqMax);
    if e.Add? {
      AddShape(s, e.r);
      AddKeeps(s, e.r, s', cioreqMax);
    } else {
      TakeShape(s, e.r);
    }
    if e.Take? && Active(s) != {} {
      TakeLowers(s, e.r, s', cioreqMax);
    }
  }

  lemma PatienceRange(s: Sweep, r: Ioreq, cioreqMax: nat)
    requires Elevating(s, cioreqMax)
    ensures 0 <= Patience(s, r, cioreqMax) < 2 * WholeSweep(cioreqMax)
  {
    hide Measure, WholeSweep;
    AtCurrentBound(s, cioreqMax);
  }

  function Takes(events: seq<Event>): nat {
    if |events| == 0 then 0
    else Takes(events[..|events| - 1]) + if events[|events| - 1].Take? then 1 else 0
  }

  /** No request starves: in any run, with anything added meanwhile, a queued request is passed
      over fewer times than two whole sweeps are long. */
  lemma {:induction false} Served(states: seq<Sweep>, events: seq<Event>, cioreqMax: nat, r: Ioreq)
    requires Run(states, events, cioreqMax) && Elevating(states[0], cioreqMax)
    requires Queued(states[0], r) && Take(r) !in events
    ensures Queued(states[|events|], r)
    ensures Takes(events) + Patience(states[|events|], r, cioreqMax) <= Patience(states[0], r, cioreqMax)
    ensures Takes(events) < 2 * WholeSweep(cioreqMax)
    decreases |events|
  {
    hide Elevating, Step, Patience, WholeSweep, Queued;
    var n := |events|;
    PatienceRange(states[0], r, cioreqMax);
    RunElevating(states, events, cioreqMax, n);
    PatienceRange(states[n], r, cioreqMax);
    if n <= 0 {
    } else {
      Served(states[..n], events[..n - 1], cioreqMax, r);
      RunElevating(states, events, cioreqMax, n - 1);
      StepPatience(states[n - 1], events[n - 1], states[n], cioreqMax, r);
    }
  }

  // ----- the queue -----

  class IOQueue {
    const cioreqMax: nat
    const heapA: IOHeapA
    const heapB: IOHeapB
    var fUseHeapA: bool
    var iFileCurrent: Qword
    var ibOffsetCurrent: Qword

    constructor (cIOEnqueuedMax: nat, leftover: Ioreq)
      ensures Valid() && cioreqMax == cIOEnqueuedMax
      ensures View() == Sweep({}, {}, true, 0)
    {
      var a := new IOHeapA(cIOEnqueuedMax, leftover);
      var b := new IOHeapB(a.rgpioreq);
      cioreqMax, heapA, heapB := cIOEnqueuedMax, a, b;
      fUseHeapA, iFileCurrent, ibOffsetCurrent := true, 0, 0;
    }

    /** The heaps are sound, share one array and do not reach into each other. */
    ghost predicate Valid()
      reads this, heapA, heapB, heapA.rgpioreq, heapA.rgpioreq[..], heapB.rgpioreq, heapB.rgpioreq[..]
    {
      && heapA.rgpioreq == heapB.rgpioreq
      && heapA.rgpioreq.Length == cioreqMax
      && heapA.Valid() && heapB.Valid()
      && heapA.ipioreqMac <= heapB.ipioreqMic
      && iFileCurrent < TWO63 && ibOffsetCurrent < TWO63
    }

    ghost function View(): Sweep
      requires Valid()
      reads this, heapA, heapB, heapA.rgpioreq, heapA.rgpioreq[..], heapB.rgpioreq, heapB.rgpioreq[..]
    {
      Sweep(heapA.Members(), heapB.Members(), fUseHeapA, iFileCurrent * TWO63 + ibOffsetCurrent)
    }

    function CioreqIOHeap(): int
      reads heapA, heapB
    {
      heapA.ipioreqMac + (heapB.ipioreqMax - heapB.ipioreqMic)
    }

    /** The top is the request the elevator serves next, and null exactly when both heaps are empty. */
    method PioreqIOHeapTop() returns (r: Ioreq?)
      requires Valid()
      ensures if r == null then View().a == View().b == {} else IsTop(View(), r)
    {
      hide Heap, AllInRange, Elements, Mirror, Key;
      heapA.EmptyMembers();
      heapB.EmptyMembers();
      if heapA.FHeapAEmpty() {
        if heapB.FHeapBEmpty() {
          return null;
        } else {
          r := heapB.PioreqHeapBTop();
        }
      } else {
        if heapB.FHeapBEmpty() {
          r := heapA.PioreqHeapATop();
        } else {
          if fUseHeapA {
            r := heapA.PioreqHeapATop();
          } else {
            r := heapB.PioreqHeapBTop();
          }
        }
      }
    }

    /** The test by slot number picks the heap the request is in. */
    method FHeapAFrom(pioreq: Ioreq) returns (fHeapA: bool)
      requires Valid() && (pioreq in View().a || pioreq in View().b)
      ensures fHeapA <==> pioreq in View().a
      ensures fHeapA <==> pioreq !in View().b
    {
      fHeapA := pioreq.ipioreqHeap < heapA.ipioreqMac;
    }

    method AddToA(pioreq: Ioreq)
      requires Valid() && pioreq !in View().a && pioreq !in View().b && InRange(pioreq)
      requires heapA.ipioreqMac < heapB.ipioreqMic
      modifies heapA, heapA.rgpioreq, View().a, pioreq
      ensures Valid() && heapA.ipioreqMac == old(heapA.ipioreqMac) + 1
      ensures heapA.Members() == old(heapA.Members()) + {pioreq}
      ensures heapB.Contents() == old(heapB.Contents())
    {
      hide Heap, AllInRange, Key, Elements, Mirror;
      Apart();
      heapA.HeapAAdd(pioreq);
      heapB.Undisturbed();
    }

    method AddToB(pioreq: Ioreq)
      requires Valid() && pioreq !in View().a && pioreq !in View().b && InRange(pioreq)
      requires heapA.ipioreqMac < heapB.ipioreqMic
      modifies heapB, heapB.rgpioreq, View().b, pioreq
      ensures Valid() && heapB.ipioreqMic == old(heapB.ipioreqMic) - 1
      ensures heapB.Members() == old(heapB.Members()) + {pioreq}
      ensures heapA.Contents() == old(heapA.Contents())
    {
      hide Heap, AllInRange, Key, Elements, Mirror;
      Apart();
      heapB.HeapBAdd(pioreq);
      heapA.Undisturbed();
    }

    method RemoveFromA(pioreq: Ioreq)
      requires Valid() && pioreq in View().a
      modifies heapA, heapA.rgpioreq, View().a
      ensures Valid() && heapA.ipioreqMac == old(heapA.ipioreqMac) - 1
      ensures heapA.Members() == old(heapA.Members()) - {pioreq}
      ensures heapB.Contents() == old(heapB.Contents())
    {
      hide Heap, AllInRange, Key, Elements, Mirror;
      Apart();
      heapA.HeapARemove(pioreq);
      heapB.Undisturbed();
    }

    method RemoveFromB(pioreq: Ioreq)
      requires Valid() && pioreq in View().b
      modifies heapB, heapB.rgpioreq, View().b
      ensures Valid() && heapB.ipioreqMic == old(heapB.ipioreqMic) + 1
      ensures heapB.Members() == old(heapB.Members()) - {pioreq}
      ensures heapA.Contents() == old(heapA.Contents())
    {
      hide Heap, AllInRange, Key, Elements, Mirror;
      Apart();
      heapB.HeapBRemove(pioreq);
      heapA.Undisturbed();
    }

    lemma MembersInRange(pioreq: Ioreq)
      requires Valid() && (pioreq in View().a || pioreq in View().b)
      ensures InRange(pioreq)
    {}

    /** No request is in both heaps. */
    lemma Apart()
      requires Valid()
      ensures forall i :: 0 <= i < heapA.ipioreqMac ==> heapA.rgpioreq[i] in View().a && heapA.rgpioreq[i] !in View().b
      ensures forall j :: heapB.ipioreqMic <= j < cioreqMax ==>
                heapB.rgpioreq[j] in View().b && heapB.rgpioreq[j] !in View().a
    {
      hide Heap, AllInRange;
      forall j | heapB.ipioreqMic <= j < cioreqMax ensures heapB.rgpioreq[j] in View().b {
        assert heapB.Contents()[heapB.Back(j)] == heapB.rgpioreq[j];
      }
    }

    lemma Count()
      requires Valid()
      ensures |Active(View())| + |Waiting(View())| == CioreqIOHeap()
    {
      hide Heap, AllInRange, Elements;
      heapA.SlotsDistinct();
      heapB.SlotsDistinct();
      ElementsSize(heapA.Contents());
      ElementsSize(heapB.Contents());
    }

    /** Queues a request: a step of the elevator. */
    method IOHeapAdd(pioreq: Ioreq)
      requires Valid() && pioreq !in View().a && pioreq !in View().b && InRange(pioreq)
      requires CioreqIOHeap() + 1 <= cioreqMax
      modifies heapA, heapB, heapA.rgpioreq, View().a, View().b, pioreq
      ensures Valid() && CioreqIOHeap() == old(CioreqIOHeap()) + 1
      ensures Step(old(View()), Add(pioreq), View(), cioreqMax)
    {
      hide Heap, AllInRange, Elements, Mirror;
      Count();
      var fForward := CmpOSDiskIFileIbIFileIb(pioreq.iFile, pioreq.ibOffset, iFileCurrent, ibOffsetCurrent) > 0;
      CmpOrdersIff(pioreq.iFile, pioreq.ibOffset, iFileCurrent, ibOffsetCurrent);
      if (fForward && fUseHeapA) || (!fForward && !fUseHeapA) {
        AddToA(pioreq);
      } else {
        AddToB(pioreq);
      }
    }

    /** Takes any queued request out; taking the top is a step of the elevator. */
    method IOHeapRemove(pioreq: Ioreq)
      requires Valid() && (pioreq in View().a || pioreq in View().b)
      modifies this, heapA, heapB, heapA.rgpioreq, View().a, View().b
      ensures Valid() && CioreqIOHeap() == old(CioreqIOHeap()) - 1
      ensures View() == Removed(old(View()), pioreq)
      ensures old(IsTop(View(), pioreq)) ==> Step(old(View()), Take(pioreq), View(), cioreqMax)
    {
      hide Heap, AllInRange, Elements, Mirror;
      MembersInRange(pioreq);
      var fRemoveFromHeapA := FHeapAFrom(pioreq);
      if fRemoveFromHeapA {
        RemoveFromA(pioreq);
      } else {
        RemoveFromB(pioreq);
      }
      fUseHeapA := fRemoveFromHeapA;
      iFileCurrent := pioreq.iFile;
      ibOffsetCurrent := pioreq.ibOffset;
    }
  }
}
