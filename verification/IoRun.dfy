/**
  Runs of requests that are issued as one operation (lib/cpp/ms/osdisk.cxx): requests of one
  file in one direction, in offset order, and the test and merge that combine two runs.
*/
module IoRun {

  const DWMAX: int := 0xFFFF_FFFF

  type Offset = x: int | 0 <= x < 0x8000_0000_0000_0000
  type Dword = x: int | 0 <= x <= DWMAX
  type Size = x: int | 0 < x <= DWMAX witness 1

  datatype FsConfig = FsConfig(cbMaxReadGapSize: Dword, cbMaxReadSize: Dword, cbMaxWriteSize: Dword)

  datatype Request = Request(
    id: int, file: int, fWrite: bool, ibOffset: Offset, cbData: Size,
    fOverrideIOMax: bool, fHasHeapReservation: bool, fCanCombineIO: bool)

  function IbBlockMax(r: Request): int {
    r.ibOffset + r.cbData
  }

  function CbGap(cfg: FsConfig, fWrite: bool): Dword {
    if fWrite then 0 else cfg.cbMaxReadGapSize
  }

  function CbMax(cfg: FsConfig, fWrite: bool): Dword {
    if fWrite then cfg.cbMaxWriteSize else cfg.cbMaxReadSize
  }

  predicate FOSDiskICanAppendRun(cfg: FsConfig, fWrite: bool, fOverrideIOMax: bool,
                                 ibBefore: int, cbBefore: int, ibAfter: int, cbAfter: int)
  {
    && ibBefore + cbBefore <= ibAfter
    && (fOverrideIOMax || ibAfter - ibBefore + cbAfter <= CbMax(cfg, fWrite))
    && ibAfter - ibBefore - cbBefore <= CbGap(cfg, fWrite)
  }

  // ----- what makes a run -----

  /** The bytes from the start of the first request to the end of the last. */
  function Span(run: seq<Request>): int
    requires |run| > 0
  {
    IbBlockMax(run[|run| - 1]) - run[0].ibOffset
  }

  /** One file, one direction. */
  predicate Uniform(run: seq<Request>) {
    forall i :: 0 <= i < |run| ==> run[i].file == run[0].file && run[i].fWrite == run[0].fWrite
  }

  /** In order, without overlap, and with no gap wider than the file system allows. */
  ghost predicate Chained(cfg: FsConfig, run: seq<Request>) {
    forall i :: 0 < i < |run| ==>
      0 <= run[i].ibOffset - IbBlockMax(run[i - 1]) <= CbGap(cfg, run[0].fWrite)
  }

  ghost predicate ValidRun(cfg: FsConfig, run: seq<Request>) {
    |run| > 0 && Uniform(run) && Chained(cfg, run)
  }

  /** A request may come after the given one in a run with the given head. */
  predicate MayFollow(cfg: FsConfig, fWrite: bool, fOverrideIOMax: bool, head: Request, tail: Request, next: Request) {
    && IbBlockMax(tail) <= next.ibOffset
    && IbBlockMax(tail) - head.ibOffset < DWMAX
    && FOSDiskICanAppendRun(cfg, fWrite, fOverrideIOMax, head.ibOffset, IbBlockMax(tail) - head.ibOffset,
                            next.ibOffset, next.cbData)
  }

  /** Every request may follow the one before it. */
  ghost predicate Admissible(cfg: FsConfig, fWrite: bool, fOverrideIOMax: bool, run: seq<Request>) {
    forall i :: 0 < i < |run| ==> MayFollow(cfg, fWrite, fOverrideIOMax, run[0], run[i - 1], run[i])
  }

  /** The requests of both sequences, lower offsets first. */
  function Merged(a: seq<Request>, b: seq<Request>): (m: seq<Request>)
    ensures |m| == |a| + |b|
  {
    if |a| == 0 then b
    else if |b| == 0 then a
    else if a[0].ibOffset <= b[0].ibOffset then [a[0]] + Merged(a[1..], b)
    else [b[0]] + Merged(a, b[1..])
  }

  /** What the merge decides: the offset-ordered union is an admissible run. The run to add says
      whether the size limit is overridden. */
  ghost predicate Mergeable(cfg: FsConfig, base: seq<Request>, toAdd: seq<Request>)
    requires |base| > 0 && |toAdd| > 0
  {
    Admissible(cfg, base[0].fWrite, toAdd[0].fOverrideIOMax, Merged(base, toAdd))
  }

  // ----- reservations travel to the head -----

  /** Whether the new head takes over the slot reservation of the old one. */
  predicate Takes(base: seq<Request>, toAdd: seq<Request>)
    requires |base| > 0 && |toAdd| > 0
  {
    toAdd[0].ibOffset < base[0].ibOffset && !toAdd[0].fHasHeapReservation
  }

  function BaseAfter(base: seq<Request>, toAdd: seq<Request>): (r: seq<Request>)
    requires |base| > 0 && |toAdd| > 0
    ensures |r| == |base|
  {
    if Takes(base, toAdd)
    then base[0 := base[0].(fHasHeapReservation := false, fCanCombineIO := toAdd[0].fCanCombineIO)]
    else base
  }

  function ToAddAfter(base: seq<Request>, toAdd: seq<Request>): (r: seq<Request>)
    requires |base| > 0 && |toAdd| > 0
    ensures |r| == |toAdd|
  {
    if Takes(base, toAdd) then toAdd[0 := toAdd[0].(fHasHeapReservation := base[0].fHasHeapReservation)]
    else toAdd
  }

  function MergedRun(base: seq<Request>, toAdd: seq<Request>): seq<Request>
    requires |base| > 0 && |toAdd| > 0
  {
    Merged(BaseAfter(base, toAdd), ToAddAfter(base, toAdd))
  }

  // ----- the merge -----

  class IORun {
    var reqs: seq<Request>

    constructor ()
      ensures reqs == []
    {
      reqs := [];
    }

    predicate FEmpty()
      reads this
    {
      |reqs| == 0
    }
  }

  lemma MergedStep(a: seq<Request>, b: seq<Request>)
    requires |a| + |b| > 0
    requires |a| > 0 && |b| > 0 ==> a[0].ibOffset != b[0].ibOffset
    ensures if |b| == 0 || (|a| > 0 && a[0].ibOffset < b[0].ibOffset)
            then Merged(a, b) == [a[0]] + Merged(a[1..], b)
            else Merged(a, b) == [b[0]] + Merged(a, b[1..])
  {
    if |a| == 0 {
      assert b == [b[0]] + b[1..];
    } else if |b| == 0 {
      assert a == [a[0]] + a[1..];
    }
  }

  /** Equal offsets at the front of both leave an overlap in the merge. */
  lemma EqualOverlaps(cfg: FsConfig, fWrite: bool, fOverrideIOMax: bool, m: seq<Request>, a: seq<Request>,
                      b: seq<Request>)
    requires |a| > 0 && |b| > 0 && a[0].ibOffset == b[0].ibOffset
    ensures !Admissible(cfg, fWrite, fOverrideIOMax, m + Merged(a, b))
  {
    var rest := Merged(a[1..], b);
    var all := m + Merged(a, b);
    assert all[|m|] == a[0] && all[|m| + 1] == rest[0];
    assert rest[0].ibOffset <= b[0].ibOffset;
    assert !MayFollow(cfg, fWrite, fOverrideIOMax, all[0], all[|m|], all[|m| + 1]);
  }

  lemma RejectsHere(cfg: FsConfig, fWrite: bool, fOverrideIOMax: bool, m: seq<Request>, next: Request,
                    rest: seq<Request>)
    requires |m| > 0 && !MayFollow(cfg, fWrite, fOverrideIOMax, m[0], m[|m| - 1], next)
    ensures !Admissible(cfg, fWrite, fOverrideIOMax, m + ([next] + rest))
  {
    var all := m + ([next] + rest);
    assert all[0] == m[0] && all[|m| - 1] == m[|m| - 1] && all[|m|] == next;
  }

  lemma AcceptsHere(cfg: FsConfig, fWrite: bool, fOverrideIOMax: bool, m: seq<Request>, next: Request)
    requires |m| > 0 && MayFollow(cfg, fWrite, fOverrideIOMax, m[0], m[|m| - 1], next)
    requires Admissible(cfg, fWrite, fOverrideIOMax, m)
    ensures Admissible(cfg, fWrite, fOverrideIOMax, m + [next])
  {
    hide MayFollow;
  }

  /** The pass over two runs, lowest offset first. It stops at the first request that may not
      follow; it links all of them exactly when the ordered union is admissible. */
  method MergePass(cfg: FsConfig, fWrite: bool, fOverrideIOMax: bool, rgBase: seq<Request>, rgToAdd: seq<Request>)
    returns (fMergable: bool, linked: seq<Request>)
    requires |rgBase| > 0 && |rgToAdd| > 0 && rgBase[0].ibOffset != rgToAdd[0].ibOffset
    ensures fMergable <==> Admissible(cfg, fWrite, fOverrideIOMax, Merged(rgBase, rgToAdd))
    ensures fMergable ==> linked == Merged(rgBase, rgToAdd)
  {
    hide Merged, MayFollow;
    MergedStep(rgBase, rgToAdd);
    var iBase, iToAdd, head := 0, 0, rgBase[0];
    if rgBase[0].ibOffset < rgToAdd[0].ibOffset {
      iBase := 1;
    } else {
      iToAdd, head := 1, rgToAdd[0];
    }
    var tail := head;
    linked := [head];
    while iBase < |rgBase| || iToAdd < |rgToAdd|
      invariant 0 <= iBase <= |rgBase| && 0 <= iToAdd <= |rgToAdd|
      invariant |linked| > 0 && head == linked[0] && tail == linked[|linked| - 1]
      invariant linked + Merged(rgBase[iBase..], rgToAdd[iToAdd..]) == Merged(rgBase, rgToAdd)
      invariant Admissible(cfg, fWrite, fOverrideIOMax, linked)
      decreases |rgBase| - iBase + |rgToAdd| - iToAdd
    {
      var fBase, fToAdd := iBase < |rgBase|, iToAdd < |rgToAdd|;
      if fBase && fToAdd && rgBase[iBase].ibOffset == rgToAdd[iToAdd].ibOffset {
        EqualOverlaps(cfg, fWrite, fOverrideIOMax, linked, rgBase[iBase..], rgToAdd[iToAdd..]);
        return false, linked;
      }
      MergedStep(rgBase[iBase..], rgToAdd[iToAdd..]);
      var lowest;
      if !fToAdd || (fBase && rgBase[iBase].ibOffset < rgToAdd[iToAdd].ibOffset) {
        lowest, iBase := rgBase[iBase], iBase + 1;
      } else {
        lowest, iToAdd := rgToAdd[iToAdd], iToAdd + 1;
      }
      ghost var rest := Merged(rgBase[iBase..], rgToAdd[iToAdd..]);
      if !MayFollow(cfg, fWrite, fOverrideIOMax, head, tail, lowest) {
        RejectsHere(cfg, fWrite, fOverrideIOMax, linked, lowest, rest);
        return false, linked;
      }
      assert linked + ([lowest] + rest) == (linked + [lowest]) + rest;
      AcceptsHere(cfg, fWrite, fOverrideIOMax, linked, lowest);
      linked := linked + [lowest];
      tail := lowest;
    }
    assert linked + Merged(rgBase[iBase..], rgToAdd[iToAdd..]) == linked;
    fMergable := true;
  }

  predicate SamePlace(r: Request, q: Request) {
    r.ibOffset == q.ibOffset && r.cbData == q.cbData
  }

  lemma Alike(cfg: FsConfig, fWrite: bool, fOverrideIOMax: bool, m: seq<Request>, n: seq<Request>)
    requires |m| == |n| && forall i :: 0 <= i < |m| ==> SamePlace(m[i], n[i])
    ensures Admissible(cfg, fWrite, fOverrideIOMax, m) ==> Admissible(cfg, fWrite, fOverrideIOMax, n)
  {
    if Admissible(cfg, fWrite, fOverrideIOMax, m) {
      forall i | 0 < i < |n| ensures MayFollow(cfg, fWrite, fOverrideIOMax, n[0], n[i - 1], n[i]) {
        assert SamePlace(m[0], n[0]) && SamePlace(m[i - 1], n[i - 1]) && SamePlace(m[i], n[i]);
        assert MayFollow(cfg, fWrite, fOverrideIOMax, m[0], m[i - 1], m[i]);
      }
    }
  }

  lemma {:induction false} SameOffsets(a: seq<Request>, b: seq<Request>, a': seq<Request>, b': seq<Request>)
    requires |a| == |a'| && forall i :: 0 <= i < |a| ==> SamePlace(a[i], a'[i])
    requires |b| == |b'| && forall i :: 0 <= i < |b| ==> SamePlace(b[i], b'[i])
    ensures forall i :: 0 <= i < |a| + |b| ==> SamePlace(Merged(a, b)[i], Merged(a', b')[i])
    decreases |a| + |b|
  {
    if |a| == 0 || |b| == 0 {
    } else {
      if a[0].ibOffset <= b[0].ibOffset {
        SameOffsets(a[1..], b, a'[1..], b');
      } else {
        SameOffsets(a, b[1..], a', b'[1..]);
      }
    }
  }

  /** The hand-over of the reservation does not affect the decision. */
  lemma SameDecision(cfg: FsConfig, fWrite: bool, fOverrideIOMax: bool, base: seq<Request>, toAdd: seq<Request>)
    requires |base| > 0 && |toAdd| > 0
    ensures Admissible(cfg, fWrite, fOverrideIOMax, MergedRun(base, toAdd))
            <==> Admissible(cfg, fWrite, fOverrideIOMax, Merged(base, toAdd))
  {
    SameOffsets(base, toAdd, BaseAfter(base, toAdd), ToAddAfter(base, toAdd));
    hide Merged;
    Alike(cfg, fWrite, fOverrideIOMax, Merged(base, toAdd), MergedRun(base, toAdd));
    Alike(cfg, fWrite, fOverrideIOMax, MergedRun(base, toAdd), Merged(base, toAdd));
  }

  /** Merging decides as `Mergeable` does, in the test pass and in the real one. The test pass
      and a rejection leave both runs as they were; acceptance in the real pass moves every
      request to the base run. The real pass is asked for only what the test pass accepts. */
  method FOSDiskIMergeRuns(cfg: FsConfig, base: IORun, toAdd: IORun, fTest: bool) returns (fMergable: bool)
    requires base != toAdd && |base.reqs| > 0 && |toAdd.reqs| > 0
    requires fTest || Mergeable(cfg, base.reqs, toAdd.reqs)
    modifies base, toAdd
    ensures fMergable <==> Mergeable(cfg, old(base.reqs), old(toAdd.reqs))
    ensures fTest || !fMergable ==> base.reqs == old(base.reqs) && toAdd.reqs == old(toAdd.reqs)
    ensures !fTest && fMergable ==> base.reqs == MergedRun(old(base.reqs), old(toAdd.reqs)) && toAdd.reqs == []
  {
    hide Merged, MayFollow, Admissible;
    if base.reqs[0].ibOffset == toAdd.reqs[0].ibOffset {
      EqualOverlaps(cfg, base.reqs[0].fWrite, toAdd.reqs[0].fOverrideIOMax, [], base.reqs, toAdd.reqs);
      assert [] + Merged(base.reqs, toAdd.reqs) == Merged(base.reqs, toAdd.reqs);
      return false;
    }
    var fWrite, fOverrideIOMax := base.reqs[0].fWrite, toAdd.reqs[0].fOverrideIOMax;
    var rgBase, rgToAdd := base.reqs, toAdd.reqs;
    if !fTest {
      rgBase, rgToAdd := BaseAfter(base.reqs, toAdd.reqs), ToAddAfter(base.reqs, toAdd.reqs);
    }
    SameDecision(cfg, fWrite, fOverrideIOMax, base.reqs, toAdd.reqs);
    var linked;
    fMergable, linked := MergePass(cfg, fWrite, fOverrideIOMax, rgBase, rgToAdd);
    if !fTest {
      base.reqs := linked;
      toAdd.reqs := [];
    }
  }

  // ----- what a merge yields -----

  lemma {:induction false} MergedElements(a: seq<Request>, b: seq<Request>)
    ensures multiset(Merged(a, b)) == multiset(a) + multiset(b)
    decreases |a| + |b|
  {
    if |a| == 0 || |b| == 0 {
    } else {
      assert a == [a[0]] + a[1..];
      assert b == [b[0]] + b[1..];
      if a[0].ibOffset <= b[0].ibOffset {
        MergedElements(a[1..], b);
      } else {
        MergedElements(a, b[1..]);
      }
    }
  }

  /** A request but for who holds the slot. */
  function Bare(r: Request): Request {
    r.(fHasHeapReservation := false, fCanCombineIO := false)
  }

  function BareAll(run: seq<Request>): (s: seq<Request>)
    ensures |s| == |run| && forall i :: 0 <= i < |run| ==> s[i] == Bare(run[i])
  {
    seq(|run|, i requires 0 <= i < |run| => Bare(run[i]))
  }

  lemma {:induction false} BareMerged(a: seq<Request>, b: seq<Request>)
    ensures BareAll(Merged(a, b)) == Merged(BareAll(a), BareAll(b))
    decreases |a| + |b|
  {
    if |a| == 0 || |b| == 0 {
    } else {
      if a[0].ibOffset <= b[0].ibOffset {
        BareMerged(a[1..], b);
        assert BareAll(a)[1..] == BareAll(a[1..]);
      } else {
        BareMerged(a, b[1..]);
        assert BareAll(b)[1..] == BareAll(b[1..]);
      }
    }
  }

  /** The merged run holds exactly the requests of the two runs. */
  lemma MergeKeepsRequests(base: seq<Request>, toAdd: seq<Request>)
    requires |base| > 0 && |toAdd| > 0
    ensures multiset(BareAll(MergedRun(base, toAdd))) == multiset(BareAll(base)) + multiset(BareAll(toAdd))
  {
    hide Merged;
    var a, b := BaseAfter(base, toAdd), ToAddAfter(base, toAdd);
    BareMerged(a, b);
    assert BareAll(a) == BareAll(base);
    assert BareAll(b) == BareAll(toAdd);
    MergedElements(BareAll(base), BareAll(toAdd));
  }

  function Reserved(run: seq<Request>): nat {
    if |run| == 0 then 0 else (if run[0].fHasHeapReservation then 1 else 0) + Reserved(run[1..])
  }

  lemma {:induction false} ReservedMerged(a: seq<Request>, b: seq<Request>)
    ensures Reserved(Merged(a, b)) == Reserved(a) + Reserved(b)
    decreases |a| + |b|
  {
    if |a| == 0 || |b| == 0 {
    } else {
      if a[0].ibOffset <= b[0].ibOffset {
        ReservedMerged(a[1..], b);
        assert Merged(a, b)[1..] == Merged(a[1..], b);
      } else {
        ReservedMerged(a, b[1..]);
        assert Merged(a, b)[1..] == Merged(a, b[1..]);
      }
    }
  }

  /** Slot reservations are neither lost nor made, and if the base run's head had one, the head
      of the merged run has one. */
  lemma MergeKeepsReservations(base: seq<Request>, toAdd: seq<Request>)
    requires |base| > 0 && |toAdd| > 0
    ensures Reserved(MergedRun(base, toAdd)) == Reserved(base) + Reserved(toAdd)
    ensures base[0].fHasHeapReservation && base[0].ibOffset != toAdd[0].ibOffset ==>
              MergedRun(base, toAdd)[0].fHasHeapReservation
  {
    var a, b := BaseAfter(base, toAdd), ToAddAfter(base, toAdd);
    ReservedMerged(a, b);
    assert a[1..] == base[1..];
    assert b[1..] == toAdd[1..];
  }

  lemma AdmissibleIsValid(cfg: FsConfig, fWrite: bool, fOverrideIOMax: bool, m: seq<Request>)
    requires |m| > 1 && Admissible(cfg, fWrite, fOverrideIOMax, m) && m[0].fWrite == fWrite
    ensures Chained(cfg, m)
    ensures !fOverrideIOMax ==> Span(m) <= CbMax(cfg, fWrite)
  {
    forall i | 0 < i < |m| ensures 0 <= m[i].ibOffset - IbBlockMax(m[i - 1]) <= CbGap(cfg, m[0].fWrite) {
      assert MayFollow(cfg, fWrite, fOverrideIOMax, m[0], m[i - 1], m[i]);
    }
    assert MayFollow(cfg, fWrite, fOverrideIOMax, m[0], m[|m| - 2], m[|m| - 1]);
  }

  lemma {:induction false} MergedUniform(a: seq<Request>, b: seq<Request>, file: int, fWrite: bool)
    requires forall i :: 0 <= i < |a| ==> a[i].file == file && a[i].fWrite == fWrite
    requires forall i :: 0 <= i < |b| ==> b[i].file == file && b[i].fWrite == fWrite
    ensures forall i :: 0 <= i < |a| + |b| ==> Merged(a, b)[i].file == file && Merged(a, b)[i].fWrite == fWrite
    decreases |a| + |b|
  {
    if |a| == 0 || |b| == 0 {
    } else {
      if a[0].ibOffset <= b[0].ibOffset {
        MergedUniform(a[1..], b, file, fWrite);
      } else {
        MergedUniform(a, b[1..], file, fWrite);
      }
    }
  }

  /** An accepted merge of two runs of one file and direction is a run again: in order, without
      overlap, within the gap limit (for writes, without gaps), and within the size limit unless
      the added run overrides it. */
  lemma MergeIsRun(cfg: FsConfig, base: seq<Request>, toAdd: seq<Request>)
    requires |base| > 0 && |toAdd| > 0 && Uniform(base) && Uniform(toAdd)
    requires base[0].file == toAdd[0].file && base[0].fWrite == toAdd[0].fWrite
    requires Mergeable(cfg, base, toAdd)
    ensures ValidRun(cfg, MergedRun(base, toAdd))
    ensures !toAdd[0].fOverrideIOMax ==>
              Span(MergedRun(base, toAdd)) <= if base[0].fWrite then cfg.cbMaxWriteSize else cfg.cbMaxReadSize
    ensures forall i :: 0 < i < |MergedRun(base, toAdd)| ==>
              0 <= MergedRun(base, toAdd)[i].ibOffset - IbBlockMax(MergedRun(base, toAdd)[i - 1])
                <= if base[0].fWrite then 0 else cfg.cbMaxReadGapSize
  {
    hide Merged, MayFollow, Admissible;
    var a, b := BaseAfter(base, toAdd), ToAddAfter(base, toAdd);
    SameDecision(cfg, base[0].fWrite, toAdd[0].fOverrideIOMax, base, toAdd);
    MergedUniform(a, b, base[0].file, base[0].fWrite);
    AdmissibleIsValid(cfg, base[0].fWrite, toAdd[0].fOverrideIOMax, MergedRun(base, toAdd));
  }

  // ----- nothing mergeable is refused -----

  /** Offsets do not decrease. */
  ghost predicate Ordered(run: seq<Request>) {
    forall i, j :: 0 <= i < j < |run| ==> run[i].ibOffset <= run[j].ibOffset
  }

  ghost predicate StrictlyOrdered(run: seq<Request>) {
    forall i, j :: 0 <= i < j < |run| ==> run[i].ibOffset < run[j].ibOffset
  }

  ghost predicate AllFrom(x: int, run: seq<Request>) {
    forall i :: 0 <= i < |run| ==> x <= run[i].ibOffset
  }

  lemma MergedFrom(x: int, a: seq<Request>, b: seq<Request>)
    requires AllFrom(x, a) && AllFrom(x, b)
    ensures AllFrom(x, Merged(a, b))
  {
    MergedElements(a, b);
    forall i | 0 <= i < |Merged(a, b)| ensures x <= Merged(a, b)[i].ibOffset {
      assert Merged(a, b)[i] in multiset(Merged(a, b));
    }
  }

  lemma OrderedCons(first: Request, rest: seq<Request>)
    requires Ordered(rest) && AllFrom(first.ibOffset, rest)
    ensures Ordered([first] + rest)
  {}

  lemma {:induction false} MergedOrdered(a: seq<Request>, b: seq<Request>)
    requires Ordered(a) && Ordered(b)
    ensures Ordered(Merged(a, b))
    decreases |a| + |b|
  {
    if |a| == 0 || |b| == 0 {
    } else {
      if a[0].ibOffset <= b[0].ibOffset {
        MergedOrdered(a[1..], b);
        MergedFrom(a[0].ibOffset, a[1..], b);
        OrderedCons(a[0], Merged(a[1..], b));
      } else {
        MergedOrdered(a, b[1..]);
        MergedFrom(b[0].ibOffset, a, b[1..]);
        OrderedCons(b[0], Merged(a, b[1..]));
      }
    }
  }

  lemma {:induction false} ChainIsStrict(run: seq<Request>, i: int, j: int)
    requires forall k :: 0 < k < |run| ==> IbBlockMax(run[k - 1]) <= run[k].ibOffset
    requires 0 <= i < j < |run|
    ensures run[i].ibOffset < run[j].ibOffset
    decreases j
  {
    assert IbBlockMax(run[j - 1]) <= run[j].ibOffset;
    if i >= j - 1 {
    } else {
      ChainIsStrict(run, i, j - 1);
    }
  }

  lemma SameFirst(p: seq<Request>, q: seq<Request>)
    requires StrictlyOrdered(p) && Ordered(q) && multiset(p) == multiset(q) && |p| > 0 && |q| > 0
    ensures p[0] == q[0]
  {
    assert q[0] in multiset(p) && p[0] in multiset(q);
    var i :| 0 <= i < |p| && p[i] == q[0];
    var j :| 0 <= j < |q| && q[j] == p[0];
  }

  lemma RestOf(p: seq<Request>)
    requires |p| > 0
    ensures multiset(p) == multiset(p[1..]) + multiset{p[0]}
  {
    assert p == [p[0]] + p[1..];
  }

  lemma Cancel(a: multiset<Request>, b: multiset<Request>, r: Request)
    requires a + multiset{r} == b + multiset{r}
    ensures a == b
  {
    assert a == (a + multiset{r}) - multiset{r};
    assert b == (b + multiset{r}) - multiset{r};
  }

  /** An offset order without repetitions is the only one of its requests. */
  lemma {:induction false} OrderIsUnique(p: seq<Request>, q: seq<Request>)
    requires StrictlyOrdered(p) && Ordered(q) && multiset(p) == multiset(q)
    ensures p == q
  {
    assert |p| == |multiset(p)| == |multiset(q)| == |q|;
    if |p| == 0 {
    } else {
      SameFirst(p, q);
      RestOf(p);
      RestOf(q);
      Cancel(multiset(p[1..]), multiset(q[1..]), p[0]);
      OrderIsUnique(p[1..], q[1..]);
      assert p == [p[0]] + p[1..];
      assert q == [q[0]] + q[1..];
    }
  }

  /** The merge is refused only when no arrangement of the two runs' requests is admissible. */
  lemma RefusedOnlyIfImpossible(cfg: FsConfig, base: seq<Request>, toAdd: seq<Request>, p: seq<Request>)
    requires |base| > 0 && |toAdd| > 0 && Ordered(base) && Ordered(toAdd)
    requires multiset(p) == multiset(base) + multiset(toAdd)
    requires Admissible(cfg, base[0].fWrite, toAdd[0].fOverrideIOMax, p)
    ensures Mergeable(cfg, base, toAdd) && p == Merged(base, toAdd)
  {
    MergedElements(base, toAdd);
    MergedOrdered(base, toAdd);
    forall k | 0 < k < |p| ensures IbBlockMax(p[k - 1]) <= p[k].ibOffset {
      assert MayFollow(cfg, base[0].fWrite, toAdd[0].fOverrideIOMax, p[0], p[k - 1], p[k]);
    }
    forall i, j | 0 <= i < j < |p| ensures p[i].ibOffset < p[j].ibOffset {
      ChainIsStrict(p, i, j);
    }
    OrderIsUnique(p, Merged(base, toAdd));
  }

  // ----- adding to a run -----

  /** Whether two byte ranges overlap, the way the code decides it. */
  predicate FOSDiskIOverlappingRuns(ibStart1: int, ibEnd1: int, ibStart2: int, ibEnd2: int) {
    if ibStart1 < ibStart2 then ibEnd1 > ibStart2 else ibEnd2 > ibStart1
  }

  predicate FOSDiskICompatibleRuns(run: seq<Request>, r: Request)
    requires |run| > 0
  {
    run[0].file == r.file && run[0].fWrite == r.fWrite
  }

  /** The shortcut for one request: compare it with the bounds of the run only, unless it falls
      inside them. */
  ghost predicate CanAdd(cfg: FsConfig, run: seq<Request>, r: Request)
    requires |run| > 0
  {
    if !FOSDiskICompatibleRuns(run, r) || run[0].ibOffset == r.ibOffset then false
    else if run[0].ibOffset < r.ibOffset && r.ibOffset - run[0].ibOffset >= Span(run) then
      FOSDiskICanAppendRun(cfg, r.fWrite, r.fOverrideIOMax, run[0].ibOffset, Span(run), r.ibOffset, r.cbData)
    else if r.ibOffset < run[0].ibOffset && run[0].ibOffset - r.ibOffset >= r.cbData then
      FOSDiskICanAppendRun(cfg, r.fWrite, r.fOverrideIOMax, r.ibOffset, r.cbData, run[0].ibOffset, Span(run))
    else Mergeable(cfg, run, [r])
  }

  lemma {:induction false} MergedAppend(run: seq<Request>, r: Request)
    requires forall i :: 0 <= i < |run| ==> run[i].ibOffset <= r.ibOffset
    ensures Merged(run, [r]) == run + [r]
  {
    if |run| == 0 {
    } else {
      MergedAppend(run[1..], r);
      assert run == [run[0]] + run[1..];
    }
  }

  lemma MergedPrepend(run: seq<Request>, r: Request)
    requires |run| > 0 && r.ibOffset < run[0].ibOffset
    ensures Merged(run, [r]) == [r] + run
  {}

  lemma {:induction false} FromHead(cfg: FsConfig, run: seq<Request>, i: int)
    requires Chained(cfg, run) && 0 <= i < |run|
    ensures run[0].ibOffset <= run[i].ibOffset
    decreases i
  {
    if i <= 0 {
    } else {
      FromHead(cfg, run, i - 1);
      assert 0 <= run[i].ibOffset - IbBlockMax(run[i - 1]);
    }
  }

  lemma {:induction false} ChainBounds(cfg: FsConfig, run: seq<Request>, i: int)
    requires Chained(cfg, run) && 0 <= i < |run|
    ensures run[0].ibOffset <= run[i].ibOffset
    ensures IbBlockMax(run[i]) <= IbBlockMax(run[|run| - 1])
    ensures i < |run| - 1 ==> IbBlockMax(run[i]) < IbBlockMax(run[|run| - 1])
    decreases |run| - i
  {
    FromHead(cfg, run, i);
    if i >= |run| - 1 {
    } else {
      ChainBounds(cfg, run, i + 1);
      assert IbBlockMax(run[i]) <= run[i + 1].ibOffset;
    }
  }

  lemma AdmissibleLast(cfg: FsConfig, fWrite: bool, fOverrideIOMax: bool, run: seq<Request>, r: Request)
    requires |run| > 0 && Admissible(cfg, fWrite, fOverrideIOMax, run + [r])
    ensures MayFollow(cfg, fWrite, fOverrideIOMax, run[0], run[|run| - 1], r)
  {
    hide MayFollow;
    var m := run + [r];
    assert m[0] == run[0] && m[|m| - 2] == run[|run| - 1] && m[|m| - 1] == r;
  }

  lemma LastStep(cfg: FsConfig, run: seq<Request>, r: Request)
    requires |run| > 0 && Span(run) < DWMAX
    ensures MayFollow(cfg, r.fWrite, r.fOverrideIOMax, run[0], run[|run| - 1], r)
            <==> FOSDiskICanAppendRun(cfg, r.fWrite, r.fOverrideIOMax, run[0].ibOffset, Span(run), r.ibOffset, r.cbData)
  {}

  lemma AppendStep(cfg: FsConfig, run: seq<Request>, r: Request, i: int)
    requires ValidRun(cfg, run) && FOSDiskICompatibleRuns(run, r) && Span(run) < DWMAX
    requires FOSDiskICanAppendRun(cfg, r.fWrite, r.fOverrideIOMax, run[0].ibOffset, Span(run), r.ibOffset, r.cbData)
    requires 0 < i < |run|
    ensures MayFollow(cfg, r.fWrite, r.fOverrideIOMax, run[0], run[i - 1], run[i])
  {
    ChainBounds(cfg, run, i);
    ChainBounds(cfg, run, i - 1);
    assert 0 <= run[i].ibOffset - IbBlockMax(run[i - 1]) <= CbGap(cfg, run[0].fWrite);
  }

  lemma AppendAdmissible(cfg: FsConfig, run: seq<Request>, r: Request)
    requires ValidRun(cfg, run) && FOSDiskICompatibleRuns(run, r) && Span(run) < DWMAX
    requires FOSDiskICanAppendRun(cfg, r.fWrite, r.fOverrideIOMax, run[0].ibOffset, Span(run), r.ibOffset, r.cbData)
    ensures Admissible(cfg, r.fWrite, r.fOverrideIOMax, run + [r])
  {
    hide MayFollow, FOSDiskICanAppendRun, Chained, Uniform;
    LastStep(cfg, run, r);
    var m := run + [r];
    forall i | 0 < i < |m| ensures MayFollow(cfg, r.fWrite, r.fOverrideIOMax, m[0], m[i - 1], m[i]) {
      if i < |run| {
        AppendStep(cfg, run, r, i);
      }
    }
  }

  /** Behind the run, the shortcut is the merge. */
  lemma AppendAgrees(cfg: FsConfig, run: seq<Request>, r: Request)
    requires ValidRun(cfg, run) && FOSDiskICompatibleRuns(run, r) && Span(run) < DWMAX
    requires IbBlockMax(run[|run| - 1]) <= r.ibOffset
    ensures Merged(run, [r]) == run + [r]
    ensures Mergeable(cfg, run, [r])
            <==> FOSDiskICanAppendRun(cfg, r.fWrite, r.fOverrideIOMax, run[0].ibOffset, Span(run), r.ibOffset, r.cbData)
  {
    hide MayFollow, FOSDiskICanAppendRun, Admissible;
    forall i | 0 <= i < |run| ensures run[i].ibOffset <= r.ibOffset { ChainBounds(cfg, run, i); }
    MergedAppend(run, r);
    hide Merged, Chained, Uniform;
    LastStep(cfg, run, r);
    if FOSDiskICanAppendRun(cfg, r.fWrite, r.fOverrideIOMax, run[0].ibOffset, Span(run), r.ibOffset, r.cbData) {
      AppendAdmissible(cfg, run, r);
    }
    if Admissible(cfg, r.fWrite, r.fOverrideIOMax, run + [r]) {
      AdmissibleLast(cfg, r.fWrite, r.fOverrideIOMax, run, r);
    }
  }

  /** The bytes from a request put before a run to the end of the run's last request but one. */
  function SpanButLast(run: seq<Request>, r: Request): int
    requires |run| > 0
  {
    IbBlockMax(([r] + run)[|run| - 1]) - r.ibOffset
  }

  lemma {:induction false} ButLastBound(cfg: FsConfig, run: seq<Request>, i: int)
    requires Chained(cfg, run) && 0 <= i <= |run| - 2
    ensures IbBlockMax(run[i]) <= IbBlockMax(run[|run| - 2])
    decreases |run| - i
  {
    if i >= |run| - 2 {
    } else {
      ButLastBound(cfg, run, i + 1);
      assert IbBlockMax(run[i]) <= run[i + 1].ibOffset;
    }
  }

  lemma PrependStep(cfg: FsConfig, run: seq<Request>, r: Request, i: int)
    requires ValidRun(cfg, run) && FOSDiskICompatibleRuns(run, r) && IbBlockMax(r) <= run[0].ibOffset
    requires FOSDiskICanAppendRun(cfg, r.fWrite, r.fOverrideIOMax, r.ibOffset, r.cbData, run[0].ibOffset, Span(run))
    requires SpanButLast(run, r) < DWMAX && 0 < i <= |run|
    ensures MayFollow(cfg, r.fWrite, r.fOverrideIOMax, r, ([r] + run)[i - 1], run[i - 1])
  {
    ChainBounds(cfg, run, i - 1);
    if i > 1 {
      assert 0 <= run[i - 1].ibOffset - IbBlockMax(run[i - 2]) <= CbGap(cfg, run[0].fWrite);
      ButLastBound(cfg, run, i - 2);
    } else if |run| > 1 {
      ButLastBound(cfg, run, 0);
    }
  }

  /** Before the run, the shortcut leaves out one check of the merge: that what precedes the last
      request is shorter than the largest double word. */
  lemma PrependAgrees(cfg: FsConfig, run: seq<Request>, r: Request)
    requires ValidRun(cfg, run) && FOSDiskICompatibleRuns(run, r)
    requires IbBlockMax(r) <= run[0].ibOffset
    ensures Merged(run, [r]) == [r] + run
    ensures Mergeable(cfg, run, [r])
            <==> (&& FOSDiskICanAppendRun(cfg, r.fWrite, r.fOverrideIOMax, r.ibOffset, r.cbData, run[0].ibOffset,
                                          Span(run))
                  && SpanButLast(run, r) < DWMAX)
  {
    MergedPrepend(run, r);
    var m, n := [r] + run, |run|;
    assert m[n] == run[n - 1];
    if Admissible(cfg, r.fWrite, r.fOverrideIOMax, m) {
      assert MayFollow(cfg, r.fWrite, r.fOverrideIOMax, m[0], m[0], m[1]);
      assert MayFollow(cfg, r.fWrite, r.fOverrideIOMax, m[0], m[n - 1], m[n]);
    }
    if && FOSDiskICanAppendRun(cfg, r.fWrite, r.fOverrideIOMax, r.ibOffset, r.cbData, run[0].ibOffset, Span(run))
       && SpanButLast(run, r) < DWMAX
    {
      forall i | 0 < i < |m| ensures MayFollow(cfg, r.fWrite, r.fOverrideIOMax, m[0], m[i - 1], m[i]) {
        PrependStep(cfg, run, r, i);
      }
    }
  }

  /** The one family of inputs on which the shortcut accepts what the merge would refuse. */
  ghost predicate Escapes(cfg: FsConfig, run: seq<Request>, r: Request)
    requires |run| > 0
  {
    && r.fOverrideIOMax
    && 0 <= run[0].ibOffset - IbBlockMax(r) <= CbGap(cfg, r.fWrite)
    && SpanButLast(run, r) >= DWMAX
  }

  lemma Within(cfg: FsConfig, run: seq<Request>, r: Request)
    requires ValidRun(cfg, run) && IbBlockMax(r) <= run[0].ibOffset
    requires Span(run) + run[0].ibOffset - r.ibOffset <= DWMAX
    ensures SpanButLast(run, r) < DWMAX
  {
    FromHead(cfg, run, |run| - 1);
    if |run| > 1 {
      ChainBounds(cfg, run, |run| - 2);
    }
  }

  /** The shortcut decides as the merge does if and only if the request is not one of those. */
  lemma ShortcutAgreesIff(cfg: FsConfig, run: seq<Request>, r: Request)
    requires ValidRun(cfg, run) && FOSDiskICompatibleRuns(run, r) && Span(run) < DWMAX
    ensures (CanAdd(cfg, run, r) <==> Mergeable(cfg, run, [r])) <==> !Escapes(cfg, run, r)
  {
    hide Merged, MayFollow, Admissible;
    if IbBlockMax(run[|run| - 1]) <= r.ibOffset {
      AppendAgrees(cfg, run, r);
      FromHead(cfg, run, |run| - 1);
    } else if IbBlockMax(r) <= run[0].ibOffset {
      PrependAgrees(cfg, run, r);
      if !r.fOverrideIOMax && run[0].ibOffset - r.ibOffset + Span(run) <= CbMax(cfg, r.fWrite) {
        Within(cfg, run, r);
      }
    } else if run[0].ibOffset == r.ibOffset {
      EqualOverlaps(cfg, r.fWrite, r.fOverrideIOMax, [], run, [r]);
      assert [] + Merged(run, [r]) == Merged(run, [r]);
    }
  }

  /** An overriding write of 0xFFFF0000 bytes in front of two adjacent writes: the shortcut takes
      it, the merge does not. */
  lemma ShortcutDiffers(cfg: FsConfig)
    ensures var r := Request(0, 0, true, 0, 0xFFFF_0000, true, true, true);
            var run := [Request(1, 0, true, 0xFFFF_0000, 0x1_0000, false, true, true),
                        Request(2, 0, true, 0x1_0000_0000, 1, false, false, true)];
            ValidRun(cfg, run) && CanAdd(cfg, run, r) && !Mergeable(cfg, run, [r])
  {
    var r := Request(0, 0, true, 0, 0xFFFF_0000, true, true, true);
    var run := [Request(1, 0, true, 0xFFFF_0000, 0x1_0000, false, true, true),
                Request(2, 0, true, 0x1_0000_0000, 1, false, false, true)];
    PrependAgrees(cfg, run, r);
  }

  lemma AloneDecides(cfg: FsConfig, run: seq<Request>, r: Request, q: Request)
    requires |run| > 0 && SamePlace(r, q) && r.fOverrideIOMax == q.fOverrideIOMax
    ensures Mergeable(cfg, run, [r]) <==> Mergeable(cfg, run, [q])
  {
    SameOffsets(run, [r], run, [q]);
    hide Merged;
    Alike(cfg, run[0].fWrite, r.fOverrideIOMax, Merged(run, [r]), Merged(run, [q]));
    Alike(cfg, run[0].fWrite, r.fOverrideIOMax, Merged(run, [q]), Merged(run, [r]));
  }

  /** Asks whether one request can join a run; changes nothing. */
  method FOSDiskICanAddToRun(cfg: FsConfig, run: IORun, r: Request) returns (fCan: bool)
    requires |run.reqs| > 0 && Span(run.reqs) < DWMAX
    modifies run
    ensures run.reqs == old(run.reqs)
    ensures fCan <==> CanAdd(cfg, run.reqs, r)
  {
    var head, cbRun := run.reqs[0], Span(run.reqs);
    if !FOSDiskICompatibleRuns(run.reqs, r) || head.ibOffset == r.ibOffset {
      return false;
    } else if head.ibOffset < r.ibOffset && r.ibOffset - head.ibOffset >= cbRun {
      return FOSDiskICanAppendRun(cfg, r.fWrite, r.fOverrideIOMax, head.ibOffset, cbRun, r.ibOffset, r.cbData);
    } else if r.ibOffset < head.ibOffset && head.ibOffset - r.ibOffset >= r.cbData {
      return FOSDiskICanAppendRun(cfg, r.fWrite, r.fOverrideIOMax, r.ibOffset, r.cbData, head.ibOffset, cbRun);
    } else {
      var combine := new IORun();
      combine.reqs := [r.(fCanCombineIO := true)];
      AloneDecides(cfg, run.reqs, r, r.(fCanCombineIO := true));
      fCan := FOSDiskIMergeRuns(cfg, run, combine, true);
    }
  }

  /** A single request that does not touch the bounds of the run. */
  predicate Clear(run: seq<Request>, r: Request)
    requires |run| > 0
  {
    !FOSDiskIOverlappingRuns(run[0].ibOffset, run[0].ibOffset + Span(run), r.ibOffset, IbBlockMax(r))
  }

  /** Whether a nonempty run takes the requests offered. */
  ghost predicate Accepts(cfg: FsConfig, run: seq<Request>, toAdd: seq<Request>)
    requires |run| > 0 && |toAdd| > 0
  {
    && FOSDiskICompatibleRuns(run, toAdd[0])
    && if |toAdd| == 1 && Clear(run, toAdd[0]) then CanAdd(cfg, run, toAdd[0]) else Mergeable(cfg, run, toAdd)
  }

  lemma FlagsKeepRun(cfg: FsConfig, run: seq<Request>, a: seq<Request>)
    requires ValidRun(cfg, run) && |a| == |run|
    requires forall i :: 0 <= i < |run| ==> Bare(a[i]) == Bare(run[i])
    ensures ValidRun(cfg, a)
  {
    forall i | 0 < i < |a| ensures 0 <= a[i].ibOffset - IbBlockMax(a[i - 1]) <= CbGap(cfg, a[0].fWrite) {
      assert Bare(a[i]) == Bare(run[i]) && Bare(a[i - 1]) == Bare(run[i - 1]) && Bare(a[0]) == Bare(run[0]);
      assert 0 <= run[i].ibOffset - IbBlockMax(run[i - 1]) <= CbGap(cfg, run[0].fWrite);
    }
    forall i | 0 <= i < |a| ensures a[i].file == a[0].file && a[i].fWrite == a[0].fWrite {
      assert Bare(a[i]) == Bare(run[i]) && Bare(a[0]) == Bare(run[0]);
    }
  }

  lemma JoinValid(cfg: FsConfig, a: seq<Request>, b: seq<Request>)
    requires ValidRun(cfg, a) && ValidRun(cfg, b) && FOSDiskICompatibleRuns(a, b[0])
    requires 0 <= b[0].ibOffset - IbBlockMax(a[|a| - 1]) <= CbGap(cfg, a[0].fWrite)
    ensures ValidRun(cfg, a + b)
  {
    var m := a + b;
    forall i | 0 < i < |m| ensures 0 <= m[i].ibOffset - IbBlockMax(m[i - 1]) <= CbGap(cfg, m[0].fWrite) {
      if i < |a| {
        assert 0 <= a[i].ibOffset - IbBlockMax(a[i - 1]) <= CbGap(cfg, a[0].fWrite);
      } else if i > |a| {
        var k := i - |a|;
        assert m[i] == b[k] && m[i - 1] == b[k - 1];
        assert 0 <= b[k].ibOffset - IbBlockMax(b[k - 1]) <= CbGap(cfg, b[0].fWrite);
      }
    }
  }

  /** What the shortcut builds is the merge. */
  lemma JoinIsMerge(cfg: FsConfig, run: seq<Request>, r: Request)
    requires ValidRun(cfg, run) && Span(run) < DWMAX && CanAdd(cfg, run, r)
    requires Clear(run, r)
    ensures ValidRun(cfg, MergedRun(run, [r]))
    ensures MergedRun(run, [r]) == (if run[0].ibOffset + Span(run) <= r.ibOffset then run + [r]
                                    else ToAddAfter(run, [r]) + BaseAfter(run, [r]))
  {
    hide Merged, MayFollow, Admissible;
    FromHead(cfg, run, |run| - 1);
    if run[0].ibOffset + Span(run) <= r.ibOffset {
      AppendAgrees(cfg, run, r);
      JoinValid(cfg, run, [r]);
    } else {
      var a, b := BaseAfter(run, [r]), ToAddAfter(run, [r]);
      MergedPrepend(a, b[0]);
      assert b == [b[0]];
      FlagsKeepRun(cfg, run, a);
      JoinValid(cfg, b, a);
    }
  }

  /** The shortcut: behind the run, or before it with the reservation handed over. */
  method JoinRequest(cfg: FsConfig, run: IORun, toAdd: Request) returns (fAdded: bool)
    requires ValidRun(cfg, run.reqs) && Span(run.reqs) < DWMAX
    requires Clear(run.reqs, toAdd)
    modifies run
    ensures fAdded <==> CanAdd(cfg, old(run.reqs), toAdd)
    ensures run.reqs == if fAdded then MergedRun(old(run.reqs), [toAdd]) else old(run.reqs)
    ensures fAdded ==> ValidRun(cfg, run.reqs)
  {
    hide Merged, MayFollow, Admissible, Mergeable, CanAdd, Uniform, Chained;
    var head, r := run.reqs[0], toAdd;
    fAdded := FOSDiskICanAddToRun(cfg, run, r);
    if fAdded {
      JoinIsMerge(cfg, run.reqs, r);
      if head.ibOffset + Span(run.reqs) <= r.ibOffset {
        run.reqs := run.reqs + [r];
      } else {
        if !r.fHasHeapReservation {
          r := r.(fHasHeapReservation := head.fHasHeapReservation);
          head := head.(fHasHeapReservation := false, fCanCombineIO := r.fCanCombineIO);
        }
        run.reqs := [r] + run.reqs[0 := head];
      }
    }
  }

  /** The general way: a test pass, then the real one. */
  method MergeInto(cfg: FsConfig, run: IORun, toAdd: seq<Request>) returns (fAdded: bool)
    requires ValidRun(cfg, run.reqs) && ValidRun(cfg, toAdd) && FOSDiskICompatibleRuns(run.reqs, toAdd[0])
    modifies run
    ensures fAdded <==> Mergeable(cfg, old(run.reqs), toAdd)
    ensures run.reqs == if fAdded then MergedRun(old(run.reqs), toAdd) else old(run.reqs)
    ensures fAdded ==> ValidRun(cfg, run.reqs)
  {
    hide Merged, MayFollow, Admissible, Mergeable, Chained;
    var merging := new IORun();
    merging.reqs := toAdd;
    fAdded := FOSDiskIMergeRuns(cfg, run, merging, true);
    if fAdded {
      MergeIsRun(cfg, run.reqs, toAdd);
      fAdded := FOSDiskIMergeRuns(cfg, run, merging, false);
    }
  }

  /** The size of the run is asked for only when one request of its file and direction is added,
      and must then be below the largest double word. */
  predicate SizeAllows(run: seq<Request>, toAdd: seq<Request>)
    requires |run| > 0 && |toAdd| > 0
  {
    |toAdd| == 1 && FOSDiskICompatibleRuns(run, toAdd[0]) ==> Span(run) < DWMAX
  }

  function Max(x: int, y: int): int { if x < y then y else x }

  function Min(x: int, y: int): int { if x < y then x else y }

  /** The bytes from the first start to the last end of two runs. */
  function JointSpan(run: seq<Request>, toAdd: seq<Request>): int
    requires |run| > 0 && |toAdd| > 0
  {
    Max(IbBlockMax(run[|run| - 1]), IbBlockMax(toAdd[|toAdd| - 1])) - Min(run[0].ibOffset, toAdd[0].ibOffset)
  }

  lemma MergedUnfold(a: seq<Request>, b: seq<Request>)
    requires |a| > 0 && |b| > 0
    ensures Merged(a, b) == if a[0].ibOffset <= b[0].ibOffset then [a[0]] + Merged(a[1..], b)
                            else [b[0]] + Merged(a, b[1..])
    ensures Merged([], b) == b && Merged(a, []) == a
  {}

  lemma {:induction false} MergedLast(a: seq<Request>, b: seq<Request>)
    requires |a| > 0 && |b| > 0
    ensures var last := Merged(a, b)[|a| + |b| - 1]; last == a[|a| - 1] || last == b[|b| - 1]
    decreases |a| + |b|
  {
    hide Merged;
    MergedUnfold(a, b);
    if a[0].ibOffset <= b[0].ibOffset {
      if |a| == 1 {
        assert a[1..] == [];
      } else {
        MergedLast(a[1..], b);
      }
    } else {
      if |b| == 1 {
        assert b[1..] == [];
      } else {
        MergedLast(a, b[1..]);
      }
    }
  }

  lemma MergedHas(a: seq<Request>, b: seq<Request>, r: Request)
    requires r in a || r in b
    ensures r in Merged(a, b)
  {
    hide Merged;
    MergedElements(a, b);
    assert r in multiset(a) + multiset(b);
    assert r in multiset(Merged(a, b));
  }

  lemma MergedEnds(a: seq<Request>, b: seq<Request>)
    requires |a| > 0 && |b| > 0
    ensures Merged(a, b)[0].ibOffset == Min(a[0].ibOffset, b[0].ibOffset)
    ensures var last := Merged(a, b)[|a| + |b| - 1]; last == a[|a| - 1] || last == b[|b| - 1]
    ensures a[|a| - 1] in Merged(a, b) && b[|b| - 1] in Merged(a, b)
  {
    MergedLast(a, b);
    MergedHas(a, b, a[|a| - 1]);
    MergedHas(a, b, b[|b| - 1]);
  }

  /** An accepted merge spans exactly what the two runs span together. */
  lemma SpanOfMerge(cfg: FsConfig, run: seq<Request>, toAdd: seq<Request>)
    requires |run| > 0 && |toAdd| > 0 && ValidRun(cfg, MergedRun(run, toAdd))
    ensures Span(MergedRun(run, toAdd)) == JointSpan(run, toAdd)
  {
    hide Merged, Uniform, Chained;
    var a, b := BaseAfter(run, toAdd), ToAddAfter(run, toAdd);
    MergedEnds(a, b);
    var m := Merged(a, b);
    forall r | r in m ensures IbBlockMax(r) <= IbBlockMax(m[|m| - 1]) {
      var i :| 0 <= i < |m| && m[i] == r;
      ChainBounds(cfg, m, i);
    }
  }

  /** Taking the requests offered. An empty run becomes the run offered; otherwise the result is
      the ordered union, with the head's reservation handed on, or no change at all. The
      size afterwards is the joint span. */
  method FAddToRun(cfg: FsConfig, run: IORun, toAdd: seq<Request>) returns (fAdded: bool)
    requires ValidRun(cfg, toAdd)
    requires |run.reqs| > 0 ==> ValidRun(cfg, run.reqs) && SizeAllows(run.reqs, toAdd)
    modifies run
    ensures old(run.reqs) == [] ==> fAdded && run.reqs == toAdd
    ensures old(run.reqs) != [] ==> (fAdded <==> Accepts(cfg, old(run.reqs), toAdd))
    ensures old(run.reqs) != [] && fAdded ==> run.reqs == MergedRun(old(run.reqs), toAdd)
    ensures !fAdded ==> run.reqs == old(run.reqs)
    ensures fAdded ==> ValidRun(cfg, run.reqs)
    ensures old(run.reqs) != [] && fAdded ==> Span(run.reqs) == JointSpan(old(run.reqs), toAdd)
  {
    hide Merged, MayFollow, Admissible;
    if run.FEmpty() {
      run.reqs := toAdd;
      return true;
    }
    if !FOSDiskICompatibleRuns(run.reqs, toAdd[0]) {
      return false;
    }
    if |toAdd| == 1 && Clear(run.reqs, toAdd[0]) {
      assert toAdd == [toAdd[0]];
      fAdded := JoinRequest(cfg, run, toAdd[0]);
    } else {
      fAdded := MergeInto(cfg, run, toAdd);
    }
    if fAdded {
      SpanOfMerge(cfg, old(run.reqs), toAdd);
    }
  }

  // ----- the size limit -----

  predicate WithinSize(cfg: FsConfig, fWrite: bool, cb: int) {
    cb <= if fWrite then cfg.cbMaxWriteSize else cfg.cbMaxReadSize
  }

  /** Without the override an accepted merge stays within the size limit. */
  lemma PlainWithinLimit(cfg: FsConfig, run: seq<Request>, toAdd: seq<Request>)
    requires ValidRun(cfg, run) && ValidRun(cfg, toAdd) && SizeAllows(run, toAdd)
    requires Accepts(cfg, run, toAdd) && !toAdd[0].fOverrideIOMax
    ensures WithinSize(cfg, run[0].fWrite, JointSpan(run, toAdd))
  {
    hide Merged, MayFollow, Admissible, Uniform, Chained;
    if |toAdd| == 1 && Clear(run, toAdd[0]) {
      FromHead(cfg, run, |run| - 1);
    } else {
      MergeIsRun(cfg, run, toAdd);
      SpanOfMerge(cfg, run, toAdd);
    }
  }

  lemma AcceptedIsRun(cfg: FsConfig, run: seq<Request>, toAdd: seq<Request>)
    requires ValidRun(cfg, run) && ValidRun(cfg, toAdd) && SizeAllows(run, toAdd)
    requires Accepts(cfg, run, toAdd)
    ensures ValidRun(cfg, MergedRun(run, toAdd))
  {
    hide Merged, MayFollow, Admissible, Chained;
    if |toAdd| == 1 && Clear(run, toAdd[0]) {
      assert toAdd == [toAdd[0]];
      JoinIsMerge(cfg, run, toAdd[0]);
    } else {
      MergeIsRun(cfg, run, toAdd);
    }
  }

  /** An accepted addition keeps the size of a run below the largest double word if and only if it
      is not one free of the limit, by override or because the limit is that large, whose bounds
      reach that far together with those of the run. */
  lemma LimitKeptIff(cfg: FsConfig, run: seq<Request>, toAdd: seq<Request>)
    requires ValidRun(cfg, run) && ValidRun(cfg, toAdd) && SizeAllows(run, toAdd)
    requires Accepts(cfg, run, toAdd)
    ensures |MergedRun(run, toAdd)| > 0
    ensures var cbMax := if run[0].fWrite then cfg.cbMaxWriteSize else cfg.cbMaxReadSize;
            Span(MergedRun(run, toAdd)) < DWMAX
            <==> !((toAdd[0].fOverrideIOMax || cbMax == DWMAX) && JointSpan(run, toAdd) >= DWMAX)
  {
    hide Merged, MayFollow, Admissible, Uniform, Chained;
    AcceptedIsRun(cfg, run, toAdd);
    SpanOfMerge(cfg, run, toAdd);
    if !toAdd[0].fOverrideIOMax {
      PlainWithinLimit(cfg, run, toAdd);
    }
  }

  /** With it a run can outgrow the largest double word, after which its size can no longer be
      asked for: an overriding write of 0x1_0000 bytes behind one of 0xFFFF_0000. */
  lemma OverrideOutgrows(cfg: FsConfig)
    ensures var run := [Request(0, 0, true, 0, 0xFFFF_0000, false, true, true)];
            var r := Request(1, 0, true, 0xFFFF_0000, 0x1_0000, true, false, true);
            && ValidRun(cfg, run) && Span(run) < DWMAX && Accepts(cfg, run, [r])
            && Span(MergedRun(run, [r])) >= DWMAX
  {
    var run := [Request(0, 0, true, 0, 0xFFFF_0000, false, true, true)];
    var r := Request(1, 0, true, 0xFFFF_0000, 0x1_0000, true, false, true);
    JoinIsMerge(cfg, run, r);
  }

  /** For one request, accepting is what the question beforehand answers. */
  lemma AcceptsIsCanAdd(cfg: FsConfig, run: seq<Request>, r: Request)
    requires |run| > 0
    ensures Accepts(cfg, run, [r]) <==> CanAdd(cfg, run, r)
  {
    hide Merged, MayFollow, Admissible;
    if run[0].ibOffset == r.ibOffset {
      EqualOverlaps(cfg, run[0].fWrite, r.fOverrideIOMax, [], run, [r]);
      assert [] + Merged(run, [r]) == Merged(run, [r]);
    }
  }

  // ----- exactly what is accepted -----

  /** In order, without overlap, and without a gap for writes or with one no wider than the file
      system reads over. */
  ghost predicate InOrder(cfg: FsConfig, m: seq<Request>) {
    forall i :: 0 < i < |m| ==>
      0 <= m[i].ibOffset - IbBlockMax(m[i - 1]) <= if m[0].fWrite then 0 else cfg.cbMaxReadGapSize
  }

  lemma InOrderIsChained(cfg: FsConfig, m: seq<Request>)
    ensures InOrder(cfg, m) <==> Chained(cfg, m)
  {
    if Chained(cfg, m) {
      forall i | 0 < i < |m|
        ensures 0 <= m[i].ibOffset - IbBlockMax(m[i - 1]) <= if m[0].fWrite then 0 else cfg.cbMaxReadGapSize
      {
        assert 0 <= m[i].ibOffset - IbBlockMax(m[i - 1]) <= CbGap(cfg, m[0].fWrite);
      }
    }
  }

  /** The bytes up to the end of the last request but one. */
  function Before(m: seq<Request>): int
    requires |m| > 1
  {
    IbBlockMax(m[|m| - 2]) - m[0].ibOffset
  }

  lemma InOrderMayFollow(cfg: FsConfig, fOverrideIOMax: bool, m: seq<Request>, i: int)
    requires |m| > 1 && InOrder(cfg, m) && 0 < i < |m|
    requires if fOverrideIOMax then Before(m) < DWMAX else WithinSize(cfg, m[0].fWrite, Span(m))
    ensures MayFollow(cfg, m[0].fWrite, fOverrideIOMax, m[0], m[i - 1], m[i])
  {
    InOrderIsChained(cfg, m);
    ChainBounds(cfg, m, i);
    ButLastBound(cfg, m, i - 1);
    assert 0 <= m[i].ibOffset - IbBlockMax(m[i - 1]) <= if m[0].fWrite then 0 else cfg.cbMaxReadGapSize;
  }

  lemma FollowsWithin(cfg: FsConfig, fWrite: bool, fOverrideIOMax: bool, head: Request, tail: Request, next: Request)
    requires MayFollow(cfg, fWrite, fOverrideIOMax, head, tail, next)
    ensures IbBlockMax(tail) - head.ibOffset < DWMAX
    ensures fOverrideIOMax || WithinSize(cfg, fWrite, IbBlockMax(next) - head.ibOffset)
  {}

  lemma MergedDirection(base: seq<Request>, toAdd: seq<Request>)
    requires |base| > 0 && |toAdd| > 0 && base[0].fWrite == toAdd[0].fWrite
    ensures Merged(base, toAdd)[0].fWrite == base[0].fWrite
  {}

  /** The merge accepts if and only if the ordered union is in order and either within the size the
      file system sets for its direction or, if that is overridden, short enough to be measured
      before its last request. */
  lemma MergeableIff(cfg: FsConfig, base: seq<Request>, toAdd: seq<Request>)
    requires |base| > 0 && |toAdd| > 0 && Uniform(base) && Uniform(toAdd) && base[0].fWrite == toAdd[0].fWrite
    ensures var m := Merged(base, toAdd);
            Mergeable(cfg, base, toAdd)
            <==> InOrder(cfg, m)
                 && if toAdd[0].fOverrideIOMax then Before(m) < DWMAX else WithinSize(cfg, base[0].fWrite, Span(m))
  {
    hide Merged, MayFollow;
    var m, f := Merged(base, toAdd), toAdd[0].fOverrideIOMax;
    MergedDirection(base, toAdd);
    if Admissible(cfg, m[0].fWrite, f, m) {
      AdmissibleIsValid(cfg, m[0].fWrite, f, m);
      InOrderIsChained(cfg, m);
      assert MayFollow(cfg, m[0].fWrite, f, m[0], m[|m| - 2], m[|m| - 1]);
      FollowsWithin(cfg, m[0].fWrite, f, m[0], m[|m| - 2], m[|m| - 1]);
    }
    if InOrder(cfg, m) && if f then Before(m) < DWMAX else WithinSize(cfg, m[0].fWrite, Span(m)) {
      forall i | 0 < i < |m| ensures MayFollow(cfg, m[0].fWrite, f, m[0], m[i - 1], m[i]) {
        InOrderMayFollow(cfg, f, m, i);
      }
    }
  }

  lemma InOrderJoin(cfg: FsConfig, a: seq<Request>, b: seq<Request>)
    requires ValidRun(cfg, a) && ValidRun(cfg, b) && a[0].file == b[0].file && a[0].fWrite == b[0].fWrite
    ensures InOrder(cfg, a + b)
            <==> 0 <= b[0].ibOffset - IbBlockMax(a[|a| - 1]) <= if a[0].fWrite then 0 else cfg.cbMaxReadGapSize
  {
    hide Chained, Uniform;
    var m := a + b;
    if InOrder(cfg, m) {
      assert m[|a|] == b[0] && m[|a| - 1] == a[|a| - 1];
    }
    if 0 <= b[0].ibOffset - IbBlockMax(a[|a| - 1]) <= CbGap(cfg, a[0].fWrite) {
      JoinValid(cfg, a, b);
      InOrderIsChained(cfg, m);
    }
  }

  lemma AloneIsRun(cfg: FsConfig, r: Request)
    ensures ValidRun(cfg, [r])
  {}

  /** With the limit overridden, the shortcut for one request looks at the gap only. */
  lemma OverridingShortcut(cfg: FsConfig, run: seq<Request>, r: Request)
    requires ValidRun(cfg, run) && FOSDiskICompatibleRuns(run, r) && Span(run) < DWMAX
    requires Clear(run, r) && r.fOverrideIOMax
    ensures CanAdd(cfg, run, r) <==> InOrder(cfg, Merged(run, [r]))
  {
    hide Merged, Chained, Uniform, Mergeable;
    AloneIsRun(cfg, r);
    FromHead(cfg, run, |run| - 1);
    if run[0].ibOffset + Span(run) <= r.ibOffset {
      AppendAgrees(cfg, run, r);
      InOrderJoin(cfg, run, [r]);
    } else {
      PrependAgrees(cfg, run, r);
      InOrderJoin(cfg, [r], run);
    }
  }

  /** A run takes what is offered if and only if it is of the same file and direction, the ordered
      union is in order, and the size is within the limit of that direction; with the limit
      overridden, a single request clear of the run is not measured and anything else is measured
      only up to its last request. */
  lemma AcceptsIff(cfg: FsConfig, run: seq<Request>, toAdd: seq<Request>)
    requires ValidRun(cfg, run) && ValidRun(cfg, toAdd) && SizeAllows(run, toAdd)
    ensures var m := Merged(run, toAdd);
            Accepts(cfg, run, toAdd)
            <==> && run[0].file == toAdd[0].file && run[0].fWrite == toAdd[0].fWrite
                 && InOrder(cfg, m)
                 && if toAdd[0].fOverrideIOMax then (|toAdd| == 1 && Clear(run, toAdd[0])) || Before(m) < DWMAX
                    else WithinSize(cfg, run[0].fWrite, Span(m))
  {
    hide Merged, Mergeable, CanAdd, Chained, InOrder, Clear, WithinSize;
    if FOSDiskICompatibleRuns(run, toAdd[0]) {
      MergeableIff(cfg, run, toAdd);
      if |toAdd| == 1 && Clear(run, toAdd[0]) {
        assert toAdd == [toAdd[0]];
        ShortcutAgreesIff(cfg, run, toAdd[0]);
        if toAdd[0].fOverrideIOMax {
          OverridingShortcut(cfg, run, toAdd[0]);
        }
      }
    }
  }

  /** Two requests that share no byte. */
  predicate Apart(r: Request, q: Request) {
    IbBlockMax(r) <= q.ibOffset || IbBlockMax(q) <= r.ibOffset
  }

  ghost predicate ApartFrom(r: Request, run: seq<Request>) {
    forall i :: 0 <= i < |run| ==> Apart(r, run[i])
  }

  lemma ApartFromMerged(r: Request, a: seq<Request>, b: seq<Request>)
    requires ApartFrom(r, a) && ApartFrom(r, b)
    ensures ApartFrom(r, Merged(a, b))
  {
    hide Apart;
    MergedElements(a, b);
    forall i | 0 <= i < |Merged(a, b)| ensures Apart(r, Merged(a, b)[i]) {
      assert Merged(a, b)[i] in multiset(Merged(a, b));
    }
  }

  /** Each request is apart from all later ones. */
  ghost predicate AllApart(run: seq<Request>) {
    forall i :: 0 <= i < |run| ==> ApartFrom(run[i], run[i + 1..])
  }

  lemma AllApartTail(run: seq<Request>)
    requires |run| > 0
    ensures AllApart(run) <==> ApartFrom(run[0], run[1..]) && AllApart(run[1..])
  {
    hide ApartFrom;
    if AllApart(run) {
      forall i | 0 <= i < |run[1..]| ensures ApartFrom(run[1..][i], run[1..][i + 1..]) {
        assert run[1..][i] == run[i + 1] && run[1..][i + 1..] == run[i + 2..];
      }
      assert ApartFrom(run[0], run[1..]);
    }
    if ApartFrom(run[0], run[1..]) && AllApart(run[1..]) {
      forall i | 0 <= i < |run| ensures ApartFrom(run[i], run[i + 1..]) {
        if i > 0 {
          assert run[1..][i - 1] == run[i] && run[1..][i..] == run[i + 1..];
        }
      }
    }
  }

  lemma ApartBoth(r: Request, q: Request)
    requires Apart(r, q)
    ensures Apart(q, r)
  {}

  lemma {:induction false} MergedAllApart(a: seq<Request>, b: seq<Request>)
    requires AllApart(a) && AllApart(b)
    requires forall i, j :: 0 <= i < |a| && 0 <= j < |b| ==> Apart(a[i], b[j])
    ensures AllApart(Merged(a, b))
    decreases |a| + |b|
  {
    hide Apart, AllApart;
    if |a| == 0 || |b| == 0 {
    } else {
      var m := Merged(a, b);
      AllApartTail(a);
      AllApartTail(b);
      AllApartTail(m);
      if a[0].ibOffset <= b[0].ibOffset {
        MergedAllApart(a[1..], b);
        assert ApartFrom(a[0], b);
        ApartFromMerged(a[0], a[1..], b);
        assert m[1..] == Merged(a[1..], b);
      } else {
        MergedAllApart(a, b[1..]);
        forall i | 0 <= i < |a| ensures Apart(b[0], a[i]) { ApartBoth(a[i], b[0]); }
        ApartFromMerged(b[0], a, b[1..]);
        assert m[1..] == Merged(a, b[1..]);
      }
    }
  }

  lemma {:induction false} ChainApart(cfg: FsConfig, run: seq<Request>, i: int, j: int)
    requires Chained(cfg, run) && 0 <= i < j < |run|
    ensures IbBlockMax(run[i]) <= run[j].ibOffset
    decreases j
  {
    assert 0 <= run[j].ibOffset - IbBlockMax(run[j - 1]);
    if i >= j - 1 {
    } else {
      ChainApart(cfg, run, i, j - 1);
    }
  }

  lemma RunAllApart(cfg: FsConfig, run: seq<Request>)
    requires ValidRun(cfg, run)
    ensures AllApart(run) && Ordered(run)
  {
    forall i, j | 0 <= i < j < |run| ensures IbBlockMax(run[i]) <= run[j].ibOffset { ChainApart(cfg, run, i, j); }
  }

  /** No gap of a sequence is wider than the file system allows. */
  ghost predicate GapsFit(cfg: FsConfig, m: seq<Request>) {
    forall i :: 0 < i < |m| ==>
      m[i].ibOffset - IbBlockMax(m[i - 1]) <= if m[0].fWrite then 0 else cfg.cbMaxReadGapSize
  }

  lemma MergedSpan(cfg: FsConfig, run: seq<Request>, toAdd: seq<Request>)
    requires |run| > 0 && |toAdd| > 0 && InOrder(cfg, Merged(run, toAdd))
    ensures Span(Merged(run, toAdd)) == JointSpan(run, toAdd)
  {
    hide Merged;
    MergedEnds(run, toAdd);
    var m := Merged(run, toAdd);
    InOrderIsChained(cfg, m);
    forall r | r in m ensures IbBlockMax(r) <= IbBlockMax(m[|m| - 1]) {
      var i :| 0 <= i < |m| && m[i] == r;
      ChainBounds(cfg, m, i);
    }
  }

  /** So two runs of one file and direction that share no byte, leave no gap too wide between them
      and are together within the limit of their direction are always accepted. */
  lemma FittingIsAccepted(cfg: FsConfig, run: seq<Request>, toAdd: seq<Request>)
    requires ValidRun(cfg, run) && ValidRun(cfg, toAdd) && SizeAllows(run, toAdd)
    requires run[0].file == toAdd[0].file && run[0].fWrite == toAdd[0].fWrite
    requires forall i, j :: 0 <= i < |run| && 0 <= j < |toAdd| ==> Apart(run[i], toAdd[j])
    requires GapsFit(cfg, Merged(run, toAdd))
    requires JointSpan(run, toAdd) <= if run[0].fWrite then cfg.cbMaxWriteSize else cfg.cbMaxReadSize
    ensures Accepts(cfg, run, toAdd)
  {
    hide Merged, Chained, Uniform, Accepts, Clear;
    var m := Merged(run, toAdd);
    RunAllApart(cfg, run);
    RunAllApart(cfg, toAdd);
    MergedAllApart(run, toAdd);
    MergedOrdered(run, toAdd);
    MergedDirection(run, toAdd);
    forall i | 0 < i < |m| ensures 0 <= m[i].ibOffset - IbBlockMax(m[i - 1]) {
      assert Apart(m[i - 1], m[i..][0]);
      assert m[i - 1].ibOffset <= m[i].ibOffset;
    }
    assert InOrder(cfg, m);
    MergedSpan(cfg, run, toAdd);
    AcceptsIff(cfg, run, toAdd);
  }
}
