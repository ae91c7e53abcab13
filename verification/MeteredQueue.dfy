/**
  The metered queue (lib/cpp/ms/osdisk.cxx): runs are collected in one ordered tree, the
  building one, and served in key order from another, the draining one. The trees are modelled
  as maps from (file, offset) to runs.
*/
module MeteredQueue {
  import opened IoRun

  datatype IfileIb = IfileIb(iFile: int, ibOffset: int)

  predicate Below(a: IfileIb, b: IfileIb) {
    a.iFile < b.iFile || (a.iFile == b.iFile && a.ibOffset < b.ibOffset)
  }

  type Tree = map<IfileIb, seq<Request>>

  function KeyOf(run: seq<Request>): IfileIb
    requires |run| > 0
  {
    IfileIb(run[0].file, run[0].ibOffset)
  }

  // ----- searching a tree -----

  datatype Found = None | Some(key: IfileIb)

  /** No key of the tree lies between the two, nor equals the one looked for unless found. */
  predicate IsNearest(tree: Tree, key: IfileIb, found: IfileIb) {
    && found in tree
    && forall k :: k in tree ==> !(Below(found, k) && !Below(key, k)) && !(Below(k, found) && !Below(k, key))
  }

  lemma {:induction false} LeastOf(keys: set<IfileIb>) returns (least: IfileIb)
    requires keys != {}
    ensures least in keys && forall k :: k in keys ==> !Below(k, least)
    decreases keys
  {
    var some :| some in keys;
    if keys == {some} {
      least := some;
    } else {
      var rest := LeastOf(keys - {some});
      least := if Below(some, rest) then some else rest;
      forall k | k in keys ensures !Below(k, least) {
        assert k == some || k in keys - {some};
      }
    }
  }

  lemma {:induction false} GreatestOf(keys: set<IfileIb>) returns (greatest: IfileIb)
    requires keys != {}
    ensures greatest in keys && forall k :: k in keys ==> !Below(greatest, k)
    decreases keys
  {
    var some :| some in keys;
    if keys == {some} {
      greatest := some;
    } else {
      var rest := GreatestOf(keys - {some});
      greatest := if Below(rest, some) then some else rest;
      forall k | k in keys ensures !Below(greatest, k) {
        assert k == some || k in keys - {some};
      }
    }
  }

  lemma NearestExists(tree: Tree, key: IfileIb)
    requires tree != map[]
    ensures exists found :: IsNearest(tree, key, found)
  {
    var above := set k | k in tree && !Below(k, key);
    if above != {} {
      var found := LeastOf(above);
      assert IsNearest(tree, key, found);
    } else {
      var k :| k in tree;
      assert k in tree.Keys;
      var found := GreatestOf(tree.Keys);
      forall k | k in tree ensures !Below(found, k) && Below(k, key) {
        assert k in tree.Keys && k !in above;
      }
      assert IsNearest(tree, key, found);
    }
  }

  method ErrFindNearest(tree: Tree, key: IfileIb) returns (found: Found)
    ensures found == None <==> tree == map[]
    ensures found.Some? ==> IsNearest(tree, key, found.key)
  {
    if tree == map[] {
      return None;
    }
    NearestExists(tree, key);
    var k: IfileIb :| k in tree && IsNearest(tree, key, k);
    found := Some(k);
  }

  /** What is nearest to the lowest key there is has nothing below it. */
  lemma NearestToLowest(tree: Tree, found: IfileIb)
    requires IsNearest(tree, IfileIb(0, 0), found)
    requires forall k :: k in tree ==> !Below(k, IfileIb(0, 0))
    ensures forall k :: k in tree ==> !Below(k, found)
  {}

  // ----- what the trees hold -----

  /** All the requests of a tree. */
  ghost function Requests(tree: Tree): multiset<Request> {
    if tree == map[] then multiset{}
    else
      var k :| k in tree;
      multiset(BareAll(tree[k])) + Requests(tree - {k})
  }

  lemma {:induction false} RequestsWithout(tree: Tree, k: IfileIb)
    requires k in tree
    ensures Requests(tree) == multiset(BareAll(tree[k])) + Requests(tree - {k})
    decreases |tree|
  {
    var j :| j in tree && Requests(tree) == multiset(BareAll(tree[j])) + Requests(tree - {j});
    hide Requests;
    if j == k {
    } else {
      RequestsWithout(tree - {j}, k);
      RequestsWithout(tree - {k}, j);
      assert tree - {j} - {k} == tree - {k} - {j};
    }
  }

  lemma RequestsWith(tree: Tree, k: IfileIb, run: seq<Request>)
    requires k !in tree
    ensures Requests(tree[k := run]) == Requests(tree) + multiset(BareAll(run))
  {
    RequestsWithout(tree[k := run], k);
    assert tree[k := run] - {k} == tree;
  }

  /** Every entry is a run filed under its head. */
  ghost predicate Filed(cfg: FsConfig, tree: Tree) {
    forall k :: k in tree ==> ValidRun(cfg, tree[k]) && k == KeyOf(tree[k]) && 0 <= k.iFile
  }

  lemma MergedKey(base: seq<Request>, toAdd: seq<Request>)
    requires |base| > 0 && |toAdd| > 0 && base[0].file == toAdd[0].file
    ensures |MergedRun(base, toAdd)| == |base| + |toAdd|
    ensures KeyOf(MergedRun(base, toAdd)) == if toAdd[0].ibOffset < base[0].ibOffset then KeyOf(toAdd) else KeyOf(base)
  {}

  /** Moving what has no namesake in the destination; the rest stays behind. */
  function Moved(into: Tree, from: Tree): Tree {
    map k | k in into.Keys + from.Keys :: if k in into then into[k] else from[k]
  }

  function LeftOver(into: Tree, from: Tree): Tree {
    map k | k in from && k in into :: from[k]
  }

  lemma MovedNone(into: Tree)
    ensures Moved(into, map[]) == into && LeftOver(into, map[]) == map[]
  {}

  lemma RequestsNone()
    ensures Requests(map[]) == multiset{}
  {}

  lemma MovedStep(into: Tree, from: Tree, k: IfileIb)
    requires k in from
    ensures var rest := from - {k};
            if k in into
            then Moved(into, from) == Moved(into, rest) && k !in LeftOver(into, rest)
                 && LeftOver(into, from) == LeftOver(into, rest)[k := from[k]]
            else LeftOver(into, from) == LeftOver(into, rest) && k !in Moved(into, rest)
                 && Moved(into, from) == Moved(into, rest)[k := from[k]]
  {}

  lemma {:induction false} MovedRequests(into: Tree, from: Tree)
    ensures Requests(Moved(into, from)) + Requests(LeftOver(into, from)) == Requests(into) + Requests(from)
    decreases |from|
  {
    hide Requests, Moved, LeftOver;
    RequestsNone();
    if from == map[] {
      MovedNone(into);
    } else {
      var k :| k in from;
      var rest := from - {k};
      MovedRequests(into, rest);
      RequestsWithout(from, k);
      MovedStep(into, from, k);
      var run := multiset(BareAll(from[k]));
      if k in into {
        RequestsWith(LeftOver(into, rest), k, from[k]);
      } else {
        RequestsWith(Moved(into, rest), k, from[k]);
      }
      assert Requests(Moved(into, from)) + Requests(LeftOver(into, from))
          == Requests(Moved(into, rest)) + Requests(LeftOver(into, rest)) + run;
    }
  }

  lemma MovedExact(into: Tree, from: Tree)
    ensures forall k :: k in into ==> k in Moved(into, from) && Moved(into, from)[k] == into[k]
    ensures forall k :: k in from ==>
              if k in into then k in LeftOver(into, from) && LeftOver(into, from)[k] == from[k]
              else k !in LeftOver(into, from) && k in Moved(into, from) && Moved(into, from)[k] == from[k]
  {}

  lemma MovedCount(into: Tree, from: Tree)
    ensures |Moved(into, from)| + |LeftOver(into, from)| == |into| + |from|
  {
    assert Moved(into, from).Keys == into.Keys + from.Keys;
    assert LeftOver(into, from).Keys == into.Keys * from.Keys;
  }

  lemma MovedFiled(cfg: FsConfig, into: Tree, from: Tree)
    requires Filed(cfg, into) && Filed(cfg, from)
    ensures Filed(cfg, Moved(into, from)) && Filed(cfg, LeftOver(into, from))
  {
    hide ValidRun;
  }

  lemma FiledAbove(cfg: FsConfig, tree: Tree)
    requires Filed(cfg, tree)
    ensures forall k :: k in tree ==> !Below(k, IfileIb(0, 0))
  {
    hide Chained, Uniform;
  }

  lemma NearestEqual(tree: Tree, key: IfileIb, found: IfileIb)
    requires IsNearest(tree, key, found)
    ensures found in tree && (key in tree <==> found == key)
  {}

  lemma Sizes(a: multiset<Request>, b: multiset<Request>)
    ensures |a + b| == |a| + |b|
  {}

  lemma MovedIntoNone(from: Tree)
    ensures Moved(map[], from) == from && LeftOver(map[], from) == map[]
  {}

  /** Every run is shorter than the largest double word. */
  ghost predicate Bounded(tree: Tree) {
    forall k :: k in tree ==> |tree[k]| > 0 && Span(tree[k]) < DWMAX
  }

  lemma BoundedWith(tree: Tree, k: IfileIb, run: seq<Request>)
    requires Bounded(tree) && |run| > 0
    ensures Bounded(tree[k := run]) <==> Span(run) < DWMAX
  {
    assert k in tree[k := run];
  }

  lemma BoundedAllows(tree: Tree, k: IfileIb, run: seq<Request>)
    requires Bounded(tree) && k in tree && |run| > 0
    ensures |tree[k]| > 0 && SizeAllows(tree[k], run)
  {}

  /** A run within the limits, on a file system whose limits are below the largest double word. */
  predicate Plain(cfg: FsConfig, run: seq<Request>)
    requires |run| > 0
  {
    && Span(run) < DWMAX && !run[0].fOverrideIOMax
    && !WithinSize(cfg, run[0].fWrite, DWMAX)
  }

  /** A filed run takes another. */
  ghost predicate CanJoin(cfg: FsConfig, filed: seq<Request>, run: seq<Request>) {
    |filed| > 0 && |run| > 0 && Accepts(cfg, filed, run)
  }

  datatype Insertion = TurnedAway | Stopped | Joined | Alone

  lemma BoundedWithout(tree: Tree, k: IfileIb)
    requires Bounded(tree)
    ensures Bounded(tree - {k})
  {}

  lemma FiledAt(cfg: FsConfig, tree: Tree, k: IfileIb)
    requires Filed(cfg, tree) && k in tree
    ensures ValidRun(cfg, tree[k]) && KeyOf(tree[k]) == k
  {}

  lemma MovedBounded(into: Tree, from: Tree)
    ensures Bounded(into) && Bounded(from) ==> Bounded(Moved(into, from)) && Bounded(LeftOver(into, from))
  {}

  // ----- the queue -----

  /** The run taken out of a tree is the one of the lowest file and, within it, the lowest offset. */
  ghost predicate Extracted(from: Tree, run: seq<Request>, left: Tree) {
    if from == map[] then run == [] && left == map[]
    else
      && |run| > 0 && KeyOf(run) in from && run == from[KeyOf(run)]
      && left == from - {KeyOf(run)}
      && forall k :: k in from ==>
           run[0].file < k.iFile || (run[0].file == k.iFile && run[0].ibOffset <= k.ibOffset)
  }

  lemma FiledWith(cfg: FsConfig, tree: Tree, run: seq<Request>)
    requires Filed(cfg, tree) && ValidRun(cfg, run) && 0 <= run[0].file
    ensures Filed(cfg, tree[KeyOf(run) := run])
  {
    hide Chained, Uniform;
  }

  lemma AcceptsOneFile(cfg: FsConfig, base: seq<Request>, run: seq<Request>)
    requires |base| > 0 && |run| > 0 && Accepts(cfg, base, run)
    ensures base[0].file == run[0].file && base[0].fWrite == run[0].fWrite
  {}

  /** A merged run put back under the key of its head. */
  lemma Refiled(cfg: FsConfig, tree: Tree, k: IfileIb, run: seq<Request>)
    requires Filed(cfg, tree) && k in tree && ValidRun(cfg, run) && KeyOf(run) !in tree && 0 <= run[0].file
    requires tree[k][0].file == run[0].file && ValidRun(cfg, MergedRun(tree[k], run))
    ensures |MergedRun(tree[k], run)| > 0
    ensures var m := MergedRun(tree[k], run);
            var tree' := (tree - {k})[KeyOf(m) := m];
            && Filed(cfg, tree') && |tree'| == |tree|
            && Requests(tree') == Requests(tree) + multiset(BareAll(run))
  {
    hide MergedRun, Chained, Uniform, Requests;
    var m := MergedRun(tree[k], run);
    MergedKey(tree[k], run);
    MergeKeepsRequests(tree[k], run);
    RequestsWithout(tree, k);
    RequestsWith(tree - {k}, KeyOf(m), m);
  }

  /** Trees and runs of successive extractions, nothing being added in between. */
  ghost predicate IsDraining(trees: seq<Tree>, runs: seq<seq<Request>>) {
    && |trees| == |runs| + 1
    && forall i :: 0 <= i < |runs| ==> trees[i] != map[] && Extracted(trees[i], runs[i], trees[i + 1])
  }

  lemma {:induction false} StillIn(trees: seq<Tree>, runs: seq<seq<Request>>, i: nat, j: nat)
    requires IsDraining(trees, runs) && i <= j < |trees|
    ensures forall k :: k in trees[j] ==> k in trees[i] && trees[j][k] == trees[i][k]
    decreases j
  {
    if i >= j {
    } else {
      StillIn(trees, runs, i, j - 1);
      assert Extracted(trees[j - 1], runs[j - 1], trees[j]);
    }
  }

  /** Drained runs come by file and, within a file, by offset, each once. */
  lemma DrainedInOrder(trees: seq<Tree>, runs: seq<seq<Request>>, i: nat, j: nat)
    requires IsDraining(trees, runs) && i < j < |runs|
    ensures |runs[i]| > 0 && |runs[j]| > 0
    ensures runs[i][0].file < runs[j][0].file
            || (runs[i][0].file == runs[j][0].file && runs[i][0].ibOffset < runs[j][0].ibOffset)
  {
    assert Extracted(trees[i], runs[i], trees[i + 1]) && Extracted(trees[j], runs[j], trees[j + 1]);
    StillIn(trees, runs, i + 1, j);
    StillIn(trees, runs, i, j);
    assert KeyOf(runs[j]) in trees[i + 1] && KeyOf(runs[j]) in trees[i];
  }

  class IOQueueToo {
    const cfg: FsConfig
    var irbtBuilding: Tree
    var irbtDraining: Tree
    var cioEnqueued: int
    var cioreqEnqueued: int

    constructor (cfg: FsConfig)
      ensures Valid() && this.cfg == cfg && irbtBuilding == irbtDraining == map[]
    {
      this.cfg := cfg;
      irbtBuilding, irbtDraining := map[], map[];
      cioEnqueued, cioreqEnqueued := 0, 0;
    }

    /** Keys are those of the run heads; the counters count the runs and their requests. */
    ghost predicate Sound()
      reads this
    {
      && Filed(cfg, irbtBuilding) && Filed(cfg, irbtDraining)
      && cioEnqueued == |irbtBuilding| + |irbtDraining|
      && cioreqEnqueued == |Requests(irbtBuilding)| + |Requests(irbtDraining)|
    }

    /** Besides, the size of every run can be asked for. */
    ghost predicate Valid()
      reads this
    {
      Sound() && Bounded(irbtBuilding) && Bounded(irbtDraining)
    }

    /** Joins a run to the one filed under the given key, if that accepts it. */
    method JoinNeighbour(k: IfileIb, run: seq<Request>) returns (accepted: seq<Request>)
      requires Sound() && ValidRun(cfg, run) && 0 <= run[0].file && KeyOf(run) !in irbtBuilding
      requires k in irbtBuilding && ValidRun(cfg, irbtBuilding[k]) && SizeAllows(irbtBuilding[k], run)
      modifies this
      ensures Sound() && irbtDraining == old(irbtDraining) && cioEnqueued == old(cioEnqueued)
      ensures accepted == [] <==> !Accepts(cfg, old(irbtBuilding)[k], run)
      ensures accepted == [] ==> unchanged(this)
      ensures accepted != [] ==>
                && accepted == MergedRun(old(irbtBuilding)[k], run)
                && Span(accepted) == JointSpan(old(irbtBuilding)[k], run)
                && irbtBuilding == (old(irbtBuilding) - {k})[KeyOf(accepted) := accepted]
                && Requests(irbtBuilding) == old(Requests(irbtBuilding)) + multiset(BareAll(run))
                && (old(Bounded(irbtBuilding)) ==> (Bounded(irbtBuilding) <==> Span(accepted) < DWMAX))
                && (!run[0].fOverrideIOMax ==> WithinSize(cfg, run[0].fWrite, Span(accepted)))
                && (Plain(cfg, run) ==> Span(accepted) < DWMAX)
    {
      hide Requests, Chained, Uniform, Accepts, MergedRun, Filed, Bounded, JointSpan, CbMax;
      var iorun := new IORun();
      iorun.reqs := irbtBuilding[k];
      var fAdded := FAddToRun(cfg, iorun, run);
      if !fAdded {
        return [];
      }
      AcceptsOneFile(cfg, irbtBuilding[k], run);
      Refiled(cfg, irbtBuilding, k, run);
      accepted := iorun.reqs;
      if Bounded(irbtBuilding) {
        BoundedWithout(irbtBuilding, k);
        BoundedWith(irbtBuilding - {k}, KeyOf(accepted), accepted);
      }
      if !run[0].fOverrideIOMax {
        PlainWithinLimit(cfg, irbtBuilding[k], run);
      }
      irbtBuilding := (irbtBuilding - {k})[KeyOf(accepted) := accepted];
      cioreqEnqueued := cioreqEnqueued + |run|;
    }

    /** Files a run on its own. */
    method InsertRun(run: seq<Request>)
      requires Sound() && ValidRun(cfg, run) && 0 <= run[0].file && KeyOf(run) !in irbtBuilding
      modifies this
      ensures Sound() && irbtDraining == old(irbtDraining)
      ensures irbtBuilding == old(irbtBuilding)[KeyOf(run) := run]
      ensures Requests(irbtBuilding) == old(Requests(irbtBuilding)) + multiset(BareAll(run))
      ensures cioEnqueued == old(cioEnqueued) + 1
      ensures old(Bounded(irbtBuilding)) ==> (Bounded(irbtBuilding) <==> Span(run) < DWMAX)
    {
      hide Requests, Chained, Uniform, Filed, Bounded;
      if Bounded(irbtBuilding) {
        BoundedWith(irbtBuilding, KeyOf(run), run);
      }
      FiledWith(cfg, irbtBuilding, run);
      RequestsWith(irbtBuilding, KeyOf(run), run);
      Sizes(Requests(irbtBuilding), multiset(BareAll(run)));
      irbtBuilding := irbtBuilding[KeyOf(run) := run];
      cioreqEnqueued := cioreqEnqueued + |run|;
      cioEnqueued := cioEnqueued + 1;
    }

    /** Files a run: joined to its neighbour if that accepts it, else on its own. A run whose key is
        taken is turned away, and the program stops if the neighbour's size is asked for and too
        large. All runs keep a size that can be asked for exactly when the one it became part of
        does, which it does unless it overrides the size limit; then nothing ever stops. */
    method FInsertIo(run: seq<Request>) returns (outcome: Insertion, accepted: seq<Request>)
      requires Sound() && ValidRun(cfg, run) && 0 <= run[0].file
      modifies this
      ensures Sound() && irbtDraining == old(irbtDraining)
      ensures accepted == [] <==> outcome.TurnedAway? || outcome.Stopped?
      ensures accepted == [] ==> unchanged(this)
      ensures outcome.TurnedAway? <==> KeyOf(run) in old(irbtBuilding)
      ensures outcome.Stopped? ==>
                exists k :: IsNearest(old(irbtBuilding), KeyOf(run), k) && !SizeAllows(old(irbtBuilding)[k], run)
      ensures accepted != [] ==> Requests(irbtBuilding) == old(Requests(irbtBuilding)) + multiset(BareAll(run))
      ensures outcome.Alone? ==> accepted == run && irbtBuilding == old(irbtBuilding)[KeyOf(run) := run]
      ensures outcome.Alone? && old(irbtBuilding) != map[] ==>
                exists k :: IsNearest(old(irbtBuilding), KeyOf(run), k) && !CanJoin(cfg, old(irbtBuilding)[k], run)
      ensures outcome.Joined? ==>
                exists k ::
                  && IsNearest(old(irbtBuilding), KeyOf(run), k) && CanJoin(cfg, old(irbtBuilding)[k], run)
                  && accepted == MergedRun(old(irbtBuilding)[k], run)
                  && Span(accepted) == JointSpan(old(irbtBuilding)[k], run)
                  && irbtBuilding == (old(irbtBuilding) - {k})[KeyOf(accepted) := accepted]
      ensures cioEnqueued == old(cioEnqueued) + if outcome.Alone? then 1 else 0
      ensures old(Valid()) ==> !outcome.Stopped? && (Valid() <==> accepted == [] || Span(accepted) < DWMAX)
      ensures old(Valid()) && Plain(cfg, run) ==> Valid()
    {
      hide Requests, Chained, Uniform, Accepts, MergedRun, CbMax, WithinSize, Filed, Bounded,
           IsNearest, Span, JointSpan, SizeAllows;
      var key := KeyOf(run);
      var found := ErrFindNearest(irbtBuilding, key);
      if found.Some? {
        NearestEqual(irbtBuilding, key, found.key);
        FiledAt(cfg, irbtBuilding, found.key);
        if key == KeyOf(irbtBuilding[found.key]) {
          return TurnedAway, [];
        }
        if Bounded(irbtBuilding) {
          BoundedAllows(irbtBuilding, found.key, run);
        }
        if !SizeAllows(irbtBuilding[found.key], run) {
          return Stopped, [];
        }
        accepted := JoinNeighbour(found.key, run);
        if accepted != [] {
          return Joined, accepted;
        }
      }
      InsertRun(run);
      return Alone, run;
    }

    /** The runs collected so far become runs to drain. */
    method Cycle()
      requires Sound()
      modifies this
      ensures Sound()
      ensures irbtDraining == Moved(old(irbtDraining), old(irbtBuilding))
      ensures irbtBuilding == LeftOver(old(irbtDraining), old(irbtBuilding))
      ensures forall k :: k in old(irbtDraining) ==> k in irbtDraining && irbtDraining[k] == old(irbtDraining)[k]
      ensures forall k :: k in old(irbtBuilding) ==>
                if k in old(irbtDraining) then k in irbtBuilding && irbtBuilding[k] == old(irbtBuilding)[k]
                else k !in irbtBuilding && k in irbtDraining && irbtDraining[k] == old(irbtBuilding)[k]
      ensures cioEnqueued == old(cioEnqueued) && cioreqEnqueued == old(cioreqEnqueued)
      ensures old(Valid()) ==> Valid()
    {
      MovedBounded(irbtDraining, irbtBuilding);
      MovedExact(irbtDraining, irbtBuilding);
      hide Requests, Moved, LeftOver, Filed;
      MovedRequests(irbtDraining, irbtBuilding);
      MovedCount(irbtDraining, irbtBuilding);
      MovedFiled(cfg, irbtDraining, irbtBuilding);
      Sizes(Requests(irbtDraining), Requests(irbtBuilding));
      Sizes(Requests(Moved(irbtDraining, irbtBuilding)), Requests(LeftOver(irbtDraining, irbtBuilding)));
      irbtDraining, irbtBuilding := Moved(irbtDraining, irbtBuilding), LeftOver(irbtDraining, irbtBuilding);
    }

    /** Takes the draining run filed under the given key. */
    method TakeRun(k: IfileIb) returns (run: seq<Request>)
      requires Sound() && k in irbtDraining
      modifies this
      ensures Sound() && irbtBuilding == old(irbtBuilding)
      ensures run == old(irbtDraining)[k] && |run| > 0 && KeyOf(run) == k
      ensures irbtDraining == old(irbtDraining) - {k}
      ensures cioEnqueued == old(cioEnqueued) - 1 && cioreqEnqueued == old(cioreqEnqueued) - |run|
      ensures old(Bounded(irbtDraining)) ==> Bounded(irbtDraining)
    {
      hide Requests, Chained, Uniform;
      RequestsWithout(irbtDraining, k);
      run := irbtDraining[k];
      Sizes(multiset(BareAll(run)), Requests(irbtDraining - {k}));
      irbtDraining := irbtDraining - {k};
      cioreqEnqueued := cioreqEnqueued - |run|;
      cioEnqueued := cioEnqueued - 1;
    }

    /** Takes the draining run with the smallest key; when there is none and cycling is asked
        for, the building runs become the draining ones first. */
    method ExtractIo(fAutoCycle: bool) returns (run: seq<Request>, fCycled: bool)
      requires Sound()
      modifies this
      ensures Sound()
      ensures fCycled <==> fAutoCycle && old(irbtDraining) == map[]
      ensures irbtBuilding == if fCycled then map[] else old(irbtBuilding)
      ensures Extracted(if fCycled then old(irbtBuilding) else old(irbtDraining), run, irbtDraining)
      ensures cioreqEnqueued == old(cioreqEnqueued) - |run|
      ensures cioEnqueued == old(cioEnqueued) - if run == [] then 0 else 1
      ensures old(Valid()) ==> Valid()
    {
      hide Requests, Filed;
      fCycled := false;
      var found := ErrFindNearest(irbtDraining, IfileIb(0, 0));
      if found.None? {
        if fAutoCycle {
          MovedIntoNone(irbtBuilding);
          Cycle();
          fCycled := true;
          found := ErrFindNearest(irbtDraining, IfileIb(0, 0));
        }
        if found.None? {
          return [], fCycled;
        }
      }
      FiledAbove(cfg, irbtDraining);
      NearestToLowest(irbtDraining, found.key);
      hide IsNearest;
      run := TakeRun(found.key);
    }
  }
}
