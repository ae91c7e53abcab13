/**
  What the row cursor does on any graph of leaf pages: damaged ones, with missing pages or cycles,
  included (lib/src/ese_parser.rs).
*/
module CursorGraph {
  import opened Cursor
  import opened CursorRuns

  // ----- where a walk can end -----

  /** No live tag of a page from the given one on. */
  predicate NoneFrom(pages: Pages, page: nat, i: nat)
    requires page in pages
  {
    forall j :: i <= j < |pages[page].defunct| ==> pages[page].defunct[j]
  }

  /** No live data tag of a page up to the given one. */
  predicate NoneUpTo(pages: Pages, page: nat, i: nat)
    requires page in pages
  {
    forall j :: 0 < j <= i && j < |pages[page].defunct| ==> pages[page].defunct[j]
  }

  /** What a walk that stands on a page with nothing left must report, when the given page is next. */
  predicate Reports(pages: Pages, visited: seq<nat>, next: nat, r: Result) {
    if next == 0 then r == Ok(false)
    else if next !in pages then r == MissingPage(next)
    else next in visited && r == CircularReference(next)
  }

  /** A forward walk ends on a live tag with only defunct ones before it, or on a page with none left
      and no page to go on to. In between it has entered pages without a live data tag, each the
      next of the one before, none twice. */
  ghost predicate EndsForward(pages: Pages, page: nat, i: nat, visited: seq<nat>, o: Outcome)
    requires page in pages
    decreases |o.visited| - |visited|
  {
    if |o.visited| <= |visited| then
      && o.visited == visited && o.page == page
      && if o.result == Ok(true)
         then i <= o.tag < |pages[page].defunct| && !pages[page].defunct[o.tag]
              && forall j :: i <= j < o.tag ==> pages[page].defunct[j]
         else NoneFrom(pages, page, i) && Reports(pages, visited, pages[page].next, o.result)
    else
      && NoneFrom(pages, page, i)
      && var next := pages[page].next;
         && next != 0 && next in pages && next !in visited
         && EndsForward(pages, next, 1, visited + [next], o)
  }

  predicate SameEnd(o: Outcome, p: Outcome) {
    o.page == p.page && o.visited == p.visited && o.result == p.result && (o.result == Ok(true) ==> o.tag == p.tag)
  }

  lemma NoneFromIs(pages: Pages, page: nat, i: nat)
    requires page in pages
    ensures NoneFrom(pages, page, i) <==> LiveFrom(pages[page].defunct, i) >= |pages[page].defunct|
  {}

  lemma {:induction false} VisitedGrows(pages: Pages, page: nat, i: nat, visited: seq<nat>)
    requires page in pages
    ensures visited <= WalkForward(pages, page, i, visited).visited
    decreases |Unvisited(pages, visited)|
  {
    var next := pages[page].next;
    if LiveFrom(pages[page].defunct, i) >= |pages[page].defunct| && next != 0 && next in pages && next !in visited {
      EnteringShrinks(pages, visited, next);
      VisitedGrows(pages, next, 1, visited + [next]);
    } else {
    }
  }

  /** On every page graph the forward walk ends in the one way there is. */
  lemma {:induction false} ForwardEnds(pages: Pages, page: nat, i: nat, visited: seq<nat>)
    requires page in pages
    ensures EndsForward(pages, page, i, visited, WalkForward(pages, page, i, visited))
    decreases |Unvisited(pages, visited)|
  {
    NoneFromIs(pages, page, i);
    var next := pages[page].next;
    if LiveFrom(pages[page].defunct, i) >= |pages[page].defunct| && next != 0 && next in pages && next !in visited {
      EnteringShrinks(pages, visited, next);
      VisitedGrows(pages, next, 1, visited + [next]);
      ForwardEnds(pages, next, 1, visited + [next]);
    } else {
    }
  }

  /** And no other way of ending is possible. */
  lemma {:induction false} ForwardEndIsUnique(pages: Pages, page: nat, i: nat, visited: seq<nat>, o: Outcome)
    requires page in pages && EndsForward(pages, page, i, visited, o)
    ensures SameEnd(o, WalkForward(pages, page, i, visited))
    decreases |Unvisited(pages, visited)|
  {
    NoneFromIs(pages, page, i);
    var next := pages[page].next;
    if |o.visited| <= |visited| {
    } else {
      EnteringShrinks(pages, visited, next);
      ForwardEndIsUnique(pages, next, 1, visited + [next], o);
    }
  }

  /** A backward walk, in the same way. */
  ghost predicate EndsBackward(pages: Pages, page: nat, i: nat, visited: seq<nat>, o: Outcome)
    requires page in pages && AllHaveHeader(pages)
    decreases |o.visited| - |visited|
  {
    if |o.visited| <= |visited| then
      && o.visited == visited && o.page == page
      && if o.result == Ok(true)
         then 0 < o.tag <= i && o.tag < |pages[page].defunct| && !pages[page].defunct[o.tag]
              && forall j :: o.tag < j <= i && j < |pages[page].defunct| ==> pages[page].defunct[j]
         else NoneUpTo(pages, page, i) && Reports(pages, visited, pages[page].previous, o.result)
    else
      && NoneUpTo(pages, page, i)
      && var previous := pages[page].previous;
         && previous != 0 && previous in pages && previous !in visited
         && EndsBackward(pages, previous, |pages[previous].defunct| - 1, visited + [previous], o)
  }

  lemma NoneUpToIs(pages: Pages, page: nat, i: nat)
    requires page in pages && i < |pages[page].defunct|
    ensures NoneUpTo(pages, page, i) <==> LiveUpTo(pages[page].defunct, i) == 0
  {}

  lemma {:induction false} VisitedGrowsBack(pages: Pages, page: nat, i: nat, visited: seq<nat>)
    requires page in pages && i < |pages[page].defunct| && AllHaveHeader(pages)
    ensures visited <= WalkBackward(pages, page, i, visited).visited
    decreases |Unvisited(pages, visited)|
  {
    var previous := pages[page].previous;
    if LiveUpTo(pages[page].defunct, i) == 0 && previous != 0 && previous in pages && previous !in visited {
      EnteringShrinks(pages, visited, previous);
      VisitedGrowsBack(pages, previous, |pages[previous].defunct| - 1, visited + [previous]);
    } else {
    }
  }

  lemma {:induction false} BackwardEnds(pages: Pages, page: nat, i: nat, visited: seq<nat>)
    requires page in pages && i < |pages[page].defunct| && AllHaveHeader(pages)
    ensures EndsBackward(pages, page, i, visited, WalkBackward(pages, page, i, visited))
    decreases |Unvisited(pages, visited)|
  {
    NoneUpToIs(pages, page, i);
    var previous := pages[page].previous;
    if LiveUpTo(pages[page].defunct, i) == 0 && previous != 0 && previous in pages && previous !in visited {
      EnteringShrinks(pages, visited, previous);
      VisitedGrowsBack(pages, previous, |pages[previous].defunct| - 1, visited + [previous]);
      BackwardEnds(pages, previous, |pages[previous].defunct| - 1, visited + [previous]);
    } else {
    }
  }

  lemma {:induction false} BackwardEndIsUnique(pages: Pages, page: nat, i: nat, visited: seq<nat>, o: Outcome)
    requires page in pages && i < |pages[page].defunct| && AllHaveHeader(pages)
    requires EndsBackward(pages, page, i, visited, o)
    ensures SameEnd(o, WalkBackward(pages, page, i, visited))
    decreases |Unvisited(pages, visited)|
  {
    NoneUpToIs(pages, page, i);
    var previous := pages[page].previous;
    if |o.visited| <= |visited| {
    } else {
      EnteringShrinks(pages, visited, previous);
      BackwardEndIsUnique(pages, previous, |pages[previous].defunct| - 1, visited + [previous], o);
    }
  }

  // ----- what a move reports -----

  lemma {:induction false} StandsAt(pages: Pages, page: nat, i: nat, visited: seq<nat>, o: Outcome) returns (from: nat)
    requires page in pages && EndsForward(pages, page, i, visited, o)
    ensures o.page in pages && from == (if o.visited == visited then i else 1)
    ensures if o.result == Ok(true) then from <= o.tag < |pages[o.page].defunct| && !pages[o.page].defunct[o.tag]
            else NoneFrom(pages, o.page, from) && Reports(pages, o.visited, pages[o.page].next, o.result)
    decreases |o.visited| - |visited|
  {
    if |o.visited| <= |visited| {
      from := i;
    } else {
      var next := pages[page].next;
      from := StandsAt(pages, next, 1, visited + [next], o);
    }
  }

  /** `MoveNext` on every page graph. It finds a row, or stands on a page without a live tag left; there
      it reports the end exactly if no page is next, a missing page exactly if the next is not to be
      had, and a cycle exactly if the next was entered since the record was cleared. */
  lemma NextReports(pages: Pages, firstLeaf: nat, p: Position)
    requires p.page.On? && p.page.number in pages
    ensures var (q, r) := NextRow(pages, firstLeaf, p, MOVE_NEXT);
            && q.page.On? && q.page.number in pages
            && var page := pages[q.page.number];
               if r == Ok(true) then q.tag < |page.defunct| && !page.defunct[q.tag]
               else
                 && NoneFrom(pages, q.page.number, if q.visited == Turned(p, MOVE_NEXT).visited then p.tag + 1 else 1)
                 && (r == Ok(false) <==> page.next == 0)
                 && (r == MissingPage(page.next) <==> page.next != 0 && page.next !in pages)
                 && (r == CircularReference(page.next) <==> page.next != 0 && page.next in pages)
                 && (r.CircularReference? ==> page.next in q.visited)
  {
    hide WalkForward;
    var t := Turned(p, MOVE_NEXT);
    var o := WalkForward(pages, t.page.number, t.tag + 1, t.visited);
    ForwardEnds(pages, t.page.number, t.tag + 1, t.visited);
    var _ := StandsAt(pages, t.page.number, t.tag + 1, t.visited, o);
  }

  lemma {:induction false} StandsBackAt(pages: Pages, page: nat, i: nat, visited: seq<nat>, o: Outcome)
    returns (upTo: nat)
    requires page in pages && AllHaveHeader(pages) && EndsBackward(pages, page, i, visited, o)
    ensures o.page in pages && upTo == (if o.visited == visited then i else |pages[o.page].defunct| - 1)
    ensures if o.result == Ok(true)
            then 0 < o.tag <= upTo && o.tag < |pages[o.page].defunct| && !pages[o.page].defunct[o.tag]
            else NoneUpTo(pages, o.page, upTo) && Reports(pages, o.visited, pages[o.page].previous, o.result)
    decreases |o.visited| - |visited|
  {
    if |o.visited| <= |visited| {
      upTo := i;
    } else {
      var previous := pages[page].previous;
      upTo := StandsBackAt(pages, previous, |pages[previous].defunct| - 1, visited + [previous], o);
    }
  }

  /** `MovePrevious` on every page graph, in the same way. */
  lemma PreviousReports(pages: Pages, p: Position)
    requires AllHaveHeader(pages) && CanMoveBack(pages, p, MOVE_PREVIOUS)
    ensures var (q, r) := PreviousRow(pages, p, MOVE_PREVIOUS);
            && q.page.On? && q.page.number in pages
            && var page := pages[q.page.number];
               if r == Ok(true) then 0 < q.tag < |page.defunct| && !page.defunct[q.tag]
               else
                 && NoneUpTo(pages, q.page.number,
                             if q.visited == Turned(p, MOVE_PREVIOUS).visited then p.tag - 1 else |page.defunct| - 1)
                 && (r == Ok(false) <==> page.previous == 0)
                 && (r == MissingPage(page.previous) <==> page.previous != 0 && page.previous !in pages)
                 && (r == CircularReference(page.previous) <==> page.previous != 0 && page.previous in pages)
                 && (r.CircularReference? ==> page.previous in q.visited)
  {
    hide WalkBackward;
    var t := Turned(p, MOVE_PREVIOUS);
    var o := WalkBackward(pages, t.page.number, t.tag - 1, t.visited);
    BackwardEnds(pages, t.page.number, t.tag - 1, t.visited);
    var _ := StandsBackAt(pages, t.page.number, t.tag - 1, t.visited, o);
  }

  /** The walk to the last leaf, on every page graph: it gets there exactly if the leaf it stands on has
      no next. */
  lemma {:induction false} LastReports(pages: Pages, page: nat, visited: seq<nat>)
    requires page in pages
    ensures var o := WalkToLast(pages, page, visited);
            && o.page in pages && visited <= o.visited
            && var next := pages[o.page].next;
               && (o.result == Ok(true) <==> next == 0)
               && (o.result == MissingPage(next) <==> next != 0 && next !in pages)
               && (o.result == CircularReference(next) <==> next != 0 && next in pages)
               && (next != 0 && next in pages ==> next in o.visited)
    decreases |Unvisited(pages, visited)|
  {
    var next := pages[page].next;
    if next == 0 || next !in pages || next in visited {
    } else {
      EnteringShrinks(pages, visited, next);
      LastReports(pages, next, visited + [next]);
    }
  }

  // ----- reading any graph -----

  /** The pages a forward walk from the first can enter: a path up to a page whose next is none, is not
      to be had, or is on the path. */
  ghost predicate IsWhole(pages: Pages, chain: seq<nat>) {
    && IsPath(pages, chain)
    && var next := pages[chain[|chain| - 1]].next; next == 0 || next !in pages || next in chain
  }

  /** Every page begins such a path. */
  lemma {:induction false} WholePath(pages: Pages, chain: seq<nat>) returns (whole: seq<nat>)
    requires IsPath(pages, chain)
    ensures IsWhole(pages, whole) && chain <= whole
    decreases |Unvisited(pages, chain)|
  {
    var next := pages[chain[|chain| - 1]].next;
    if next == 0 || next !in pages || next in chain {
      whole := chain;
    } else {
      EnteringShrinks(pages, chain, next);
      whole := WholePath(pages, chain + [next]);
    }
  }

  /** How reading such a path ends. */
  function EndOf(pages: Pages, chain: seq<nat>): Result
    requires |chain| > 0 && chain[|chain| - 1] in pages
  {
    var next := pages[chain[|chain| - 1]].next;
    if next == 0 then Ok(false) else if next !in pages then MissingPage(next) else CircularReference(next)
  }

  lemma NotYetEntered(pages: Pages, chain: seq<nat>, k: nat)
    requires IsPath(pages, chain) && k + 1 < |chain|
    ensures chain[k + 1] !in chain[..k + 1]
  {}

  /** The walk from a place on the path, with the path up to there on record. */
  lemma {:induction false} WalkOnPath(pages: Pages, chain: seq<nat>, k: nat, i: nat)
    requires IsWhole(pages, chain) && i > 0 && k < |chain|
    ensures chain[k] in pages
    ensures var o, rows := WalkForward(pages, chain[k], i, chain[..k + 1]), RowsFrom(pages, chain, k, i);
            if rows == []
            then o.result == EndOf(pages, chain) && o.page == chain[|chain| - 1] && o.visited == chain
            else
              && o.result == Ok(true) && rows[0].k < |chain|
              && o.page == chain[rows[0].k] && o.tag == rows[0].tag && o.visited == chain[..rows[0].k + 1]
    decreases |chain| - k
  {
    hide IsPath;
    PathPage(pages, chain, k);
    RowsSkip(pages, chain, k, i);
    if LiveFrom(pages[chain[k]].defunct, i) < |pages[chain[k]].defunct| {
    } else if k + 1 < |chain| {
      PathPage(pages, chain, k + 1);
      NotYetEntered(pages, chain, k);
      assert chain[..k + 1] + [chain[k + 1]] == chain[..k + 2];
      WalkOnPath(pages, chain, k + 1, 1);
    } else {
      assert chain[..k + 1] == chain;
    }
  }

  /** The cursor is on a page of the path, with the path up to there on record. */
  ghost predicate Recorded(chain: seq<nat>, p: Position, k: nat) {
    k < |chain| && p.page == On(chain[k]) && p.visited == chain[..k + 1] && p.direction.Forward?
  }

  lemma FirstOnPath(pages: Pages, chain: seq<nat>, p: Position)
    requires IsWhole(pages, chain) && (p.page.On? ==> p.page.number in pages) && |pages[chain[0]].defunct| >= 2
    ensures var (q, r), rows := NextRow(pages, chain[0], p, MOVE_FIRST), Rows(pages, chain);
            if rows == [] then r == EndOf(pages, chain) && Recorded(chain, q, |chain| - 1)
            else r == Ok(true) && Recorded(chain, q, rows[0].k) && q.tag == rows[0].tag
  {
    hide WalkForward, RowsFrom;
    assert [] + [chain[0]] == chain[..1];
    assert chain[..|chain|] == chain;
    WalkOnPath(pages, chain, 0, 1);
  }

  lemma NextOnPath(pages: Pages, chain: seq<nat>, p: Position, k: nat)
    requires IsWhole(pages, chain) && Recorded(chain, p, k)
    ensures chain[k] in pages
    ensures var (q, r), rows := NextRow(pages, chain[0], p, MOVE_NEXT), RowsFrom(pages, chain, k, p.tag + 1);
            if rows == [] then r == EndOf(pages, chain) && Recorded(chain, q, |chain| - 1) && q.tag == p.tag
            else r == Ok(true) && Recorded(chain, q, rows[0].k) && q.tag == rows[0].tag
  {
    hide WalkForward, RowsFrom;
    assert chain[..|chain|] == chain;
    WalkOnPath(pages, chain, k, p.tag + 1);
  }

  /** Off the end of the path: every row is behind the cursor. */
  ghost predicate Past(pages: Pages, chain: seq<nat>, p: Position)
    requires IsPath(pages, chain)
  {
    Recorded(chain, p, |chain| - 1) && RowsFrom(pages, chain, |chain| - 1, p.tag + 1) == []
  }

  lemma NothingPast(pages: Pages, chain: seq<nat>, k: nat, i: nat)
    requires IsPath(pages, chain) && i > 0 && k < |chain| && RowsFrom(pages, chain, k, i) == []
    ensures RowsFrom(pages, chain, |chain| - 1, i) == []
  {
    hide RowsFrom;
    NothingLater(pages, chain, k, i, |chain| - 1);
  }

  lemma EmptyPast(pages: Pages, chain: seq<nat>, i: nat)
    requires IsPath(pages, chain) && i > 0 && Rows(pages, chain) == []
    ensures RowsFrom(pages, chain, |chain| - 1, i) == []
  {
    hide RowsFrom;
    var later := RowsFrom(pages, chain, |chain| - 1, i);
    if later != [] {
      assert later[0] in later;
      RowsFromExact(pages, chain, |chain| - 1, i, later[0]);
      RowsFromExact(pages, chain, 0, 1, later[0]);
    }
  }

  /** Reading a table whose first leaf has a data tag, on every page graph and for any number of moves:
      `MoveFirst` and then `MoveNext` read the rows in order, each once. Then they report the end, the
      page that is missing, or the page that closes the cycle, every time. */
  lemma {:induction false} ScanReadsGraph(pages: Pages, chain: seq<nat>, p: Position, ps: seq<Position>,
                                          rs: seq<Result>, x: nat)
    requires IsWhole(pages, chain) && |pages[chain[0]].defunct| >= 2
    requires IsScan(pages, chain[0], p, ps, rs) && x < |ps|
    ensures var rows := Rows(pages, chain);
            if x < |rows| then rs[x] == Ok(true) && Recorded(chain, ps[x], rows[x].k) && ps[x].tag == rows[x].tag
            else rs[x] == EndOf(pages, chain) && Past(pages, chain, ps[x])
  {
    hide RowsFrom, NextRow;
    var rows := Rows(pages, chain);
    if x == 0 {
      FirstOnPath(pages, chain, p);
      if rows == [] {
        EmptyPast(pages, chain, ps[0].tag + 1);
      }
    } else {
      ScanReadsGraph(pages, chain, p, ps, rs, x - 1);
      assert Follows(pages, chain[0], ps[x - 1], ps[x], rs[x]);
      if x - 1 < |rows| {
        NextOnPath(pages, chain, ps[x - 1], rows[x - 1].k);
        RowsTail(pages, chain, 0, 1, x - 1);
        if x == |rows| {
          NothingPast(pages, chain, rows[x - 1].k, ps[x - 1].tag + 1);
        }
      } else {
        NextOnPath(pages, chain, ps[x - 1], |chain| - 1);
      }
    }
  }

  /** So a chain whose last leaf links back to its k-th one is read once and then reported as a cycle. */
  lemma CycleIsReported(pages: Pages, chain: seq<nat>, k: nat, p: Position, ps: seq<Position>, rs: seq<Result>, x: nat)
    requires IsPath(pages, chain) && k < |chain| && pages[chain[|chain| - 1]].next == chain[k]
    requires |pages[chain[0]].defunct| >= 2 && IsScan(pages, chain[0], p, ps, rs) && x < |ps|
    ensures x >= |Rows(pages, chain)| ==> rs[x] == CircularReference(chain[k])
    ensures x < |Rows(pages, chain)| ==> rs[x] == Ok(true)
  {
    hide RowsFrom, NextRow;
    ScanReadsGraph(pages, chain, p, ps, rs, x);
  }

  lemma ForwardOn(pages: Pages, page: nat, i: nat, visited: seq<nat>)
    requires page in pages && i >= |pages[page].defunct|
    requires pages[page].next != 0 && pages[page].next in pages && pages[page].next !in visited
    ensures var next := pages[page].next;
            WalkForward(pages, page, i, visited) == WalkForward(pages, next, 1, visited + [next])
  {}

  lemma ForwardCycle(pages: Pages, page: nat, i: nat, visited: seq<nat>)
    requires page in pages && i >= |pages[page].defunct|
    requires pages[page].next != 0 && pages[page].next in pages && pages[page].next in visited
    ensures WalkForward(pages, page, i, visited).result == CircularReference(pages[page].next)
  {}

  /** Two leaves that link to each other, of one row each: the third move reports the cycle. */
  lemma TwoLeafCycle()
    ensures var pages: Pages := map[1 := Page([false, false], 2, 0), 2 := Page([false, false], 1, 1)];
            && IsPath(pages, [1, 2]) && pages[2].next == 1
            && var (a, r) := NextRow(pages, 1, Opened, MOVE_FIRST);
               && r == Ok(true) && a == Position(On(1), 1, [1], Forward)
               && var (b, s) := NextRow(pages, 1, a, MOVE_NEXT);
                  && s == Ok(true) && b == Position(On(2), 1, [1, 2], Forward)
                  && NextRow(pages, 1, b, MOVE_NEXT).1 == CircularReference(1)
  {
    hide WalkForward;
    var pages: Pages := map[1 := Page([false, false], 2, 0), 2 := Page([false, false], 1, 1)];
    assert [] + [1] == [1] && [1] + [2] == [1, 2];
    ForwardHere(pages, 1, 1, [1]);
    ForwardHere(pages, 2, 1, [1, 2]);
    ForwardOn(pages, 1, 2, [1]);
    ForwardCycle(pages, 2, 2, [1, 2]);
  }
}
