/**
  Runs of the row cursor over well-formed chains of leaf pages.
*/
module CursorRuns {
  import opened Cursor

  /** Leaf pages in order: each linked forward to the one after it, no page twice. */
  ghost predicate IsPath(pages: Pages, chain: seq<nat>) {
    && |chain| > 0
    && (forall k :: 0 <= k < |chain| ==> chain[k] in pages && chain[k] != 0)
    && (forall j, k :: 0 <= j < k < |chain| ==> chain[j] != chain[k])
    && (forall k :: 0 <= k && k + 1 < |chain| ==> pages[chain[k]].next == chain[k + 1])
  }

  /** All the leaf pages, up to one that has no next. */
  ghost predicate IsChain(pages: Pages, chain: seq<nat>) {
    IsPath(pages, chain) && pages[chain[|chain| - 1]].next == 0
  }

  /** Linked backward as well. */
  ghost predicate IsLinked(pages: Pages, chain: seq<nat>) {
    && IsChain(pages, chain) && AllHaveHeader(pages)
    && (forall k :: 0 <= k < |chain| ==> pages[chain[k]].previous == if k > 0 then chain[k - 1] else 0)
  }

  datatype Row = Row(k: nat, tag: nat)

  ghost predicate Live(pages: Pages, chain: seq<nat>, r: Row)
    requires IsPath(pages, chain)
  {
    r.k < |chain| && 0 < r.tag < |pages[chain[r.k]].defunct| && !pages[chain[r.k]].defunct[r.tag]
  }

  predicate Before(r: Row, s: Row) {
    r.k < s.k || (r.k == s.k && r.tag < s.tag)
  }

  /** The live rows from a place in the chain on. */
  ghost function RowsFrom(pages: Pages, chain: seq<nat>, k: nat, i: nat): seq<Row>
    requires IsPath(pages, chain) && i > 0
    decreases |chain| - k, if k < |chain| then |pages[chain[k]].defunct| - i else 0
  {
    if k >= |chain| then []
    else
      var defunct := pages[chain[k]].defunct;
      if i >= |defunct| then RowsFrom(pages, chain, k + 1, 1)
      else if defunct[i] then RowsFrom(pages, chain, k, i + 1)
      else [Row(k, i)] + RowsFrom(pages, chain, k, i + 1)
  }

  /** All rows of the table. */
  ghost function Rows(pages: Pages, chain: seq<nat>): seq<Row>
    requires IsPath(pages, chain)
  {
    RowsFrom(pages, chain, 0, 1)
  }

  lemma PathPage(pages: Pages, chain: seq<nat>, k: nat)
    requires IsPath(pages, chain) && k < |chain|
    ensures chain[k] in pages && chain[k] != 0
    ensures k + 1 < |chain| ==> pages[chain[k]].next == chain[k + 1]
  {}

  /** The rows from a place on are the live rows at or after it. */
  lemma {:induction false} RowsFromExact(pages: Pages, chain: seq<nat>, k: nat, i: nat, r: Row)
    requires IsPath(pages, chain) && i > 0
    ensures r in RowsFrom(pages, chain, k, i) <==> Live(pages, chain, r) && !Before(r, Row(k, i))
    decreases |chain| - k, if k < |chain| then |pages[chain[k]].defunct| - i else 0
  {
    hide IsPath;
    if k >= |chain| {
    } else {
      PathPage(pages, chain, k);
      if i >= |pages[chain[k]].defunct| {
        RowsFromExact(pages, chain, k + 1, 1, r);
      } else {
        RowsFromExact(pages, chain, k, i + 1, r);
      }
    }
  }

  lemma {:induction false} RowsFromOrdered(pages: Pages, chain: seq<nat>, k: nat, i: nat)
    requires IsPath(pages, chain) && i > 0
    ensures forall m, n :: 0 <= m < n < |RowsFrom(pages, chain, k, i)| ==>
              Before(RowsFrom(pages, chain, k, i)[m], RowsFrom(pages, chain, k, i)[n])
    decreases |chain| - k, if k < |chain| then |pages[chain[k]].defunct| - i else 0
  {
    hide IsPath;
    if k >= |chain| {
    } else {
      PathPage(pages, chain, k);
      if i >= |pages[chain[k]].defunct| {
        RowsFromOrdered(pages, chain, k + 1, 1);
      } else {
        RowsFromOrdered(pages, chain, k, i + 1);
        var rest := RowsFrom(pages, chain, k, i + 1);
        forall n | 0 <= n < |rest| ensures Before(Row(k, i), rest[n]) {
          assert rest[n] in rest;
          RowsFromExact(pages, chain, k, i + 1, rest[n]);
        }
      }
    }
  }

  lemma {:induction false} RowsSkip(pages: Pages, chain: seq<nat>, k: nat, i: nat)
    requires IsPath(pages, chain) && i > 0 && k < |chain|
    ensures RowsFrom(pages, chain, k, i) == RowsFrom(pages, chain, k, LiveFrom(pages[chain[k]].defunct, i))
    decreases |pages[chain[k]].defunct| - i
  {
    var defunct := pages[chain[k]].defunct;
    if i >= |defunct| || !defunct[i] {
    } else {
      RowsSkip(pages, chain, k, i + 1);
    }
  }

  // ----- the walk on a chain -----

  ghost predicate Disjoint(visited: seq<nat>, ahead: seq<nat>) {
    forall m :: 0 <= m < |ahead| ==> ahead[m] !in visited
  }

  lemma EnteredNext(chain: seq<nat>, k: nat, q: nat, visited: seq<nat>)
    requires k + 2 <= q <= |chain|
    ensures visited + [chain[k + 1]] + chain[k + 2..q] == visited + chain[k + 1..q]
    ensures chain[k + 1..|chain|] == chain[k + 1..] && chain[k + 2..|chain|] == chain[k + 2..]
  {
    assert chain[k + 1..q] == [chain[k + 1]] + chain[k + 2..q];
  }

  lemma AheadDisjoint(pages: Pages, chain: seq<nat>, k: nat, visited: seq<nat>)
    requires IsPath(pages, chain) && k + 1 < |chain| && Disjoint(visited, chain[k + 1..])
    ensures Disjoint(visited + [chain[k + 1]], chain[k + 2..])
  {
    var ahead := chain[k + 2..];
    forall m | 0 <= m < |ahead| ensures ahead[m] !in visited + [chain[k + 1]] {
      assert chain[k + 1..][m + 1] == ahead[m] && chain[k + 2 + m] == ahead[m];
    }
  }

  /** The walk finds the first live row ahead, or the end; it enters the pages in between. */
  lemma {:induction false} WalkOnChain(pages: Pages, chain: seq<nat>, k: nat, i: nat, visited: seq<nat>)
    requires IsChain(pages, chain) && i > 0 && k < |chain| && Disjoint(visited, chain[k + 1..])
    ensures var o, rows := WalkForward(pages, chain[k], i, visited), RowsFrom(pages, chain, k, i);
            if rows == []
            then o.result == Ok(false) && o.page == chain[|chain| - 1] && o.visited == visited + chain[k + 1..]
            else o.result == Ok(true) && k <= rows[0].k < |chain| && o.page == chain[rows[0].k] && o.tag == rows[0].tag
                 && o.visited == visited + chain[k + 1..rows[0].k + 1]
    decreases |chain| - k
  {
    PathPage(pages, chain, k);
    RowsSkip(pages, chain, k, i);
    var j := LiveFrom(pages[chain[k]].defunct, i);
    if j < |pages[chain[k]].defunct| {
      assert visited + chain[k + 1..k + 1] == visited;
    } else if k + 1 < |chain| {
      assert chain[k + 1..][0] == chain[k + 1];
      assert Disjoint(visited + [chain[k + 1]], chain[k + 2..]) by { AheadDisjoint(pages, chain, k, visited); }
      PathPage(pages, chain, k + 1);
      WalkOnChain(pages, chain, k + 1, 1, visited + [chain[k + 1]]);
      var rows := RowsFrom(pages, chain, k + 1, 1);
      EnteredNext(chain, k, if rows == [] then |chain| else rows[0].k + 1, visited);
    } else {
      assert visited + chain[k + 1..] == visited;
    }
  }

  // ----- forward runs -----

  ghost predicate Among(visited: seq<nat>, part: seq<nat>) {
    forall m :: 0 <= m < |visited| ==> visited[m] in part
  }

  /** Pages entered since the record was last cleared lie behind the cursor. */
  ghost predicate OnTrack(chain: seq<nat>, p: Position, k: nat) {
    && k < |chain| && p.page == On(chain[k])
    && match p.direction
       case Undirected => p.visited == []
       case Forward => Among(p.visited, chain[..k + 1])
       case Backward => Among(p.visited, chain[k..])
  }

  /** The cursor is on a row of the chain. */
  ghost predicate AtRow(pages: Pages, chain: seq<nat>, p: Position, r: Row)
    requires IsPath(pages, chain)
  {
    Live(pages, chain, r) && OnTrack(chain, p, r.k) && p.tag == r.tag
  }

  /** The cursor has run off the end: nothing is live from its place on. */
  ghost predicate AtEnd(pages: Pages, chain: seq<nat>, p: Position)
    requires IsPath(pages, chain)
  {
    OnTrack(chain, p, |chain| - 1) && RowsFrom(pages, chain, |chain| - 1, p.tag + 1) == []
  }

  lemma BehindDisjoint(pages: Pages, chain: seq<nat>, k: nat, visited: seq<nat>)
    requires IsPath(pages, chain) && k < |chain| && Among(visited, chain[..k + 1])
    ensures Disjoint(visited, chain[k + 1..])
  {
    var ahead := chain[k + 1..];
    forall m | 0 <= m < |ahead| ensures ahead[m] !in visited {
      assert ahead[m] == chain[k + 1 + m];
      assert ahead[m] !in chain[..k + 1];
    }
  }

  lemma AmongGrows(chain: seq<nat>, visited: seq<nat>, k: nat, q: nat)
    requires k <= q < |chain| && Among(visited, chain[..k + 1])
    ensures Among(visited + chain[k + 1..q + 1], chain[..q + 1])
  {
    var more := chain[k + 1..q + 1];
    forall m | 0 <= m < |visited + more| ensures (visited + more)[m] in chain[..q + 1] {
      if m < |visited| {
        var n :| 0 <= n < k + 1 && chain[..k + 1][n] == visited[m];
        assert chain[..q + 1][n] == visited[m];
      } else {
        assert chain[..q + 1][k + 1 + (m - |visited|)] == more[m - |visited|];
      }
    }
  }

  /** A forward walk from a place on track reaches the next live row, or the end. */
  lemma WalkOnTrack(pages: Pages, chain: seq<nat>, p: Position, k: nat, i: nat)
    requires IsChain(pages, chain) && OnTrack(chain, p, k) && p.direction.Forward? && i > 0
    ensures var o, rows := WalkForward(pages, chain[k], i, p.visited), RowsFrom(pages, chain, k, i);
            if rows == []
            then o.result == Ok(false) && OnTrack(chain, Landed(p, o), |chain| - 1)
            else o.result == Ok(true) && o.tag == rows[0].tag && OnTrack(chain, Landed(p, o), rows[0].k)
  {
    hide WalkForward, RowsFrom;
    BehindDisjoint(pages, chain, k, p.visited);
    WalkOnChain(pages, chain, k, i, p.visited);
    var rows := RowsFrom(pages, chain, k, i);
    var q := if rows == [] then |chain| - 1 else rows[0].k;
    AmongGrows(chain, p.visited, k, q);
    assert chain[k + 1..] == chain[k + 1..|chain|];
  }

  /** `MoveFirst` from any position goes to the first row, provided the first leaf has a data
      tag; without one it reports an empty table, whatever the later pages hold. */
  lemma FirstFinds(pages: Pages, chain: seq<nat>, p: Position)
    requires IsChain(pages, chain) && (p.page.On? ==> p.page.number in pages)
    ensures var (q, r), rows := NextRow(pages, chain[0], p, MOVE_FIRST), Rows(pages, chain);
            if |pages[chain[0]].defunct| < 2 then r == Ok(false) && OnTrack(chain, q, 0)
            else if rows == [] then r == Ok(false) && OnTrack(chain, q, |chain| - 1)
            else r == Ok(true) && AtRow(pages, chain, q, rows[0])
  {
    hide WalkForward, RowsFrom;
    var u := Position(On(chain[0]), p.tag, [chain[0]], Forward);
    assert chain[..1] == [chain[0]];
    assert OnTrack(chain, u, 0);
    assert [] + [chain[0]] == [chain[0]];
    if |pages[chain[0]].defunct| >= 2 {
      WalkOnTrack(pages, chain, u, 0, 1);
      var rows := Rows(pages, chain);
      if rows != [] {
        assert rows[0] in rows;
        RowsFromExact(pages, chain, 0, 1, rows[0]);
      }
    }
  }

  /** A table whose first leaf is empty and whose second has a row: it is reported empty. */
  lemma FirstFindsMisses()
    ensures var pages: Pages := map[1 := Page([false], 2, 0), 2 := Page([false, false], 0, 1)];
            && IsLinked(pages, [1, 2]) && Live(pages, [1, 2], Row(1, 1))
            && NextRow(pages, 1, Opened, MOVE_FIRST).1 == Ok(false)
  {}

  lemma {:induction false} RowsTail(pages: Pages, chain: seq<nat>, k: nat, i: nat, m: nat)
    requires IsPath(pages, chain) && i > 0 && m < |RowsFrom(pages, chain, k, i)|
    ensures var r := RowsFrom(pages, chain, k, i)[m];
            RowsFrom(pages, chain, r.k, r.tag + 1) == RowsFrom(pages, chain, k, i)[m + 1..]
    decreases |chain| - k, if k < |chain| then |pages[chain[k]].defunct| - i else 0
  {
    hide IsPath;
    if k >= |chain| {
    } else {
      PathPage(pages, chain, k);
      if i >= |pages[chain[k]].defunct| {
        RowsTail(pages, chain, k + 1, 1, m);
      } else if pages[chain[k]].defunct[i] {
        RowsTail(pages, chain, k, i + 1, m);
      } else if m > 0 {
        RowsTail(pages, chain, k, i + 1, m - 1);
      }
    }
  }

  lemma TurnForward(chain: seq<nat>, p: Position, k: nat)
    requires OnTrack(chain, p, k)
    ensures OnTrack(chain, Turned(p, MOVE_NEXT), k) && Turned(p, MOVE_NEXT).direction.Forward?
    ensures Turned(p, MOVE_NEXT).tag == p.tag
  {}

  lemma NothingLater(pages: Pages, chain: seq<nat>, k: nat, i: nat, k': nat)
    requires IsPath(pages, chain) && i > 0 && k <= k' && RowsFrom(pages, chain, k, i) == []
    ensures RowsFrom(pages, chain, k', i) == []
  {
    var later := RowsFrom(pages, chain, k', i);
    if later != [] {
      assert later[0] in later;
      RowsFromExact(pages, chain, k', i, later[0]);
      RowsFromExact(pages, chain, k, i, later[0]);
    }
  }

  /** `MoveNext` from a row goes to the following row, or off the end. */
  lemma NextFinds(pages: Pages, chain: seq<nat>, p: Position, m: nat)
    requires IsChain(pages, chain) && m < |Rows(pages, chain)| && AtRow(pages, chain, p, Rows(pages, chain)[m])
    ensures var (q, r), rows := NextRow(pages, chain[0], p, MOVE_NEXT), Rows(pages, chain);
            if m + 1 < |rows| then r == Ok(true) && AtRow(pages, chain, q, rows[m + 1])
            else r == Ok(false) && AtEnd(pages, chain, q)
  {
    hide WalkForward, RowsFrom, IsPath;
    var rows := Rows(pages, chain);
    var k, i := rows[m].k, rows[m].tag;
    TurnForward(chain, p, k);
    PathPage(pages, chain, k);
    RowsTail(pages, chain, 0, 1, m);
    WalkOnTrack(pages, chain, Turned(p, MOVE_NEXT), k, i + 1);
    if m + 1 < |rows| {
      assert rows[m + 1] in rows;
      RowsFromExact(pages, chain, 0, 1, rows[m + 1]);
    } else {
      NothingLater(pages, chain, k, i + 1, |chain| - 1);
    }
  }

  /** Off the end, every further `MoveNext` reports the end again. */
  lemma EndStays(pages: Pages, chain: seq<nat>, p: Position)
    requires IsChain(pages, chain) && AtEnd(pages, chain, p)
    ensures var (q, r) := NextRow(pages, chain[0], p, MOVE_NEXT);
            r == Ok(false) && AtEnd(pages, chain, q)
  {
    hide WalkForward, RowsFrom;
    TurnForward(chain, p, |chain| - 1);
    WalkOnTrack(pages, chain, Turned(p, MOVE_NEXT), |chain| - 1, p.tag + 1);
  }

  ghost predicate Follows(pages: Pages, firstLeaf: nat, p: Position, q: Position, r: Result) {
    p.page.On? && p.page.number in pages && (q, r) == NextRow(pages, firstLeaf, p, MOVE_NEXT)
  }

  /** Positions and results of `MoveFirst` followed by `MoveNext`s. */
  ghost predicate IsScan(pages: Pages, firstLeaf: nat, p: Position, ps: seq<Position>, rs: seq<Result>) {
    && |ps| == |rs| > 0
    && (p.page.On? ==> p.page.number in pages)
    && (ps[0], rs[0]) == NextRow(pages, firstLeaf, p, MOVE_FIRST)
    && forall j :: 0 < j < |ps| ==> Follows(pages, firstLeaf, ps[j - 1], ps[j], rs[j])
  }

  lemma EmptyEnds(pages: Pages, chain: seq<nat>, p: Position)
    requires IsChain(pages, chain) && Rows(pages, chain) == [] && OnTrack(chain, p, |chain| - 1)
    ensures AtEnd(pages, chain, p)
  {
    hide RowsFrom;
    var later := RowsFrom(pages, chain, |chain| - 1, p.tag + 1);
    if later != [] {
      assert later[0] in later;
      RowsFromExact(pages, chain, |chain| - 1, p.tag + 1, later[0]);
      RowsFromExact(pages, chain, 0, 1, later[0]);
    }
  }

  /** A scan returns the rows of the table in order, each once, and then nothing for as long as
      it is asked. */
  lemma {:induction false} ScanReadsTable(pages: Pages, chain: seq<nat>, p: Position, ps: seq<Position>,
                                          rs: seq<Result>, n: nat)
    requires IsChain(pages, chain) && |pages[chain[0]].defunct| >= 2
    requires IsScan(pages, chain[0], p, ps, rs) && n < |ps|
    ensures var rows := Rows(pages, chain);
            if n < |rows| then rs[n] == Ok(true) && AtRow(pages, chain, ps[n], rows[n])
            else rs[n] == Ok(false) && AtEnd(pages, chain, ps[n])
  {
    hide RowsFrom, NextRow;
    var rows := Rows(pages, chain);
    if n == 0 {
      FirstFinds(pages, chain, p);
      if rows == [] {
        EmptyEnds(pages, chain, ps[0]);
      }
    } else {
      ScanReadsTable(pages, chain, p, ps, rs, n - 1);
      assert Follows(pages, chain[0], ps[n - 1], ps[n], rs[n]);
      if n - 1 < |rows| {
        NextFinds(pages, chain, ps[n - 1], n - 1);
      } else {
        EndStays(pages, chain, ps[n - 1]);
      }
    }
  }

  // ----- rows up to a place -----

  lemma RowsAreLive(pages: Pages, chain: seq<nat>, m: nat)
    requires IsPath(pages, chain) && m < |Rows(pages, chain)|
    ensures Live(pages, chain, Rows(pages, chain)[m])
  {
    hide RowsFrom, IsPath;
    assert Rows(pages, chain)[m] in Rows(pages, chain);
    RowsFromExact(pages, chain, 0, 1, Rows(pages, chain)[m]);
  }

  lemma RowIndex(pages: Pages, chain: seq<nat>, r: Row) returns (m: nat)
    requires IsPath(pages, chain) && Live(pages, chain, r)
    ensures m < |Rows(pages, chain)| && Rows(pages, chain)[m] == r
  {
    hide RowsFrom, IsPath;
    RowsFromExact(pages, chain, 0, 1, r);
    m :| 0 <= m < |Rows(pages, chain)| && Rows(pages, chain)[m] == r;
  }

  /** The first m rows of the table are those up to a place. */
  ghost predicate Reaches(pages: Pages, chain: seq<nat>, at: Row, m: nat)
    requires IsPath(pages, chain)
  {
    var rows := Rows(pages, chain);
    m <= |rows| && forall i :: 0 <= i < |rows| ==> (i < m <==> !Before(at, rows[i]))
  }

  /** Before row m are the m rows ahead of it. */
  lemma ReachesBefore(pages: Pages, chain: seq<nat>, m: nat)
    requires IsPath(pages, chain) && m < |Rows(pages, chain)|
    ensures var r := Rows(pages, chain)[m];
            Live(pages, chain, r) && r.tag > 0 && Reaches(pages, chain, Row(r.k, r.tag - 1), m)
  {
    hide RowsFrom, IsPath;
    var rows := Rows(pages, chain);
    RowsAreLive(pages, chain, m);
    RowsFromOrdered(pages, chain, 0, 1);
    forall i | 0 <= i < |rows| ensures i < m <==> !Before(Row(rows[m].k, rows[m].tag - 1), rows[i]) {
      assert i < m ==> Before(rows[i], rows[m]);
      assert m < i ==> Before(rows[m], rows[i]);
    }
  }

  /** The last row up to a place, if it is on the page of that place. */
  lemma LastReached(pages: Pages, chain: seq<nat>, c: nat, i: nat, m: nat)
    requires IsPath(pages, chain) && c < |chain| && i < |pages[chain[c]].defunct|
    requires Reaches(pages, chain, Row(c, i), m)
    ensures var rows, j := Rows(pages, chain), LiveUpTo(pages[chain[c]].defunct, i);
            && (j > 0 ==> m > 0 && rows[m - 1] == Row(c, j))
            && (j == 0 && m > 0 ==> 0 < c && rows[m - 1].k < c)
  {
    hide RowsFrom, IsPath;
    PathPage(pages, chain, c);
    var rows, j := Rows(pages, chain), LiveUpTo(pages[chain[c]].defunct, i);
    if m > 0 {
      RowsAreLive(pages, chain, m - 1);
    }
    if j > 0 {
      var x := RowIndex(pages, chain, Row(c, j));
      RowsFromOrdered(pages, chain, 0, 1);
      assert x == m - 1 || Before(rows[x], rows[m - 1]);
    }
  }

  // ----- stepping back -----

  ghost predicate Behind(chain: seq<nat>, k: nat, visited: seq<nat>) {
    k < |chain| && Among(visited, chain[k..])
  }

  lemma BackEnters(pages: Pages, chain: seq<nat>, k: nat, visited: seq<nat>)
    requires IsLinked(pages, chain) && 0 < k && Behind(chain, k, visited)
    ensures pages[chain[k]].previous == chain[k - 1] != 0 && chain[k - 1] in pages && chain[k - 1] !in visited
    ensures Behind(chain, k - 1, visited + [chain[k - 1]])
  {
    forall n | 0 <= n < |chain[k..]| ensures chain[k..][n] != chain[k - 1] {
      assert chain[k..][n] == chain[k + n];
    }
    var more := visited + [chain[k - 1]];
    forall m | 0 <= m < |more| ensures more[m] in chain[k - 1..] {
      if m < |visited| {
        var n :| 0 <= n < |chain[k..]| && chain[k..][n] == visited[m];
        assert chain[k - 1..][n + 1] == visited[m];
      } else {
        assert chain[k - 1..][0] == chain[k - 1];
      }
    }
  }

  lemma ReachesPrevious(pages: Pages, chain: seq<nat>, c: nat, i: nat, m: nat)
    requires IsPath(pages, chain) && 0 < c < |chain| && i < |pages[chain[c]].defunct|
    requires |pages[chain[c - 1]].defunct| > 0 && LiveUpTo(pages[chain[c]].defunct, i) == 0
    requires Reaches(pages, chain, Row(c, i), m)
    ensures Reaches(pages, chain, Row(c - 1, |pages[chain[c - 1]].defunct| - 1), m)
  {
    hide RowsFrom, IsPath;
    PathPage(pages, chain, c - 1);
    PathPage(pages, chain, c);
    var rows, last := Rows(pages, chain), |pages[chain[c - 1]].defunct| - 1;
    forall x | 0 <= x < |rows| ensures !Before(Row(c - 1, last), rows[x]) <==> !Before(Row(c, i), rows[x]) {
      RowsAreLive(pages, chain, x);
    }
  }

  /** A walk back from a place finds the last row up to it, or runs off the start. */
  lemma {:induction false} WalkBackOnChain(pages: Pages, chain: seq<nat>, c: nat, i: nat, visited: seq<nat>, m: nat)
    requires IsLinked(pages, chain) && c < |chain| && i < |pages[chain[c]].defunct| && Behind(chain, c, visited)
    requires Reaches(pages, chain, Row(c, i), m)
    ensures var o, rows := WalkBackward(pages, chain[c], i, visited), Rows(pages, chain);
            if m == 0
            then o.result == Ok(false) && o.page == chain[0] && Behind(chain, 0, o.visited)
            else
              && o.result == Ok(true) && rows[m - 1].k < |chain|
              && o.page == chain[rows[m - 1].k] && o.tag == rows[m - 1].tag
              && Behind(chain, rows[m - 1].k, o.visited)
    decreases c
  {
    hide RowsFrom, Reaches;
    LastReached(pages, chain, c, i, m);
    if LiveUpTo(pages[chain[c]].defunct, i) > 0 || c == 0 {
    } else {
      BackEnters(pages, chain, c, visited);
      ReachesPrevious(pages, chain, c, i, m);
      WalkBackOnChain(pages, chain, c - 1, |pages[chain[c - 1]].defunct| - 1, visited + [chain[c - 1]], m);
    }
  }

  /** The cursor is on a row. */
  predicate OnRow(chain: seq<nat>, p: Position, r: Row) {
    r.k < |chain| && p.page == On(chain[r.k]) && p.tag == r.tag
  }

  /** `MovePrevious` on track finds the last row before the cursor, or reports the start. */
  lemma PreviousReads(pages: Pages, chain: seq<nat>, p: Position, c: nat, m: nat)
    requires IsLinked(pages, chain) && OnTrack(chain, p, c) && CanMoveBack(pages, p, MOVE_PREVIOUS)
    requires Reaches(pages, chain, Row(c, p.tag - 1), m)
    ensures var (q, r), rows := PreviousRow(pages, p, MOVE_PREVIOUS), Rows(pages, chain);
            && q.direction.Backward?
            && if m == 0 then r == Ok(false) && OnTrack(chain, q, 0) && q.tag == p.tag
               else r == Ok(true) && OnRow(chain, q, rows[m - 1]) && OnTrack(chain, q, rows[m - 1].k)
  {
    hide RowsFrom, WalkBackward, Reaches;
    WalkBackOnChain(pages, chain, c, p.tag - 1, Turned(p, MOVE_PREVIOUS).visited, m);
  }

  /** On a doubly linked chain, a successful `MoveNext` and then a `MovePrevious` come back to
      the same row. */
  lemma NextThenPrevious(pages: Pages, chain: seq<nat>, p: Position, m: nat)
    requires IsLinked(pages, chain) && m + 1 < |Rows(pages, chain)| && AtRow(pages, chain, p, Rows(pages, chain)[m])
    ensures var (q, r) := NextRow(pages, chain[0], p, MOVE_NEXT);
            r == Ok(true) && CanMoveBack(pages, q, MOVE_PREVIOUS)
            && var (b, s) := PreviousRow(pages, q, MOVE_PREVIOUS);
               s == Ok(true) && b.page == p.page && b.tag == p.tag
  {
    hide RowsFrom, NextRow, PreviousRow, Reaches;
    NextFinds(pages, chain, p, m);
    ReachesBefore(pages, chain, m + 1);
    PreviousReads(pages, chain, NextRow(pages, chain[0], p, MOVE_NEXT).0, Rows(pages, chain)[m + 1].k, m + 1);
  }

  // ----- stepping back from the end -----

  /** The data tags of a page are all defunct. */
  predicate NoneLive(defunct: seq<bool>) {
    forall j :: 0 < j < |defunct| ==> defunct[j]
  }

  /** Every row is before the place behind the last tag of the last page. */
  lemma ReachesAll(pages: Pages, chain: seq<nat>, i: nat)
    requires IsPath(pages, chain)
    requires i + 1 >= |pages[chain[|chain| - 1]].defunct| || NoneLive(pages[chain[|chain| - 1]].defunct)
    ensures Reaches(pages, chain, Row(|chain| - 1, i), |Rows(pages, chain)|)
  {
    hide RowsFrom;
    forall x | 0 <= x < |Rows(pages, chain)| ensures !Before(Row(|chain| - 1, i), Rows(pages, chain)[x]) {
      RowsAreLive(pages, chain, x);
    }
  }

  /** If the last row is on an earlier leaf, every row is before any tag of the last leaf. */
  lemma ReachesLast(pages: Pages, chain: seq<nat>, i: nat)
    requires IsPath(pages, chain) && |Rows(pages, chain)| > 0
    requires Rows(pages, chain)[|Rows(pages, chain)| - 1].k < |chain| - 1
    ensures Reaches(pages, chain, Row(|chain| - 1, i), |Rows(pages, chain)|)
  {
    hide RowsFrom, IsPath;
    var rows := Rows(pages, chain);
    RowsFromOrdered(pages, chain, 0, 1);
    forall x | 0 <= x < |rows| ensures !Before(Row(|chain| - 1, i), rows[x]) {
      assert x == |rows| - 1 || Before(rows[x], rows[|rows| - 1]);
    }
  }

  lemma EndKeepsTag(pages: Pages, chain: seq<nat>, p: Position)
    requires IsChain(pages, chain) && p.page.On? && p.page.number in pages
    requires NextRow(pages, chain[0], p, MOVE_NEXT).1 == Ok(false)
    ensures NextRow(pages, chain[0], p, MOVE_NEXT).0.tag == p.tag
  {}

  /** Running off the end moves the cursor to the last leaf but leaves the tag of the last row. A step
      back from there indexes the last leaf with it, in bounds if and only if that leaf has so many
      tags. It then returns to the last row if and only if that row is on another leaf; if it is on
      the last leaf, the row before it is read. */
  lemma StepBackFromEndIff(pages: Pages, chain: seq<nat>, p: Position)
    requires IsLinked(pages, chain) && |Rows(pages, chain)| > 0
    requires AtRow(pages, chain, p, Rows(pages, chain)[|Rows(pages, chain)| - 1])
    ensures var (q, r), rows, n := NextRow(pages, chain[0], p, MOVE_NEXT), Rows(pages, chain), |chain| - 1;
            && r == Ok(false)
            && (CanMoveBack(pages, q, MOVE_PREVIOUS) <==> p.tag <= |pages[chain[n]].defunct|)
            && (CanMoveBack(pages, q, MOVE_PREVIOUS) ==>
                  var (b, s) := PreviousRow(pages, q, MOVE_PREVIOUS);
                  if rows[|rows| - 1].k < n then s == Ok(true) && OnRow(chain, b, rows[|rows| - 1])
                  else if |rows| > 1 then s == Ok(true) && OnRow(chain, b, rows[|rows| - 2])
                  else s == Ok(false))
  {
    hide RowsFrom, NextRow, PreviousRow, Reaches;
    var rows, n := Rows(pages, chain), |chain| - 1;
    NextFinds(pages, chain, p, |rows| - 1);
    EndKeepsTag(pages, chain, p);
    var q := NextRow(pages, chain[0], p, MOVE_NEXT).0;
    if CanMoveBack(pages, q, MOVE_PREVIOUS) {
      if rows[|rows| - 1].k < n {
        ReachesLast(pages, chain, p.tag - 1);
        PreviousReads(pages, chain, q, n, |rows|);
      } else {
        ReachesBefore(pages, chain, |rows| - 1);
        PreviousReads(pages, chain, q, n, |rows| - 1);
      }
    }
  }

  /** A last page with fewer tags: the cursor was on tag 2 and the page it ends on has one. */
  lemma StepBackFromEndFails()
    ensures var pages: Pages := map[1 := Page([false, false, false], 2, 0), 2 := Page([false], 0, 1)];
            var p := Position(On(1), 2, [1], Forward);
            && IsLinked(pages, [1, 2]) && AtRow(pages, [1, 2], p, Row(0, 2))
            && NextRow(pages, 1, p, MOVE_NEXT).1 == Ok(false)
            && !CanMoveBack(pages, NextRow(pages, 1, p, MOVE_NEXT).0, MOVE_PREVIOUS)
  {
    var pages: Pages := map[1 := Page([false, false, false], 2, 0), 2 := Page([false], 0, 1)];
    var p := Position(On(1), 2, [1], Forward);
    assert [1, 2][..1] == [1];
    assert WalkForward(pages, 2, 1, [1, 2]).result == Ok(false);
    assert [1] + [2] == [1, 2];
    assert WalkForward(pages, 1, 3, [1]) == WalkForward(pages, 2, 1, [1, 2]);
  }

  // ----- the last row -----

  lemma {:induction false} WalkToLastOnChain(pages: Pages, chain: seq<nat>, k: nat, visited: seq<nat>)
    requires IsChain(pages, chain) && k < |chain| && Disjoint(visited, chain[k + 1..])
    ensures var o := WalkToLast(pages, chain[k], visited);
            o.result == Ok(true) && o.page == chain[|chain| - 1] && o.visited == visited + chain[k + 1..]
    decreases |chain| - k
  {
    PathPage(pages, chain, k);
    if k + 1 < |chain| {
      assert chain[k + 1..][0] == chain[k + 1];
      AheadDisjoint(pages, chain, k, visited);
      WalkToLastOnChain(pages, chain, k + 1, visited + [chain[k + 1]]);
      EnteredNext(chain, k, |chain|, visited);
    } else {
      assert visited + chain[k + 1..] == visited;
    }
  }

  /** The record a move to the last row leaves: every page after the one it started from. */
  lemma LastRecord(pages: Pages, chain: seq<nat>, k: nat)
    requires IsLinked(pages, chain) && k < |chain|
    ensures var n := |chain| - 1;
            && (k + 1 < n ==> chain[n - 1] in chain[k + 1..])
            && (k + 1 >= n ==> Behind(chain, n, chain[k + 1..]))
  {
    var n, visited := |chain| - 1, chain[k + 1..];
    if k + 1 < n {
      assert visited[n - 1 - (k + 1)] == chain[n - 1];
    } else {
      forall m | 0 <= m < |visited| ensures visited[m] in chain[n..] {
        assert visited[m] == chain[k + 1 + m] == chain[n..][0];
      }
    }
  }

  /** The page the cursor ends on after a move to the last row, and the record it then has. */
  lemma LastLands(pages: Pages, chain: seq<nat>, p: Position, k: nat)
    requires IsLinked(pages, chain) && k < |chain| && p.page == On(chain[k]) && p.tag >= 1
    ensures var last := WalkToLast(pages, chain[k], []);
            last.result == Ok(true) && last.page == chain[|chain| - 1] && last.visited == chain[k + 1..]
  {
    hide WalkToLast;
    WalkToLastOnChain(pages, chain, k, []);
    assert [] + chain[k + 1..] == chain[k + 1..];
  }

  /** A move to the last row from one of the last two leaves meets no page on record. */
  lemma LastNear(pages: Pages, chain: seq<nat>, p: Position, k: nat)
    requires IsLinked(pages, chain) && k < |chain| <= k + 2 && p.page == On(chain[k]) && p.tag >= 1
    ensures var (q, r), rows, n := PreviousRow(pages, p, MOVE_LAST), Rows(pages, chain), |chain| - 1;
            && q.direction.Backward?
            && if |pages[chain[n]].defunct| < 2 then r == Ok(false) && OnTrack(chain, q, n) && q.tag == p.tag
               else if rows == [] then r == Ok(false) && OnTrack(chain, q, 0) && q.tag == p.tag
               else r == Ok(true) && OnRow(chain, q, rows[|rows| - 1]) && OnTrack(chain, q, rows[|rows| - 1].k)
  {
    hide RowsFrom, WalkBackward, WalkToLast, Reaches;
    var n := |chain| - 1;
    LastLands(pages, chain, p, k);
    LastRecord(pages, chain, k);
    if |pages[chain[n]].defunct| >= 2 {
      var i := |pages[chain[n]].defunct| - 1;
      ReachesAll(pages, chain, i);
      WalkBackOnChain(pages, chain, n, i, chain[k + 1..], |Rows(pages, chain)|);
    }
  }

  /** The cursor is on the last leaf with every leaf after the k-th on record. */
  ghost predicate Marked(chain: seq<nat>, p: Position, k: nat) {
    && k + 2 < |chain| && p.direction.Backward?
    && p.page == On(chain[|chain| - 1]) && p.visited == chain[k + 1..]
  }

  /** Over that record the walk back finds the rows of the last leaf only. */
  lemma WalkMarked(pages: Pages, chain: seq<nat>, k: nat, i: nat, m: nat)
    requires IsLinked(pages, chain) && k + 2 < |chain| && i < |pages[chain[|chain| - 1]].defunct|
    requires Reaches(pages, chain, Row(|chain| - 1, i), m)
    ensures var n, rows := |chain| - 1, Rows(pages, chain);
            var o := WalkBackward(pages, chain[n], i, chain[k + 1..]);
            && o.page == chain[n] && o.visited == chain[k + 1..]
            && if m > 0 && rows[m - 1].k == n then o.result == Ok(true) && o.tag == rows[m - 1].tag
               else o.result == CircularReference(chain[n - 1])
  {
    hide RowsFrom, Reaches;
    LastReached(pages, chain, |chain| - 1, i, m);
    LastRecord(pages, chain, k);
  }

  /** A move to the last row from further away leaves that record, whatever it finds. */
  lemma LastFar(pages: Pages, chain: seq<nat>, p: Position, k: nat)
    requires IsLinked(pages, chain) && k + 2 < |chain| && p.page == On(chain[k]) && p.tag >= 1
    ensures var (q, r), rows, n := PreviousRow(pages, p, MOVE_LAST), Rows(pages, chain), |chain| - 1;
            && Marked(chain, q, k)
            && if |pages[chain[n]].defunct| < 2 then r == Ok(false) && q.tag == p.tag
               else if rows != [] && rows[|rows| - 1].k == n then r == Ok(true) && OnRow(chain, q, rows[|rows| - 1])
               else r == CircularReference(chain[n - 1]) && q.tag == p.tag
  {
    hide RowsFrom, WalkBackward, WalkToLast, Reaches;
    var n := |chain| - 1;
    LastLands(pages, chain, p, k);
    if |pages[chain[n]].defunct| >= 2 {
      var i := |pages[chain[n]].defunct| - 1;
      ReachesAll(pages, chain, i);
      WalkMarked(pages, chain, k, i, |Rows(pages, chain)|);
    }
  }

  /** The last row is on the last leaf if and only if that has a row. */
  lemma LastLeafLive(pages: Pages, chain: seq<nat>)
    requires IsPath(pages, chain)
    ensures var rows, n := Rows(pages, chain), |chain| - 1;
            rows != [] && rows[|rows| - 1].k == n <==> !NoneLive(pages[chain[n]].defunct)
  {
    hide RowsFrom;
    var rows, n := Rows(pages, chain), |chain| - 1;
    if rows != [] {
      RowsAreLive(pages, chain, |rows| - 1);
    }
    if !NoneLive(pages[chain[n]].defunct) {
      var j :| 0 < j < |pages[chain[n]].defunct| && !pages[chain[n]].defunct[j];
      var x := RowIndex(pages, chain, Row(n, j));
      RowsFromOrdered(pages, chain, 0, 1);
      assert x == |rows| - 1 || Before(rows[x], rows[|rows| - 1]);
    }
  }

  /** A move to the last row finds it, with two exceptions: a last leaf without data tags is taken
      for an empty table, and a last leaf without a row for a cycle, unless the move started on that
      leaf or the one before. */
  lemma LastFinds(pages: Pages, chain: seq<nat>, p: Position, k: nat)
    requires IsLinked(pages, chain) && k < |chain| && p.page == On(chain[k]) && p.tag >= 1
    ensures var n, rows := |chain| - 1, Rows(pages, chain);
            var (q, r) := PreviousRow(pages, p, MOVE_LAST);
            if |pages[chain[n]].defunct| < 2 then r == Ok(false) && q.page == On(chain[n])
            else if NoneLive(pages[chain[n]].defunct) && k + 1 < n then r == CircularReference(chain[n - 1])
            else if rows == [] then r == Ok(false)
            else r == Ok(true) && OnRow(chain, q, rows[|rows| - 1])
  {
    hide RowsFrom, PreviousRow;
    if k + 2 < |chain| {
      LastFar(pages, chain, p, k);
      LastLeafLive(pages, chain);
    } else {
      LastNear(pages, chain, p, k);
    }
  }

  // ----- reading backward -----

  ghost predicate Precedes(pages: Pages, p: Position, q: Position, r: Result)
    requires AllHaveHeader(pages)
  {
    CanMoveBack(pages, p, MOVE_PREVIOUS) && (q, r) == PreviousRow(pages, p, MOVE_PREVIOUS)
  }

  /** Positions and results of `MoveLast` followed by `MovePrevious`s, each possible where made. */
  ghost predicate IsBackScan(pages: Pages, p: Position, ps: seq<Position>, rs: seq<Result>) {
    && AllHaveHeader(pages) && |ps| == |rs| > 0 && CanMoveBack(pages, p, MOVE_LAST)
    && (ps[0], rs[0]) == PreviousRow(pages, p, MOVE_LAST)
    && forall j :: 0 < j < |ps| ==> Precedes(pages, ps[j - 1], ps[j], rs[j])
  }

  /** A last leaf without data tags costs one move, which reports an empty table. */
  function Delay(pages: Pages, chain: seq<nat>): nat
    requires |chain| > 0 && chain[|chain| - 1] in pages
  {
    if |pages[chain[|chain| - 1]].defunct| < 2 then 1 else 0
  }

  /** How many rows are left to read after move x, of which the first d read none. */
  function Left(rows: nat, d: nat, x: nat): nat {
    if x < d then rows else if x - d < rows then rows - 1 - (x - d) else 0
  }

  lemma ReachesNone(pages: Pages, chain: seq<nat>, c: nat, i: nat)
    requires IsPath(pages, chain) && Reaches(pages, chain, Row(c, i), 0)
    ensures Reaches(pages, chain, Row(0, i), 0)
  {}

  lemma NoDataNoneLive(defunct: seq<bool>)
    requires |defunct| < 2
    ensures NoneLive(defunct)
  {}

  lemma ReachesInNone(pages: Pages, chain: seq<nat>, at: Row)
    requires IsPath(pages, chain) && Rows(pages, chain) == []
    ensures Reaches(pages, chain, at, 0)
  {}

  /** From one of the last two leaves: all rows in reverse, and then the start for as long as it is
      asked. */
  lemma {:induction false} ScanNear(pages: Pages, chain: seq<nat>, p: Position, k: nat, ps: seq<Position>,
                                    rs: seq<Result>, x: nat) returns (c: nat)
    requires IsLinked(pages, chain) && k < |chain| <= k + 2 && p.page == On(chain[k])
    requires IsBackScan(pages, p, ps, rs) && x < |ps|
    ensures var rows, d := Rows(pages, chain), Delay(pages, chain);
            && OnTrack(chain, ps[x], c) && ps[x].tag >= 1
            && Reaches(pages, chain, Row(c, ps[x].tag - 1), Left(|rows|, d, x))
            && if d <= x < d + |rows| then rs[x] == Ok(true) && OnRow(chain, ps[x], rows[|rows| - 1 - (x - d)])
               else rs[x] == Ok(false)
  {
    hide RowsFrom, PreviousRow, Reaches;
    var rows, d, n := Rows(pages, chain), Delay(pages, chain), |chain| - 1;
    if x == 0 {
      LastNear(pages, chain, p, k);
      if d == 1 {
        NoDataNoneLive(pages[chain[n]].defunct);
        ReachesAll(pages, chain, p.tag - 1);
        c := n;
      } else if rows == [] {
        ReachesInNone(pages, chain, Row(0, p.tag - 1));
        c := 0;
      } else {
        ReachesBefore(pages, chain, |rows| - 1);
        c := rows[|rows| - 1].k;
      }
    } else {
      var b := ScanNear(pages, chain, p, k, ps, rs, x - 1);
      assert Precedes(pages, ps[x - 1], ps[x], rs[x]);
      var m := Left(|rows|, d, x - 1);
      PreviousReads(pages, chain, ps[x - 1], b, m);
      if m == 0 {
        ReachesNone(pages, chain, b, ps[x].tag - 1);
        c := 0;
      } else {
        ReachesBefore(pages, chain, m - 1);
        c := rows[m - 1].k;
      }
    }
  }

  /** Move x reads a row of the last leaf. */
  ghost predicate ReadsLast(pages: Pages, chain: seq<nat>, x: int)
    requires IsPath(pages, chain)
  {
    var rows, d := Rows(pages, chain), Delay(pages, chain);
    d <= x < d + |rows| && rows[|rows| - 1 - (x - d)].k == |chain| - 1
  }

  lemma ReadsLastOnce(pages: Pages, chain: seq<nat>, x: int)
    requires IsPath(pages, chain) && x > Delay(pages, chain) && ReadsLast(pages, chain, x)
    ensures ReadsLast(pages, chain, x - 1)
  {
    hide RowsFrom;
    var rows, d := Rows(pages, chain), Delay(pages, chain);
    var y := |rows| - 1 - (x - d);
    RowsFromOrdered(pages, chain, 0, 1);
    assert Before(rows[y], rows[y + 1]);
    RowsAreLive(pages, chain, y + 1);
  }

  /** A move that reads a row of the last leaf is the first to read, or follows another. */
  lemma FarGoesOn(pages: Pages, chain: seq<nat>, x: nat)
    requires IsPath(pages, chain) && x > 0 && ReadsLast(pages, chain, x)
    ensures ReadsLast(pages, chain, x - 1)
  {
    hide RowsFrom;
    if x == Delay(pages, chain) {
      NoDataNoneLive(pages[chain[|chain| - 1]].defunct);
      LastLeafLive(pages, chain);
      assert false;
    }
    ReadsLastOnce(pages, chain, x);
  }

  lemma PreviousMarked(pages: Pages, chain: seq<nat>, p: Position, k: nat, m: nat)
    requires IsLinked(pages, chain) && Marked(chain, p, k) && CanMoveBack(pages, p, MOVE_PREVIOUS)
    requires Reaches(pages, chain, Row(|chain| - 1, p.tag - 1), m)
    ensures var (q, r), rows, n := PreviousRow(pages, p, MOVE_PREVIOUS), Rows(pages, chain), |chain| - 1;
            && Marked(chain, q, k)
            && if m > 0 && rows[m - 1].k == n then r == Ok(true) && OnRow(chain, q, rows[m - 1])
               else r == CircularReference(chain[n - 1]) && q.tag == p.tag
  {
    hide RowsFrom, WalkBackward, Reaches;
    WalkMarked(pages, chain, k, p.tag - 1, m);
  }

  /** From further away: the rows of the last leaf in reverse, and then a cycle is reported for as
      long as it is asked. Of the rows up to the cursor, m are left. */
  lemma {:induction false} ScanFar(pages: Pages, chain: seq<nat>, p: Position, k: nat, ps: seq<Position>,
                                   rs: seq<Result>, x: nat) returns (m: nat)
    requires IsLinked(pages, chain) && k + 2 < |chain| && p.page == On(chain[k])
    requires IsBackScan(pages, p, ps, rs) && x < |ps|
    ensures var rows, d, n := Rows(pages, chain), Delay(pages, chain), |chain| - 1;
            && Marked(chain, ps[x], k) && ps[x].tag >= 1
            && m <= |rows| && Reaches(pages, chain, Row(n, ps[x].tag - 1), m)
            && if ReadsLast(pages, chain, x)
               then rs[x] == Ok(true) && OnRow(chain, ps[x], rows[|rows| - 1 - (x - d)]) && m == |rows| - 1 - (x - d)
               else
                 && rs[x] == (if x < d then Ok(false) else CircularReference(chain[n - 1]))
                 && (m > 0 ==> rows[m - 1].k < n)
  {
    hide RowsFrom, PreviousRow, Reaches;
    var rows, d, n := Rows(pages, chain), Delay(pages, chain), |chain| - 1;
    if x == 0 {
      LastFar(pages, chain, p, k);
      LastLeafLive(pages, chain);
      if ReadsLast(pages, chain, 0) {
        ReachesBefore(pages, chain, |rows| - 1);
        m := |rows| - 1;
      } else {
        if d == 1 {
          NoDataNoneLive(pages[chain[n]].defunct);
        }
        ReachesAll(pages, chain, p.tag - 1);
        m := |rows|;
        if m > 0 {
          RowsAreLive(pages, chain, m - 1);
        }
      }
    } else {
      m := ScanFar(pages, chain, p, k, ps, rs, x - 1);
      assert Precedes(pages, ps[x - 1], ps[x], rs[x]);
      PreviousMarked(pages, chain, ps[x - 1], k, m);
      if m > 0 {
        RowsAreLive(pages, chain, m - 1);
      }
      if ReadsLast(pages, chain, x) {
        FarGoesOn(pages, chain, x);
        ReachesBefore(pages, chain, m - 1);
        m := m - 1;
      }
    }
  }

  /** The page is one of the last two of its chain. */
  predicate NearEnd(pages: Pages, page: nat) {
    page in pages && var next := pages[page].next; next == 0 || (next in pages && pages[next].next == 0)
  }

  lemma NearEndIff(pages: Pages, chain: seq<nat>, k: nat)
    requires IsChain(pages, chain) && k < |chain|
    ensures NearEnd(pages, chain[k]) <==> |chain| <= k + 2
  {
    PathPage(pages, chain, k);
    if k + 1 < |chain| {
      PathPage(pages, chain, k + 1);
    }
  }

  /** Reading a table backward, from any leaf and for any number of moves: `MoveLast` and then
      `MovePrevious` read the rows in reverse and then report the start, every time, if the first
      move was made on one of the last two leaves. Made anywhere else, they read the rows of the last
      leaf and then report a cycle, every time. In both cases a last leaf without data tags makes the
      first move report an empty table, and from every row read the next move is possible. */
  lemma PreviousAfterLast(pages: Pages, chain: seq<nat>, p: Position, k: nat, ps: seq<Position>, rs: seq<Result>,
                          x: nat)
    requires IsLinked(pages, chain) && k < |chain| && p.page == On(chain[k])
    requires IsBackScan(pages, p, ps, rs) && x < |ps|
    ensures var rows, d, n := Rows(pages, chain), Delay(pages, chain), |chain| - 1;
            if x < d then rs[x] == Ok(false)
            else if x - d < |rows| && (NearEnd(pages, chain[k]) || rows[|rows| - 1 - (x - d)].k == n)
            then
              && rs[x] == Ok(true) && OnRow(chain, ps[x], rows[|rows| - 1 - (x - d)])
              && CanMoveBack(pages, ps[x], MOVE_PREVIOUS)
            else if NearEnd(pages, chain[k]) then rs[x] == Ok(false)
            else n > 0 && rs[x] == CircularReference(chain[n - 1])
  {
    hide RowsFrom, PreviousRow, Reaches, NearEnd, IsBackScan;
    NearEndIff(pages, chain, k);
    var rows, d := Rows(pages, chain), Delay(pages, chain);
    if d <= x < d + |rows| {
      RowsAreLive(pages, chain, |rows| - 1 - (x - d));
    }
    if |chain| <= k + 2 {
      var _ := ScanNear(pages, chain, p, k, ps, rs, x);
    } else {
      var _ := ScanFar(pages, chain, p, k, ps, rs, x);
    }
  }

  /** So a backward scan that goes on past the first row is free of errors if and only if it was begun
      on one of the last two leaves. */
  lemma BackScanCleanIff(pages: Pages, chain: seq<nat>, p: Position, k: nat, ps: seq<Position>, rs: seq<Result>)
    requires IsLinked(pages, chain) && k < |chain| && p.page == On(chain[k])
    requires IsBackScan(pages, p, ps, rs) && |ps| > |Rows(pages, chain)| + Delay(pages, chain)
    ensures (forall x :: 0 <= x < |rs| ==> rs[x].Ok?) <==> NearEnd(pages, chain[k])
  {
    hide RowsFrom, PreviousRow, NearEnd;
    forall x | 0 <= x < |rs| ensures NearEnd(pages, chain[k]) ==> rs[x].Ok? {
      PreviousAfterLast(pages, chain, p, k, ps, rs, x);
    }
    PreviousAfterLast(pages, chain, p, k, ps, rs, |Rows(pages, chain)| + Delay(pages, chain));
  }

  lemma ForwardHere(pages: Pages, page: nat, i: nat, visited: seq<nat>)
    requires page in pages && i < |pages[page].defunct| && !pages[page].defunct[i]
    ensures WalkForward(pages, page, i, visited) == Outcome(page, i, visited, Ok(true))
  {}

  lemma BackHere(pages: Pages, page: nat, i: nat, visited: seq<nat>)
    requires AllHaveHeader(pages) && page in pages && 0 < i < |pages[page].defunct| && !pages[page].defunct[i]
    ensures WalkBackward(pages, page, i, visited) == Outcome(page, i, visited, Ok(true))
  {}

  lemma BackCycle(pages: Pages, page: nat, visited: seq<nat>)
    requires AllHaveHeader(pages) && page in pages
    requires pages[page].previous != 0 && pages[page].previous in pages && pages[page].previous in visited
    ensures WalkBackward(pages, page, 0, visited).result == CircularReference(pages[page].previous)
  {}

  lemma ToThird(pages: Pages)
    requires 1 in pages && 2 in pages && 3 in pages
    requires pages[1].next == 2 && pages[2].next == 3 && pages[3].next == 0
    ensures WalkToLast(pages, 1, []) == Outcome(3, 0, [2, 3], Ok(true))
  {
    assert WalkToLast(pages, 3, [2, 3]) == Outcome(3, 0, [2, 3], Ok(true));
    assert [2] + [3] == [2, 3] && [] + [2] == [2];
    assert WalkToLast(pages, 2, [2]) == WalkToLast(pages, 3, [2, 3]);
  }

  /** Three leaves of one row each, read backward from the first: after the last row comes an
      error, not the second row. */
  lemma BackwardScanFails()
    ensures var pages: Pages :=
              map[1 := Page([false, false], 2, 0), 2 := Page([false, false], 3, 1), 3 := Page([false, false], 0, 2)];
            var p := Position(On(1), 1, [1], Forward);
            && IsLinked(pages, [1, 2, 3]) && NextRow(pages, 1, Opened, MOVE_FIRST) == (p, Ok(true))
            && var (a, r) := PreviousRow(pages, p, MOVE_LAST);
               && a == Position(On(3), 1, [2, 3], Backward) && r == Ok(true)
               && PreviousRow(pages, a, MOVE_PREVIOUS).1 == CircularReference(2)
  {
    hide WalkForward, WalkBackward, WalkToLast;
    var pages: Pages :=
      map[1 := Page([false, false], 2, 0), 2 := Page([false, false], 3, 1), 3 := Page([false, false], 0, 2)];
    assert [] + [1] == [1];
    ForwardHere(pages, 1, 1, [1]);
    ToThird(pages);
    BackHere(pages, 3, 1, [2, 3]);
    BackCycle(pages, 3, [2, 3]);
  }

  /** With a second row on the last leaf the error comes one step later. */
  lemma BackwardScanFailsLater()
    ensures var pages: Pages := map[1 := Page([false, false], 2, 0), 2 := Page([false, false], 3, 1),
                                    3 := Page([false, false, false], 0, 2)];
            var p := Position(On(1), 1, [1], Forward);
            && IsLinked(pages, [1, 2, 3]) && NextRow(pages, 1, Opened, MOVE_FIRST) == (p, Ok(true))
            && var (a, r) := PreviousRow(pages, p, MOVE_LAST);
               && a == Position(On(3), 2, [2, 3], Backward) && r == Ok(true)
               && var (b, s) := PreviousRow(pages, a, MOVE_PREVIOUS);
                  && b == Position(On(3), 1, [2, 3], Backward) && s == Ok(true)
                  && PreviousRow(pages, b, MOVE_PREVIOUS).1 == CircularReference(2)
  {
    hide WalkForward, WalkBackward, WalkToLast;
    var pages: Pages := map[1 := Page([false, false], 2, 0), 2 := Page([false, false], 3, 1),
                            3 := Page([false, false, false], 0, 2)];
    assert [] + [1] == [1];
    ForwardHere(pages, 1, 1, [1]);
    ToThird(pages);
    BackHere(pages, 3, 2, [2, 3]);
    BackHere(pages, 3, 1, [2, 3]);
    BackCycle(pages, 3, [2, 3]);
  }

  // ----- no false alarms -----

  lemma {:induction false} WalkBackStays(pages: Pages, chain: seq<nat>, k: nat, i: nat, visited: seq<nat>)
    returns (q: nat)
    requires IsLinked(pages, chain) && k < |chain| && i < |pages[chain[k]].defunct| && Behind(chain, k, visited)
    ensures var o := WalkBackward(pages, chain[k], i, visited);
            o.result.Ok? && Behind(chain, q, o.visited) && o.page == chain[q]
            && (o.result == Ok(true) ==> Live(pages, chain, Row(q, o.tag)))
    decreases k
  {
    q := k;
    if LiveUpTo(pages[chain[k]].defunct, i) > 0 || k == 0 {
    } else {
      BackEnters(pages, chain, k, visited);
      q := WalkBackStays(pages, chain, k - 1, |pages[chain[k - 1]].defunct| - 1, visited + [chain[k - 1]]);
    }
  }

  /** The cursor is not on a page yet, or on track somewhere in the chain. */
  ghost predicate Tracked(chain: seq<nat>, p: Position) {
    p.page.NoPage? || exists k :: OnTrack(chain, p, k)
  }

  /** A move that must not fail: to the first row, forward, back from a row, or to the last row from
      one of the last two leaves. */
  predicate Possible(pages: Pages, p: Position, crow: int) {
    || crow == MOVE_FIRST
    || (crow == MOVE_NEXT && p.page.On?)
    || (crow == MOVE_PREVIOUS && CanMoveBack(pages, p, crow))
    || (crow == MOVE_LAST && CanMoveBack(pages, p, crow) && NearEnd(pages, p.page.number))
  }

  ghost function Moved(pages: Pages, firstLeaf: nat, p: Position, crow: int): (Position, Result)
    requires AllHaveHeader(pages) && Possible(pages, p, crow) && (p.page.On? ==> p.page.number in pages)
  {
    if crow == MOVE_PREVIOUS || crow == MOVE_LAST then PreviousRow(pages, p, crow)
    else NextRow(pages, firstLeaf, p, crow)
  }

  lemma LastStaysTracked(pages: Pages, chain: seq<nat>, p: Position, k: nat)
    requires IsLinked(pages, chain) && OnTrack(chain, p, k) && Possible(pages, p, MOVE_LAST)
    ensures var (q, r) := PreviousRow(pages, p, MOVE_LAST); r.Ok? && Tracked(chain, q) && q.page.On?
  {
    hide RowsFrom, PreviousRow;
    NearEndIff(pages, chain, k);
    LastNear(pages, chain, p, k);
  }

  lemma MoveStaysTracked(pages: Pages, chain: seq<nat>, p: Position, crow: int)
    requires IsLinked(pages, chain) && Tracked(chain, p) && Possible(pages, p, crow)
    ensures p.page.On? ==> p.page.number in pages
    ensures var (q, r) := Moved(pages, chain[0], p, crow);
            r.Ok? && Tracked(chain, q) && q.page.On?
  {
    hide RowsFrom, WalkForward, WalkBackward;
    if crow == MOVE_FIRST {
      FirstFinds(pages, chain, p);
    } else {
      var k :| OnTrack(chain, p, k);
      if crow == MOVE_NEXT {
        TurnForward(chain, p, k);
        WalkOnTrack(pages, chain, Turned(p, MOVE_NEXT), k, p.tag + 1);
      } else if crow == MOVE_LAST {
        LastStaysTracked(pages, chain, p, k);
      } else {
        var t := Turned(p, MOVE_PREVIOUS);
        var q := WalkBackStays(pages, chain, k, p.tag - 1, t.visited);
        assert OnTrack(chain, PreviousRow(pages, p, crow).0, q);
      }
    }
  }

  ghost predicate MovesTo(pages: Pages, firstLeaf: nat, p: Position, crow: int, q: Position, r: Result)
    requires AllHaveHeader(pages)
  {
    Possible(pages, p, crow) && (p.page.On? ==> p.page.number in pages) && (q, r) == Moved(pages, firstLeaf, p, crow)
  }

  /** A run of moves, each possible where it is made. */
  ghost predicate IsRun(pages: Pages, firstLeaf: nat, p: Position, crows: seq<int>, ps: seq<Position>,
                        rs: seq<Result>)
  {
    && AllHaveHeader(pages) && |ps| == |crows| + 1 && |rs| == |crows| && ps[0] == p
    && forall j :: 0 <= j < |crows| ==> MovesTo(pages, firstLeaf, ps[j], crows[j], ps[j + 1], rs[j])
  }

  lemma OpenedTracked(chain: seq<nat>)
    ensures Tracked(chain, Opened)
  {}

  /** On a doubly linked chain without repetitions no run of such moves reports a circular reference,
      or any other error. */
  lemma {:induction false} NoFalseAlarm(pages: Pages, chain: seq<nat>, crows: seq<int>, ps: seq<Position>,
                                        rs: seq<Result>, n: nat)
    requires IsLinked(pages, chain) && IsRun(pages, chain[0], Opened, crows, ps, rs) && n <= |crows|
    ensures Tracked(chain, ps[n]) && (n > 0 ==> rs[n - 1].Ok?)
  {
    hide Moved, Tracked;
    if n == 0 {
      OpenedTracked(chain);
    } else {
      NoFalseAlarm(pages, chain, crows, ps, rs, n - 1);
      assert MovesTo(pages, chain[0], ps[n - 1], crows[n - 1], ps[n], rs[n - 1]);
      MoveStaysTracked(pages, chain, ps[n - 1], crows[n - 1]);
    }
  }
}
