/**
  The row cursor of a table (lib/src/ese_parser.rs): a walk over linked leaf pages that skips
  defunct tags and remembers the pages it has entered, so that a cycle of pages is reported
  instead of being followed for ever. Loading a page is a look-up in a given map.
*/
module Cursor {

  /** A leaf page: its tags, of which tag 0 is the page header, and its neighbours (0 for none). */
  datatype Page = Page(defunct: seq<bool>, next: nat, previous: nat)

  type Pages = map<nat, Page>

  const MOVE_FIRST: int := -2147483648
  const MOVE_PREVIOUS: int := -1
  const MOVE_NEXT: int := 1
  const MOVE_LAST: int := 2147483647

  datatype Direction = Undirected | Forward | Backward

  datatype Current = NoPage | On(number: nat)

  /** The state of a table's cursor. */
  datatype Position = Position(page: Current, tag: nat, visited: seq<nat>, direction: Direction)

  datatype Result = Ok(moved: bool) | MissingPage(number: nat) | CircularReference(number: nat)

  const Opened := Position(NoPage, 0, [], Undirected)

  // ----- what a move computes -----

  /** The visited pages are forgotten at either end and on a change of direction. */
  function Turned(p: Position, crow: int): Position {
    if crow == MOVE_FIRST then p.(visited := [], direction := Forward)
    else if crow == MOVE_LAST then p.(visited := [], direction := Backward)
    else if crow > 0 then p.(visited := if p.direction.Backward? then [] else p.visited, direction := Forward)
    else if crow < 0 then p.(visited := if p.direction.Forward? then [] else p.visited, direction := Backward)
    else p
  }

  function LiveFrom(defunct: seq<bool>, i: nat): (j: nat)
    ensures i <= j && (j < |defunct| ==> !defunct[j])
    ensures forall k :: i <= k < j && k < |defunct| ==> defunct[k]
    decreases |defunct| - i
  {
    if i < |defunct| && defunct[i] then LiveFrom(defunct, i + 1) else i
  }

  function LiveUpTo(defunct: seq<bool>, i: nat): (j: nat)
    requires i < |defunct|
    ensures j <= i && (j > 0 ==> !defunct[j])
    ensures forall k :: j < k <= i ==> defunct[k]
  {
    if i > 0 && defunct[i] then LiveUpTo(defunct, i - 1) else i
  }

  /** The pages that have not been entered. */
  ghost function Unvisited(pages: Pages, visited: seq<nat>): set<nat> {
    set n | n in pages.Keys && n !in visited
  }

  lemma EnteringShrinks(pages: Pages, visited: seq<nat>, n: nat)
    requires n in pages && n !in visited
    ensures |Unvisited(pages, visited + [n])| < |Unvisited(pages, visited)|
  {
    assert Unvisited(pages, visited + [n]) == Unvisited(pages, visited) - {n};
  }

  /** Where a walk ends up. */
  datatype Outcome = Outcome(page: nat, tag: nat, visited: seq<nat>, result: Result)

  ghost function WalkForward(pages: Pages, page: nat, i: nat, visited: seq<nat>): Outcome
    requires page in pages
    decreases |Unvisited(pages, visited)|
  {
    var j := LiveFrom(pages[page].defunct, i);
    var next := pages[page].next;
    if j < |pages[page].defunct| then Outcome(page, j, visited, Ok(true))
    else if next == 0 then Outcome(page, j, visited, Ok(false))
    else if next !in pages then Outcome(page, j, visited, MissingPage(next))
    else if next in visited then Outcome(page, j, visited, CircularReference(next))
    else
      EnteringShrinks(pages, visited, next);
      WalkForward(pages, next, 1, visited + [next])
  }

  ghost function WalkBackward(pages: Pages, page: nat, i: nat, visited: seq<nat>): Outcome
    requires page in pages && i < |pages[page].defunct|
    requires forall n :: n in pages ==> |pages[n].defunct| > 0
    decreases |Unvisited(pages, visited)|
  {
    var j := LiveUpTo(pages[page].defunct, i);
    var previous := pages[page].previous;
    if j > 0 then Outcome(page, j, visited, Ok(true))
    else if previous == 0 then Outcome(page, j, visited, Ok(false))
    else if previous !in pages then Outcome(page, j, visited, MissingPage(previous))
    else if previous in visited then Outcome(page, j, visited, CircularReference(previous))
    else
      EnteringShrinks(pages, visited, previous);
      WalkBackward(pages, previous, |pages[previous].defunct| - 1, visited + [previous])
  }

  /** The walk to the last page of the chain. */
  ghost function WalkToLast(pages: Pages, page: nat, visited: seq<nat>): Outcome
    requires page in pages
    decreases |Unvisited(pages, visited)|
  {
    var next := pages[page].next;
    if next == 0 then Outcome(page, 0, visited, Ok(true))
    else if next !in pages then Outcome(page, 0, visited, MissingPage(next))
    else if next in visited then Outcome(page, 0, visited, CircularReference(next))
    else
      EnteringShrinks(pages, visited, next);
      WalkToLast(pages, next, visited + [next])
  }

  /** The position after a walk: the row changes only if one was found. */
  function Landed(p: Position, o: Outcome): Position {
    p.(page := On(o.page), tag := if o.result == Ok(true) then o.tag else p.tag, visited := o.visited)
  }

  /** What `MoveNextRow` does to a position. */
  ghost function NextRow(pages: Pages, firstLeaf: nat, p: Position, crow: int): (Position, Result)
    requires crow == MOVE_FIRST || p.page.On?
    requires p.page.On? ==> p.page.number in pages
  {
    var t := Turned(p, crow);
    if crow == MOVE_FIRST then
      if firstLeaf !in pages then (t, MissingPage(firstLeaf))
      else
        var u := t.(page := On(firstLeaf), visited := t.visited + [firstLeaf]);
        if |pages[firstLeaf].defunct| < 2 then (u, Ok(false))
        else
          var o := WalkForward(pages, firstLeaf, 1, u.visited);
          (Landed(u, o), o.result)
    else
      var o := WalkForward(pages, t.page.number, t.tag + 1, t.visited);
      (Landed(t, o), o.result)
  }

  /** A move back takes one from the tag, which must not be 0; a step back then looks at that tag,
      which must exist on the page. */
  predicate CanMoveBack(pages: Pages, p: Position, crow: int) {
    && p.page.On? && p.page.number in pages && 1 <= p.tag
    && (crow != MOVE_LAST ==> p.tag <= |pages[p.page.number].defunct|)
  }

  predicate AllHaveHeader(pages: Pages) {
    forall n :: n in pages ==> |pages[n].defunct| > 0
  }

  /** What `MovePreviousRow` does to a position. */
  ghost function PreviousRow(pages: Pages, p: Position, crow: int): (Position, Result)
    requires CanMoveBack(pages, p, crow) && AllHaveHeader(pages)
  {
    var t := Turned(p, crow);
    if crow == MOVE_LAST then
      var last := WalkToLast(pages, t.page.number, t.visited);
      var u := t.(page := On(last.page), visited := last.visited);
      if last.result != Ok(true) then (u, last.result)
      else if last.page !in pages || |pages[last.page].defunct| < 2 then (u, Ok(false))
      else
        var o := WalkBackward(pages, last.page, |pages[last.page].defunct| - 1, u.visited);
        (Landed(u, o), o.result)
    else
      var o := WalkBackward(pages, t.page.number, t.tag - 1, t.visited);
      (Landed(t, o), o.result)
  }

  /** A table's cursor over the given pages. */
  class Table {
    const pages: Pages
    const firstLeaf: nat
    var current: Current
    var pageTagIndex: nat
    var visited: seq<nat>
    var direction: Direction

    constructor (pages: Pages, firstLeaf: nat)
      ensures this.pages == pages && this.firstLeaf == firstLeaf && View() == Opened
    {
      this.pages, this.firstLeaf := pages, firstLeaf;
      current, pageTagIndex, visited, direction := NoPage, 0, [], Undirected;
    }

    function View(): Position
      reads this
    {
      Position(current, pageTagIndex, visited, direction)
    }

    /** No page is entered twice without the record being cleared in between. */
    ghost predicate Valid()
      reads this
    {
      && (current.On? ==> current.number in pages)
      && (forall i, j :: 0 <= i < j < |visited| ==> visited[i] != visited[j])
      && (forall n :: n in visited ==> n in pages)
    }

    method UpdateValidityInfoForCrow(crow: int)
      modifies this
      ensures View() == Turned(old(View()), crow)
    {
      if crow == MOVE_FIRST {
        visited := [];
        direction := Forward;
      } else if crow == MOVE_LAST {
        visited := [];
        direction := Backward;
      } else if crow > 0 {
        if direction == Backward {
          visited := [];
        }
        direction := Forward;
      } else if crow < 0 {
        if direction == Forward {
          visited := [];
        }
        direction := Backward;
      }
    }

    /** Enters a page unless it was entered before. */
    method SetCurrentPage(n: nat) returns (r: Result)
      requires Valid() && n in pages
      modifies this
      ensures Valid()
      ensures if n in old(visited) then r == CircularReference(n) && unchanged(this)
              else r == Ok(true) && View() == old(View()).(page := On(n), visited := old(visited) + [n])
    {
      if n in visited {
        return CircularReference(n);
      }
      visited := visited + [n];
      current := On(n);
      return Ok(true);
    }

    /** The forward loop: it ends on every page graph, and ends where `WalkForward` says. */
    method ScanForward(start: nat) returns (r: Result)
      requires Valid() && current.On?
      modifies this
      ensures Valid()
      ensures var o := WalkForward(pages, old(current.number), start, old(visited));
              r == o.result && View() == Landed(old(View()), o)
    {
      var i: nat := start;
      ghost var o := WalkForward(pages, current.number, start, visited);
      while true
        invariant Valid() && current.On?
        invariant o == WalkForward(pages, current.number, i, visited)
        invariant pageTagIndex == old(pageTagIndex) && direction == old(direction)
        decreases |Unvisited(pages, visited)|
      {
        var defunct := pages[current.number].defunct;
        while i < |defunct| && defunct[i]
          invariant o == WalkForward(pages, current.number, i, visited)
        {
          i := i + 1;
        }
        if i < |defunct| {
          pageTagIndex := i;
          return Ok(true);
        } else if pages[current.number].next != 0 {
          var next := pages[current.number].next;
          if next !in pages {
            return MissingPage(next);
          }
          if next !in visited {
            EnteringShrinks(pages, visited, next);
          }
          var entered := SetCurrentPage(next);
          if entered.CircularReference? {
            return entered;
          }
          i := 1;
        } else {
          return Ok(false);
        }
      }
    }

    /** The backward loop. */
    method ScanBackward(start: nat) returns (r: Result)
      requires Valid() && AllHaveHeader(pages) && current.On? && start < |pages[current.number].defunct|
      modifies this
      ensures Valid()
      ensures var o := WalkBackward(pages, old(current.number), start, old(visited));
              r == o.result && View() == Landed(old(View()), o)
    {
      var i: nat := start;
      ghost var o := WalkBackward(pages, current.number, start, visited);
      while true
        invariant Valid() && current.On? && i < |pages[current.number].defunct|
        invariant o == WalkBackward(pages, current.number, i, visited)
        invariant pageTagIndex == old(pageTagIndex) && direction == old(direction)
        decreases |Unvisited(pages, visited)|
      {
        var defunct := pages[current.number].defunct;
        while i > 0 && defunct[i]
          invariant i < |defunct|
          invariant o == WalkBackward(pages, current.number, i, visited)
        {
          i := i - 1;
        }
        if i > 0 {
          pageTagIndex := i;
          return Ok(true);
        } else if pages[current.number].previous != 0 {
          var previous := pages[current.number].previous;
          if previous !in pages {
            return MissingPage(previous);
          }
          if previous !in visited {
            EnteringShrinks(pages, visited, previous);
          }
          var entered := SetCurrentPage(previous);
          if entered.CircularReference? {
            return entered;
          }
          i := |pages[previous].defunct| - 1;
        } else {
          return Ok(false);
        }
      }
    }

    /** To the last page of the chain. */
    method ScanToLast() returns (r: Result)
      requires Valid() && current.On?
      modifies this
      ensures Valid() && current.On?
      ensures var o := WalkToLast(pages, old(current.number), old(visited));
              r == o.result && View() == old(View()).(page := On(o.page), visited := o.visited)
    {
      ghost var o := WalkToLast(pages, current.number, visited);
      while pages[current.number].next != 0
        invariant Valid() && current.On?
        invariant o == WalkToLast(pages, current.number, visited)
        invariant pageTagIndex == old(pageTagIndex) && direction == old(direction)
        decreases |Unvisited(pages, visited)|
      {
        var next := pages[current.number].next;
        if next !in pages {
          return MissingPage(next);
        }
        if next !in visited {
          EnteringShrinks(pages, visited, next);
        }
        var entered := SetCurrentPage(next);
        if entered.CircularReference? {
          return entered;
        }
      }
      return Ok(true);
    }

    /** A move forward by one row, or to the first. */
    method MoveNextRow(crow: int) returns (r: Result)
      requires Valid() && (crow == MOVE_FIRST || current.On?)
      modifies this
      ensures Valid() && (View(), r) == NextRow(pages, firstLeaf, old(View()), crow)
    {
      UpdateValidityInfoForCrow(crow);
      var i := pageTagIndex + 1;
      if crow == MOVE_FIRST {
        if firstLeaf !in pages {
          return MissingPage(firstLeaf);
        }
        if current.NoPage? || current.number != firstLeaf {
          var entered := SetCurrentPage(firstLeaf);
        } else {
          visited := visited + [firstLeaf];
        }
        if |pages[current.number].defunct| < 2 {
          return Ok(false);
        }
        i := 1;
      }
      r := ScanForward(i);
    }

    /** A move backward by one row, or to the last. */
    method MovePreviousRow(crow: int) returns (r: Result)
      requires Valid() && CanMoveBack(pages, View(), crow) && AllHaveHeader(pages)
      modifies this
      ensures Valid() && (View(), r) == PreviousRow(pages, old(View()), crow)
    {
      UpdateValidityInfoForCrow(crow);
      var i: nat := pageTagIndex - 1;
      if crow == MOVE_LAST {
        r := ScanToLast();
        if r != Ok(true) {
          return;
        }
        if |pages[current.number].defunct| < 2 {
          return Ok(false);
        }
        i := |pages[current.number].defunct| - 1;
      }
      r := ScanBackward(i);
    }
  }
}
