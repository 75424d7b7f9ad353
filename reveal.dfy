/** The visited grid and the stack-based flood fill that grows it. */
module Reveal {
  import opened Geometry

  /** Every visited cell whose number is 0 has all of its in-bounds neighbours visited. */
  ghost predicate Closed(mineNumbers: seq<seq<int>>, visits: seq<seq<bool>>, nCols: int, nRows: int)
    requires IsGrid(mineNumbers, nCols, nRows) && IsGrid(visits, nCols, nRows)
  {
    forall z, w ::
      (InBounds(nCols, nRows, z) && InBounds(nCols, nRows, w) && Near(z, w) &&
       Get(visits, nCols, nRows, z) && Get(mineNumbers, nCols, nRows, z) == 0) ==> Get(visits, nCols, nRows, w)
  }

  /** Every cell visited in `a` is visited in `b`. */
  ghost predicate Includes(b: seq<seq<bool>>, a: seq<seq<bool>>, nCols: int, nRows: int)
    requires IsGrid(a, nCols, nRows) && IsGrid(b, nCols, nRows)
  {
    forall z :: InBounds(nCols, nRows, z) && Get(a, nCols, nRows, z) ==> Get(b, nCols, nRows, z)
  }

  /** A grid where nothing is visited is closed. */
  lemma NothingVisitedIsClosed(mineNumbers: seq<seq<int>>, nCols: nat, nRows: nat)
    requires IsGrid(mineNumbers, nCols, nRows)
    ensures Closed(mineNumbers, Filled(nCols, nRows, false), nCols, nRows)
  {
  }

  /** The in-bounds cells of `cells`, in their order. */
  function InBoundsOnly(nCols: int, nRows: int, cells: seq<Coord>): (kept: seq<Coord>)
    ensures |kept| <= |cells|
    ensures forall w :: w in kept <==> w in cells && InBounds(nCols, nRows, w)
  {
    if cells == [] then []
    else
      var w := cells[|cells| - 1];
      InBoundsOnly(nCols, nRows, cells[..|cells| - 1]) + (if InBounds(nCols, nRows, w) then [w] else [])
  }

  /** Pushes the in-bounds cells of the 3×3 block around `z` onto `stack`, in the order the
      source enumerates the block (minesweeper.ts:166-180). The block includes `z` itself. */
  method PushNeighbours(stack: seq<Coord>, nCols: int, nRows: int, z: Coord) returns (pushed: seq<Coord>)
    ensures pushed == stack + InBoundsOnly(nCols, nRows, Block(z))
    ensures |pushed| >= |stack| && pushed[..|stack|] == stack
    ensures forall w :: w in pushed[|stack|..] <==> InBounds(nCols, nRows, w) && Near(z, w)
  {
    pushed := stack;
    var block := Block(z);
    for k := 0 to 9
      invariant pushed == stack + InBoundsOnly(nCols, nRows, block[..k])
    {
      var w := block[k];
      assert block[..k + 1][..k] == block[..k];
      if InBounds(nCols, nRows, w) {
        pushed := pushed + [w];
      }
    }
    assert block[..9] == block;
    assert pushed[|stack|..] == InBoundsOnly(nCols, nRows, block);
  }

  /** Every neighbour of a visited zero cell is visited or still waiting on the stack. */
  ghost predicate Pending(mineNumbers: seq<seq<int>>, visited: seq<seq<bool>>, stack: seq<Coord>, nCols: int, nRows: int)
    requires IsGrid(mineNumbers, nCols, nRows) && IsGrid(visited, nCols, nRows)
  {
    forall z, w ::
      (InBounds(nCols, nRows, z) && InBounds(nCols, nRows, w) && Near(z, w) &&
       Get(visited, nCols, nRows, z) && Get(mineNumbers, nCols, nRows, z) == 0) ==>
      Get(visited, nCols, nRows, w) || w in stack
  }

  /** Every cell of `stack` is in bounds and visited in `s`. */
  ghost predicate Holds(s: seq<seq<bool>>, stack: seq<Coord>, nCols: int, nRows: int)
    requires IsGrid(s, nCols, nRows)
  {
    forall k :: 0 <= k < |stack| ==> InBounds(nCols, nRows, stack[k]) && Get(s, nCols, nRows, stack[k])
  }

  /** `s` is closed and contains `visits` and `start`: a candidate result of the flood fill. */
  ghost predicate Covers(s: seq<seq<bool>>, mineNumbers: seq<seq<int>>, visits: seq<seq<bool>>, start: Coord, nCols: int, nRows: int)
    requires IsGrid(mineNumbers, nCols, nRows) && IsGrid(visits, nCols, nRows)
  {
    IsGrid(s, nCols, nRows) && Closed(mineNumbers, s, nCols, nRows) &&
    Includes(s, visits, nCols, nRows) && InBounds(nCols, nRows, start) && Get(s, nCols, nRows, start)
  }

  /** Everything visited or waiting so far lies inside every candidate result. */
  ghost predicate Bounded(mineNumbers: seq<seq<int>>, visits: seq<seq<bool>>, start: Coord,
                          visited: seq<seq<bool>>, stack: seq<Coord>, nCols: int, nRows: int)
    requires IsGrid(mineNumbers, nCols, nRows) && IsGrid(visits, nCols, nRows) && IsGrid(visited, nCols, nRows)
  {
    forall s :: Covers(s, mineNumbers, visits, start, nCols, nRows) ==>
      Includes(s, visited, nCols, nRows) && Holds(s, stack, nCols, nRows)
  }

  /** One iteration of the flood-fill loop: pop the top cell; if it was not visited, mark it,
      and push its in-bounds block exactly when its number is 0. */
  ghost predicate Step(mineNumbers: seq<seq<int>>, visited: seq<seq<bool>>, stack: seq<Coord>,
                       visited': seq<seq<bool>>, stack': seq<Coord>, nCols: int, nRows: int)
    requires IsGrid(mineNumbers, nCols, nRows) && IsGrid(visited, nCols, nRows)
    requires |stack| > 0 && InBounds(nCols, nRows, stack[|stack| - 1])
  {
    var z := stack[|stack| - 1];
    var rest := stack[..|stack| - 1];
    var expand := !Get(visited, nCols, nRows, z) && Get(mineNumbers, nCols, nRows, z) == 0;
    visited' == (if Get(visited, nCols, nRows, z) then visited else Set(visited, nCols, nRows, z, true)) &&
    |stack'| >= |rest| && stack'[..|rest|] == rest &&
    forall w :: w in stack'[|rest|..] <==> expand && InBounds(nCols, nRows, w) && Near(z, w)
  }

  /** One iteration of the flood-fill loop (minesweeper.ts:160-181). */
  method PopAndVisit(mineNumbers: seq<seq<int>>, visited: seq<seq<bool>>, stack: seq<Coord>, nCols: int, nRows: int)
    returns (visited': seq<seq<bool>>, stack': seq<Coord>)
    requires IsGrid(mineNumbers, nCols, nRows) && IsGrid(visited, nCols, nRows)
    requires |stack| > 0 && InBounds(nCols, nRows, stack[|stack| - 1])
    ensures Step(mineNumbers, visited, stack, visited', stack', nCols, nRows)
  {
    var z := stack[|stack| - 1];
    visited', stack' := visited, stack[..|stack| - 1];
    if !visited[z.0][z.1] {
      visited' := visited[z.0 := visited[z.0][z.1 := true]];
      if mineNumbers[z.0][z.1] == 0 {
        stack' := PushNeighbours(stack', nCols, nRows, z);
      }
    }
  }

  /** A step keeps every stacked cell in bounds, marks only the popped cell, keeps every other
      stacked cell stacked, and pushes nothing unless it expands a newly visited zero cell. */
  lemma StepFacts(mineNumbers: seq<seq<int>>, visited: seq<seq<bool>>, stack: seq<Coord>,
                     visited': seq<seq<bool>>, stack': seq<Coord>, nCols: int, nRows: int)
    requires IsGrid(mineNumbers, nCols, nRows) && IsGrid(visited, nCols, nRows)
    requires |stack| > 0 && InBounds(nCols, nRows, stack[|stack| - 1])
    requires Step(mineNumbers, visited, stack, visited', stack', nCols, nRows)
    requires forall k :: 0 <= k < |stack| ==> InBounds(nCols, nRows, stack[k])
    ensures IsGrid(visited', nCols, nRows)
    ensures forall k :: 0 <= k < |stack'| ==> InBounds(nCols, nRows, stack'[k])
    ensures var z := stack[|stack| - 1];
            Get(visited, nCols, nRows, z) || Get(mineNumbers, nCols, nRows, z) != 0 ==> stack' == stack[..|stack| - 1]
    ensures forall w :: InBounds(nCols, nRows, w) ==>
              (Get(visited', nCols, nRows, w) <==> Get(visited, nCols, nRows, w) || w == stack[|stack| - 1])
    ensures forall w :: w in stack ==> Get(visited', nCols, nRows, w) || w in stack'
  {
    var rest := stack[..|stack| - 1];
    forall w | w in stack
      ensures Get(visited', nCols, nRows, w) || w in stack'
    {
      if w != stack[|stack| - 1] {
        assert w in rest;
        assert w in stack'[..|rest|];
      }
    }
    if |stack'| > |rest| {
      assert stack'[|rest|] in stack'[|rest|..];
    }
    forall k | 0 <= k < |stack'|
      ensures InBounds(nCols, nRows, stack'[k])
    {
      if k < |rest| {
        assert stack'[k] == stack[k];
      } else {
        assert stack'[k] in stack'[|rest|..];
      }
    }
  }

  lemma PendingStep(mineNumbers: seq<seq<int>>, visited: seq<seq<bool>>, stack: seq<Coord>,
                    visited': seq<seq<bool>>, stack': seq<Coord>, nCols: int, nRows: int)
    requires IsGrid(mineNumbers, nCols, nRows) && IsGrid(visited, nCols, nRows)
    requires |stack| > 0 && InBounds(nCols, nRows, stack[|stack| - 1])
    requires Step(mineNumbers, visited, stack, visited', stack', nCols, nRows)
    requires Pending(mineNumbers, visited, stack, nCols, nRows)
    ensures IsGrid(visited', nCols, nRows) && Pending(mineNumbers, visited', stack', nCols, nRows)
  {
    var z := stack[|stack| - 1];
    var rest := stack[..|stack| - 1];
    forall y, w | InBounds(nCols, nRows, y) && InBounds(nCols, nRows, w) && Near(y, w) &&
                  Get(visited', nCols, nRows, y) && Get(mineNumbers, nCols, nRows, y) == 0
      ensures Get(visited', nCols, nRows, w) || w in stack'
    {
      if y == z && !Get(visited, nCols, nRows, z) {
        assert w in stack'[|rest|..];
      } else if !Get(visited', nCols, nRows, w) {
        assert w in stack && w != z;
        assert w in rest;
        assert w in stack'[..|rest|];
      }
    }
  }

  lemma BoundedStep(mineNumbers: seq<seq<int>>, visits: seq<seq<bool>>, start: Coord,
                    visited: seq<seq<bool>>, stack: seq<Coord>,
                    visited': seq<seq<bool>>, stack': seq<Coord>, nCols: int, nRows: int)
    requires IsGrid(mineNumbers, nCols, nRows) && IsGrid(visits, nCols, nRows) && IsGrid(visited, nCols, nRows)
    requires |stack| > 0 && InBounds(nCols, nRows, stack[|stack| - 1])
    requires Step(mineNumbers, visited, stack, visited', stack', nCols, nRows)
    requires Bounded(mineNumbers, visits, start, visited, stack, nCols, nRows)
    ensures IsGrid(visited', nCols, nRows) && Bounded(mineNumbers, visits, start, visited', stack', nCols, nRows)
  {
    var z := stack[|stack| - 1];
    var rest := stack[..|stack| - 1];
    forall s | Covers(s, mineNumbers, visits, start, nCols, nRows)
      ensures Includes(s, visited', nCols, nRows) && Holds(s, stack', nCols, nRows)
    {
      assert Get(s, nCols, nRows, z);
      forall k | 0 <= k < |stack'|
        ensures InBounds(nCols, nRows, stack'[k]) && Get(s, nCols, nRows, stack'[k])
      {
        if k < |rest| {
          assert stack'[k] == stack[k];
        } else {
          assert stack'[k] in stack'[|rest|..];
        }
      }
    }
  }

  /** One click's flood fill over `visits` (minesweeper.ts:157-183): pop a cell; if it is not yet
      visited, mark it and, when its number is 0, push its in-bounds block. The result is the
      smallest closed grid that contains `visits` and the clicked cell. */
  method FloodFill(mineNumbers: seq<seq<int>>, visits: seq<seq<bool>>, nCols: int, nRows: int, start: Coord)
    returns (visited: seq<seq<bool>>)
    requires IsGrid(mineNumbers, nCols, nRows) && IsGrid(visits, nCols, nRows)
    requires InBounds(nCols, nRows, start)
    ensures IsGrid(visited, nCols, nRows)
    ensures Includes(visited, visits, nCols, nRows)
    ensures Get(visited, nCols, nRows, start)
    ensures Get(visits, nCols, nRows, start) ==> visited == visits
    ensures Get(mineNumbers, nCols, nRows, start) != 0 ==> visited == Set(visits, nCols, nRows, start, true)
    ensures Closed(mineNumbers, visits, nCols, nRows) ==> Closed(mineNumbers, visited, nCols, nRows)
    ensures forall s :: Covers(s, mineNumbers, visits, start, nCols, nRows) ==> Includes(s, visited, nCols, nRows)
  {
    if Get(visits, nCols, nRows, start) {
      assert visits[start.0][start.1 := true] == visits[start.0];
      assert Set(visits, nCols, nRows, start, true) == visits;
    }
    visited := visits;
    var stack := [start];
    ghost var unvisited := set c, r | 0 <= c < nCols && 0 <= r < nRows && !visits[c][r] :: (c, r);
    while |stack| > 0
      invariant IsGrid(visited, nCols, nRows)
      invariant forall k :: 0 <= k < |stack| ==> InBounds(nCols, nRows, stack[k])
      invariant forall w :: w in unvisited <==> InBounds(nCols, nRows, w) && !Get(visited, nCols, nRows, w)
      invariant Includes(visited, visits, nCols, nRows)
      invariant Get(visited, nCols, nRows, start) || start in stack
      invariant Get(visits, nCols, nRows, start) ==> visited == visits && (stack == [start] || stack == [])
      invariant Get(mineNumbers, nCols, nRows, start) != 0 ==>
                  (visited == visits && stack == [start]) || (visited == Set(visits, nCols, nRows, start, true) && stack == [])
      invariant Closed(mineNumbers, visits, nCols, nRows) ==> Pending(mineNumbers, visited, stack, nCols, nRows)
      invariant Bounded(mineNumbers, visits, start, visited, stack, nCols, nRows)
      decreases unvisited, |stack|
    {
      ghost var visited0, stack0 := visited, stack;
      var z := stack[|stack| - 1];
      visited, stack := PopAndVisit(mineNumbers, visited, stack, nCols, nRows);
      unvisited := unvisited - {z};
      StepFacts(mineNumbers, visited0, stack0, visited, stack, nCols, nRows);
      if Closed(mineNumbers, visits, nCols, nRows) {
        PendingStep(mineNumbers, visited0, stack0, visited, stack, nCols, nRows);
      }
      BoundedStep(mineNumbers, visits, start, visited0, stack0, visited, stack, nCols, nRows);
    }
  }
}
