/** The public view of a game: the playground shown to the player and the pass/fail flags. */
module Views {
  import opened Geometry

  /** What the playground shows for a cell: `null` (not shown), `'mine'` or a number. */
  datatype Cell = Hidden | Mine | Number(n: int)

  datatype View = View(playground: seq<seq<Cell>>, nMines: int, passed: bool, failed: bool)

  /** How a cell's true value is shown: the mine marker for -1, the number otherwise. */
  function Shown(number: int): (cell: Cell)
    ensures cell != Hidden
    ensures cell == Mine <==> number == -1
  {
    if number == -1 then Mine else Number(number)
  }

  /** Some visited cell is a mine. */
  ghost predicate Failed(mineNumbers: seq<seq<int>>, visits: seq<seq<bool>>, nCols: int, nRows: int)
    requires IsGrid(mineNumbers, nCols, nRows) && IsGrid(visits, nCols, nRows)
  {
    exists z :: InBounds(nCols, nRows, z) && Get(visits, nCols, nRows, z) && Get(mineNumbers, nCols, nRows, z) == -1
  }

  /** No mine was visited and the cells left unvisited are as many as the mines. */
  ghost predicate Passed(mineNumbers: seq<seq<int>>, visits: seq<seq<bool>>, nCols: int, nRows: int, nMines: int)
    requires IsGrid(mineNumbers, nCols, nRows) && IsGrid(visits, nCols, nRows) && 0 < nRows
  {
    !Failed(mineNumbers, visits, nCols, nRows) &&
    nCols * nRows - CountTrue(visits, nCols, nRows, nCols * nRows) == nMines
  }

  /** `view` is the view of `mineNumbers` and `visits`: the flags say whether the game is lost
      or won, every cell shows its true value once the game is over, and before that only the
      visited cells are shown. */
  ghost predicate Displays(view: View, mineNumbers: seq<seq<int>>, visits: seq<seq<bool>>, nCols: int, nRows: int, nMines: int)
    requires IsGrid(mineNumbers, nCols, nRows) && IsGrid(visits, nCols, nRows) && 0 < nRows
  {
    view.nMines == nMines &&
    (view.failed <==> Failed(mineNumbers, visits, nCols, nRows)) &&
    (view.passed <==> Passed(mineNumbers, visits, nCols, nRows, nMines)) &&
    IsGrid(view.playground, nCols, nRows) &&
    forall c, r :: 0 <= c < nCols && 0 <= r < nRows ==>
      view.playground[c][r] == if view.passed || view.failed || visits[c][r] then Shown(mineNumbers[c][r]) else Hidden
  }

  /** A displayed game is never both won and lost. */
  lemma NeverWonAndLost(view: View, mineNumbers: seq<seq<int>>, visits: seq<seq<bool>>, nCols: int, nRows: int, nMines: int)
    requires IsGrid(mineNumbers, nCols, nRows) && IsGrid(visits, nCols, nRows) && 0 < nRows
    requires Displays(view, mineNumbers, visits, nCols, nRows, nMines)
    ensures !(view.passed && view.failed)
  {
  }

  /** Some visited mine was scanned before `(col, row)`. */
  ghost predicate FailedBefore(mineNumbers: seq<seq<int>>, visits: seq<seq<bool>>, nCols: int, nRows: int, col: int, row: int)
    requires IsGrid(mineNumbers, nCols, nRows) && IsGrid(visits, nCols, nRows)
  {
    exists z :: InBounds(nCols, nRows, z) && Before(z, col, row) &&
                Get(visits, nCols, nRows, z) && Get(mineNumbers, nCols, nRows, z) == -1
  }

  /** The visited cells scanned before `(col, row)` are shown, every other cell is hidden. */
  ghost predicate ShownBefore(playground: seq<seq<Cell>>, mineNumbers: seq<seq<int>>, visits: seq<seq<bool>>,
                              nCols: int, nRows: int, col: int, row: int)
    requires IsGrid(mineNumbers, nCols, nRows) && IsGrid(visits, nCols, nRows)
  {
    IsGrid(playground, nCols, nRows) &&
    forall z :: InBounds(nCols, nRows, z) ==>
      Get(playground, nCols, nRows, z) ==
        if Before(z, col, row) && Get(visits, nCols, nRows, z) then Shown(Get(mineNumbers, nCols, nRows, z)) else Hidden
  }

  /** Scanning the cell `(col, row)`. */
  lemma ScanStep(playground: seq<seq<Cell>>, mineNumbers: seq<seq<int>>, visits: seq<seq<bool>>,
                 nCols: int, nRows: int, col: int, row: int)
    requires IsGrid(mineNumbers, nCols, nRows) && IsGrid(visits, nCols, nRows) && InBounds(nCols, nRows, (col, row))
    requires ShownBefore(playground, mineNumbers, visits, nCols, nRows, col, row)
    ensures var z := (col, row);
            var next := if Get(visits, nCols, nRows, z)
                        then Set(playground, nCols, nRows, z, Shown(Get(mineNumbers, nCols, nRows, z)))
                        else playground;
            ShownBefore(next, mineNumbers, visits, nCols, nRows, col, row + 1)
    ensures FailedBefore(mineNumbers, visits, nCols, nRows, col, row + 1) <==>
            FailedBefore(mineNumbers, visits, nCols, nRows, col, row) ||
            (visits[col][row] && mineNumbers[col][row] == -1)
  {
    if visits[col][row] && mineNumbers[col][row] == -1 {
      assert Before((col, row), col, row + 1);
    }
  }

  /** Finishing a column is starting the next one. */
  lemma NextColumn(playground: seq<seq<Cell>>, mineNumbers: seq<seq<int>>, visits: seq<seq<bool>>,
                   nCols: int, nRows: int, col: int)
    requires IsGrid(mineNumbers, nCols, nRows) && IsGrid(visits, nCols, nRows)
    ensures ShownBefore(playground, mineNumbers, visits, nCols, nRows, col, nRows) ==
            ShownBefore(playground, mineNumbers, visits, nCols, nRows, col + 1, 0)
    ensures FailedBefore(mineNumbers, visits, nCols, nRows, col, nRows) ==
            FailedBefore(mineNumbers, visits, nCols, nRows, col + 1, 0)
  {
    assert forall z :: InBounds(nCols, nRows, z) ==> (Before(z, col, nRows) <==> Before(z, col + 1, 0));
  }

  /** Once every column is scanned, the visited cells are shown and the failure flag is exact. */
  lemma ScanComplete(playground: seq<seq<Cell>>, mineNumbers: seq<seq<int>>, visits: seq<seq<bool>>,
                     nCols: int, nRows: int)
    requires IsGrid(mineNumbers, nCols, nRows) && IsGrid(visits, nCols, nRows)
    requires ShownBefore(playground, mineNumbers, visits, nCols, nRows, nCols, 0)
    ensures IsGrid(playground, nCols, nRows)
    ensures forall c, r :: 0 <= c < nCols && 0 <= r < nRows ==>
              playground[c][r] == if visits[c][r] then Shown(mineNumbers[c][r]) else Hidden
    ensures FailedBefore(mineNumbers, visits, nCols, nRows, nCols, 0) == Failed(mineNumbers, visits, nCols, nRows)
  {
    forall c, r | 0 <= c < nCols && 0 <= r < nRows
      ensures playground[c][r] == if visits[c][r] then Shown(mineNumbers[c][r]) else Hidden
    {
      assert InBounds(nCols, nRows, (c, r)) && Before((c, r), nCols, 0);
    }
    assert forall z :: InBounds(nCols, nRows, z) ==> Before(z, nCols, 0);
  }

  /** The first pass over the grid (minesweeper.ts:217-233): counts the visited cells, notes
      whether one of them is a mine, and shows every visited cell. */
  method ShowVisited(mineNumbers: seq<seq<int>>, visits: seq<seq<bool>>, nCols: nat, nRows: nat)
    returns (playground: seq<seq<Cell>>, nVisited: nat, failed: bool)
    requires IsGrid(mineNumbers, nCols, nRows) && IsGrid(visits, nCols, nRows) && 0 < nRows
    ensures nVisited == CountTrue(visits, nCols, nRows, nCols * nRows)
    ensures failed <==> Failed(mineNumbers, visits, nCols, nRows)
    ensures IsGrid(playground, nCols, nRows)
    ensures forall c, r :: 0 <= c < nCols && 0 <= r < nRows ==>
              playground[c][r] == if visits[c][r] then Shown(mineNumbers[c][r]) else Hidden
  {
    playground := Filled(nCols, nRows, Hidden);
    nVisited := 0;
    failed := false;
    ghost var done := 0;  // the linear index of the next cell, `col * nRows + row`
    for col := 0 to nCols
      invariant done == col * nRows <= nCols * nRows
      invariant nVisited == CountTrue(visits, nCols, nRows, done)
      invariant failed <==> FailedBefore(mineNumbers, visits, nCols, nRows, col, 0)
      invariant ShownBefore(playground, mineNumbers, visits, nCols, nRows, col, 0)
    {
      assert (col + 1) * nRows == done + nRows;
      MulMonotone(col + 1, nCols, nRows);
      for row := 0 to nRows
        invariant done == col * nRows + row && done + nRows - row <= nCols * nRows
        invariant nVisited == CountTrue(visits, nCols, nRows, done)
        invariant failed <==> FailedBefore(mineNumbers, visits, nCols, nRows, col, row)
        invariant ShownBefore(playground, mineNumbers, visits, nCols, nRows, col, row)
      {
        AtToLinear(visits, nCols, nRows, (col, row));
        ScanStep(playground, mineNumbers, visits, nCols, nRows, col, row);
        if visits[col][row] {
          nVisited := nVisited + 1;
          if mineNumbers[col][row] == -1 {
            playground := playground[col := playground[col][row := Mine]];
            failed := true;
          } else {
            playground := playground[col := playground[col][row := Number(mineNumbers[col][row])]];
          }
        }
        done := done + 1;
      }
      NextColumn(playground, mineNumbers, visits, nCols, nRows, col);
    }
    ScanComplete(playground, mineNumbers, visits, nCols, nRows);
  }

  /** The second pass (minesweeper.ts:237-247): shows the true value of every cell. */
  method ShowAll(playground: seq<seq<Cell>>, mineNumbers: seq<seq<int>>, nCols: nat, nRows: nat)
    returns (shown: seq<seq<Cell>>)
    requires IsGrid(playground, nCols, nRows) && IsGrid(mineNumbers, nCols, nRows)
    ensures IsGrid(shown, nCols, nRows)
    ensures forall c, r :: 0 <= c < nCols && 0 <= r < nRows ==> shown[c][r] == Shown(mineNumbers[c][r])
  {
    shown := playground;
    for col := 0 to nCols
      invariant IsGrid(shown, nCols, nRows)
      invariant forall c, r :: 0 <= c < col && 0 <= r < nRows ==> shown[c][r] == Shown(mineNumbers[c][r])
    {
      for row := 0 to nRows
        invariant IsGrid(shown, nCols, nRows)
        invariant forall c, r :: 0 <= c < col && 0 <= r < nRows ==> shown[c][r] == Shown(mineNumbers[c][r])
        invariant forall r :: 0 <= r < row ==> shown[col][r] == Shown(mineNumbers[col][r])
      {
        if mineNumbers[col][row] == -1 {
          shown := shown[col := shown[col][row := Mine]];
        } else {
          shown := shown[col := shown[col][row := Number(mineNumbers[col][row])]];
        }
      }
    }
  }

  /** Builds the view of a visited grid (minesweeper.ts:210-254): the first pass, the flags,
      and the second pass when the game is over. */
  method ComputeView(mineNumbers: seq<seq<int>>, visits: seq<seq<bool>>, nCols: nat, nRows: nat, nMines: int)
    returns (view: View)
    requires IsGrid(mineNumbers, nCols, nRows) && IsGrid(visits, nCols, nRows) && 0 < nRows
    ensures Displays(view, mineNumbers, visits, nCols, nRows, nMines)
  {
    var playground, nVisited, failed := ShowVisited(mineNumbers, visits, nCols, nRows);
    var passed := !failed && nCols * nRows - nVisited == nMines;
    if passed || failed {
      playground := ShowAll(playground, mineNumbers, nCols, nRows);
    }
    view := View(playground, nMines, passed, failed);
  }

  // ----- Properties of the flags -----

  /** A failed game stays failed however many more cells are visited. */
  lemma FailedStaysFailed(mineNumbers: seq<seq<int>>, visits: seq<seq<bool>>, more: seq<seq<bool>>, nCols: int, nRows: int)
    requires IsGrid(mineNumbers, nCols, nRows) && IsGrid(visits, nCols, nRows) && IsGrid(more, nCols, nRows)
    requires forall z :: InBounds(nCols, nRows, z) && Get(visits, nCols, nRows, z) ==> Get(more, nCols, nRows, z)
    requires Failed(mineNumbers, visits, nCols, nRows)
    ensures Failed(mineNumbers, more, nCols, nRows)
  {
    var z :| InBounds(nCols, nRows, z) && Get(visits, nCols, nRows, z) && Get(mineNumbers, nCols, nRows, z) == -1;
    assert Get(more, nCols, nRows, z);
  }

  /** Before any visit the game is neither failed nor passed, as long as there are fewer mines
      than cells, and the view shows nothing (minesweeper.test.ts:7-22). */
  lemma NothingVisited(mineNumbers: seq<seq<int>>, nCols: nat, nRows: nat, nMines: int, view: View)
    requires IsGrid(mineNumbers, nCols, nRows) && 0 < nRows && nMines < nCols * nRows
    requires Displays(view, mineNumbers, Filled(nCols, nRows, false), nCols, nRows, nMines)
    ensures !view.failed && !view.passed
    ensures forall c, r :: 0 <= c < nCols && 0 <= r < nRows ==> view.playground[c][r] == Hidden
  {
    CountTrueOfFalse(nCols, nRows, nCols * nRows);
  }
}
