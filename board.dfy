/** The mine field and the adjacency numbers derived from it. */
module Board {
  import opened Geometry
  import opened Sets
  import opened Sampling

  // ----- Mine placement -----

  /** Sets the decoded cell of every linear index in `mineIndices` on an all-false field
      (minesweeper.ts:70-85). */
  method PlaceMines(nCols: nat, nRows: nat, mineIndices: seq<int>) returns (minefield: seq<seq<bool>>)
    requires 0 < nRows
    requires forall k :: 0 <= k < |mineIndices| ==> 0 <= mineIndices[k] < nCols * nRows
    ensures IsGrid(minefield, nCols, nRows)
    ensures forall c, r :: 0 <= c < nCols && 0 <= r < nRows ==>
              (minefield[c][r] <==> ToLinear(nRows, (c, r)) in mineIndices)
  {
    minefield := Filled(nCols, nRows, false);
    for k := 0 to |mineIndices|
      invariant IsGrid(minefield, nCols, nRows)
      invariant forall c, r :: 0 <= c < nCols && 0 <= r < nRows ==>
                  (minefield[c][r] <==> ToLinear(nRows, (c, r)) in mineIndices[..k])
    {
      var index := mineIndices[k];
      var col := index / nRows;
      var row := index % nRows;
      LinearInverse(nCols, nRows, index);
      forall c, r | 0 <= c < nCols && 0 <= r < nRows
        ensures ToLinear(nRows, (c, r)) == index ==> (c, r) == (col, row)
      {
        LinearRoundTrip(nCols, nRows, (c, r));
      }
      minefield := minefield[col := minefield[col][row := true]];
      assert mineIndices[..k + 1] == mineIndices[..k] + [index];
    }
    assert mineIndices[..|mineIndices|] == mineIndices;
  }

  /** A field whose mines are exactly the decoded distinct indices holds one mine per index. */
  lemma MineCount(minefield: seq<seq<bool>>, nCols: nat, nRows: nat, mineIndices: seq<int>)
    requires IsGrid(minefield, nCols, nRows) && 0 < nRows
    requires forall k :: 0 <= k < |mineIndices| ==> 0 <= mineIndices[k] < nCols * nRows
    requires forall j, k :: 0 <= j < k < |mineIndices| ==> mineIndices[j] != mineIndices[k]
    requires forall c, r :: 0 <= c < nCols && 0 <= r < nRows ==>
               (minefield[c][r] <==> ToLinear(nRows, (c, r)) in mineIndices)
    ensures CountTrue(minefield, nCols, nRows, nCols * nRows) == |mineIndices|
  {
    var n := nCols * nRows;
    forall i | 0 <= i < n
      ensures At(minefield, nCols, nRows, i) <==> i in mineIndices
    {
      LinearInverse(nCols, nRows, i);
    }
    assert TrueIndices(minefield, nCols, nRows, n) == set x | x in mineIndices;
    CountTrueIsCard(minefield, nCols, nRows, n);
    DistinctCard(mineIndices);
  }

  /** The mine field generated on the first visit: `nMines` indices drawn from
      `[0, nCols*nRows)` leaving out the clicked cell, then decoded onto the grid
      (minesweeper.ts:70-85). */
  method GenerateMinefield(nCols: nat, nRows: nat, nMines: nat, first: Coord, draws: seq<int>)
    returns (minefield: seq<seq<bool>>, used: nat)
    requires InBounds(nCols, nRows, first)
    requires forall k :: 0 <= k < |draws| ==> 0 <= draws[k] < nCols * nRows
    requires |Admissible(draws, 0, {ToLinear(nRows, first)})| >= nMines
    ensures IsGrid(minefield, nCols, nRows)
    ensures used <= |draws|
    ensures forall z :: InBounds(nCols, nRows, z) ==>
              (Get(minefield, nCols, nRows, z) <==> ToLinear(nRows, z) in Collected(draws[..used], 0, {ToLinear(nRows, first)}))
    ensures CountTrue(minefield, nCols, nRows, nCols * nRows) == nMines
    ensures !Get(minefield, nCols, nRows, first)
  {
    var mineIndices;
    mineIndices, used := CreateRandomArray(0, nCols * nRows, {ToLinear(nRows, first)}, nMines, draws);
    assert forall k :: 0 <= k < |mineIndices| ==> mineIndices[k] in mineIndices;
    minefield := PlaceMines(nCols, nRows, mineIndices);
    MineCount(minefield, nCols, nRows, mineIndices);
  }

  // ----- Adjacency numbers -----

  /** How many of `cells` are in bounds and mined, summed left to right as the source's
      `reduce` does (minesweeper.ts:115-123); out-of-bounds cells add nothing. */
  function MinedAmong(minefield: seq<seq<bool>>, nCols: int, nRows: int, cells: seq<Coord>): (n: nat)
    requires IsGrid(minefield, nCols, nRows)
    ensures n <= |cells|
  {
    if cells == [] then 0
    else
      var w := cells[|cells| - 1];
      MinedAmong(minefield, nCols, nRows, cells[..|cells| - 1])
        + (if InBounds(nCols, nRows, w) && Get(minefield, nCols, nRows, w) then 1 else 0)
  }

  /** A cell of `cells` that is not a mine keeps the count below `|cells|`. */
  lemma {:induction false} MinedAmongMissing(minefield: seq<seq<bool>>, nCols: int, nRows: int, cells: seq<Coord>, k: nat)
    requires IsGrid(minefield, nCols, nRows) && k < |cells|
    requires !(InBounds(nCols, nRows, cells[k]) && Get(minefield, nCols, nRows, cells[k]))
    ensures MinedAmong(minefield, nCols, nRows, cells) < |cells|
  {
    if k < |cells| - 1 {
      MinedAmongMissing(minefield, nCols, nRows, cells[..|cells| - 1], k);
    }
  }

  /** The mined in-bounds cells among `cells`. */
  ghost function MinedSet(minefield: seq<seq<bool>>, nCols: int, nRows: int, cells: seq<Coord>): set<Coord>
    requires IsGrid(minefield, nCols, nRows)
  {
    set w | w in cells && InBounds(nCols, nRows, w) && Get(minefield, nCols, nRows, w)
  }

  /** Over cells without repetition, the count is the size of the set of mined in-bounds cells. */
  lemma {:induction false} MinedAmongIsCard(minefield: seq<seq<bool>>, nCols: int, nRows: int, cells: seq<Coord>)
    requires IsGrid(minefield, nCols, nRows)
    requires forall j, k :: 0 <= j < k < |cells| ==> cells[j] != cells[k]
    ensures MinedAmong(minefield, nCols, nRows, cells) == |MinedSet(minefield, nCols, nRows, cells)|
  {
    if cells != [] {
      var init := cells[..|cells| - 1];
      var w := cells[|cells| - 1];
      MinedAmongIsCard(minefield, nCols, nRows, init);
      assert w !in init;
      MinedSetSnoc(minefield, nCols, nRows, init, w);
      assert cells == init + [w];
    }
  }

  /** Appending a cell adds it to the mined set exactly when it is in bounds and mined. */
  lemma MinedSetSnoc(minefield: seq<seq<bool>>, nCols: int, nRows: int, cells: seq<Coord>, w: Coord)
    requires IsGrid(minefield, nCols, nRows)
    ensures MinedSet(minefield, nCols, nRows, cells + [w]) ==
            MinedSet(minefield, nCols, nRows, cells) +
            (if InBounds(nCols, nRows, w) && Get(minefield, nCols, nRows, w) then {w} else {})
  {
  }

  /** The number shown for cell `z`: -1 for a mine, otherwise the mined cells of its 3×3 block
      (minesweeper.ts:105-126). */
  function MineNumber(minefield: seq<seq<bool>>, nCols: int, nRows: int, z: Coord): (n: int)
    requires IsGrid(minefield, nCols, nRows) && InBounds(nCols, nRows, z)
    ensures -1 <= n <= 8
    ensures n == -1 <==> Get(minefield, nCols, nRows, z)
  {
    if Get(minefield, nCols, nRows, z) then -1
    else
      MinedAmongMissing(minefield, nCols, nRows, Block(z), 4);
      MinedAmong(minefield, nCols, nRows, Block(z))
  }

  /** The mined in-bounds cells that touch `z` horizontally, vertically or diagonally. */
  ghost function MinedNeighbours(minefield: seq<seq<bool>>, nCols: int, nRows: int, z: Coord): set<Coord>
    requires IsGrid(minefield, nCols, nRows)
  {
    set c, r | z.0 - 1 <= c <= z.0 + 1 && z.1 - 1 <= r <= z.1 + 1 && (c, r) != z &&
               InBounds(nCols, nRows, (c, r)) && minefield[c][r] :: (c, r)
  }

  /** A cell that is not a mine shows how many of its in-bounds neighbours are mines; a cell
      past the edge of the board is never counted, so there is no wrap-around. */
  lemma NumberCountsMinedNeighbours(minefield: seq<seq<bool>>, nCols: int, nRows: int, z: Coord)
    requires IsGrid(minefield, nCols, nRows) && InBounds(nCols, nRows, z)
    requires !Get(minefield, nCols, nRows, z)
    ensures MineNumber(minefield, nCols, nRows, z) == |MinedNeighbours(minefield, nCols, nRows, z)|
  {
    var b := Block(z);
    MinedAmongIsCard(minefield, nCols, nRows, b);
    assert MinedSet(minefield, nCols, nRows, b) == MinedNeighbours(minefield, nCols, nRows, z);
  }

  lemma InMinedNeighbours(minefield: seq<seq<bool>>, nCols: int, nRows: int, z: Coord, w: Coord)
    requires IsGrid(minefield, nCols, nRows) && InBounds(nCols, nRows, w)
    requires Near(z, w) && w != z && Get(minefield, nCols, nRows, w)
    ensures w in MinedNeighbours(minefield, nCols, nRows, z)
  {
  }

  /** A cell showing 0 has no mine anywhere in its 3×3 block. */
  lemma ZeroHasNoMinedNeighbour(minefield: seq<seq<bool>>, nCols: int, nRows: int, z: Coord, w: Coord)
    requires IsGrid(minefield, nCols, nRows) && InBounds(nCols, nRows, z) && InBounds(nCols, nRows, w)
    requires MineNumber(minefield, nCols, nRows, z) == 0 && Near(z, w)
    ensures !Get(minefield, nCols, nRows, w)
  {
    NumberCountsMinedNeighbours(minefield, nCols, nRows, z);
    if w != z {
      assert w !in MinedNeighbours(minefield, nCols, nRows, z);
    }
  }

  /** `mineNumbers` holds the number of every cell of `minefield`. */
  ghost predicate NumbersOf(mineNumbers: seq<seq<int>>, minefield: seq<seq<bool>>, nCols: int, nRows: int)
  {
    IsGrid(mineNumbers, nCols, nRows) && IsGrid(minefield, nCols, nRows) &&
    forall c, r :: 0 <= c < nCols && 0 <= r < nRows ==> mineNumbers[c][r] == MineNumber(minefield, nCols, nRows, (c, r))
  }

  /** The cells scanned before `(col, row)` hold their numbers. */
  ghost predicate NumberedBefore(mineNumbers: seq<seq<int>>, minefield: seq<seq<bool>>, nCols: int, nRows: int,
                                 col: int, row: int)
    requires IsGrid(minefield, nCols, nRows)
  {
    IsGrid(mineNumbers, nCols, nRows) &&
    forall z :: InBounds(nCols, nRows, z) && Before(z, col, row) ==>
      Get(mineNumbers, nCols, nRows, z) == MineNumber(minefield, nCols, nRows, z)
  }

  /** Writing the number of `(col, row)` extends the scanned prefix by one cell. */
  lemma NumberStep(mineNumbers: seq<seq<int>>, minefield: seq<seq<bool>>, nCols: int, nRows: int, col: int, row: int)
    requires IsGrid(minefield, nCols, nRows) && InBounds(nCols, nRows, (col, row))
    requires NumberedBefore(mineNumbers, minefield, nCols, nRows, col, row)
    ensures var n := MineNumber(minefield, nCols, nRows, (col, row));
            NumberedBefore(Set(mineNumbers, nCols, nRows, (col, row), n), minefield, nCols, nRows, col, row + 1)
  {
  }

  /** Scanning a whole column and then the next one. */
  lemma NumberNextColumn(mineNumbers: seq<seq<int>>, minefield: seq<seq<bool>>, nCols: int, nRows: int, col: int)
    requires IsGrid(minefield, nCols, nRows)
    ensures NumberedBefore(mineNumbers, minefield, nCols, nRows, col, nRows) ==
            NumberedBefore(mineNumbers, minefield, nCols, nRows, col + 1, 0)
  {
    assert forall z :: InBounds(nCols, nRows, z) ==> (Before(z, col, nRows) <==> Before(z, col + 1, 0));
  }

  /** Every cell is scanned once the last column is done. */
  lemma NumberComplete(mineNumbers: seq<seq<int>>, minefield: seq<seq<bool>>, nCols: int, nRows: int)
    requires IsGrid(minefield, nCols, nRows)
    requires NumberedBefore(mineNumbers, minefield, nCols, nRows, nCols, 0)
    ensures NumbersOf(mineNumbers, minefield, nCols, nRows)
  {
    forall c, r | 0 <= c < nCols && 0 <= r < nRows
      ensures mineNumbers[c][r] == MineNumber(minefield, nCols, nRows, (c, r))
    {
      assert InBounds(nCols, nRows, (c, r)) && Before((c, r), nCols, 0);
    }
  }

  /** Fills the number grid cell by cell with nested loops (minesweeper.ts:98-129). */
  method ComputeMineNumbers(minefield: seq<seq<bool>>, nCols: nat, nRows: nat) returns (mineNumbers: seq<seq<int>>)
    requires IsGrid(minefield, nCols, nRows)
    ensures NumbersOf(mineNumbers, minefield, nCols, nRows)
  {
    mineNumbers := Filled(nCols, nRows, 0);
    for col := 0 to nCols
      invariant NumberedBefore(mineNumbers, minefield, nCols, nRows, col, 0)
    {
      for row := 0 to nRows
        invariant NumberedBefore(mineNumbers, minefield, nCols, nRows, col, row)
      {
        var n: int;
        if minefield[col][row] {
          n := -1;
        } else {
          n := MinedAmong(minefield, nCols, nRows, Block((col, row)));
        }
        NumberStep(mineNumbers, minefield, nCols, nRows, col, row);
        mineNumbers := mineNumbers[col := mineNumbers[col][row := n]];
      }
      NumberNextColumn(mineNumbers, minefield, nCols, nRows, col);
    }
    NumberComplete(mineNumbers, minefield, nCols, nRows);
  }

  // ----- Consequences for particular boards -----

  /** On a 3×3 board every cell touches the centre, so a safe centre shows the total number
      of mines (the examples of minesweeper.test.ts:63-83). */
  lemma CentreOfThreeByThree(minefield: seq<seq<bool>>)
    requires IsGrid(minefield, 3, 3) && !Get(minefield, 3, 3, (1, 1))
    ensures MineNumber(minefield, 3, 3, (1, 1)) == CountTrue(minefield, 3, 3, 9)
  {
    var b := Block((1, 1));
    forall k | 0 <= k <= 9
      ensures MinedAmong(minefield, 3, 3, b[..k]) == CountTrue(minefield, 3, 3, k)
    {
      CentrePrefix(minefield, k);
    }
    assert b[..9] == b;
  }

  lemma {:induction false} CentrePrefix(minefield: seq<seq<bool>>, k: nat)
    requires IsGrid(minefield, 3, 3) && k <= 9
    ensures MinedAmong(minefield, 3, 3, Block((1, 1))[..k]) == CountTrue(minefield, 3, 3, k)
  {
    if k > 0 {
      var b := Block((1, 1));
      CentrePrefix(minefield, k - 1);
      assert b[..k][..k - 1] == b[..k - 1];
      assert b[k - 1] == FromLinear(3, k - 1);
    }
  }

  /** A field with one mine fewer than cells whose cell `z` is safe has a mine everywhere else. */
  lemma OnlyOneSafe(minefield: seq<seq<bool>>, nCols: nat, nRows: nat, z: Coord)
    requires IsGrid(minefield, nCols, nRows) && InBounds(nCols, nRows, z)
    requires !Get(minefield, nCols, nRows, z)
    requires CountTrue(minefield, nCols, nRows, nCols * nRows) == nCols * nRows - 1
    ensures forall w :: InBounds(nCols, nRows, w) && w != z ==> Get(minefield, nCols, nRows, w)
  {
    AtToLinear(minefield, nCols, nRows, z);
    CountTrueAllBut(minefield, nCols, nRows, nCols * nRows, ToLinear(nRows, z));
    forall w | InBounds(nCols, nRows, w) && w != z
      ensures Get(minefield, nCols, nRows, w)
    {
      AtToLinear(minefield, nCols, nRows, w);
      LinearRoundTrip(nCols, nRows, z);
      LinearRoundTrip(nCols, nRows, w);
    }
  }

  /** When every cell but `z` is a mine, `z` shows at least 3 as soon as the board has two
      columns and two rows (the example of minesweeper.test.ts:24-43). */
  lemma CrowdedBoard(minefield: seq<seq<bool>>, nCols: nat, nRows: nat, z: Coord)
    requires IsGrid(minefield, nCols, nRows) && InBounds(nCols, nRows, z) && 2 <= nCols && 2 <= nRows
    requires !Get(minefield, nCols, nRows, z)
    requires CountTrue(minefield, nCols, nRows, nCols * nRows) == nCols * nRows - 1
    ensures MineNumber(minefield, nCols, nRows, z) >= 3
  {
    OnlyOneSafe(minefield, nCols, nRows, z);
    var dc := if z.0 + 1 < nCols then 1 else -1;
    var dr := if z.1 + 1 < nRows then 1 else -1;
    var mined := MinedNeighbours(minefield, nCols, nRows, z);
    InMinedNeighbours(minefield, nCols, nRows, z, (z.0 + dc, z.1));
    InMinedNeighbours(minefield, nCols, nRows, z, (z.0, z.1 + dr));
    InMinedNeighbours(minefield, nCols, nRows, z, (z.0 + dc, z.1 + dr));
    ThreeElements(mined, (z.0 + dc, z.1), (z.0, z.1 + dr), (z.0 + dc, z.1 + dr));
    NumberCountsMinedNeighbours(minefield, nCols, nRows, z);
  }
}
