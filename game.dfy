/** The game object: the mine field, its numbers, the visited grid and the current view,
    updated by each visit in the order the source's streams fire (seed the field on the first
    visit, derive the numbers, reset the visits, flood-fill, rebuild the view). */
module Game {
  import opened Geometry
  import opened Sampling
  import opened Board
  import opened Reveal
  import opened Views

  // ----- What a flood fill can reach -----

  /** The grid holding the visited cells, every safe cell, and `start`. */
  ghost function SafeOrVisited(minefield: seq<seq<bool>>, visits: seq<seq<bool>>, nCols: nat, nRows: nat, start: Coord)
    : (s: seq<seq<bool>>)
    requires IsGrid(minefield, nCols, nRows) && IsGrid(visits, nCols, nRows)
    ensures IsGrid(s, nCols, nRows)
    ensures forall c, r :: 0 <= c < nCols && 0 <= r < nRows ==>
              (s[c][r] <==> visits[c][r] || !minefield[c][r] || (c, r) == start)
  {
    seq(nCols, c requires 0 <= c < nCols =>
      seq(nRows, r requires 0 <= r < nRows => visits[c][r] || !minefield[c][r] || (c, r) == start))
  }

  /** A zero cell has no mined neighbour, so the safe cells together with the visited ones and
      the clicked cell form a closed grid: a candidate result of the flood fill. */
  lemma SafeOrVisitedCovers(mineNumbers: seq<seq<int>>, minefield: seq<seq<bool>>, visits: seq<seq<bool>>,
                            nCols: nat, nRows: nat, start: Coord)
    requires NumbersOf(mineNumbers, minefield, nCols, nRows) && IsGrid(visits, nCols, nRows)
    requires InBounds(nCols, nRows, start)
    ensures Covers(SafeOrVisited(minefield, visits, nCols, nRows, start), mineNumbers, visits, start, nCols, nRows)
  {
    var s := SafeOrVisited(minefield, visits, nCols, nRows, start);
    forall z, w | InBounds(nCols, nRows, z) && InBounds(nCols, nRows, w) && Near(z, w) &&
                  Get(s, nCols, nRows, z) && Get(mineNumbers, nCols, nRows, z) == 0
      ensures Get(s, nCols, nRows, w)
    {
      ZeroHasNoMinedNeighbour(minefield, nCols, nRows, z, w);
    }
  }

  /** A flood fill from `start` uncovers no mine other than `start` itself: the game is lost
      afterwards exactly when it was lost before or the clicked cell is a mine. */
  lemma NewMineOnlyAtClick(mineNumbers: seq<seq<int>>, minefield: seq<seq<bool>>, visits: seq<seq<bool>>,
                           visited: seq<seq<bool>>, nCols: nat, nRows: nat, start: Coord)
    requires NumbersOf(mineNumbers, minefield, nCols, nRows) && IsGrid(visits, nCols, nRows)
    requires InBounds(nCols, nRows, start) && IsGrid(visited, nCols, nRows)
    requires Includes(visited, visits, nCols, nRows) && Get(visited, nCols, nRows, start)
    requires forall s :: Covers(s, mineNumbers, visits, start, nCols, nRows) ==> Includes(s, visited, nCols, nRows)
    ensures Failed(mineNumbers, visited, nCols, nRows) <==>
            Failed(mineNumbers, visits, nCols, nRows) || Get(minefield, nCols, nRows, start)
  {
    var s := SafeOrVisited(minefield, visits, nCols, nRows, start);
    SafeOrVisitedCovers(mineNumbers, minefield, visits, nCols, nRows, start);
    if Failed(mineNumbers, visited, nCols, nRows) {
      var z :| InBounds(nCols, nRows, z) && Get(visited, nCols, nRows, z) && Get(mineNumbers, nCols, nRows, z) == -1;
      assert Get(s, nCols, nRows, z);
      if z != start {
        assert Get(visits, nCols, nRows, z);
      }
    }
    if Failed(mineNumbers, visits, nCols, nRows) {
      var z :| InBounds(nCols, nRows, z) && Get(visits, nCols, nRows, z) && Get(mineNumbers, nCols, nRows, z) == -1;
      assert Get(visited, nCols, nRows, z);
    }
  }

  // ----- Winning -----

  /** No visited cell is mined, so the visited and mined cells never overlap. */
  lemma DisjointWhenNotFailed(mineNumbers: seq<seq<int>>, minefield: seq<seq<bool>>, visits: seq<seq<bool>>,
                              nCols: nat, nRows: nat)
    requires NumbersOf(mineNumbers, minefield, nCols, nRows) && IsGrid(visits, nCols, nRows) && 0 < nRows
    requires !Failed(mineNumbers, visits, nCols, nRows)
    ensures forall i :: 0 <= i < nCols * nRows ==> !(At(visits, nCols, nRows, i) && At(minefield, nCols, nRows, i))
  {
    forall i | 0 <= i < nCols * nRows
      ensures !(At(visits, nCols, nRows, i) && At(minefield, nCols, nRows, i))
    {
      LinearInverse(nCols, nRows, i);
      var z := FromLinear(nRows, i);
      if Get(minefield, nCols, nRows, z) {
        assert Get(mineNumbers, nCols, nRows, z) == -1;
      }
    }
  }

  /** With exactly `nMines` mines on the field, the game is won exactly when the visited cells
      are the safe cells: every safe cell is visited and no mine is. */
  lemma PassedIffSafeCellsVisited(mineNumbers: seq<seq<int>>, minefield: seq<seq<bool>>, visits: seq<seq<bool>>,
                                  nCols: nat, nRows: nat, nMines: int)
    requires NumbersOf(mineNumbers, minefield, nCols, nRows) && IsGrid(visits, nCols, nRows) && 0 < nRows
    requires CountTrue(minefield, nCols, nRows, nCols * nRows) == nMines
    ensures Passed(mineNumbers, visits, nCols, nRows, nMines) <==>
            forall z :: InBounds(nCols, nRows, z) ==> (Get(visits, nCols, nRows, z) <==> !Get(minefield, nCols, nRows, z))
  {
    var n := nCols * nRows;
    if forall z :: InBounds(nCols, nRows, z) ==> (Get(visits, nCols, nRows, z) <==> !Get(minefield, nCols, nRows, z)) {
      forall z | InBounds(nCols, nRows, z) && Get(visits, nCols, nRows, z)
        ensures Get(mineNumbers, nCols, nRows, z) != -1
      {
      }
      DisjointWhenNotFailed(mineNumbers, minefield, visits, nCols, nRows);
      CountTrueDisjoint(visits, minefield, nCols, nRows, n);
      forall i | 0 <= i < n
        ensures At(visits, nCols, nRows, i) || At(minefield, nCols, nRows, i)
      {
        LinearInverse(nCols, nRows, i);
      }
    }
    if Passed(mineNumbers, visits, nCols, nRows, nMines) {
      DisjointWhenNotFailed(mineNumbers, minefield, visits, nCols, nRows);
      CountTrueDisjoint(visits, minefield, nCols, nRows, n);
      forall z | InBounds(nCols, nRows, z)
        ensures Get(visits, nCols, nRows, z) <==> !Get(minefield, nCols, nRows, z)
      {
        AtToLinear(visits, nCols, nRows, z);
        AtToLinear(minefield, nCols, nRows, z);
      }
    }
  }

  /** Whatever the view shows as a 0 has all of its in-bounds neighbours uncovered
      (the property checked by minesweeper.test.ts:85-125). */
  lemma ZeroShowsNeighbours(view: View, mineNumbers: seq<seq<int>>, visits: seq<seq<bool>>,
                            nCols: nat, nRows: nat, nMines: int, z: Coord, w: Coord)
    requires IsGrid(mineNumbers, nCols, nRows) && IsGrid(visits, nCols, nRows) && 0 < nRows
    requires Closed(mineNumbers, visits, nCols, nRows) && Displays(view, mineNumbers, visits, nCols, nRows, nMines)
    requires InBounds(nCols, nRows, z) && InBounds(nCols, nRows, w) && Near(z, w)
    requires view.playground[z.0][z.1] == Number(0)
    ensures view.playground[w.0][w.1] != Hidden
  {
    if !view.passed && !view.failed {
      assert Get(visits, nCols, nRows, z);
    }
  }

  // ----- The game object -----

  /** The numbers belong to the field, the visited grid is closed, the view shows both;
      before the first visit nothing is mined or visited, afterwards the field has exactly
      `nMines` mines and the first click is safe and visited. */
  ghost predicate Consistent(nCols: nat, nRows: nat, nMines: nat, seeded: bool,
                             minefield: seq<seq<bool>>, mineNumbers: seq<seq<int>>, visits: seq<seq<bool>>,
                             view: View, firstClick: Coord)
  {
    0 < nCols && 0 < nRows && nMines < nCols * nRows &&
    NumbersOf(mineNumbers, minefield, nCols, nRows) &&
    IsGrid(visits, nCols, nRows) &&
    Closed(mineNumbers, visits, nCols, nRows) &&
    Displays(view, mineNumbers, visits, nCols, nRows, nMines) &&
    (!seeded ==> minefield == Filled(nCols, nRows, false) && visits == Filled(nCols, nRows, false)) &&
    (seeded ==>
       CountTrue(minefield, nCols, nRows, nCols * nRows) == nMines &&
       InBounds(nCols, nRows, firstClick) &&
       !Get(minefield, nCols, nRows, firstClick) && Get(visits, nCols, nRows, firstClick))
  }

  class Minesweeper {
    const nCols: nat
    const nRows: nat
    const nMines: nat
    /** Whether the first visit has generated the mine field (the source's `take(1)`). */
    var seeded: bool
    var minefield: seq<seq<bool>>
    var mineNumbers: seq<seq<int>>
    var visits: seq<seq<bool>>
    var view: View
    /** The cell of the first visit, which the generated field leaves free. */
    ghost var firstClick: Coord

    /** The state is consistent (see `Consistent`). */
    ghost predicate Valid()
      reads this
    {
      Consistent(nCols, nRows, nMines, seeded, minefield, mineNumbers, visits, view, firstClick)
    }

    /** A new game (minesweeper.ts:37-47): an empty field, its all-zero numbers, nothing
        visited, and a view that hides every cell and is neither passed nor failed. */
    constructor(nCols: nat, nRows: nat, nMines: nat)
      requires 0 < nCols && 0 < nRows && nMines < nCols * nRows
      ensures Valid() && !seeded
      ensures this.nCols == nCols && this.nRows == nRows && this.nMines == nMines
      ensures view.nMines == nMines && !view.passed && !view.failed
      ensures forall c, r :: 0 <= c < nCols && 0 <= r < nRows ==> view.playground[c][r] == Hidden
    {
      var minefield := Filled(nCols, nRows, false);
      var mineNumbers := ComputeMineNumbers(minefield, nCols, nRows);
      var visits := Filled(nCols, nRows, false);
      var view := ComputeView(mineNumbers, visits, nCols, nRows, nMines);
      this.nCols, this.nRows, this.nMines := nCols, nRows, nMines;
      this.seeded := false;
      this.minefield, this.mineNumbers, this.visits, this.view := minefield, mineNumbers, visits, view;
      this.firstClick := (0, 0);
      new;
      NothingVisitedIsClosed(mineNumbers, nCols, nRows);
      NothingVisited(mineNumbers, nCols, nRows, nMines, view);
    }

    /** One visit (minesweeper.ts:264-266 and the streams it drives). On the first visit the
        field is generated from `draws` leaving `(col, row)` free, its numbers are derived and
        the visited grid is reset; then the flood fill grows the visited grid from
        `(col, row)` and the view is rebuilt. `used` is the number of draws consumed. */
    method Visit(col: int, row: int, draws: seq<int>) returns (used: nat)
      requires Valid() && InBounds(nCols, nRows, (col, row))
      requires forall k :: 0 <= k < |draws| ==> 0 <= draws[k] < nCols * nRows
      requires !seeded ==> |Admissible(draws, 0, {ToLinear(nRows, (col, row))})| >= nMines
      modifies this
      ensures Valid() && seeded
      ensures old(seeded) ==>
                used == 0 && minefield == old(minefield) && mineNumbers == old(mineNumbers) &&
                firstClick == old(firstClick)
      ensures !old(seeded) ==>
                firstClick == (col, row) && used <= |draws| &&
                forall z :: InBounds(nCols, nRows, z) ==>
                  (Get(minefield, nCols, nRows, z) <==> ToLinear(nRows, z) in Collected(draws[..used], 0, {ToLinear(nRows, (col, row))}))
      ensures old(seeded) ==> Includes(visits, old(visits), nCols, nRows)
      ensures Get(visits, nCols, nRows, (col, row))
      ensures forall s :: Covers(s, mineNumbers, if old(seeded) then old(visits) else Filled(nCols, nRows, false), (col, row), nCols, nRows) ==>
                Includes(s, visits, nCols, nRows)
      ensures view.failed <==> (old(seeded) && old(view.failed)) || Get(minefield, nCols, nRows, (col, row))
      ensures !old(seeded) ==> !view.failed
    {
      var field, numbers, base := minefield, mineNumbers, visits;
      ghost var first := firstClick;
      used := 0;
      if !seeded {
        field, numbers, base, used := Seed(nCols, nRows, nMines, (col, row), draws);
        first := (col, row);
      }
      var visited := FloodFill(numbers, base, nCols, nRows, (col, row));
      var shown := ComputeView(numbers, visited, nCols, nRows, nMines);
      NewMineOnlyAtClick(numbers, field, base, visited, nCols, nRows, (col, row));
      StillConsistent(nCols, nRows, nMines, field, numbers, base, visited, shown, first, (col, row));
      assert base == if seeded then visits else Filled(nCols, nRows, false);
      assert shown.failed <==> (seeded && view.failed) || Get(field, nCols, nRows, (col, row));
      Commit(field, numbers, visited, shown, first);
    }

    /** Stores a seeded state that is already known to be consistent. */
    method Commit(field: seq<seq<bool>>, numbers: seq<seq<int>>, visited: seq<seq<bool>>, shown: View, ghost first: Coord)
      requires Consistent(nCols, nRows, nMines, true, field, numbers, visited, shown, first)
      modifies this
      ensures Valid() && seeded
      ensures minefield == field && mineNumbers == numbers && visits == visited && view == shown && firstClick == first
    {
      seeded := true;
      minefield, mineNumbers, visits, view := field, numbers, visited, shown;
      firstClick := first;
    }
  }

  /** The first visit's seeding, which the source spreads over three streams: the mine field is
      generated leaving `first` free (minesweeper.ts:64-87), its numbers are derived
      (minesweeper.ts:98-129) and the visited grid is reset (minesweeper.ts:145-151). */
  method Seed(nCols: nat, nRows: nat, nMines: nat, first: Coord, draws: seq<int>)
    returns (minefield: seq<seq<bool>>, mineNumbers: seq<seq<int>>, visits: seq<seq<bool>>, used: nat)
    requires 0 < nRows && InBounds(nCols, nRows, first)
    requires forall k :: 0 <= k < |draws| ==> 0 <= draws[k] < nCols * nRows
    requires |Admissible(draws, 0, {ToLinear(nRows, first)})| >= nMines
    ensures IsGrid(minefield, nCols, nRows) && CountTrue(minefield, nCols, nRows, nCols * nRows) == nMines
    ensures NumbersOf(mineNumbers, minefield, nCols, nRows)
    ensures visits == Filled(nCols, nRows, false) && Closed(mineNumbers, visits, nCols, nRows)
    ensures used <= |draws|
    ensures forall z :: InBounds(nCols, nRows, z) ==>
              (Get(minefield, nCols, nRows, z) <==> ToLinear(nRows, z) in Collected(draws[..used], 0, {ToLinear(nRows, first)}))
    ensures !Get(minefield, nCols, nRows, first)
  {
    minefield, used := GenerateMinefield(nCols, nRows, nMines, first, draws);
    mineNumbers := ComputeMineNumbers(minefield, nCols, nRows);
    visits := Filled(nCols, nRows, false);
    NothingVisitedIsClosed(mineNumbers, nCols, nRows);
  }

  /** After a flood fill from `click` over a consistent seeded state (or a freshly seeded one,
      whose first click is `click`), the new visited grid and its view are consistent again. */
  lemma StillConsistent(nCols: nat, nRows: nat, nMines: nat, minefield: seq<seq<bool>>, mineNumbers: seq<seq<int>>,
                        visits: seq<seq<bool>>, visited: seq<seq<bool>>, view: View, first: Coord, click: Coord)
    requires 0 < nCols && 0 < nRows && nMines < nCols * nRows
    requires NumbersOf(mineNumbers, minefield, nCols, nRows) && IsGrid(visits, nCols, nRows)
    requires Closed(mineNumbers, visits, nCols, nRows)
    requires CountTrue(minefield, nCols, nRows, nCols * nRows) == nMines
    requires InBounds(nCols, nRows, first) && !Get(minefield, nCols, nRows, first)
    requires InBounds(nCols, nRows, click) && (Get(visits, nCols, nRows, first) || first == click)
    requires IsGrid(visited, nCols, nRows) && Includes(visited, visits, nCols, nRows) && Get(visited, nCols, nRows, click)
    requires Closed(mineNumbers, visits, nCols, nRows) ==> Closed(mineNumbers, visited, nCols, nRows)
    requires Displays(view, mineNumbers, visited, nCols, nRows, nMines)
    ensures Consistent(nCols, nRows, nMines, true, minefield, mineNumbers, visited, view, first)
  {
  }

  // ----- The games of minesweeper.test.ts -----

  /** On a board of at least 2×2 where every cell but one is a mine, the first visit is never
      a mine and shows a number of at least 3 (the 6×6 board with 35 mines of
      minesweeper.test.ts:24-43). */
  method CrowdedFirstVisit(nCols: nat, nRows: nat, click: Coord, draws: seq<int>) returns (view: View)
    requires 2 <= nCols && 2 <= nRows && InBounds(nCols, nRows, click)
    requires forall k :: 0 <= k < |draws| ==> 0 <= draws[k] < nCols * nRows
    requires |Admissible(draws, 0, {ToLinear(nRows, click)})| >= nCols * nRows - 1
    ensures !view.failed
    ensures IsGrid(view.playground, nCols, nRows)
    ensures view.playground[click.0][click.1].Number? && view.playground[click.0][click.1].n >= 3
  {
    var game := new Minesweeper(nCols, nRows, nCols * nRows - 1);
    var _ := game.Visit(click.0, click.1, draws);
    CrowdedBoard(game.minefield, nCols, nRows, click);
    view := game.view;
  }

  /** On a board where every cell but one is a mine, visiting the safe cell and then any other
      cell loses the game (the 2×2 board with 3 mines of minesweeper.test.ts:45-61). */
  method MineEndsGame(nCols: nat, nRows: nat, safe: Coord, other: Coord, draws: seq<int>) returns (view: View)
    requires InBounds(nCols, nRows, safe) && InBounds(nCols, nRows, other) && safe != other
    requires forall k :: 0 <= k < |draws| ==> 0 <= draws[k] < nCols * nRows
    requires |Admissible(draws, 0, {ToLinear(nRows, safe)})| >= nCols * nRows - 1
    ensures view.failed && !view.passed
  {
    MulMonotone(1, nCols, nRows);
    var game := new Minesweeper(nCols, nRows, nCols * nRows - 1);
    var _ := game.Visit(safe.0, safe.1, draws);
    OnlyOneSafe(game.minefield, nCols, nRows, safe);
    var _ := game.Visit(other.0, other.1, []);
    NeverWonAndLost(game.view, game.mineNumbers, game.visits, nCols, nRows, nCols * nRows - 1);
    view := game.view;
  }

  /** On a 3×3 board, visiting the centre shows the number of mines on the board
      (minesweeper.test.ts:63-83, with 1 and with 3 mines). */
  method CentreShowsMineCount(nMines: nat, draws: seq<int>) returns (view: View)
    requires nMines < 9
    requires forall k :: 0 <= k < |draws| ==> 0 <= draws[k] < 9
    requires |Admissible(draws, 0, {ToLinear(3, (1, 1))})| >= nMines
    ensures !view.failed
    ensures IsGrid(view.playground, 3, 3) && view.playground[1][1] == Number(nMines)
  {
    var game := new Minesweeper(3, 3, nMines);
    var _ := game.Visit(1, 1, draws);
    CentreOfThreeByThree(game.minefield);
    view := game.view;
  }
}
