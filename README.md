# Minesweeper engine and digit counter, modelled in Dafny

This project models two pieces of the `minesweeper` repository.

**The game engine** is the `Minesweeper` class of `models/minesweeper.ts`. A game is a board of
`nCols × nRows` cells, stored column-major as `grid[col][row]`, with `nMines` mines.

- **First visit.** The mine field is generated by rejection sampling (`createRandomArray`). The
  sampling leaves the clicked cell free, so the first click is never a mine.
- **Mine numbers.** Every cell gets a number: -1 for a mine, otherwise how many of its in-bounds
  neighbours are mines.
- **Every visit.** A stack-based flood fill marks cells as visited. It starts at the clicked cell
  and expands through cells whose number is 0.
- **View.** After each visit the engine rebuilds a view with these parts:
  - a playground that shows the visited cells and hides the rest;
  - the mine count;
  - a `failed` flag: a mine was visited;
  - a `passed` flag: nothing failed, and exactly `nMines` cells are unvisited.

  Once the game is over, the playground shows every cell.

**The digit counter** is `count(target, n)` of `count7.js`. It counts how many of the integers
1..n contain the decimal digit `target`. It works from the leading digit of `n` and a table
`maxCounts[i]` of matches per block of `10^i` consecutive integers.

The Dafny modules follow that structure:

- `Geometry`: grids, cells, the linear index `col * nRows + row`, the 3×3 block, and counting.
- `Sampling`: `createRandomArray`.
- `Board`: mine placement and mine numbers.
- `Reveal`: the flood fill.
- `Views`: the view.
- `Game`: the `Minesweeper` class, its invariant, and the games of the repository's tests.
- `DigitCount`: `count7.js`.

**The random source.** Each call of `Math.random()` in the sampling loop is modelled as one
element of a parameter `draws`. The element is the integer offset
`Math.floor((upper - lower) * Math.random())`.

The callers must supply enough draws for the loop to finish. Formally: the draws hold at least
`size` distinct admissible values. In the source, this is the event that happens with probability 1.

**How the class's state is updated.** The source wires its state through RxJS subjects. The model
has one sequential `Visit` method that applies the same updates in the order the streams fire:

1. On the first visit only, generate the field and derive its numbers.
2. On the first visit only, reset the visited grid.
3. Flood-fill from the clicked cell.
4. Rebuild the view.

## Model

| member | source | states |
|---|---|---|
| Geometry.ToLinear | models/minesweeper.ts:77 | the index `col * nRows + row` of a cell with a valid row lies in its column's run `[col * nRows, (col+1) * nRows)` |
| Geometry.FromLinear | models/minesweeper.ts:82-83 | decoding an index with `floor(index / nRows)` and `index % nRows` gives a valid row and a cell that encodes back to the index |
| Geometry.LinearRoundTrip | models/minesweeper.ts:77-84 | the index `col * nRows + row` of an in-bounds cell lies in `[0, nCols*nRows)`, and decoding it with `floor(index / nRows)` and `index % nRows` gives the cell back |
| Geometry.LinearInverse | models/minesweeper.ts:81-84 | every index in `[0, nCols*nRows)` decodes to an in-bounds cell whose index is that index |
| Geometry.LinearInjective | models/minesweeper.ts:77 | two in-bounds cells with the same index are the same cell, so excluding the clicked cell's index excludes exactly that cell |
| Geometry.Block | models/minesweeper.ts:107-109 | the offsets -1, 0, 1 on both axes give nine distinct cells: exactly the 3×3 block around the cell, with the cell itself in the middle |
| Sampling.Collected | models/minesweeper.ts:11-19 | the set built from a run of draws has no repeats, and holds exactly the shifted draws that are not excluded |
| Sampling.CollectedCard | models/minesweeper.ts:13 | the set's size is the number of distinct admissible values drawn, which is what the loop's `samples.size < size` test compares |
| Sampling.CreateRandomArray | models/minesweeper.ts:5-22 | the result is the set collected from the draws consumed, in insertion order; it has `size` distinct samples, each in `[lower, upper)` and outside `excludes`; the loop stops at the first draw that completes the set |
| Board.PlaceMines | models/minesweeper.ts:70-85 | starting from an all-false field, a cell is mined exactly when its index is one of the sampled indices |
| Board.MineCount | models/minesweeper.ts:74-85 | distinct sampled indices give exactly as many mines as indices |
| Board.GenerateMinefield | models/minesweeper.ts:64-88 | the generated field has exactly `nMines` mines; the first click is not one of them; the mined cells are exactly the indices collected from the consumed draws |
| Board.MinedAmong | models/minesweeper.ts:115-123 | the `reduce` that adds 1 for every in-bounds mined cell and 0 for the rest never exceeds the number of cells |
| Board.MinedAmongIsCard | models/minesweeper.ts:115-123 | the `reduce` over cells without repeats counts the distinct in-bounds mined cells; out-of-bounds cells add nothing |
| Board.MineNumber | models/minesweeper.ts:111-124 | a cell's number is -1 exactly when it is a mine, and lies in -1..8 |
| Board.NumberCountsMinedNeighbours | models/minesweeper.ts:105-126 | a safe cell's number is the number of its mined neighbours that lie on the board; nothing wraps around the edges |
| Board.ZeroHasNoMinedNeighbour | models/minesweeper.ts:111-123 | a cell numbered 0 has no mine anywhere in its 3×3 block |
| Board.ComputeMineNumbers | models/minesweeper.ts:98-129 | the nested loops give every cell of the field its number |
| Board.OnlyOneSafe | models/minesweeper.test.ts:45-61 | a field with `nCols*nRows - 1` mines and a safe cell `z` has a mine on every other cell |
| Board.CrowdedBoard | models/minesweeper.test.ts:24-43 | on a board of at least 2×2 where every cell but `z` is a mine, `z`'s number is at least 3 |
| Board.CentreOfThreeByThree | models/minesweeper.test.ts:63-83 | on a 3×3 board, a safe centre's number is the total number of mines on the board |
| Reveal.NothingVisitedIsClosed | models/minesweeper.ts:145-151 | the reset visited grid is closed: no visited zero cell has an unvisited neighbour |
| Reveal.InBoundsOnly | models/minesweeper.ts:171-180 | keeping the in-bounds cells of a list keeps exactly those cells that are in bounds and never lengthens the list |
| Reveal.PushNeighbours | models/minesweeper.ts:166-180 | the stack becomes the old stack followed by the in-bounds cells of the 3×3 block, in the source's enumeration order; so the appended cells are exactly the in-bounds cells of the block |
| Reveal.PopAndVisit | models/minesweeper.ts:160-181 | one iteration pops the top cell; if it was unvisited, it marks it and, exactly when its number is 0, pushes its in-bounds block; otherwise only the pop happens |
| Reveal.StepFacts | models/minesweeper.ts:159-183 | an iteration keeps every stacked cell in bounds, marks only the popped cell, keeps every other stacked cell on the stack, and pushes nothing unless it expands a newly visited zero cell |
| Reveal.PendingStep | models/minesweeper.ts:159-183 | one pop-and-mark step keeps every neighbour of a visited zero cell visited or on the stack |
| Reveal.BoundedStep | models/minesweeper.ts:159-183 | one step keeps everything visited or stacked inside every closed grid that contains the old visits and the click |
| Reveal.FloodFill | models/minesweeper.ts:157-185 | the visited grid only grows and includes the click; a click on an already-visited cell changes nothing; a click on a non-zero cell marks only that cell; when the old visits are closed, the result is closed too, and is then the least closed grid containing the old visits and the click; in every case it lies inside every closed grid that contains them and the click |
| Views.Shown | models/minesweeper.ts:225-229 | a cell's shown value is never hidden, and it is `Mine` exactly when its number is -1 |
| Views.ShowVisited | models/minesweeper.ts:217-233 | the first pass counts exactly the visited cells, sets `failed` exactly when a visited cell is a mine, shows every visited cell and hides the rest |
| Views.ShowAll | models/minesweeper.ts:237-247 | the second pass shows the true value of every cell: a mine, or its number |
| Views.ComputeView | models/minesweeper.ts:210-254 | the view displays the numbers and visits: `failed` means a mine was visited; `passed` means not failed and `nMines` cells unvisited; the playground shows everything once the game is over, and otherwise only the visited cells |
| Views.NeverWonAndLost | models/minesweeper.ts:235 | a view is never both passed and failed |
| Views.FailedStaysFailed | models/minesweeper.ts:225-227 | visiting more cells never clears `failed` |
| Views.NothingVisited | models/minesweeper.test.ts:7-22 | with nothing visited and fewer mines than cells, the view is neither passed nor failed and hides every cell |
| Game.SafeOrVisitedCovers | models/minesweeper.ts:157-183 | the safe cells, plus the visited cells and the click, form a closed grid, because a zero cell has no mined neighbour |
| Game.NewMineOnlyAtClick | models/minesweeper.ts:157-183 | after a flood fill the game is lost exactly when it was lost before or the clicked cell is a mine: expanding zeros never uncovers a mine |
| Game.DisjointWhenNotFailed | models/minesweeper.ts:222-227 | while the game is not failed, no cell is both visited and mined |
| Game.PassedIffSafeCellsVisited | models/minesweeper.ts:235 | with exactly `nMines` mines on the field, `passed` holds exactly when the visited cells are the safe cells |
| Game.ZeroShowsNeighbours | models/minesweeper.test.ts:85-125 | in a closed visited grid, every in-bounds neighbour of a cell the view shows as 0 is shown, not hidden |
| Game.Seed | models/minesweeper.ts:64-151 | the first visit's seeding: a field with exactly `nMines` mines that leaves the click free, its numbers, and a reset visited grid that is closed |
| Game.StillConsistent | models/minesweeper.ts:157-254 | a flood fill from a click over a consistent state, followed by the rebuilt view, gives a consistent state again |
| Game.Minesweeper.Commit | models/minesweeper.ts:257-259 | storing a consistent seeded state, as the subjects' `next` calls do, leaves the game valid and holding exactly that state |
| Game.Minesweeper.constructor | models/minesweeper.ts:37-48 | a new game is unseeded; its view has the mine count, is neither passed nor failed, and hides every cell |
| Game.Minesweeper.Visit | models/minesweeper.ts:265-267 | the visit and the streams it drives keep the game consistent. On the first visit the field is generated from the draws, leaving the click free; later visits never change the field or its numbers. Visits only grow, and the click is visited. The visited grid is the least closed grid containing the earlier visits and the click. Afterwards the game is failed exactly when it was failed before or the clicked cell is a mine, so a first visit never fails |
| Game.CrowdedFirstVisit | models/minesweeper.test.ts:24-43 | on a board of at least 2×2 with one safe cell, the first visit does not fail and shows a number of at least 3 |
| Game.MineEndsGame | models/minesweeper.test.ts:45-61 | on a board with one safe cell, visiting it and then any other cell fails the game and does not pass it |
| Game.CentreShowsMineCount | models/minesweeper.test.ts:63-83 | on a 3×3 board, visiting the centre first does not fail and shows the number of mines |
| DigitCount.Pow10 | count7.js:17 | `10^k`, the value of `Math.pow(10, k)`, is at least 1 |
| DigitCount.Log10 | count7.js:6 | the leading-digit index `d` of `n >= 1` satisfies `10^d <= n < 10^(d+1)` |
| DigitCount.MaxCountRecurrence | count7.js:13-15 | `10^i - 9^i` is 0 at `i = 0` and obeys the table's recurrence `maxCounts[i] = 9 * maxCounts[i-1] + 10^(i-1)` |
| DigitCount.MaxCounts | count7.js:7-15 | the filled table holds `10^i - 9^i` at every index 0..d, including index 1, which is written before the loop |
| DigitCount.HasDigitSplit | count7.js:17-28 | appending `d` digits to a number adds a non-zero digit exactly when the appended part contains it; padding zeros never match |
| DigitCount.BlockShift | count7.js:21-28 | within the block of numbers that begin with `a`, the matches are all of them if `a` contains the digit, and otherwise as many as in `0..x-1` |
| DigitCount.Blocks | count7.js:24-28 | the first `m` blocks of `10^d` numbers hold `m` times the block count, plus the extra matches of block `t` when `t < m` |
| DigitCount.MaxCountCounts | count7.js:13-15 | table entry `i` is the number of integers below `10^i` that contain a given non-zero digit |
| DigitCount.BelowTarget | count7.js:2-4 | no integer in 1..n contains the digit `t` when `n < t <= 9` |
| DigitCount.LeadingDigit | count7.js:17-18 | `msd = floor(n / 10^d)` is a digit 1..9, and `n = msd * 10^d + n % 10^d` |
| DigitCount.LeadingDigitSplit | count7.js:17-28 | the three branches on `msd` against `target` give exactly the number of matches in 1..n |
| DigitCount.Count | count7.js:1-29 | `count` returns 0 below `target`; for a digit `target` in 1..9 it returns how many of 1..n contain that digit |
| DigitCount.RoundNumber | count7.js:20-28 | at a round number `msd * 10^d`, the count is given by the table alone |
| DigitCount.PrintedValue | count7.js:31-36 | each printed pair is a true count: 1, 2, 8, 17, 19 and 271 integers containing 7 in 1..7, 1..20, 1..70, 1..80, 1..100 and 1..1000 |
| DigitCount.PrintedCall | count7.js:31-36 | the printed calls of `count(7, n)` return those values |

## Left out

- The RxJS wiring (`BehaviorSubject`, `scan`, `switchMap`, `take`, `filter`) is replaced by one sequential `Visit`.
- The source also emits intermediate views. Some are built from stale numbers (the all-zero numbers of the unseeded field), because `initView` keeps its earlier inner subscriptions. The model keeps only the last view of each visit.
- Immutable.js lists are modelled as Dafny sequences. The view's `null` cells are `Hidden`, and its `'mine'` cells are `Mine`.
- `Math.random` is injected as the `draws` parameter. When the draws cannot supply `size` admissible values, the source loops forever. The model requires enough draws instead.
- Sampling.CreateRandomArray: each draw is an integer in `[0, upper - lower)`. Floating-point rounding of `(upper - lower) * Math.random()` is not modelled.
- Game.Minesweeper.constructor: the source accepts any sizes. The model requires `0 < nCols`, `0 < nRows` and `nMines < nCols * nRows`, and `nMines` is a `nat`:
  - with no columns, `minefields.get(0)` fails;
  - with `nMines >= nCols * nRows`, the first visit never returns;
  - a negative `nMines` is not modelled. The source accepts it: the sampling loop's test fails at once, so the field has no mines, and `passed` can never hold.
- Game.Minesweeper.Visit: clicks outside the board are excluded, and none of the source's behaviour for them is modelled. For a column at or past `nCols` the source throws a TypeError; for a row at or past `nRows` in an existing column it grows that column; a negative index counts back from the end of the list, so the far edge is marked and expanded instead, and on a first visit the excluded index is then never drawn, so that cell can be a mine and the first click can fail.
- JavaScript numbers are modelled as unbounded integers. This is exact while every quantity stays an integer below 2^53 (for `count`, `n < 10^15`).
- `Math.log10` and `Math.pow` are modelled as the exact integers `Log10` and `Pow10`. Floating-point rounding of `Math.log10` near powers of ten is not modelled. Where it rounds up (for example `n = 10^15 - 1`, whose logarithm rounds to 15), the source gets `msd = 0` and recurses on `n` itself forever; the termination of `DigitCount.Count` holds for the model only.
- DigitCount.Count: correctness is stated for `target` in 1..9 only; for `target >= 10` the source's result has no digit meaning and only the `n < target` case is stated.
- DigitCount.Count: `target <= 0` with `n >= target` is excluded, because there the source throws a RangeError: the recursion reaches `Math.log10` of 0 or of a negative number, and `Array` rejects the resulting length. For `n < target` every target is accepted, and the result is 0. Non-integer `n` is not modelled.
- The `console.log` output of count7.js:31-36 is modelled as the values the calls return (`DigitCount.PrintedCall`), not as printing.
- Game.CrowdedFirstVisit and Game.MineEndsGame state their tests' games for every board size with one safe cell, not only 6×6 and 2×2.
- The test at models/minesweeper.test.ts:85-125 retries random 9×9 boards until the centre shows 0. Its property is stated for every closed grid (`Game.ZeroShowsNeighbours`), not as the retry loop.
- The page `pages/index.js` (the user interface) is not part of this model.
