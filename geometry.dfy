/** Board geometry shared by every stage of the Minesweeper engine: the shape of a
    column-major grid, the linear encoding `col * nRows + row` used to sample mine
    positions, the 3×3 block around a cell, and counting the `true` cells of a grid. */
module Geometry {

  /** A board cell `(col, row)`. */
  type Coord = (int, int)

  /** `g` has `nCols` columns of `nRows` cells each, indexed `g[col][row]`. */
  predicate IsGrid<T>(g: seq<seq<T>>, nCols: int, nRows: int) {
    |g| == nCols && forall c :: 0 <= c < nCols ==> |g[c]| == nRows
  }

  predicate InBounds(nCols: int, nRows: int, z: Coord) {
    0 <= z.0 < nCols && 0 <= z.1 < nRows
  }

  function Get<T>(g: seq<seq<T>>, nCols: int, nRows: int, z: Coord): T
    requires IsGrid(g, nCols, nRows) && InBounds(nCols, nRows, z)
  {
    g[z.0][z.1]
  }

  /** The grid of the given shape with every cell set to `v`. */
  function Filled<T>(nCols: nat, nRows: nat, v: T): (g: seq<seq<T>>)
    ensures IsGrid(g, nCols, nRows)
    ensures forall c, r :: 0 <= c < nCols && 0 <= r < nRows ==> g[c][r] == v
  {
    seq(nCols, _ => seq(nRows, _ => v))
  }

  /** `g` with the cell `z` set to `v`. */
  function Set<T>(g: seq<seq<T>>, nCols: int, nRows: int, z: Coord, v: T): (g': seq<seq<T>>)
    requires IsGrid(g, nCols, nRows) && InBounds(nCols, nRows, z)
    ensures IsGrid(g', nCols, nRows)
    ensures forall w :: InBounds(nCols, nRows, w) ==> Get(g', nCols, nRows, w) == if w == z then v else Get(g, nCols, nRows, w)
  {
    g[z.0 := g[z.0][z.1 := v]]
  }

  // ----- Linear encoding -----

  /** The index `col * nRows + row` under which the sampler draws a cell; a cell of column
      `col` lands in that column's run of `nRows` indices. */
  function ToLinear(nRows: int, z: Coord): (i: int)
    ensures 0 <= z.1 < nRows ==> z.0 * nRows <= i < (z.0 + 1) * nRows
  {
    z.0 * nRows + z.1
  }

  /** The cell of an index: column `floor(i / nRows)` and row `i % nRows`; the row is a valid
      row and the cell encodes back to `i`. */
  function FromLinear(nRows: int, i: int): (z: Coord)
    requires 0 < nRows
    ensures 0 <= z.1 < nRows && z.0 * nRows + z.1 == i
  {
    (i / nRows, i % nRows)
  }

  /** A multiple of a positive number that lies strictly between its negation and itself is zero. */
  lemma SmallMultipleIsZero(k: int, n: int)
    requires 0 < n && -n < k * n < n
    ensures k == 0
  {
  }

  /** Multiplying by a non-negative number keeps the order. */
  lemma MulMonotone(a: int, b: int, n: int)
    requires a <= b && 0 <= n
    ensures a * n <= b * n
  {
    assert b * n - a * n == (b - a) * n;
  }

  /** Multiplication distributes over a difference. */
  lemma MulDiff(a: int, b: int, n: int)
    ensures (a - b) * n == a * n - b * n
  {
  }

  /** Encoding an in-bounds cell gives an index in `[0, nCols*nRows)` that decodes back to the cell. */
  lemma LinearRoundTrip(nCols: int, nRows: int, z: Coord)
    requires InBounds(nCols, nRows, z)
    ensures 0 <= ToLinear(nRows, z) < nCols * nRows
    ensures FromLinear(nRows, ToLinear(nRows, z)) == z
  {
    var i := ToLinear(nRows, z);
    var q, m := i / nRows, i % nRows;
    assert q * nRows + m == z.0 * nRows + z.1;
    MulDiff(q, z.0, nRows);
    SmallMultipleIsZero(q - z.0, nRows);
    MulMonotone(z.0 + 1, nCols, nRows);
    MulDiff(z.0 + 1, 1, nRows);
  }

  /** Every index in `[0, nCols*nRows)` decodes to an in-bounds cell that encodes back to it. */
  lemma LinearInverse(nCols: int, nRows: int, i: int)
    requires 0 < nRows && 0 <= i < nCols * nRows
    ensures InBounds(nCols, nRows, FromLinear(nRows, i))
    ensures ToLinear(nRows, FromLinear(nRows, i)) == i
  {
    var q := i / nRows;
    assert q * nRows + i % nRows == i;
  }

  /** The encoding is one-to-one on in-bounds cells. */
  lemma LinearInjective(nCols: int, nRows: int, z: Coord, w: Coord)
    requires InBounds(nCols, nRows, z) && InBounds(nCols, nRows, w)
    requires ToLinear(nRows, z) == ToLinear(nRows, w)
    ensures z == w
  {
    LinearRoundTrip(nCols, nRows, z);
    LinearRoundTrip(nCols, nRows, w);
  }

  /** The cell of `g` at linear index `i`. */
  function At<T>(g: seq<seq<T>>, nCols: int, nRows: int, i: int): T
    requires IsGrid(g, nCols, nRows) && 0 < nRows && 0 <= i < nCols * nRows
  {
    LinearInverse(nCols, nRows, i);
    Get(g, nCols, nRows, FromLinear(nRows, i))
  }

  /** Reading a cell through its linear index gives the cell itself. */
  lemma AtToLinear<T>(g: seq<seq<T>>, nCols: int, nRows: int, z: Coord)
    requires IsGrid(g, nCols, nRows) && InBounds(nCols, nRows, z)
    ensures 0 <= ToLinear(nRows, z) < nCols * nRows
    ensures At(g, nCols, nRows, ToLinear(nRows, z)) == Get(g, nCols, nRows, z)
  {
    LinearRoundTrip(nCols, nRows, z);
  }

  /** Cell `z` comes before `(col, row)` in the column-by-column scan. */
  predicate Before(z: Coord, col: int, row: int) {
    z.0 < col || (z.0 == col && z.1 < row)
  }

  // ----- The 3×3 block -----

  /** `w` lies in the 3×3 block centred on `z` (which includes `z` itself). */
  predicate Near(z: Coord, w: Coord) {
    -1 <= w.0 - z.0 <= 1 && -1 <= w.1 - z.1 <= 1
  }

  /** The nine cells of the 3×3 block around `z`, in the order the source enumerates the
      column offsets -1, 0, 1 and, within each, the row offsets -1, 0, 1. */
  function Block(z: Coord): (b: seq<Coord>)
    ensures |b| == 9 && b[4] == z
    ensures forall w :: w in b <==> Near(z, w)
    ensures forall j, k :: 0 <= j < k < |b| ==> b[j] != b[k]
  {
    var (c, r) := z;
    [(c - 1, r - 1), (c - 1, r), (c - 1, r + 1),
     (c, r - 1), (c, r), (c, r + 1),
     (c + 1, r - 1), (c + 1, r), (c + 1, r + 1)]
  }

  // ----- Counting the true cells of a grid -----

  /** The number of `true` cells among linear indices `0 .. k-1`, counted in the order the
      nested column/row loops of the source visit them. */
  function CountTrue(g: seq<seq<bool>>, nCols: int, nRows: int, k: int): (n: nat)
    requires IsGrid(g, nCols, nRows) && 0 < nRows && 0 <= k <= nCols * nRows
    ensures n <= k
  {
    if k == 0 then 0
    else CountTrue(g, nCols, nRows, k - 1) + (if At(g, nCols, nRows, k - 1) then 1 else 0)
  }

  /** The linear indices below `k` whose cell is `true`. */
  ghost function TrueIndices(g: seq<seq<bool>>, nCols: int, nRows: int, k: int): set<int>
    requires IsGrid(g, nCols, nRows) && 0 < nRows && 0 <= k <= nCols * nRows
  {
    set i | 0 <= i < k && At(g, nCols, nRows, i)
  }

  /** The running count equals the size of the set it counts. */
  lemma {:induction false} CountTrueIsCard(g: seq<seq<bool>>, nCols: int, nRows: int, k: int)
    requires IsGrid(g, nCols, nRows) && 0 < nRows && 0 <= k <= nCols * nRows
    ensures CountTrue(g, nCols, nRows, k) == |TrueIndices(g, nCols, nRows, k)|
  {
    if k == 0 {
      assert TrueIndices(g, nCols, nRows, k) == {};
    } else {
      CountTrueIsCard(g, nCols, nRows, k - 1);
      var prev := TrueIndices(g, nCols, nRows, k - 1);
      if At(g, nCols, nRows, k - 1) {
        assert TrueIndices(g, nCols, nRows, k) == prev + {k - 1};
      } else {
        assert TrueIndices(g, nCols, nRows, k) == prev;
      }
    }
  }

  /** The count is at most the number of cells, and a grid that is `false` everywhere counts zero. */
  lemma {:induction false} CountTrueOfFalse(nCols: nat, nRows: nat, k: int)
    requires 0 < nRows && 0 <= k <= nCols * nRows
    ensures CountTrue(Filled(nCols, nRows, false), nCols, nRows, k) == 0
  {
    if k > 0 {
      CountTrueOfFalse(nCols, nRows, k - 1);
      LinearInverse(nCols, nRows, k - 1);
    }
  }

  /** Two grids that are never both `true` at one index count at most one per index between
      them, and exactly one per index when every index is `true` in one of the two. */
  lemma {:induction false} CountTrueDisjoint(a: seq<seq<bool>>, b: seq<seq<bool>>, nCols: int, nRows: int, k: int)
    requires IsGrid(a, nCols, nRows) && IsGrid(b, nCols, nRows) && 0 < nRows && 0 <= k <= nCols * nRows
    requires forall i :: 0 <= i < k ==> !(At(a, nCols, nRows, i) && At(b, nCols, nRows, i))
    ensures CountTrue(a, nCols, nRows, k) + CountTrue(b, nCols, nRows, k) <= k
    ensures CountTrue(a, nCols, nRows, k) + CountTrue(b, nCols, nRows, k) == k <==>
            forall i :: 0 <= i < k ==> At(a, nCols, nRows, i) || At(b, nCols, nRows, i)
  {
    if k > 0 {
      CountTrueDisjoint(a, b, nCols, nRows, k - 1);
    }
  }

  /** The count reaches `k` exactly when every index below `k` is `true`. */
  lemma {:induction false} CountTrueFull(g: seq<seq<bool>>, nCols: int, nRows: int, k: int)
    requires IsGrid(g, nCols, nRows) && 0 < nRows && 0 <= k <= nCols * nRows
    ensures CountTrue(g, nCols, nRows, k) == k <==> forall i :: 0 <= i < k ==> At(g, nCols, nRows, i)
  {
    if k > 0 {
      CountTrueFull(g, nCols, nRows, k - 1);
    }
  }

  /** If all but one index below `k` are counted and index `j` is `false`, every other index is `true`. */
  lemma {:induction false} CountTrueAllBut(g: seq<seq<bool>>, nCols: int, nRows: int, k: int, j: int)
    requires IsGrid(g, nCols, nRows) && 0 < nRows && 0 <= j < k <= nCols * nRows
    requires !At(g, nCols, nRows, j) && CountTrue(g, nCols, nRows, k) == k - 1
    ensures forall i :: 0 <= i < k && i != j ==> At(g, nCols, nRows, i)
  {
    CountTrueFull(g, nCols, nRows, k - 1);
    if j < k - 1 {
      CountTrueAllBut(g, nCols, nRows, k - 1, j);
    }
  }
}

/** Cardinality facts about finite sets used by the counting arguments. */
module Sets {

  /** A sequence without repetitions has as many distinct elements as it has positions. */
  lemma {:induction false} DistinctCard<T>(s: seq<T>)
    requires forall j, k :: 0 <= j < k < |s| ==> s[j] != s[k]
    ensures |set x | x in s| == |s|
  {
    if s != [] {
      var last := s[|s| - 1];
      var init := s[..|s| - 1];
      DistinctCard(init);
      assert last !in init;
      assert (set x | x in s) == (set x | x in init) + {last};
    }
  }

  /** A set holding three different elements has at least three elements. */
  lemma ThreeElements<T>(s: set<T>, a: T, b: T, c: T)
    requires a in s && b in s && c in s && a != b && b != c && a != c
    ensures |s| >= 3
  {
    var ab := {a} + {b};
    assert |ab| == 2;
    assert c !in ab;
    var abc := ab + {c};
    assert |abc| == 3;
    assert s == (s - abc) + abc;
    assert (s - abc) * abc == {};
  }
}
