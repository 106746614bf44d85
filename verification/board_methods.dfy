/**
 * The board's scans as the source writes them: nested row/column loops over the
 * grid, with the source's `break`, `continue` and early `return`, each proved to
 * compute the reference definition of `Boards`.  `start` is the row-major index
 * of the first cell of row `i`, so cell `(i, j)` is `start + j` and its goal tile
 * (the source's `getIndex(i, j)`) is `start + j + 1`.
 */
module BoardMethods {
  import opened Arith
  import opened Boards
  import opened BoardLemmas

  /** Moving to the next row advances the row-major index by `n`, and stays inside the grid. */
  lemma NextRow(n: nat, i: nat)
    requires i < n
    ensures (i + 1) * n == i * n + n <= n * n
  {
    MulLeftMono(i + 1, n, n);
  }

  /** Only the last cell of the last row has goal index `n * n`. */
  lemma LastCell(n: nat, i: nat, j: nat)
    requires i < n && j < n && i * n + j + 1 == n * n
    ensures i == n - 1
  {
    if i < n - 1 {
      MulLeftMono(i + 1, n - 1, n);
    }
  }

  /**
   * The Hamming loop: it stops at the cell whose goal index is `n * n` (the last
   * one) and counts every other cell not holding its goal tile.
   */
  method ComputeHamming(b: Board) returns (ham: int)
    requires Wf(b)
    ensures ham == Hamming(b)
    ensures IsPermutation(b) ==> ham == Misplaced(b)
    ensures IsPermutation(b) ==> (ham == 0 <==> IsGoal(b))
  {
    var n := b.n;
    var size := n * n;
    ham := 0;
    var i, start := 0, 0;
    ghost var stopped := false;
    while i < n
      invariant 0 <= i <= n && start == i * n
      invariant !stopped ==> (start < size || size == 0) && ham == CountOff(b.cells, start)
      invariant stopped ==> i == n && size > 0 && ham == CountOff(b.cells, size - 1)
    {
      NextRow(n, i);
      var j := 0;
      while j < n
        invariant 0 <= j <= n
        invariant !stopped ==> start + j < size && ham == CountOff(b.cells, start + j)
        invariant !stopped
      {
        if start + j + 1 == size {
          LastCell(n, i, j);
          stopped := true;
          break;
        }
        if b.cells[start + j] != start + j + 1 {
          ham := ham + 1;
        }
        j := j + 1;
      }
      i, start := i + 1, start + n;
    }
    HammingOfPermutation(b);
  }

  /** Adding cell `(i, j)` to the distance sum adds the distance of its tile. */
  lemma SumDistStep(b: Board, i: nat, j: nat)
    requires Wf(b) && InGrid(b.n, (i, j))
    ensures SumDist(b.n, b.cells, Flat(b.n, (i, j)) + 1)
         == SumDist(b.n, b.cells, Flat(b.n, (i, j))) + TileDist(b.n, Cell(b, (i, j)), (i, j))
  {
  }

  /**
   * The Manhattan loop: blanks are skipped, and every tile adds its row and
   * column distance from the cell `((v-1)/n, (v-1)%n)` of Java's truncating
   * division.
   */
  method ComputeManhattan(b: Board) returns (manh: int)
    requires Wf(b)
    ensures manh == Manhattan(b)
    ensures manh >= 0 && (manh == 0 <==> IsGoal(b))
  {
    var n := b.n;
    manh := 0;
    var i, start := 0, 0;
    while i < n
      invariant 0 <= i <= n && start == i * n
      invariant manh == (if n == 0 then 0 else SumDist(n, b.cells, start))
    {
      NextRow(n, i);
      var j := 0;
      while j < n
        invariant 0 <= j <= n
        invariant manh == SumDist(n, b.cells, start + j)
      {
        assert Flat(n, (i, j)) == start + j;
        SumDistStep(b, i, j);
        var v := Cell(b, (i, j));
        if v == 0 {
          j := j + 1;
          continue;
        }
        var row := JavaDiv(v - 1, n);
        var col := JavaRem(v - 1, n);
        manh := manh + Abs(row - i) + Abs(col - j);
        j := j + 1;
      }
      i, start := i + 1, start + n;
    }
    ManhattanZeroIffGoal(b);
  }

  /** The goal loop: the first tile whose goal cell is not its own cell makes it return `false`. */
  method CheckGoal(b: Board) returns (goal: bool)
    requires Wf(b)
    ensures goal == IsGoal(b)
    ensures goal <==> Manhattan(b) == 0
  {
    var n := b.n;
    var i, start := 0, 0;
    while i < n
      invariant 0 <= i <= n && start == i * n
      invariant forall k :: 0 <= k < start ==> b.cells[k] == 0 || b.cells[k] == k + 1
    {
      NextRow(n, i);
      var j := 0;
      while j < n
        invariant 0 <= j <= n
        invariant forall k :: 0 <= k < start + j ==> b.cells[k] == 0 || b.cells[k] == k + 1
      {
        assert Flat(n, (i, j)) == start + j;
        var v := Cell(b, (i, j));
        if v == 0 {
          j := j + 1;
          continue;
        }
        var row := JavaDiv(v - 1, n);
        var col := JavaRem(v - 1, n);
        InPlaceIff(n, v, (i, j));
        if i != row || j != col {
          assert b.cells[start + j] != start + j + 1;
          ManhattanZeroIffGoal(b);
          return false;
        }
        j := j + 1;
      }
      i, start := i + 1, start + n;
    }
    ManhattanZeroIffGoal(b);
    return true;
  }
}
