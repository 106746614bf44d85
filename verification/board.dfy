/**
 * The n-by-n sliding-puzzle board: an immutable grid of tiles, `0` being the blank.
 * The grid is stored row-major in one sequence; cell `(row, col)` lives at index
 * `row * n + col`.  Every operation of the board returns a new value, so nothing a
 * caller does to a board it got back is ever visible in the board it came from.
 */
module Boards {
  import opened Wrappers
  import opened Arith

  /** A cell of the grid as `(row, col)`. */
  type Pos = (nat, nat)

  datatype Board = Board(n: nat, cells: seq<int>)

  /** The grid holds exactly `n * n` cells. */
  predicate Wf(b: Board)
  {
    |b.cells| == b.n * b.n
  }

  predicate InGrid(n: nat, p: Pos)
  {
    p.0 < n && p.1 < n
  }

  /** No value occurs twice. */
  predicate Distinct(s: seq<int>)
  {
    forall i, j :: 0 <= i < j < |s| ==> s[i] != s[j]
  }

  /** The tiles are `0 .. n*n-1`, each exactly once. */
  predicate IsPermutation(b: Board)
  {
    && Wf(b)
    && (forall k :: 0 <= k < |b.cells| ==> 0 <= b.cells[k] < |b.cells|)
    && Distinct(b.cells)
  }

  /** Row-major index of a cell; the goal tile of cell `p` is `Flat(n, p) + 1`. */
  function Flat(n: nat, p: Pos): (k: nat)
    requires InGrid(n, p)
    ensures k < n * n
    ensures k / n == p.0 && k % n == p.1
  {
    MulLeftMono(p.0, n - 1, n);
    DivModUnique(p.0 * n + p.1, n, p.0, p.1);
    p.0 * n + p.1
  }

  /** The cell a row-major index denotes. */
  function Unflat(n: nat, k: nat): (p: Pos)
    requires k < n * n
    ensures InGrid(n, p) && Flat(n, p) == k
  {
    RowBound(n, k);
    (k / n, k % n)
  }

  lemma RowBound(n: nat, k: nat)
    requires k < n * n
    ensures k / n < n
  {
    if k / n >= n {
      MulLeftMono(n, k / n, n);
    }
  }

  function Cell(b: Board, p: Pos): int
    requires Wf(b) && InGrid(b.n, p)
  {
    b.cells[Flat(b.n, p)]
  }

  /**
   * Building a board copies the caller's `tiles[row][col]` cell by cell; a row
   * shorter than the number of rows makes the copy index out of range.
   */
  function FromTiles(tiles: seq<seq<int>>): (r: Option<Board>)
    ensures r.Some? <==> forall i :: 0 <= i < |tiles| ==> |tiles[i]| >= |tiles|
    ensures r.Some? ==> Wf(r.value) && r.value.n == |tiles|
    ensures r.Some? ==> forall i, j :: 0 <= i < |tiles| && 0 <= j < |tiles| ==>
                          Cell(r.value, (i, j)) == tiles[i][j]
  {
    var n := |tiles|;
    if forall i :: 0 <= i < n ==> |tiles[i]| >= n then
      Some(Board(n, seq(n * n, k requires 0 <= k < n * n => var p := Unflat(n, k); tiles[p.0][p.1])))
    else
      None
  }

  /** Structural equality; `None` stands for a `null` argument. */
  function Equals(b: Board, y: Option<Board>): (r: bool)
    ensures r <==> y == Some(b)
  {
    match y
    case None => false
    case Some(c) =>
      var same := b.n == c.n && |b.cells| == |c.cells| && forall k :: 0 <= k < |b.cells| ==> b.cells[k] == c.cells[k];
      assert same ==> b.cells == c.cells;
      same
  }

  /** Exchanges two cells of a grid. */
  function Swap(s: seq<int>, i: nat, j: nat): (r: seq<int>)
    requires i < |s| && j < |s|
    ensures |r| == |s| && r[i] == s[j] && r[j] == s[i]
    ensures forall k :: 0 <= k < |s| && k != i && k != j ==> r[k] == s[k]
    ensures multiset(r) == multiset(s)
  {
    s[i := s[j]][j := s[i]]
  }

  // ---------------------------------------------------------------- heuristics

  /** How many of the first `k` cells do not hold their goal tile `index + 1`. */
  function CountOff(s: seq<int>, k: nat): (c: nat)
    requires k <= |s|
    ensures c <= k
  {
    if k == 0 then 0 else CountOff(s, k - 1) + (if s[k - 1] != k then 1 else 0)
  }

  /**
   * The Hamming count as the source computes it: every cell but the last one
   * (whose goal is the blank) that does not hold its goal tile.
   */
  function Hamming(b: Board): nat
    requires Wf(b)
  {
    if |b.cells| == 0 then 0 else CountOff(b.cells, |b.cells| - 1)
  }

  /** How many of the first `k` cells hold a tile other than the blank and their goal tile. */
  function CountMisplaced(s: seq<int>, k: nat): (c: nat)
    requires k <= |s|
    ensures c <= k
  {
    if k == 0 then 0 else CountMisplaced(s, k - 1) + (if s[k - 1] != 0 && s[k - 1] != k then 1 else 0)
  }

  /** The Hamming distance as defined for the puzzle: tiles, blank excluded, off their goal cell. */
  function Misplaced(b: Board): nat
    requires Wf(b)
  {
    CountMisplaced(b.cells, |b.cells|)
  }

  /** The goal cell of tile `v`, by Java's truncating division, is `p`. */
  predicate InPlace(n: nat, v: int, p: Pos)
    requires n > 0
  {
    JavaDiv(v - 1, n) == p.0 && JavaRem(v - 1, n) == p.1
  }

  /** City-block distance of tile `v` standing at `p` from its goal cell; `0` for the blank. */
  function TileDist(n: nat, v: int, p: Pos): (d: int)
    requires n > 0
    ensures d >= 0
    ensures d == 0 <==> v == 0 || InPlace(n, v, p)
  {
    if v == 0 then 0 else Abs(JavaDiv(v - 1, n) - p.0) + Abs(JavaRem(v - 1, n) - p.1)
  }

  /** Distance of the tile at row-major index `k`. */
  function DistAt(n: nat, s: seq<int>, k: nat): int
    requires n > 0 && k < |s|
  {
    TileDist(n, s[k], (k / n, k % n))
  }

  /** Sum of the distances of the tiles in the first `k` cells. */
  function SumDist(n: nat, s: seq<int>, k: nat): (d: int)
    requires n > 0 && k <= |s|
    ensures d >= 0
  {
    if k == 0 then 0 else SumDist(n, s, k - 1) + DistAt(n, s, k - 1)
  }

  /** The Manhattan heuristic: the sum over non-blank tiles of their distance from their goal cell. */
  function Manhattan(b: Board): (d: int)
    requires Wf(b)
    ensures d >= 0
  {
    if b.n == 0 then 0 else SumDist(b.n, b.cells, |b.cells|)
  }

  /** Every non-blank tile is at its goal cell: tile `v` at row-major index `v - 1`. */
  predicate IsGoal(b: Board)
    requires Wf(b)
  {
    forall k :: 0 <= k < |b.cells| ==> b.cells[k] == 0 || b.cells[k] == k + 1
  }

  /**
   * For a non-blank tile, the source's goal-cell test by truncating division
   * holds exactly when the tile is the goal tile of the cell.
   */
  lemma InPlaceIff(n: nat, v: int, p: Pos)
    requires InGrid(n, p) && v != 0
    ensures InPlace(n, v, p) <==> v == Flat(n, p) + 1
  {
    var k := Flat(n, p);
    if v - 1 >= 0 {
      JavaDivNonNegative(v - 1, n);
      if v == k + 1 {
        assert JavaDiv(v - 1, n) == p.0 && JavaRem(v - 1, n) == p.1;
      }
      if InPlace(n, v, p) {
        assert v - 1 == n * ((v - 1) / n) + (v - 1) % n;
      }
    } else {
      if JavaDiv(v - 1, n) == p.0 {
        assert JavaDiv(v - 1, n) == 0;
        assert JavaRem(v - 1, n) == v - 1;
      }
    }
  }

  // ---------------------------------------------------------------- neighbours

  /** Two cells share a side. */
  predicate Adjacent(x: Pos, y: Pos)
  {
    || (x.0 == y.0 && (x.1 + 1 == y.1 || y.1 + 1 == x.1))
    || (x.1 == y.1 && (x.0 + 1 == y.0 || y.0 + 1 == x.0))
  }

  /** Row `row` holds no blank in columns `from .. n-1`. */
  predicate NoBlankInRow(b: Board, row: nat, from: nat)
    requires Wf(b) && row < b.n
  {
    forall j :: from <= j < b.n ==> Cell(b, (row, j)) != 0
  }

  /** The first column at or after `col` holding a blank in row `row`. */
  function BlankInRow(b: Board, row: nat, col: nat): (r: Option<nat>)
    requires Wf(b) && row < b.n && col <= b.n
    ensures r.None? ==> NoBlankInRow(b, row, col)
    ensures r.Some? ==> col <= r.value < b.n && Cell(b, (row, r.value)) == 0
    ensures r.Some? ==> forall j :: col <= j < r.value ==> Cell(b, (row, j)) != 0
    decreases b.n - col
  {
    if col == b.n then None
    else if Cell(b, (row, col)) == 0 then Some(col)
    else BlankInRow(b, row, col + 1)
  }

  /**
   * Where the blank search stops: the last row holding a blank, and the first
   * blank of that row (the inner scan breaks, the outer one goes on).
   */
  predicate IsFoundBlank(b: Board, z: Pos)
    requires Wf(b)
  {
    && InGrid(b.n, z)
    && Cell(b, z) == 0
    && (forall j :: 0 <= j < z.1 ==> Cell(b, (z.0, j)) != 0)
    && (forall i :: z.0 < i < b.n ==> NoBlankInRow(b, i, 0))
  }

  function ScanRows(b: Board, row: nat, last: Option<Pos>): (r: Option<Pos>)
    requires Wf(b) && row <= b.n
    requires last.None? ==> forall i :: 0 <= i < row ==> NoBlankInRow(b, i, 0)
    requires last.Some? ==> last.value.0 < row && InGrid(b.n, last.value) && Cell(b, last.value) == 0
    requires last.Some? ==> forall j :: 0 <= j < last.value.1 ==> Cell(b, (last.value.0, j)) != 0
    requires last.Some? ==> forall i :: last.value.0 < i < row ==> NoBlankInRow(b, i, 0)
    ensures r.None? ==> forall i :: 0 <= i < b.n ==> NoBlankInRow(b, i, 0)
    ensures r.Some? ==> IsFoundBlank(b, r.value)
    decreases b.n - row
  {
    if row == b.n then last
    else
      match BlankInRow(b, row, 0)
      case Some(col) => ScanRows(b, row + 1, Some((row, col)))
      case None => ScanRows(b, row + 1, last)
  }

  /** The blank search of `neighbors`; `None` when the grid has no blank at all. */
  function FindBlank(b: Board): (r: Option<Pos>)
    requires Wf(b)
    ensures r.None? <==> 0 !in b.cells
    ensures r.Some? ==> IsFoundBlank(b, r.value)
  {
    var r := ScanRows(b, 0, None);
    if r.None? then
      NoBlankRowMeansNoBlank(b);
      r
    else
      r
  }

  lemma NoBlankRowMeansNoBlank(b: Board)
    requires Wf(b) && forall i :: 0 <= i < b.n ==> NoBlankInRow(b, i, 0)
    ensures 0 !in b.cells
  {
    forall k | 0 <= k < |b.cells|
      ensures b.cells[k] != 0
    {
      var p := Unflat(b.n, k);
      assert NoBlankInRow(b, p.0, 0);
      assert Cell(b, (p.0, p.1)) != 0;
    }
  }

  /** The rank of the direction from `z` to `q` in the order top (0), bottom (1), left (2), right (3). */
  function Dir(z: Pos, q: Pos): nat
  {
    if q.0 < z.0 then 0 else if q.0 > z.0 then 1 else if q.1 < z.1 then 2 else 3
  }

  /** The cells the blank may slide to, in the order top, bottom, left, right. */
  function Targets(n: nat, z: Pos): (t: seq<Pos>)
    requires InGrid(n, z)
    ensures |t| <= 4 && (n >= 2 <==> |t| >= 2) && (n < 2 ==> t == [])
    ensures forall i :: 0 <= i < |t| ==> InGrid(n, t[i]) && Adjacent(z, t[i])
    ensures forall q :: InGrid(n, q) && Adjacent(z, q) ==> q in t
    ensures forall i, j :: 0 <= i < j < |t| ==> t[i] != t[j]
  {
    var (row, col) := z;
    var top := if row >= 1 then [(row - 1, col)] else [];
    var bottom := if row + 1 <= n - 1 then top + [(row + 1, col)] else top;
    var left := if col >= 1 then bottom + [(row, col - 1)] else bottom;
    if col + 1 <= n - 1 then left + [(row, col + 1)] else left
  }

  /** A copy of `b` with the blank at `z` exchanged with the tile at `t`. */
  function Slide(b: Board, z: Pos, t: Pos): (c: Board)
    requires Wf(b) && InGrid(b.n, z) && InGrid(b.n, t)
    ensures Wf(c) && c.n == b.n
  {
    Board(b.n, Swap(b.cells, Flat(b.n, t), Flat(b.n, z)))
  }

  /** What `neighbors` needs of the receiver: a blank to slide, unless the grid is empty. */
  predicate CanSlide(b: Board)
  {
    Wf(b) && (b.n == 0 || 0 in b.cells)
  }

  /** One board per direction the blank can slide, in the order top, bottom, left, right. */
  function Neighbors(b: Board): (r: seq<Board>)
    requires CanSlide(b)
    ensures |r| <= 4 && (b.n >= 2 <==> |r| >= 2) && (b.n < 2 ==> r == [])
    ensures forall i :: 0 <= i < |r| ==> Wf(r[i]) && r[i].n == b.n
  {
    if b.n == 0 then []
    else
      var z := FindBlank(b).value;
      var t := Targets(b.n, z);
      seq(|t|, i requires 0 <= i < |t| => Slide(b, z, t[i]))
  }

  /**
   * `c` is `b` with a blank exchanged with a tile on an orthogonally adjacent
   * cell: the reference notion of a single move of the puzzle.
   */
  ghost predicate OneSlideApart(b: Board, c: Board)
  {
    Wf(b) && exists z: Pos, t: Pos ::
      InGrid(b.n, z) && InGrid(b.n, t) && Adjacent(z, t) && Cell(b, z) == 0 && c == Slide(b, z, t)
  }

  /** `c` is one of the boards `neighbors` returns for `b`. */
  predicate IsNeighbor(b: Board, c: Board)
  {
    CanSlide(b) && c in Neighbors(b)
  }

  // ---------------------------------------------------------------- twin

  /** The scan of `twin`: the first cell from `from` on holding a tile, or the last cell. */
  function ScanNonBlank(s: seq<int>, from: nat): (k: nat)
    requires from < |s|
    ensures from <= k < |s|
    ensures s[k] != 0 || k == |s| - 1
    ensures forall j :: from <= j < k ==> s[j] == 0
    decreases |s| - from
  {
    if s[from] != 0 || from == |s| - 1 then from else ScanNonBlank(s, from + 1)
  }

  /** What `twin` needs: a tile among the first `n*n - 1` cells, so that the second scan starts inside the grid. */
  predicate TwinDefined(b: Board)
  {
    Wf(b) && exists k :: 0 <= k < |b.cells| - 1 && b.cells[k] != 0
  }

  /**
   * The two row-major indices `twin` exchanges: the first tile, then the next
   * cell after it holding a tile (or the last cell when none does).
   */
  function TwinPair(b: Board): (pq: (nat, nat))
    requires TwinDefined(b)
    ensures pq.0 < pq.1 < |b.cells|
    ensures b.cells[pq.0] != 0 && forall k :: 0 <= k < pq.0 ==> b.cells[k] == 0
    ensures forall k :: pq.0 < k < pq.1 ==> b.cells[k] == 0
    ensures b.cells[pq.1] != 0 || pq.1 == |b.cells| - 1
  {
    var p := ScanNonBlank(b.cells, 0);
    var w :| 0 <= w < |b.cells| - 1 && b.cells[w] != 0;
    assert p <= w;
    (p, ScanNonBlank(b.cells, p + 1))
  }

  /** The board with the two cells of `TwinPair` exchanged. */
  function Twin(b: Board): (t: Board)
    requires TwinDefined(b)
    ensures Wf(t) && t.n == b.n
  {
    var (p, q) := TwinPair(b);
    Board(b.n, Swap(b.cells, p, q))
  }
}
