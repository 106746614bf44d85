/**
 * Properties of the board: the heuristics against the goal test, the neighbour
 * relation against single moves of the blank, and the twin against a single
 * transposition of two tiles.
 */
module BoardLemmas {
  import opened Wrappers
  import opened Arith
  import opened Boards

  // ---------------------------------------------------------------- permutations

  /** Distinct values taken from `0 .. m-1` number at most `m`. */
  lemma {:induction false} DistinctBound(s: seq<int>, m: nat)
    requires Distinct(s) && forall k :: 0 <= k < |s| ==> 0 <= s[k] < m
    ensures |s| <= m
  {
    if m == 0 {
    } else if m - 1 in s {
      var i :| 0 <= i < |s| && s[i] == m - 1;
      var t := s[..i] + s[i + 1..];
      forall k | 0 <= k < |t|
        ensures 0 <= t[k] < m - 1
      {
        var k' := if k < i then k else k + 1;
        assert t[k] == s[k'] && k' != i;
        if k' < i { assert s[k'] != s[i]; } else { assert s[i] != s[k']; }
      }
      forall x, y | 0 <= x < y < |t|
        ensures t[x] != t[y]
      {
        var x', y' := if x < i then x else x + 1, if y < i then y else y + 1;
        assert t[x] == s[x'] && t[y] == s[y'] && x' < y';
      }
      DistinctBound(t, m - 1);
    } else {
      DistinctBound(s, m - 1);
    }
  }

  /** Pigeonhole: `N` distinct values taken from `0 .. N-1` are all of them. */
  lemma DistinctRangeIsOnto(s: seq<int>)
    requires Distinct(s) && forall k :: 0 <= k < |s| ==> 0 <= s[k] < |s|
    ensures forall v :: 0 <= v < |s| ==> v in s
  {
    forall v | 0 <= v < |s|
      ensures v in s
    {
      if v !in s {
        // close the gap left by `v`: the values then fit in `0 .. N-2`
        var t := seq(|s|, k requires 0 <= k < |s| => if s[k] > v then s[k] - 1 else s[k]);
        forall x, y | 0 <= x < y < |t|
          ensures t[x] != t[y]
        {
          assert s[x] != s[y] && s[x] != v && s[y] != v;
        }
        DistinctBound(t, |s| - 1);
      }
    }
  }

  /** A grid of `N` distinct tiles from `0 .. N-1` holds every one of them; in particular it has a blank. */
  lemma PermutationHasAllTiles(b: Board)
    requires IsPermutation(b)
    ensures forall v :: 0 <= v < |b.cells| ==> v in b.cells
    ensures CanSlide(b) && (b.n > 0 ==> 0 in b.cells)
  {
    assert Distinct(b.cells);
    DistinctRangeIsOnto(b.cells);
    if b.n > 0 {
      MulLeftMono(1, b.n, b.n);
    }
  }

  /** Exchanging two cells keeps the tiles a permutation. */
  lemma SwapKeepsPermutation(b: Board, i: nat, j: nat)
    requires IsPermutation(b) && i < |b.cells| && j < |b.cells|
    ensures IsPermutation(Board(b.n, Swap(b.cells, i, j)))
  {
    var s := b.cells;
    var r := Swap(s, i, j);
    forall x, y | 0 <= x < y < |r|
      ensures r[x] != r[y]
    {
      var x' := if x == i then j else if x == j then i else x;
      var y' := if y == i then j else if y == j then i else y;
      assert r[x] == s[x'] && r[y] == s[y'];
      assert x' != y';
      if x' < y' {
        assert s[x'] != s[y'];
      } else {
        assert s[y'] != s[x'];
      }
    }
  }

  /** In a permutation the blank is the only blank, so the blank search finds it. */
  lemma BlankOfPermutation(b: Board, z: Pos)
    requires IsPermutation(b) && InGrid(b.n, z) && Cell(b, z) == 0
    ensures FindBlank(b) == Some(z)
  {
    PermutationHasAllTiles(b);
    var f := FindBlank(b).value;
    var k, k' := Flat(b.n, z), Flat(b.n, f);
    assert f == (k' / b.n, k' % b.n) == (k / b.n, k % b.n) == z;
  }

  // ---------------------------------------------------------------- heuristics

  /** The goal test by truncating division, cell by cell, is the goal test by tile values. */
  lemma GoalIffAllInPlace(b: Board)
    requires Wf(b) && b.n > 0
    ensures IsGoal(b) <==> forall k :: 0 <= k < |b.cells| ==> DistAt(b.n, b.cells, k) == 0
  {
    forall k | 0 <= k < |b.cells|
      ensures DistAt(b.n, b.cells, k) == 0 <==> b.cells[k] == 0 || b.cells[k] == k + 1
    {
      var p := Unflat(b.n, k);
      if b.cells[k] != 0 {
        InPlaceIff(b.n, b.cells[k], p);
      }
    }
  }

  /** A sum of distances vanishes exactly when each of its terms does. */
  lemma {:induction false} SumDistZero(n: nat, s: seq<int>, k: nat)
    requires n > 0 && k <= |s|
    ensures SumDist(n, s, k) == 0 <==> forall j :: 0 <= j < k ==> DistAt(n, s, j) == 0
  {
    if k > 0 {
      SumDistZero(n, s, k - 1);
    }
  }

  /** The Manhattan heuristic vanishes exactly on goal boards (whatever the tiles). */
  lemma ManhattanZeroIffGoal(b: Board)
    requires Wf(b)
    ensures Manhattan(b) == 0 <==> IsGoal(b)
  {
    if b.n > 0 {
      GoalIffAllInPlace(b);
      SumDistZero(b.n, b.cells, |b.cells|);
    }
  }

  /**
   * Below index `k`, the cells counted by the source's Hamming loop are the
   * misplaced tiles plus the blank, when the blank sits below `k`.
   */
  lemma {:induction false} CountOffSplit(s: seq<int>, z: nat, k: nat)
    requires k <= |s| && z < |s| && s[z] == 0
    requires forall j :: 0 <= j < |s| && j != z ==> s[j] != 0
    ensures CountOff(s, k) == CountMisplaced(s, k) + (if z < k then 1 else 0)
  {
    if k > 0 {
      CountOffSplit(s, z, k - 1);
    }
  }

  /** For a permutation the source's Hamming count is the number of misplaced tiles. */
  lemma HammingIsMisplaced(b: Board)
    requires IsPermutation(b)
    ensures Hamming(b) == Misplaced(b)
  {
    var s := b.cells;
    if |s| > 0 {
      PermutationHasAllTiles(b);
      var z :| 0 <= z < |s| && s[z] == 0;
      forall j | 0 <= j < |s| && j != z
        ensures s[j] != 0
      {
        if j < z { assert s[j] != s[z]; } else { assert s[z] != s[j]; }
      }
      CountOffSplit(s, z, |s| - 1);
      CountOffSplit(s, z, |s|);
    }
  }

  /** For a permutation, a zero Hamming count means the goal and vice versa. */
  lemma HammingZeroIffGoal(b: Board)
    requires IsPermutation(b)
    ensures Hamming(b) == 0 <==> IsGoal(b)
  {
    HammingIsMisplaced(b);
    MisplacedZero(b.cells, |b.cells|);
  }

  /** For a permutation the Hamming count is the misplaced count, and it is zero exactly at the goal. */
  lemma HammingOfPermutation(b: Board)
    ensures IsPermutation(b) ==> Hamming(b) == Misplaced(b) && (Hamming(b) == 0 <==> IsGoal(b))
  {
    if IsPermutation(b) {
      HammingIsMisplaced(b);
      HammingZeroIffGoal(b);
    }
  }

  lemma {:induction false} MisplacedZero(s: seq<int>, k: nat)
    requires k <= |s|
    ensures CountMisplaced(s, k) == 0 <==> forall j :: 0 <= j < k ==> s[j] == 0 || s[j] == j + 1
  {
    if k > 0 {
      MisplacedZero(s, k - 1);
    }
  }

  /** Changing one cell changes the distance sum by the change of that cell's term only. */
  lemma {:induction false} SumDistUpdate(n: nat, s: seq<int>, i: nat, v: int, k: nat)
    requires n > 0 && i < |s| && k <= |s|
    ensures SumDist(n, s[i := v], k)
         == SumDist(n, s, k) + (if i < k then TileDist(n, v, (i / n, i % n)) - DistAt(n, s, i) else 0)
  {
    if k > 0 {
      SumDistUpdate(n, s, i, v, k - 1);
      if k - 1 != i {
        assert DistAt(n, s[i := v], k - 1) == DistAt(n, s, k - 1);
      }
    }
  }

  // ---------------------------------------------------------------- neighbours

  /** Every board `neighbors` returns is one move of the blank away. */
  lemma NeighborsSound(b: Board, c: Board)
    requires CanSlide(b) && c in Neighbors(b)
    ensures OneSlideApart(b, c)
  {
    var z := FindBlank(b).value;
    var t := Targets(b.n, z);
    var i :| 0 <= i < |t| && Neighbors(b)[i] == c;
    assert c == Slide(b, z, t[i]);
  }

  /** Every single move of the blank of a permutation is among the boards `neighbors` returns. */
  lemma NeighborsComplete(b: Board, c: Board)
    requires IsPermutation(b) && OneSlideApart(b, c)
    ensures c in Neighbors(b)
  {
    PermutationHasAllTiles(b);
    var z, t :| InGrid(b.n, z) && InGrid(b.n, t) && Adjacent(z, t) && Cell(b, z) == 0 && c == Slide(b, z, t);
    BlankOfPermutation(b, z);
    var ts := Targets(b.n, z);
    var i :| 0 <= i < |ts| && ts[i] == t;
    assert Neighbors(b)[i] == c;
  }

  /** Board equality does not depend on identity: it is reflexive and symmetric. */
  lemma EqualsReflexiveSymmetric(b: Board, c: Board)
    ensures Equals(b, Some(b))
    ensures Equals(b, Some(c)) <==> Equals(c, Some(b))
  {
  }

  /** A move of the blank keeps the tiles a permutation. */
  lemma NeighborKeepsPermutation(b: Board, c: Board)
    requires IsPermutation(b) && OneSlideApart(b, c)
    ensures IsPermutation(c)
  {
    var z, t :| InGrid(b.n, z) && InGrid(b.n, t) && Adjacent(z, t) && Cell(b, z) == 0 && c == Slide(b, z, t);
    SwapKeepsPermutation(b, Flat(b.n, t), Flat(b.n, z));
  }

  /** Sliding the tile back undoes a move. */
  lemma SlideBack(b: Board, z: Pos, t: Pos)
    requires Wf(b) && InGrid(b.n, z) && InGrid(b.n, t) && Adjacent(z, t) && Cell(b, z) == 0
    ensures Cell(Slide(b, z, t), t) == 0
    ensures Slide(Slide(b, z, t), t, z) == b
  {
    var c := Slide(b, z, t);
    var zt, zz := Flat(b.n, t), Flat(b.n, z);
    assert Swap(c.cells, zz, zt) == b.cells;
  }

  /** The neighbour relation is symmetric on permutations: every neighbour has the receiver among its neighbours. */
  lemma NeighborsSymmetric(b: Board, c: Board)
    requires IsPermutation(b) && IsNeighbor(b, c)
    ensures IsPermutation(c) && b in Neighbors(c)
  {
    PermutationHasAllTiles(b);
    NeighborsSound(b, c);
    NeighborKeepsPermutation(b, c);
    var z, t :| InGrid(b.n, z) && InGrid(b.n, t) && Adjacent(z, t) && Cell(b, z) == 0 && c == Slide(b, z, t);
    SlideBack(b, z, t);
    assert Adjacent(t, z);
    assert OneSlideApart(c, b) by {
      assert InGrid(c.n, t) && InGrid(c.n, z) && Adjacent(t, z) && Cell(c, t) == 0 && b == Slide(c, t, z);
    }
    NeighborsComplete(c, b);
  }

  /** The target cells come in the order top, bottom, left, right. */
  lemma TargetsInOrder(n: nat, z: Pos)
    requires InGrid(n, z)
    ensures var t := Targets(n, z); forall i, j :: 0 <= i < j < |t| ==> Dir(z, t[i]) < Dir(z, t[j])
  {
  }

  /**
   * The boards `neighbors` returns come in the order top, bottom, left, right:
   * the `i`-th has the blank moved to the `i`-th target cell, with the tile from
   * there put where the blank was, and the targets' directions strictly increase.
   */
  lemma NeighborsInOrder(b: Board)
    requires CanSlide(b) && b.n > 0
    ensures var z := FindBlank(b).value; var t := Targets(b.n, z); var r := Neighbors(b);
      && |r| == |t|
      && (forall i :: 0 <= i < |r| ==> Cell(r[i], t[i]) == 0 && Cell(r[i], z) == Cell(b, t[i]))
      && (forall i, j :: 0 <= i < j < |r| ==> Dir(z, t[i]) < Dir(z, t[j]))
  {
    var z := FindBlank(b).value;
    var t := Targets(b.n, z);
    var r := Neighbors(b);
    TargetsInOrder(b.n, z);
    forall i | 0 <= i < |r|
      ensures Cell(r[i], t[i]) == 0 && Cell(r[i], z) == Cell(b, t[i])
    {
      assert r[i] == Slide(b, z, t[i]);
    }
  }

  /** The boards `neighbors` returns for a permutation are pairwise different. */
  lemma NeighborsDistinct(b: Board)
    requires IsPermutation(b)
    ensures CanSlide(b)
    ensures forall i, j :: 0 <= i < j < |Neighbors(b)| ==> Neighbors(b)[i] != Neighbors(b)[j]
  {
    PermutationHasAllTiles(b);
    if b.n > 0 {
      var r := Neighbors(b);
      var z := FindBlank(b).value;
      var ts := Targets(b.n, z);
      forall i, j | 0 <= i < j < |r|
        ensures r[i] != r[j]
      {
        var ki, kj, kz := Flat(b.n, ts[i]), Flat(b.n, ts[j]), Flat(b.n, z);
        assert ki != kj && ki != kz;
        assert r[i].cells[ki] == 0;
        assert r[j].cells[ki] == b.cells[ki];
        if ki < kz { assert b.cells[ki] != b.cells[kz]; } else { assert b.cells[kz] != b.cells[ki]; }
      }
    }
  }

  /** A tile moved one cell along one axis changes its distance by exactly one. */
  lemma TileStep(n: nat, v: int, z: Pos, t: Pos)
    requires n > 0 && v != 0 && Adjacent(z, t)
    ensures TileDist(n, v, z) - TileDist(n, v, t) in {-1, 1}
  {
  }

  /**
   * The Manhattan heuristic of a neighbour differs by exactly one: the one tile
   * that moves goes one cell along one axis.  This is the consistency the A*
   * priority relies on.
   */
  lemma ManhattanStep(b: Board, c: Board)
    requires IsPermutation(b) && IsNeighbor(b, c)
    ensures Manhattan(c) - Manhattan(b) in {-1, 1}
  {
    PermutationHasAllTiles(b);
    NeighborsSound(b, c);
    var z, t :| InGrid(b.n, z) && InGrid(b.n, t) && Adjacent(z, t) && Cell(b, z) == 0 && c == Slide(b, z, t);
    var n, s := b.n, b.cells;
    var kt, kz := Flat(n, t), Flat(n, z);
    var v := s[kt];
    assert kt != kz;
    assert v != 0 by {
      if kt < kz { assert s[kt] != s[kz]; } else { assert s[kz] != s[kt]; }
    }
    var s1 := s[kt := 0];
    assert c.cells == s1[kz := v];
    SumDistUpdate(n, s, kt, 0, |s|);
    SumDistUpdate(n, s1, kz, v, |s|);
    TileStep(n, v, z, t);
  }

  // ---------------------------------------------------------------- twin

  /**
   * For a permutation with `n >= 2` the twin exchanges the first two tiles in
   * row-major order, keeps the blank where it is, is still a permutation and is
   * a different board.
   */
  lemma TwinProperties(b: Board)
    requires IsPermutation(b) && b.n >= 2
    ensures TwinDefined(b)
    ensures var (p, q) := TwinPair(b);
      && b.cells[p] != 0 && b.cells[q] != 0
      && (forall k :: 0 <= k < q && k != p ==> b.cells[k] == 0)
      && Twin(b).cells == Swap(b.cells, p, q)
    ensures forall k :: 0 <= k < |b.cells| ==> (Twin(b).cells[k] == 0 <==> b.cells[k] == 0)
    ensures IsPermutation(Twin(b))
    ensures Twin(b) != b
  {
    var s := b.cells;
    MulLeftMono(2, b.n, b.n);
    MulLeftMono(2, b.n, 2);
    assert |s| >= 4;
    assert TwinDefined(b) by {
      if s[0] != 0 { assert 0 < |s| - 1 && s[0] != 0; } else { assert s[0] != s[1]; assert 1 < |s| - 1 && s[1] != 0; }
    }
    var (p, q) := TwinPair(b);
    SwapKeepsPermutation(b, p, q);
    var t := Twin(b);
    assert t.cells[p] == s[q] != s[p];
  }
}
