/**
 * The solver: two A* searches run in lock step, one from the initial board and
 * one from its twin, each popping a node of least priority (Manhattan distance
 * plus moves made) and queueing the neighbours of its board except the one the
 * node came from.  Whichever search reaches a goal first decides solvability.
 *
 * Search nodes refer to their predecessor; here every node ever created lives in
 * an arena (a sequence in creation order), a predecessor is an arena index, and
 * a priority queue is a sequence of arena indices.
 */
module Solvers {
  import opened Wrappers
  import opened Boards
  import opened BoardLemmas
  import opened BoardMethods

  /** A search node: its board, the moves made from the root, its predecessor's arena index, and its priority. */
  datatype Node = Node(board: Board, moves: nat, parent: Option<nat>, priority: int)

  /** One A* search: every node created so far, and the queued nodes as arena indices. */
  datatype Search = Search(arena: seq<Node>, pq: seq<nat>)

  /** What a solver reports: `moves` (-1 when unsolvable) and the solution (`None` when unsolvable). */
  datatype Solver = Solver(moves: int, result: Option<seq<Board>>)
  {
    predicate IsSolvable()
    {
      result.Some?
    }

    /** The two outcomes the solver can reach: a path with one board per move, or `-1` and no path. */
    predicate Settled()
    {
      if IsSolvable() then moves >= 0 && |result.value| == moves + 1 else moves == -1
    }
  }

  /** Why a solver could not be built: no initial board, or the search ran out of fuel. */
  datatype Error = IllegalArgument | OutOfFuel

  // ---------------------------------------------------------------- nodes

  /** A new node for board `b` reached from the node at index `parent`, or a root when there is none. */
  function NewNode(arena: seq<Node>, b: Board, parent: Option<nat>): (nd: Node)
    requires Wf(b)
    requires parent.Some? ==> parent.value < |arena|
    ensures nd.board == b && nd.parent == parent
    ensures parent.None? ==> nd.moves == 0
    ensures parent.Some? ==> nd.moves == arena[parent.value].moves + 1
    ensures nd.priority - Manhattan(b) == nd.moves
  {
    var moves := if parent.None? then 0 else arena[parent.value].moves + 1;
    Node(b, moves, parent, Manhattan(b) + moves)
  }

  /** Every node's predecessor was created before it. */
  predicate ParentsBefore(arena: seq<Node>)
  {
    forall i :: 0 <= i < |arena| && arena[i].parent.Some? ==> arena[i].parent.value < i
  }

  /**
   * Node `i` is what the search can have built from `root`: its board is a
   * permutation of the root's size, its priority is Manhattan plus moves, and it
   * is either the root itself with no moves, or one move away from its
   * predecessor's board with one move more.
   */
  ghost predicate NodeOk(arena: seq<Node>, i: nat, root: Board)
    requires i < |arena|
  {
    var nd := arena[i];
    && IsPermutation(nd.board) && nd.board.n == root.n
    && nd.priority == Manhattan(nd.board) + nd.moves
    && match nd.parent
       case None => nd.moves == 0 && nd.board == root
       case Some(j) => j < i && nd.moves == arena[j].moves + 1 && IsNeighbor(arena[j].board, nd.board)
  }

  ghost predicate ArenaOk(arena: seq<Node>, root: Board)
  {
    forall i :: 0 <= i < |arena| ==> NodeOk(arena, i, root)
  }

  /** The search invariant: a solvable-size root, well-built nodes, and a queue of existing nodes. */
  ghost predicate Valid(s: Search, root: Board)
  {
    && IsPermutation(root) && root.n >= 2
    && ArenaOk(s.arena, root)
    && (forall k :: 0 <= k < |s.pq| ==> s.pq[k] < |s.arena|)
  }

  /** A search holding only the root node, queued. */
  function Start(root: Board): (s: Search)
    requires Wf(root)
    ensures |s.arena| == 1 && s.arena[0].board == root && s.arena[0].moves == 0 && s.pq == [0]
  {
    Search([NewNode([], root, None)], [0])
  }

  /** The path to the root node of a fresh search is the root's board alone. */
  lemma StartPath(root: Board)
    requires Wf(root)
    ensures ParentsBefore(Start(root).arena) && PathTo(Start(root).arena, 0) == [root]
  {
  }

  lemma StartValid(root: Board)
    requires IsPermutation(root) && root.n >= 2
    ensures Valid(Start(root), root)
  {
  }

  // ---------------------------------------------------------------- the queue

  /** Position `k` of the queue holds a node of least priority. */
  predicate IsMinAt(arena: seq<Node>, pq: seq<nat>, k: nat)
    requires forall j :: 0 <= j < |pq| ==> pq[j] < |arena|
    requires k < |pq|
  {
    forall j :: 0 <= j < |pq| ==> arena[pq[k]].priority <= arena[pq[j]].priority
  }

  /** A non-empty queue has a least element. */
  lemma {:induction false} MinimumExists(arena: seq<Node>, pq: seq<nat>)
    requires |pq| >= 1 && forall j :: 0 <= j < |pq| ==> pq[j] < |arena|
    ensures exists k :: 0 <= k < |pq| && IsMinAt(arena, pq, k)
  {
    if |pq| == 1 {
      assert IsMinAt(arena, pq, 0);
    } else {
      var front := pq[..|pq| - 1];
      MinimumExists(arena, front);
      var k :| 0 <= k < |front| && IsMinAt(arena, front, k);
      var last := |pq| - 1;
      if arena[pq[k]].priority <= arena[pq[last]].priority {
        assert IsMinAt(arena, pq, k);
      } else {
        assert IsMinAt(arena, pq, last);
      }
    }
  }

  /**
   * `delMin`: removes one node of least priority from the queue.  Nodes of equal
   * priority compare equal, so which of them comes out is left open.
   */
  method DelMin(arena: seq<Node>, pq: seq<nat>) returns (m: nat, rest: seq<nat>)
    requires |pq| >= 1 && forall j :: 0 <= j < |pq| ==> pq[j] < |arena|
    ensures m in pq && m < |arena|
    ensures forall j :: 0 <= j < |pq| ==> arena[m].priority <= arena[pq[j]].priority
    ensures multiset(rest) + multiset{m} == multiset(pq)
    ensures forall j :: 0 <= j < |rest| ==> rest[j] < |arena|
  {
    MinimumExists(arena, pq);
    var k :| 0 <= k < |pq| && IsMinAt(arena, pq, k);
    m := pq[k];
    rest := pq[..k] + pq[k + 1..];
    assert pq == pq[..k] + [m] + pq[k + 1..];
  }

  // ---------------------------------------------------------------- expansion

  /** The board of the node's predecessor (`min.pre.board`), if it has one. */
  function ParentBoard(arena: seq<Node>, m: nat): Option<Board>
    requires m < |arena| && ParentsBefore(arena)
  {
    match arena[m].parent
    case None => None
    case Some(j) => Some(arena[j].board)
  }

  /** The neighbours kept for queueing: all but the predecessor's board, in their order. */
  function Unpruned(nbrs: seq<Board>, parent: Option<Board>): (r: seq<Board>)
    ensures |r| <= |nbrs|
    ensures forall c :: c in r <==> c in nbrs && parent != Some(c)
  {
    if |nbrs| == 0 then []
    else
      var c := nbrs[|nbrs| - 1];
      Unpruned(nbrs[..|nbrs| - 1], parent) + (if parent.None? || !Equals(c, parent) then [c] else [])
  }

  /** The boards a node expands to. */
  function Children(arena: seq<Node>, m: nat): seq<Board>
    requires m < |arena| && ParentsBefore(arena) && IsPermutation(arena[m].board)
  {
    PermutationHasAllTiles(arena[m].board);
    Unpruned(Neighbors(arena[m].board), ParentBoard(arena, m))
  }

  function BoardsOf(nodes: seq<Node>): (r: seq<Board>)
    ensures |r| == |nodes| && forall k :: 0 <= k < |r| ==> r[k] == nodes[k].board
  {
    seq(|nodes|, k requires 0 <= k < |nodes| => nodes[k].board)
  }

  /** The arena indices `lo` up to `hi`. */
  function Indices(lo: nat, hi: nat): (r: seq<nat>)
    requires lo <= hi
    ensures |r| == hi - lo && forall k :: 0 <= k < |r| ==> r[k] == lo + k
  {
    seq(hi - lo, k requires 0 <= k < hi - lo => lo + k)
  }

  lemma ValidParents(s: Search, root: Board)
    requires Valid(s, root)
    ensures ParentsBefore(s.arena)
  {
    forall i | 0 <= i < |s.arena| && s.arena[i].parent.Some?
      ensures s.arena[i].parent.value < i
    {
      assert NodeOk(s.arena, i, root);
    }
  }

  /** A board of size at least 2 always keeps a neighbour: it has two different ones and drops at most one. */
  lemma ChildExists(b: Board, parent: Option<Board>)
    requires IsPermutation(b) && b.n >= 2
    ensures CanSlide(b) && |Unpruned(Neighbors(b), parent)| >= 1
  {
    NeighborsDistinct(b);
    var r := Neighbors(b);
    assert r[0] != r[1];
    KeepsOne(r, parent);
  }

  /** Pruning a single board from a sequence whose first two boards differ keeps at least one. */
  lemma KeepsOne(r: seq<Board>, parent: Option<Board>)
    requires |r| >= 2 && r[0] != r[1]
    ensures |Unpruned(r, parent)| >= 1
  {
    if parent == Some(r[0]) {
      assert r[1] in Unpruned(r, parent);
    } else {
      assert r[0] in Unpruned(r, parent);
    }
  }

  /** Scanning one more neighbour either keeps it or drops it as the predecessor's board. */
  lemma UnprunedStep(nbrs: seq<Board>, i: nat, parent: Option<Board>)
    requires i < |nbrs|
    ensures Unpruned(nbrs[..i + 1], parent)
         == Unpruned(nbrs[..i], parent) + (if parent.None? || !Equals(nbrs[i], parent) then [nbrs[i]] else [])
  {
    assert nbrs[..i + 1][..i] == nbrs[..i];
  }

  lemma BoardsOfAppend(nodes: seq<Node>, nd: Node)
    ensures BoardsOf(nodes + [nd]) == BoardsOf(nodes) + [nd.board]
  {
  }

  lemma IndicesAppend(lo: nat, hi: nat)
    requires lo <= hi
    ensures Indices(lo, hi + 1) == Indices(lo, hi) + [hi]
  {
  }

  /** `nd` is a node built as a successor of node `m`, whose node is `p`. */
  predicate IsChild(nd: Node, p: Node, m: nat)
  {
    nd.parent == Some(m) && nd.moves == p.moves + 1 && Wf(nd.board) && nd.priority == Manhattan(nd.board) + nd.moves
  }

  /**
   * The expansion of node `m` of `s` has scanned the first `i` neighbours: `t`
   * is `s` with one new node per kept neighbour, each a successor of `m`, and
   * each queued.
   */
  ghost predicate Expanding(s: Search, m: nat, nbrs: seq<Board>, parent: Option<Board>,
                            i: nat, t: Search, added: seq<Node>)
  {
    && i <= |nbrs| && m < |s.arena|
    && t.arena == s.arena + added
    && BoardsOf(added) == Unpruned(nbrs[..i], parent)
    && (forall k :: 0 <= k < |added| ==> IsChild(added[k], s.arena[m], m))
    && t.pq == s.pq + Indices(|s.arena|, |t.arena|)
  }

  /** A kept neighbour becomes a new queued node with `m` as predecessor, which keeps `Expanding`. */
  lemma KeepStep(s: Search, m: nat, nbrs: seq<Board>, parent: Option<Board>,
                 i: nat, t: Search, added: seq<Node>)
    requires Expanding(s, m, nbrs, parent, i, t, added) && i < |nbrs| && Wf(nbrs[i])
    requires parent.None? || !Equals(nbrs[i], parent)
    ensures var nd := NewNode(t.arena, nbrs[i], Some(m));
      Expanding(s, m, nbrs, parent, i + 1, Search(t.arena + [nd], t.pq + [|t.arena|]), added + [nd])
  {
    UnprunedStep(nbrs, i, parent);
    assert t.arena[m] == s.arena[m];
    var nd := NewNode(t.arena, nbrs[i], Some(m));
    BoardsOfAppend(added, nd);
    IndicesAppend(|s.arena|, |t.arena|);
    assert t.arena + [nd] == s.arena + (added + [nd]);
  }

  /** The predecessor's board is skipped, which keeps `Expanding`. */
  lemma DropStep(s: Search, m: nat, nbrs: seq<Board>, parent: Option<Board>,
                 i: nat, t: Search, added: seq<Node>)
    requires Expanding(s, m, nbrs, parent, i, t, added) && i < |nbrs|
    requires parent.Some? && Equals(nbrs[i], parent)
    ensures Expanding(s, m, nbrs, parent, i + 1, t, added)
  {
    UnprunedStep(nbrs, i, parent);
  }

  /** Once every neighbour is scanned, the new search is the old one plus one queued successor per kept neighbour. */
  lemma ExpandingDone(s: Search, m: nat, nbrs: seq<Board>, parent: Option<Board>, t: Search, added: seq<Node>)
    requires Expanding(s, m, nbrs, parent, |nbrs|, t, added)
    ensures |t.arena| >= |s.arena| && t.arena[..|s.arena|] == s.arena
    ensures BoardsOf(t.arena[|s.arena|..]) == Unpruned(nbrs, parent)
    ensures forall k :: |s.arena| <= k < |t.arena| ==> IsChild(t.arena[k], s.arena[m], m)
  {
    assert nbrs[..|nbrs|] == nbrs;
    assert t.arena[..|s.arena|] == s.arena && t.arena[|s.arena|..] == added;
    assert forall k :: |s.arena| <= k < |t.arena| ==> t.arena[k] == added[k - |s.arena|];
  }

  /** The facts `AddChildren` states about its result make the appended nodes an expansion of node `m`. */
  lemma ExpandingFrom(s: Search, m: nat, nbrs: seq<Board>, parent: Option<Board>, t: Search)
    requires m < |s.arena|
    requires |t.arena| >= |s.arena| && t.arena[..|s.arena|] == s.arena
    requires BoardsOf(t.arena[|s.arena|..]) == Unpruned(nbrs, parent)
    requires forall k :: |s.arena| <= k < |t.arena| ==> IsChild(t.arena[k], s.arena[m], m)
    requires t.pq == s.pq + Indices(|s.arena|, |t.arena|)
    ensures Expanding(s, m, nbrs, parent, |nbrs|, t, t.arena[|s.arena|..])
  {
    var added := t.arena[|s.arena|..];
    assert nbrs[..|nbrs|] == nbrs;
    assert t.arena == t.arena[..|s.arena|] + added;
    forall k | 0 <= k < |added|
      ensures IsChild(added[k], s.arena[m], m)
    {
      assert added[k] == t.arena[|s.arena| + k];
    }
  }

  /** Appending nodes leaves every old node's invariant as it was. */
  lemma OldNodeOk(arena: seq<Node>, root: Board, added: seq<Node>, i: nat)
    requires i < |arena| && NodeOk(arena, i, root)
    ensures NodeOk(arena + added, i, root)
  {
    var t := arena + added;
    assert t[i] == arena[i];
    if arena[i].parent.Some? {
      assert t[arena[i].parent.value] == arena[arena[i].parent.value];
    }
  }

  /** A node added for a neighbour of node `m` is one slide from `m`'s board, with one move more. */
  lemma NewNodeOk(s: Search, m: nat, root: Board, nbrs: seq<Board>, parent: Option<Board>,
                  t: Search, added: seq<Node>, i: nat)
    requires m < |s.arena| && NodeOk(s.arena, m, root)
    requires forall c :: c in nbrs ==> IsNeighbor(s.arena[m].board, c)
    requires Expanding(s, m, nbrs, parent, |nbrs|, t, added)
    requires |s.arena| <= i < |t.arena|
    ensures NodeOk(t.arena, i, root)
  {
    assert nbrs[..|nbrs|] == nbrs;
    var k := i - |s.arena|;
    AppendIndex(s.arena, added, i);
    AppendIndex(s.arena, added, m);
    assert IsChild(added[k], s.arena[m], m);
    var c := added[k].board;
    assert c == BoardsOf(added)[k];
    assert c in nbrs;
    var b := s.arena[m].board;
    NeighborsSymmetric(b, c);
    assert c.n == b.n by {
      var j :| 0 <= j < |Neighbors(b)| && Neighbors(b)[j] == c;
    }
    assert t.arena[i].parent == Some(m) && m < i && IsNeighbor(t.arena[m].board, c);
  }

  lemma AppendIndex<T>(a: seq<T>, b: seq<T>, i: nat)
    requires i < |a| + |b|
    ensures (a + b)[i] == if i < |a| then a[i] else b[i - |a|]
  {
  }

  /** Nodes added for neighbours of a node of a valid search leave it valid. */
  lemma ExpandedValid(s: Search, m: nat, root: Board, nbrs: seq<Board>, parent: Option<Board>,
                      t: Search, added: seq<Node>)
    requires Valid(s, root) && m < |s.arena|
    requires CanSlide(s.arena[m].board) && nbrs == Neighbors(s.arena[m].board)
    requires Expanding(s, m, nbrs, parent, |nbrs|, t, added)
    ensures Valid(t, root)
  {
    assert NodeOk(s.arena, m, root);
    forall i | 0 <= i < |t.arena|
      ensures NodeOk(t.arena, i, root)
    {
      if i < |s.arena| {
        OldNodeOk(s.arena, root, added, i);
      } else {
        NewNodeOk(s, m, root, nbrs, parent, t, added, i);
      }
    }
    forall k | 0 <= k < |t.pq|
      ensures t.pq[k] < |t.arena|
    {
      if k >= |s.pq| {
        assert t.pq[k] == Indices(|s.arena|, |t.arena|)[k - |s.pq|];
      }
    }
  }

  /** The `for` loop over the neighbours: each one that is not the predecessor's board is made a node and queued. */
  method AddChildren(s: Search, m: nat, nbrs: seq<Board>, parent: Option<Board>)
    returns (t: Search)
    requires m < |s.arena| && CanSlide(s.arena[m].board) && nbrs == Neighbors(s.arena[m].board)
    ensures |t.arena| >= |s.arena| && t.arena[..|s.arena|] == s.arena
    ensures BoardsOf(t.arena[|s.arena|..]) == Unpruned(nbrs, parent)
    ensures forall k :: |s.arena| <= k < |t.arena| ==> IsChild(t.arena[k], s.arena[m], m)
    ensures t.pq == s.pq + Indices(|s.arena|, |t.arena|)
  {
    t := s;
    ghost var added: seq<Node> := [];
    assert s.arena + added == s.arena && s.pq + Indices(|s.arena|, |s.arena|) == s.pq;
    assert BoardsOf(added) == [] == Unpruned(nbrs[..0], parent);
    var i := 0;
    while i < |nbrs|
      invariant Expanding(s, m, nbrs, parent, i, t, added)
    {
      t, added := AddChild(s, m, nbrs, parent, i, t, added);
      i := i + 1;
    }
    ExpandingDone(s, m, nbrs, parent, t, added);
  }

  /** One round of the `for` loop: neighbour `i` is made a node and queued unless it is the predecessor's board. */
  method AddChild(s: Search, m: nat, nbrs: seq<Board>, parent: Option<Board>,
                  i: nat, t: Search, ghost added: seq<Node>)
    returns (t': Search, ghost added': seq<Node>)
    requires Expanding(s, m, nbrs, parent, i, t, added) && i < |nbrs| && Wf(nbrs[i])
    ensures Expanding(s, m, nbrs, parent, i + 1, t', added')
    ensures |t'.arena| == |t.arena| + (if parent.None? || !Equals(nbrs[i], parent) then 1 else 0)
  {
    var c := nbrs[i];
    if parent.None? || !Equals(c, parent) {
      KeepStep(s, m, nbrs, parent, i, t, added);
      var nd := NewNode(t.arena, c, Some(m));
      added' := added + [nd];
      t' := Search(t.arena + [nd], t.pq + [|t.arena|]);
    } else {
      DropStep(s, m, nbrs, parent, i, t, added);
      t', added' := t, added;
    }
  }

  /**
   * The body of the search loop for one queue: every neighbour of the popped
   * node's board other than its predecessor's board becomes a new node with the
   * popped node as predecessor, and is queued.
   */
  method Expand(s: Search, m: nat, ghost root: Board) returns (s': Search)
    requires Valid(s, root) && m < |s.arena|
    ensures |s'.arena| > |s.arena| && s'.arena[..|s.arena|] == s.arena
    ensures ParentsBefore(s.arena) && IsPermutation(s.arena[m].board) && |s'.arena| >= |s.arena|
         && BoardsOf(s'.arena[|s.arena|..]) == Children(s.arena, m)
    ensures Valid(s', root)
    ensures forall k :: |s.arena| <= k < |s'.arena| ==> s'.arena[k].parent == Some(m)
    ensures s'.pq == s.pq + Indices(|s.arena|, |s'.arena|)
  {
    ValidParents(s, root);
    assert NodeOk(s.arena, m, root);
    var b := s.arena[m].board;
    var parentBoard := ParentBoard(s.arena, m);
    ChildExists(b, parentBoard);
    var nbrs := Neighbors(b);
    s' := AddChildren(s, m, nbrs, parentBoard);
    ExpandingFrom(s, m, nbrs, parentBoard, s');
    ExpandedValid(s, m, root, nbrs, parentBoard, s', s'.arena[|s.arena|..]);
  }

  // ---------------------------------------------------------------- paths

  /** A sequence of boards in which each board is a neighbour of the one before. */
  predicate IsPath(p: seq<Board>)
  {
    |p| >= 1 && forall k :: 0 <= k < |p| - 1 ==> IsNeighbor(p[k], p[k + 1])
  }

  /** `p` leads from `start` to a goal board. */
  predicate SolvesFrom(start: Board, p: seq<Board>)
  {
    IsPath(p) && p[0] == start && Wf(p[|p| - 1]) && IsGoal(p[|p| - 1])
  }

  /** The boards along the predecessor links from the root to node `i`. */
  function PathTo(arena: seq<Node>, i: nat): seq<Board>
    requires i < |arena| && ParentsBefore(arena)
    decreases i
  {
    match arena[i].parent
    case None => [arena[i].board]
    case Some(j) => PathTo(arena, j) + [arena[i].board]
  }

  /** The path to a node starts at the root, ends at the node's board, and has one step per move. */
  lemma {:induction false} PathFacts(arena: seq<Node>, i: nat, root: Board)
    requires ArenaOk(arena, root) && i < |arena|
    ensures ParentsBefore(arena)
    ensures var p := PathTo(arena, i);
      |p| == arena[i].moves + 1 && p[0] == root && p[|p| - 1] == arena[i].board && IsPath(p)
  {
    forall k | 0 <= k < |arena| && arena[k].parent.Some?
      ensures arena[k].parent.value < k
    {
      assert NodeOk(arena, k, root);
    }
    assert NodeOk(arena, i, root);
    match arena[i].parent
    case None =>
    case Some(j) =>
      PathFacts(arena, j, root);
      var p, q := PathTo(arena, j), PathTo(arena, i);
      assert q == p + [arena[i].board];
      forall k | 0 <= k < |q| - 1
        ensures IsNeighbor(q[k], q[k + 1])
      {
        if k < |p| - 1 {
          assert q[k] == p[k] && q[k + 1] == p[k + 1];
        }
      }
  }

  /** Following the predecessor links from node `m` and pushing each board onto a stack. */
  method Reconstruct(arena: seq<Node>, m: nat) returns (path: seq<Board>)
    requires m < |arena| && ParentsBefore(arena)
    ensures path == PathTo(arena, m)
  {
    path := [arena[m].board];
    var p: Option<nat> := arena[m].parent;
    while p.Some?
      invariant p.Some? ==> p.value < |arena| && PathTo(arena, p.value) + path == PathTo(arena, m)
      invariant p.None? ==> path == PathTo(arena, m)
      decreases if p.Some? then p.value + 1 else 0
    {
      var j := p.value;
      path := [arena[j].board] + path;
      p := arena[j].parent;
    }
  }

  // ---------------------------------------------------------------- the solver

  /** Every node of a valid search holds a permutation of the root's size. */
  lemma ValidNode(s: Search, root: Board, i: nat)
    requires Valid(s, root) && i < |s.arena|
    ensures IsPermutation(s.arena[i].board) && s.arena[i].board.n == root.n
  {
    assert NodeOk(s.arena, i, root);
  }

  /** `delMin` followed by the goal test on the popped node's board. */
  method PopMin(s: Search, ghost root: Board) returns (s': Search, m: nat, goal: bool)
    requires Valid(s, root) && |s.pq| >= 1
    ensures Valid(s', root) && s'.arena == s.arena && m < |s.arena|
    ensures multiset(s'.pq) + multiset{m} == multiset(s.pq)
    ensures forall j :: 0 <= j < |s.pq| ==> s.arena[m].priority <= s.arena[s.pq[j]].priority
    ensures Wf(s.arena[m].board) && (goal <==> IsGoal(s.arena[m].board))
  {
    var rest;
    m, rest := DelMin(s.arena, s.pq);
    s' := Search(s.arena, rest);
    ValidNode(s, root, m);
    goal := CheckGoal(s.arena[m].board);
  }

  /**
   * After the loop: if the main search's last node is a goal, the solution is
   * the path to it and `moves` its moves; otherwise the twin's search reached a
   * goal and the board is unsolvable.
   */
  method Conclude(main: Search, m: nat, init: Board, alt: Search, t: nat, ghost twin: Board) returns (r: Solver)
    requires Valid(main, init) && Valid(alt, twin) && m < |main.arena| && t < |alt.arena|
    requires Wf(main.arena[m].board) && Wf(alt.arena[t].board)
    requires IsGoal(main.arena[m].board) || IsGoal(alt.arena[t].board)
    ensures r.Settled()
    ensures r.IsSolvable() <==> IsGoal(main.arena[m].board)
    ensures r.IsSolvable() ==> SolvesFrom(init, r.result.value)
    ensures !r.IsSolvable() ==> exists p :: SolvesFrom(twin, p)
    ensures ParentsBefore(main.arena)
    ensures r.IsSolvable() ==> r.moves == main.arena[m].moves && r.result.value == PathTo(main.arena, m)
  {
    ValidParents(main, init);
    var solved := CheckGoal(main.arena[m].board);
    if !solved {
      PathFacts(alt.arena, t, twin);
      assert SolvesFrom(twin, PathTo(alt.arena, t));
      return Solver(-1, None);
    }
    PathFacts(main.arena, m, init);
    var path := Reconstruct(main.arena, m);
    return Solver(main.arena[m].moves, Some(path));
  }

  /**
   * The solver's constructor.  A missing board is an illegal argument.  Each
   * round pops the least node of the main search and stops if its board is the
   * goal, then does the same for the twin's search, and otherwise expands both
   * popped nodes.  The search is bounded by `fuel` rounds, and running out is
   * reported as such.
   */
  method Solve(initial: Option<Board>, fuel: nat) returns (r: Result<Solver, Error>)
    requires initial.Some? ==> IsPermutation(initial.value) && initial.value.n >= 2
    ensures r == Failure(IllegalArgument) <==> initial.None?
    ensures r.Success? ==> r.value.Settled()
    ensures r.Success? && r.value.IsSolvable() ==> SolvesFrom(initial.value, r.value.result.value)
    ensures r.Success? && !r.value.IsSolvable() ==>
      TwinDefined(initial.value) && exists p :: SolvesFrom(Twin(initial.value), p)
    ensures initial.Some? && fuel >= 1 && IsGoal(initial.value) ==> r == Success(Solver(0, Some([initial.value])))
  {
    if initial.None? {
      return Failure(IllegalArgument);
    }
    var init := initial.value;
    TwinProperties(init);
    var twin := Twin(init);
    var main, alt := Start(init), Start(twin);
    StartValid(init);
    StartValid(twin);
    ValidNode(alt, twin, 0);
    var m, t: nat := 0, 0;
    var goal := false;
    var f := fuel;
    while f > 0
      invariant Valid(main, init) && Valid(alt, twin) && |main.pq| >= 1 && |alt.pq| >= 1
      invariant t < |alt.arena| && Wf(alt.arena[t].board) && !goal
      invariant IsGoal(init) ==> main == Start(init) && f == fuel
    {
      main, m, goal := PopMin(main, init);
      if goal {
        break;
      }
      alt, t, goal := PopMin(alt, twin);
      if goal {
        break;
      }
      main := Expand(main, m, init);
      alt := Expand(alt, t, twin);
      f := f - 1;
    }
    if !goal {
      return Failure(OutOfFuel);
    }
    assert IsGoal(init) && fuel >= 1 ==> m == 0 && main.arena == Start(init).arena;
    var solver := Conclude(main, m, init, alt, t, twin);
    StartPath(init);
    return Success(solver);
  }
}
