/**
 * The board: its cells, the target's position, the surrounded flag and the
 * move counters, updated in place by the player's blocks and the target's
 * replies.
 */
module Game {
  import opened Hex
  import opened NodeSets
  import opened Search

  /** Fewest terrain blocks a new game draws: floor(DIM * DIM / 10). */
  const MinBlocks: int := DIM * DIM / 10

  /**
   * The terrain a new game may draw: between MinBlocks and twice as many
   * distinct board cells, none of them the centre (every draw is retried
   * until it lands on an EMPTY cell).
   */
  predicate IsTerrain(blocks: seq<Coord>) {
    && MinBlocks <= |blocks| <= 2 * MinBlocks
    && (forall i :: 0 <= i < |blocks| ==>
          InBounds(blocks[i].row, blocks[i].col) && blocks[i] != Coord(CENTER, CENTER))
    && (forall i, j :: 0 <= i < j < |blocks| ==> blocks[i] != blocks[j])
  }

  /** The cell (i, j) of a fresh game with the given terrain. */
  function StartCell(blocks: seq<Coord>, i: int, j: int): Cell {
    if Coord(i, j) == Coord(CENTER, CENTER) then Cell.Target
    else if Coord(i, j) in blocks then Blocked
    else Empty
  }

  /** g with cell (row, col) set to v. */
  function Placed(g: Grid, row: int, col: int, v: Cell): (h: Grid)
    requires WellFormed(g) && InBounds(row, col)
    ensures WellFormed(h)
  {
    g[row := g[row][col := v]]
  }

  /** Two snapshots with the same cells are the same snapshot. */
  lemma {:induction false} GridExt(g: Grid, h: Grid)
    requires WellFormed(g) && WellFormed(h)
    requires forall i, j {:trigger g[i][j]} :: InBounds(i, j) ==> g[i][j] == h[i][j]
    ensures g == h
  {
    forall i | 0 <= i < DIM
      ensures g[i] == h[i]
    {
      assert forall j :: 0 <= j < DIM ==> g[i][j] == h[i][j];
    }
  }

  /** The visited set holds exactly the board cells that the arena has reached. */
  ghost predicate Tracks(visited: NodeSet, nodes: seq<Node>)
    reads visited
  {
    forall r, c {:trigger visited.Has(r, c)} :: InBounds(r, c) ==>
      (visited.Has(r, c) <==> Coord(r, c) in Positions(nodes))
  }

  /**
   * The search loop: dequeues every node in turn, keeps the nearest
   * boundary node and the farthest node by strict comparison, and enqueues
   * the unvisited listed neighbours of each. minDist is None when no
   * boundary node was dequeued (the sentinel of the original).
   */
  method Explore(g: Grid, root: Coord) returns (arena: seq<Node>, minDist: Option<nat>, minIdx: nat, maxIdx: nat)
    requires WellFormed(g) && InBounds(root.row, root.col)
    ensures arena == Explored(g, root, |arena|)
    ensures IsTrace(g, root, arena)
    ensures minDist.Some? <==> HasEscape(arena)
    ensures minDist.Some? ==> NearestEscape(arena, minIdx)
    ensures Farthest(arena, maxIdx)
  {
    var visited := new NodeSet();
    arena := [Node(root.row, root.col, 0, None)];
    var head := 0;
    minDist, minIdx := None, 0;
    var maxDist: nat := 0;
    maxIdx := 0;
    visited.Add(root.row, root.col);
    assert Positions(arena) == {root} by {
      assert arena[0].Pos() == root;
    }
    ExploredShape(g, root, 0, arena);
    while head < |arena|
      invariant head <= |arena| && arena == Explored(g, root, head)
      invariant Positions(arena) <= AllCoords()
      invariant Tracks(visited, arena)
      invariant MinSoFar(arena, head, minDist, minIdx) && MaxSoFar(arena, head, maxDist, maxIdx)
      decreases AllCoords() - Positions(arena), |arena| - head
    {
      arena, minDist, minIdx, maxDist, maxIdx := Visit(g, root, arena, head, visited, minDist, minIdx, maxDist, maxIdx);
      head := head + 1;
    }
    ExploredTrace(g, root, head, arena);
    RecordsDone(arena, minDist, minIdx, maxDist, maxIdx);
  }

  /**
   * One turn of the search loop: dequeues nodes[head] into the records and
   * enqueues its unvisited listed neighbours, giving the arena after one
   * more dequeue, which either is unchanged or has reached a new cell.
   */
  method Visit(g: Grid, root: Coord, nodes: seq<Node>, head: nat, visited: NodeSet,
               minDist: Option<nat>, minIdx: nat, maxDist: nat, maxIdx: nat)
    returns (nodes': seq<Node>, minDist': Option<nat>, minIdx': nat, maxDist': nat, maxIdx': nat)
    requires WellFormed(g) && InBounds(root.row, root.col)
    requires head < |nodes| && nodes == Explored(g, root, head)
    requires Tracks(visited, nodes)
    requires MinSoFar(nodes, head, minDist, minIdx) && MaxSoFar(nodes, head, maxDist, maxIdx)
    modifies visited
    ensures head + 1 <= |nodes'| && nodes' == Explored(g, root, head + 1)
    ensures Positions(nodes') <= AllCoords()
    ensures Tracks(visited, nodes')
    ensures MinSoFar(nodes', head + 1, minDist', minIdx') && MaxSoFar(nodes', head + 1, maxDist', maxIdx')
    ensures nodes' == nodes || Positions(nodes) < Positions(nodes')
  {
    minDist', minIdx', maxDist', maxIdx' := Settle(nodes, head, minDist, minIdx, maxDist, maxIdx);
    nodes' := ExpandNode(g, nodes, head, visited);
    ExploredAdvance(g, root, head, head + 1, nodes, nodes');
    RecordsExtend(nodes, nodes'[|nodes|..], head + 1, minDist', minIdx', maxDist', maxIdx');
  }

  /**
   * Dequeues nodes[head] into the records: a boundary node replaces the
   * nearest one only when strictly nearer, any node the farthest one only
   * when strictly farther, so ties go to the node dequeued first.
   */
  method Settle(nodes: seq<Node>, head: nat, minDist: Option<nat>, minIdx: nat, maxDist: nat, maxIdx: nat)
    returns (minDist': Option<nat>, minIdx': nat, maxDist': nat, maxIdx': nat)
    requires head < |nodes|
    requires MinSoFar(nodes, head, minDist, minIdx) && MaxSoFar(nodes, head, maxDist, maxIdx)
    ensures MinSoFar(nodes, head + 1, minDist', minIdx') && MaxSoFar(nodes, head + 1, maxDist', maxIdx')
  {
    var node := nodes[head];
    RecordsStep(nodes, head, minDist, minIdx, maxDist, maxIdx);
    minDist', minIdx', maxDist', maxIdx' := minDist, minIdx, maxDist, maxIdx;
    if IsEscapeNode(node.row, node.col) {
      if minDist.None? || minDist.value > node.dist {
        minDist' := Some(node.dist);
        minIdx' := head;
      }
    }
    if maxDist < node.dist {
      maxDist' := node.dist;
      maxIdx' := head;
    }
  }

  /**
   * The inner loop of the search: enqueues, in table order, each listed
   * neighbour of nodes[cur] that is not yet visited, one level deeper and
   * with nodes[cur] as its parent.
   */
  method ExpandNode(g: Grid, nodes: seq<Node>, cur: nat, visited: NodeSet) returns (arena: seq<Node>)
    requires WellFormed(g) && cur < |nodes| && Tracks(visited, nodes)
    modifies visited
    ensures arena == Expand(g, nodes, cur)
    ensures Tracks(visited, arena)
  {
    var node := nodes[cur];
    var d := node.dist + 1;
    var nbs := Neighbors(g, node.row, node.col);
    arena := nodes;
    ghost var goal := Expand(g, nodes, cur);
    ExpandStart(g, nodes, cur, d, nbs);
    var i := 0;
    while i < |nbs|
      invariant i <= |nbs|
      invariant EnqueueAll(arena, cur, d, nbs[i..]) == goal
      invariant Tracks(visited, arena)
    {
      assert nbs[i] in nbs;
      ghost var before := arena;
      arena := Offer(visited, arena, cur, d, nbs[i]);
      ghost var prev := i;
      i := i + 1;
      EnqueueAllAt(before, arena, cur, d, nbs, prev, i);
    }
    assert nbs[i..] == [];
  }

  /**
   * One neighbour x of nodes[cur]: unless its cell is visited, queues it one
   * level deeper with nodes[cur] as its parent and marks it visited.
   */
  method Offer(visited: NodeSet, nodes: seq<Node>, cur: nat, d: nat, x: Coord) returns (nodes': seq<Node>)
    requires Tracks(visited, nodes) && InBounds(x.row, x.col)
    modifies visited
    ensures nodes' == Enqueue(nodes, cur, d, x) && Tracks(visited, nodes')
  {
    var n := Node(x.row, x.col, d, Some(cur));
    if !visited.Has(n.row, n.col) {
      PositionsAppend(nodes, n);
      nodes' := nodes + [n];
      visited.Add(n.row, n.col);
    } else {
      nodes' := nodes;
    }
  }

  /**
   * Walks the parent chain of nodes[k] back to the node whose parent is
   * the root: the first step towards nodes[k]. The root stays itself.
   */
  method GetNextParent(nodes: seq<Node>, k: nat) returns (r: nat)
    requires Linked(nodes) && k < |nodes|
    ensures r < |nodes|
    ensures nodes[k].parent.None? ==> r == k
    ensures nodes[k].parent.Some? ==>
      && r == Ancestry(nodes, k)[1]
      && nodes[r].parent == Some(0) && nodes[r].dist == 1 && nodes[r].Pos() == ChainPath(nodes, k)[1]
  {
    r := k;
    if nodes[r].parent.Some? {
      while nodes[nodes[r].parent.value].parent.Some?
        invariant r < |nodes| && nodes[r].parent.Some? && nodes[r].dist >= 1
        invariant Ancestry(nodes, r)[1] == Ancestry(nodes, k)[1]
        invariant ChainPath(nodes, r)[1] == ChainPath(nodes, k)[1]
        decreases r
      {
        r := nodes[r].parent.value;
      }
    }
  }

  /**
   * The search from root and the choice made from its records: the first
   * step towards the nearest boundary node or, when none was reached, towards
   * the farthest node, in which case the surrounded flag is raised.
   */
  method ChooseMove(g: Grid, root: Coord, wasSurrounded: bool)
    returns (next: Coord, surrounded: bool, ghost nodes: seq<Node>, ghost chosen: nat)
    requires WellFormed(g) && InBounds(root.row, root.col)
    ensures Selected(g, root, nodes, chosen, next, wasSurrounded, surrounded)
    ensures next == root || IsValid(g, next.row, next.col)
  {
    var arena, minDist, minIdx, maxIdx := Explore(g, root);
    var pick: nat;
    surrounded := wasSurrounded;
    if minDist.None? {
      surrounded := true;
      pick := maxIdx;
    } else {
      pick := minIdx;
    }
    var step := GetNextParent(arena, pick);
    next := arena[step].Pos();
    nodes, chosen := arena, pick;
    SelectedByRecords(g, root, arena, minDist, minIdx, maxIdx, step, wasSurrounded, surrounded);
    SelectedIsOneStep(g, root, nodes, chosen, next, wasSurrounded, surrounded);
  }

  class Board {
    var Cells: array2<Cell>
    var Target: Coord
    var Surrounded: bool
    /** The move counter, reset by a new game. */
    var Moves: int
    /** The differently spelt counter that placing a block increments. */
    var moves: int

    /** A DIM x DIM board holding exactly one TARGET cell, at Target. */
    ghost predicate Valid()
      reads this`Cells, this`Target, Cells
    {
      && Cells.Length0 == DIM && Cells.Length1 == DIM
      && InBounds(Target.row, Target.col)
      && forall i, j {:trigger Cells[i, j]} :: 0 <= i < DIM && 0 <= j < DIM ==>
           (Cells[i, j] == Cell.Target <==> Coord(i, j) == Target)
    }

    /** The cells as a value, for the pure rules of the board. */
    function Grid(): (g: Grid)
      reads this`Cells, Cells
      requires Cells.Length0 == DIM && Cells.Length1 == DIM
      ensures WellFormed(g)
      ensures forall i, j {:trigger g[i][j]} {:trigger Cells[i, j]} :: InBounds(i, j) ==> g[i][j] == Cells[i, j]
    {
      var a := Cells;
      seq(DIM, i reads a requires 0 <= i < DIM =>
        seq(DIM, j reads a requires 0 <= j < DIM => a[i, j]))
    }

    /** Starts a game on the given terrain. */
    constructor (terrain: seq<Coord>)
      requires IsTerrain(terrain)
      ensures Valid() && fresh(Cells)
      ensures Target == Coord(CENTER, CENTER) && !Surrounded && Moves == 0
      ensures forall i, j {:trigger Cells[i, j]} :: InBounds(i, j) ==> Cells[i, j] == StartCell(terrain, i, j)
    {
      Cells := new Cell[0, 0];
      Target := Coord(CENTER, CENTER);
      Surrounded := false;
      Moves := 0;
      moves := 0;
      new;
      NewGame(terrain);
    }

    /** A fresh DIM x DIM grid of EMPTY cells, filled row by row. */
    static method NewBoard() returns (cells: array2<Cell>)
      ensures fresh(cells) && cells.Length0 == DIM && cells.Length1 == DIM
      ensures forall i, j :: 0 <= i < DIM && 0 <= j < DIM ==> cells[i, j] == Empty
    {
      cells := new Cell[DIM, DIM];
      for i := 0 to DIM
        invariant forall r, c :: 0 <= r < i && 0 <= c < DIM ==> cells[r, c] == Empty
      {
        for j := 0 to DIM
          invariant forall r, c :: 0 <= r < i && 0 <= c < DIM ==> cells[r, c] == Empty
          invariant forall c :: 0 <= c < j ==> cells[i, c] == Empty
        {
          cells[i, j] := Empty;
        }
      }
    }

    /** Puts the target on the centre cell. */
    method PutTarget()
      requires Cells.Length0 == DIM && Cells.Length1 == DIM
      modifies this`Target, Cells
      ensures Target == Coord(CENTER, CENTER)
      ensures forall i, j {:trigger Cells[i, j]} :: InBounds(i, j) ==>
        Cells[i, j] == if Coord(i, j) == Target then Cell.Target else old(Cells[i, j])
    {
      Target := Coord(CENTER, CENTER);
      Cells[Target.row, Target.col] := Cell.Target;
    }

    /**
     * Blocks each drawn cell in turn. The draws stand for the random ones:
     * each lands on a cell that is EMPTY when it is drawn.
     */
    method GenTerrain(blocks: seq<Coord>)
      requires Cells.Length0 == DIM && Cells.Length1 == DIM
      requires forall k :: 0 <= k < |blocks| ==>
        InBounds(blocks[k].row, blocks[k].col) && Cells[blocks[k].row, blocks[k].col] == Empty
      requires forall k, l :: 0 <= k < l < |blocks| ==> blocks[k] != blocks[l]
      modifies Cells
      ensures forall i, j {:trigger Cells[i, j]} :: InBounds(i, j) ==>
        Cells[i, j] == if Coord(i, j) in blocks then Blocked else old(Cells[i, j])
    {
      for k := 0 to |blocks|
        invariant forall i, j {:trigger Cells[i, j]} :: InBounds(i, j) ==>
          Cells[i, j] == if Coord(i, j) in blocks[..k] then Blocked else old(Cells[i, j])
      {
        var b := blocks[k];
        assert b !in blocks[..k];
        assert Cells[b.row, b.col] == Empty;
        Cells[b.row, b.col] := Blocked;
        assert blocks[..k + 1] == blocks[..k] + [b];
      }
      assert blocks[..|blocks|] == blocks;
    }

    /** Resets the board: empty grid, target in the centre, terrain, counters. */
    method NewGame(terrain: seq<Coord>)
      requires IsTerrain(terrain)
      modifies this
      ensures Valid() && fresh(Cells)
      ensures Target == Coord(CENTER, CENTER) && !Surrounded && Moves == 0 && moves == old(moves)
      ensures forall i, j {:trigger Cells[i, j]} :: InBounds(i, j) ==> Cells[i, j] == StartCell(terrain, i, j)
    {
      Cells := NewBoard();
      Surrounded := false;
      PutTarget();
      GenTerrain(terrain);
      Moves := 0;
    }

    /**
     * The breadth-first search from the target over EMPTY cells, and the
     * cell the target steps to: towards the nearest boundary node, or, when
     * none is reachable, towards the farthest node, raising Surrounded.
     */
    method GetNextMove() returns (next: Coord, ghost nodes: seq<Node>, ghost chosen: nat)
      requires Valid()
      modifies this`Surrounded
      ensures Valid()
      ensures Selected(old(Grid()), old(Target), nodes, chosen, next, old(Surrounded), Surrounded)
      ensures InBounds(next.row, next.col) && (next == Target || Cells[next.row, next.col] == Empty)
    {
      var surrounded;
      next, surrounded, nodes, chosen := ChooseMove(Grid(), Target, Surrounded);
      Surrounded := surrounded;
    }

    /**
     * Moves the target to the cell the search chose: only the old and the new
     * target cells change (SelectedIsOneStep and SelectedStaysOnBoundary say
     * where that cell can be).
     */
    method Move() returns (ghost nodes: seq<Node>, ghost chosen: nat)
      requires Valid()
      modifies this`Target, this`Surrounded, Cells
      ensures Valid()
      ensures Selected(old(Grid()), old(Target), nodes, chosen, Target, old(Surrounded), Surrounded)
      ensures forall i, j {:trigger Cells[i, j]} :: InBounds(i, j) ==>
        Cells[i, j] == if Coord(i, j) == Target then Cell.Target
                       else if Coord(i, j) == old(Target) then Empty
                       else old(Cells[i, j])
    {
      var next;
      next, nodes, chosen := GetNextMove();
      StepTo(next);
    }

    /** Empties the target's cell and puts the target on next. */
    method StepTo(next: Coord)
      requires Valid() && InBounds(next.row, next.col)
      requires next == Target || Cells[next.row, next.col] == Empty
      modifies this`Target, Cells
      ensures Valid() && Target == next
      ensures forall i, j {:trigger Cells[i, j]} :: InBounds(i, j) ==>
        Cells[i, j] == if Coord(i, j) == next then Cell.Target
                       else if Coord(i, j) == old(Target) then Empty
                       else old(Cells[i, j])
    {
      Cells[Target.row, Target.col] := Empty;
      Target := next;
      Cells[Target.row, Target.col] := Cell.Target;
    }

    /**
     * The player's block: on an EMPTY cell it places a block, counts the
     * move in `moves` and lets the target reply; on any other cell, or a
     * column off the board, nothing changes. Moves is never touched. The
     * reply reads neither counter, so the count is taken after it here.
     */
    method Block(row: int, col: int) returns (ghost nodes: seq<Node>, ghost chosen: nat)
      requires Valid() && 0 <= row < DIM
      modifies this`moves, this`Target, this`Surrounded, Cells
      ensures Valid() && Moves == old(Moves)
      ensures !old(IsValid(Grid(), row, col)) ==>
        && (forall i, j {:trigger Cells[i, j]} :: InBounds(i, j) ==> Cells[i, j] == old(Cells[i, j]))
        && Target == old(Target) && Surrounded == old(Surrounded) && moves == old(moves)
      ensures old(IsValid(Grid(), row, col)) ==>
        && moves == old(moves) + 1
        && Selected(Placed(old(Grid()), row, col, Blocked), old(Target), nodes, chosen, Target,
                    old(Surrounded), Surrounded)
        && forall i, j {:trigger Cells[i, j]} :: InBounds(i, j) ==>
             Cells[i, j] == if Coord(i, j) == Target then Cell.Target
                            else if Coord(i, j) == old(Target) then Empty
                            else if i == row && j == col then Blocked
                            else old(Cells[i, j])
    {
      nodes, chosen := [], 0;
      if 0 <= col < DIM && Cells[row, col] == Empty {
        PutBlock(row, col);
        nodes, chosen := Move();
        moves := moves + 1;
      }
    }

    /** As Block, but counting the move in Moves. */
    method PlaceBlock(row: int, col: int) returns (ghost nodes: seq<Node>, ghost chosen: nat)
      requires Valid() && 0 <= row < DIM
      modifies this`Moves, this`Target, this`Surrounded, Cells
      ensures Valid()
      ensures !old(IsValid(Grid(), row, col)) ==>
        && (forall i, j {:trigger Cells[i, j]} :: InBounds(i, j) ==> Cells[i, j] == old(Cells[i, j]))
        && Target == old(Target) && Surrounded == old(Surrounded) && Moves == old(Moves)
      ensures old(IsValid(Grid(), row, col)) ==>
        && Moves == old(Moves) + 1
        && Selected(Placed(old(Grid()), row, col, Blocked), old(Target), nodes, chosen, Target,
                    old(Surrounded), Surrounded)
        && forall i, j {:trigger Cells[i, j]} :: InBounds(i, j) ==>
             Cells[i, j] == if Coord(i, j) == Target then Cell.Target
                            else if Coord(i, j) == old(Target) then Empty
                            else if i == row && j == col then Blocked
                            else old(Cells[i, j])
    {
      nodes, chosen := [], 0;
      if 0 <= col < DIM && Cells[row, col] == Empty {
        PutBlock(row, col);
        nodes, chosen := Move();
        Moves := Moves + 1;
      }
    }

    /** Writes a block onto an EMPTY cell. */
    method PutBlock(row: int, col: int)
      requires Valid() && InBounds(row, col) && Cells[row, col] == Empty
      modifies Cells
      ensures Valid()
      ensures Grid() == Placed(old(Grid()), row, col, Blocked)
      ensures forall i, j {:trigger Cells[i, j]} :: InBounds(i, j) ==>
        Cells[i, j] == if i == row && j == col then Blocked else old(Cells[i, j])
    {
      ghost var g0 := old(Grid());
      Cells[row, col] := Blocked;
      GridExt(Grid(), Placed(g0, row, col, Blocked));
    }

    /** The player has lost iff the target has a hex neighbour off the board. */
    function Lose(): (lost: bool)
      reads this, Cells
      requires Valid()
      ensures lost <==> IsEscapeNode(Target.row, Target.col)
      ensures lost <==> exists k :: 0 <= k < 6 && !InBounds(Candidate(Target.row, Target.col, k).row,
                                                            Candidate(Target.row, Target.col, k).col)
    {
      EscapeIffOffBoardNeighbor(Target.row, Target.col);
      Target.row == 0 || Target.row == DIM - 1 || Target.col == 0 || Target.col == DIM - 1
    }

    /**
     * The player has won iff the target has no listed neighbour: every
     * listed neighbour is EMPTY, so none of them can be a block.
     */
    function Win(): (won: bool)
      reads this, Cells
      requires Valid()
      ensures won <==> Neighbors(Grid(), Target.row, Target.col) == []
      ensures won <==> forall k :: 0 <= k < 6 ==>
        !IsValid(Grid(), Candidate(Target.row, Target.col, k).row, Candidate(Target.row, Target.col, k).col)
    {
      var g := Grid();
      AllBlockedIffNoNeighbor(g, Target.row, Target.col);
      AllBlocked(g, Neighbors(g, Target.row, Target.col))
    }
  }
}
