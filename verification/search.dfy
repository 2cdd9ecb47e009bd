/**
 * The breadth-first search by which the target chooses its move.
 *
 * Search nodes are kept in an arena `nodes` in the order they were created.
 * Since every node is pushed onto the FIFO queue exactly when it is created,
 * the queue at any moment is nodes[head..] and the dequeue order is the
 * arena order. A node's parent is the arena index of the node that
 * enqueued it; the root (the target's cell) is nodes[0] and has no parent.
 */
module Search {
  import opened Hex

  datatype Option<T> = None | Some(value: T)

  datatype Node = Node(row: int, col: int, dist: nat, parent: Option<nat>) {
    function Pos(): Coord { Coord(row, col) }

    /** The parent's arena index; 0 for the root, which has none. */
    function ParentIndex(): nat { if parent.Some? then parent.value else 0 }
  }

  /** The parent links form a tree rooted at nodes[0], with dist = depth. */
  ghost predicate Linked(nodes: seq<Node>) {
    && |nodes| > 0
    && nodes[0].dist == 0
    && nodes[0].parent == None
    && (forall k :: 0 < k < |nodes| ==> nodes[k].parent.Some? && nodes[k].parent.value < k)
    // Triggered on ParentIndex so that instances do not chase the parent chain.
    && (forall k {:trigger nodes[k].ParentIndex()} :: 0 < k < |nodes| ==>
          nodes[k].dist == nodes[nodes[k].ParentIndex()].dist + 1)
  }

  /** The cells from the root to nodes[k] along the parent chain. */
  ghost function ChainPath(nodes: seq<Node>, k: nat): (p: seq<Coord>)
    requires Linked(nodes) && k < |nodes|
    ensures |p| == nodes[k].dist + 1
    ensures p[0] == nodes[0].Pos() && p[|p| - 1] == nodes[k].Pos()
    decreases k
  {
    if nodes[k].parent.None? then [nodes[k].Pos()]
    else ChainPath(nodes, nodes[k].ParentIndex()) + [nodes[k].Pos()]
  }

  /** The arena indices from the root to nodes[k] along the parent chain. */
  ghost function Ancestry(nodes: seq<Node>, k: nat): (c: seq<nat>)
    requires Linked(nodes) && k < |nodes|
    ensures |c| == nodes[k].dist + 1
    ensures c[0] == 0 && c[|c| - 1] == k
    decreases k
  {
    if nodes[k].parent.None? then [k]
    else Ancestry(nodes, nodes[k].ParentIndex()) + [k]
  }

  /** A walk over the board in which every step goes to a listed neighbour. */
  ghost predicate IsPath(g: Grid, p: seq<Coord>)
    requires WellFormed(g)
  {
    |p| > 0 && forall i :: 0 <= i < |p| - 1 ==> p[i + 1] in Neighbors(g, p[i].row, p[i].col)
  }

  ghost predicate PathFrom(g: Grid, p: seq<Coord>, a: Coord)
    requires WellFormed(g)
  {
    IsPath(g, p) && p[0] == a
  }

  /** A walk from a that ends on the boundary. */
  ghost predicate EscapeWalk(g: Grid, p: seq<Coord>, a: Coord)
    requires WellFormed(g)
  {
    PathFrom(g, p, a) && IsEscapeNode(p[|p| - 1].row, p[|p| - 1].col)
  }

  /** Every listed neighbour of every node is itself a node, at most one level deeper. */
  ghost predicate Closed(g: Grid, nodes: seq<Node>)
    requires WellFormed(g)
  {
    forall k, x :: 0 <= k < |nodes| && x in Neighbors(g, nodes[k].row, nodes[k].col) ==>
      exists j :: 0 <= j < |nodes| && nodes[j].Pos() == x && nodes[j].dist <= nodes[k].dist + 1
  }

  /**
   * What a completed search from root leaves behind: the root first with
   * dist 0 and no parent; every other node a listed neighbour of its parent
   * with dist one more; no cell twice; dist non-decreasing in dequeue order;
   * and nothing reachable left out.
   */
  ghost predicate IsTrace(g: Grid, root: Coord, nodes: seq<Node>)
    requires WellFormed(g)
  {
    && Linked(nodes)
    && nodes[0].Pos() == root
    && (forall k {:trigger nodes[k].ParentIndex()} :: 0 < k < |nodes| ==>
          nodes[k].Pos() in Neighbors(g, nodes[nodes[k].ParentIndex()].row, nodes[nodes[k].ParentIndex()].col))
    && (forall i, j :: 0 <= i < j < |nodes| ==> nodes[i].Pos() != nodes[j].Pos())
    && Monotone(nodes)
    && Closed(g, nodes)
  }

  ghost predicate HasEscape(nodes: seq<Node>) {
    exists k :: 0 <= k < |nodes| && IsEscapeNode(nodes[k].row, nodes[k].col)
  }

  /**
   * m is the boundary node the strict comparison keeps: no boundary node is
   * nearer, and every boundary node dequeued before it is farther.
   */
  ghost predicate NearestEscape(nodes: seq<Node>, m: nat) {
    && m < |nodes|
    && IsEscapeNode(nodes[m].row, nodes[m].col)
    && forall k :: 0 <= k < |nodes| && IsEscapeNode(nodes[k].row, nodes[k].col) ==>
         nodes[m].dist <= nodes[k].dist && (k < m ==> nodes[m].dist < nodes[k].dist)
  }

  /** m is the first dequeued node of greatest dist. */
  ghost predicate Farthest(nodes: seq<Node>, m: nat) {
    && m < |nodes|
    && forall k :: 0 <= k < |nodes| ==>
         nodes[k].dist <= nodes[m].dist && (k < m ==> nodes[k].dist < nodes[m].dist)
  }

  /**
   * The outcome of one move selection from root on g: the search trace, the
   * chosen node (nearest boundary node, or farthest node when no boundary
   * node was found, which raises the surrounded flag), and the cell taken,
   * which is the first step of the chosen node's parent chain.
   */
  ghost predicate Selected(g: Grid, root: Coord, nodes: seq<Node>, chosen: nat, next: Coord,
                           wasSurrounded: bool, surrounded: bool)
    requires WellFormed(g)
  {
    && InBounds(root.row, root.col)
    && nodes == Explored(g, root, |nodes|)
    && Linked(nodes)
    && chosen < |nodes|
    && (if HasEscape(nodes)
        then NearestEscape(nodes, chosen) && surrounded == wasSurrounded
        else Farthest(nodes, chosen) && surrounded)
    && next == (if chosen == 0 then root else ChainPath(nodes, chosen)[1])
  }

  // ---------------------------------------------------------------------
  // Loop invariants of the search

  /** Every cell of the board. */
  ghost function AllCoords(): (s: set<Coord>)
    ensures forall x {:trigger x in s} :: x in s <==> InBounds(x.row, x.col)
  {
    set r, c | 0 <= r < DIM && 0 <= c < DIM :: Coord(r, c)
  }

  /** `at` maps every visited cell to the arena index of its node, and back. */
  ghost predicate Indexed(nodes: seq<Node>, at: map<Coord, nat>) {
    && (forall x {:trigger x in at} :: x in at ==> at[x] < |nodes| && nodes[at[x]].Pos() == x && InBounds(x.row, x.col))
    && (forall k :: 0 <= k < |nodes| ==> nodes[k].Pos() in at && at[nodes[k].Pos()] == k)
  }

  /**
   * The arena is a tree of listed neighbours rooted at root, in
   * non-decreasing order of dist.
   */
  ghost predicate Tree(g: Grid, root: Coord, nodes: seq<Node>)
    requires WellFormed(g)
  {
    && Linked(nodes)
    && nodes[0].Pos() == root
    && (forall k {:trigger nodes[k].ParentIndex()} :: 0 < k < |nodes| ==>
          nodes[k].Pos() in Neighbors(g, nodes[nodes[k].ParentIndex()].row, nodes[nodes[k].ParentIndex()].col))
    && Monotone(nodes)
  }

  ghost predicate Monotone(nodes: seq<Node>) {
    forall i, j :: 0 <= i < j < |nodes| ==> nodes[i].dist <= nodes[j].dist
  }

  /** From the queue's head on, dist spans at most two levels. */
  ghost predicate Spread(nodes: seq<Node>, settled: nat) {
    && settled <= |nodes|
    && (0 < |nodes| && settled < |nodes| ==> nodes[|nodes| - 1].dist <= nodes[settled].dist + 1)
  }

  /** Every listed neighbour of each of the first `settled` nodes is visited, at most one level deeper. */
  ghost predicate Expanded(g: Grid, nodes: seq<Node>, settled: nat, at: map<Coord, nat>)
    requires WellFormed(g)
  {
    && settled <= |nodes|
    && forall k, x {:trigger x in Neighbors(g, nodes[k].row, nodes[k].col)} ::
         0 <= k < settled && x in Neighbors(g, nodes[k].row, nodes[k].col) ==>
         x in at && at[x] < |nodes| && nodes[at[x]].dist <= nodes[k].dist + 1
  }

  /**
   * The state of the search with `settled` nodes dequeued and expanded: the
   * arena is a tree of listed neighbours with no cell twice, dist is
   * non-decreasing and spans at most two levels from the queue's head on,
   * and every listed neighbour of an expanded node has been visited.
   */
  ghost predicate Frontier(g: Grid, root: Coord, nodes: seq<Node>, settled: nat, at: map<Coord, nat>)
    requires WellFormed(g)
  {
    Tree(g, root, nodes) && Spread(nodes, settled) && Indexed(nodes, at) && Expanded(g, nodes, settled, at)
  }

  /**
   * minIdx records the boundary node kept so far among the first `head`
   * nodes (strict comparison: the first of least dist), or there is none.
   */
  ghost predicate MinSoFar(nodes: seq<Node>, head: nat, minDist: Option<nat>, minIdx: nat) {
    && head <= |nodes|
    && if minDist.None? then
         forall k :: 0 <= k < head ==> !IsEscapeNode(nodes[k].row, nodes[k].col)
       else
         && minIdx < head
         && IsEscapeNode(nodes[minIdx].row, nodes[minIdx].col)
         && nodes[minIdx].dist == minDist.value
         && forall k :: 0 <= k < head && IsEscapeNode(nodes[k].row, nodes[k].col) ==>
              nodes[minIdx].dist <= nodes[k].dist && (k < minIdx ==> nodes[minIdx].dist < nodes[k].dist)
  }

  /**
   * maxIdx records the first node of greatest dist among the first `head`
   * nodes; before any node is dequeued it is the root.
   */
  ghost predicate MaxSoFar(nodes: seq<Node>, head: nat, maxDist: nat, maxIdx: nat) {
    && head <= |nodes|
    && maxIdx < |nodes|
    && (maxIdx < head || maxIdx == 0)
    && nodes[maxIdx].dist == maxDist
    && forall k :: 0 <= k < head ==>
         nodes[k].dist <= maxDist && (k < maxIdx ==> nodes[k].dist < maxDist)
  }

  /** The search starts with the root alone, visited and unexpanded. */
  lemma FrontierStart(g: Grid, root: Coord)
    requires WellFormed(g) && InBounds(root.row, root.col)
    ensures Frontier(g, root, [Node(root.row, root.col, 0, None)], 0, map[root := 0])
  {
  }

  /** Enqueuing an unvisited listed neighbour of the node being expanded keeps the invariant. */
  lemma {:induction false} FrontierAppend(g: Grid, root: Coord, nodes: seq<Node>, cur: nat, at: map<Coord, nat>, n: Node)
    requires WellFormed(g) && Frontier(g, root, nodes, cur, at) && cur < |nodes|
    requires n.parent == Some(cur) && n.dist == nodes[cur].dist + 1
    requires n.Pos() in Neighbors(g, nodes[cur].row, nodes[cur].col) && n.Pos() !in at
    ensures Frontier(g, root, nodes + [n], cur, at[n.Pos() := |nodes|])
  {
    TreeAppend(g, root, nodes, cur, n);
    IndexedAppend(nodes, at, n);
    ExpandedAppend(g, nodes, cur, at, n);
  }

  lemma {:induction false} TreeAppend(g: Grid, root: Coord, nodes: seq<Node>, cur: nat, n: Node)
    requires WellFormed(g) && Tree(g, root, nodes) && Spread(nodes, cur) && cur < |nodes|
    requires n.parent == Some(cur) && n.dist == nodes[cur].dist + 1
    requires n.Pos() in Neighbors(g, nodes[cur].row, nodes[cur].col)
    ensures Tree(g, root, nodes + [n]) && Spread(nodes + [n], cur)
  {
    LinkedAppend(nodes, cur, n);
    MonotoneAppend(nodes, cur, n);
    var nodes' := nodes + [n];
    forall k | 0 < k < |nodes'|
      ensures nodes'[k].Pos() in Neighbors(g, nodes'[nodes'[k].ParentIndex()].row, nodes'[nodes'[k].ParentIndex()].col)
    {
      if k < |nodes| { assert nodes'[k] == nodes[k]; }
    }
  }

  lemma {:induction false} LinkedAppend(nodes: seq<Node>, cur: nat, n: Node)
    requires Linked(nodes) && cur < |nodes|
    requires n.parent == Some(cur) && n.dist == nodes[cur].dist + 1
    ensures Linked(nodes + [n])
  {
    var nodes' := nodes + [n];
    forall k | 0 < k < |nodes'|
      ensures nodes'[k].parent.Some? && nodes'[k].parent.value < k
      ensures nodes'[k].dist == nodes'[nodes'[k].ParentIndex()].dist + 1
    {
      if k < |nodes| { assert nodes'[k] == nodes[k]; }
    }
  }

  lemma {:induction false} MonotoneAppend(nodes: seq<Node>, cur: nat, n: Node)
    requires Monotone(nodes) && Spread(nodes, cur) && cur < |nodes|
    requires n.dist == nodes[cur].dist + 1
    ensures Monotone(nodes + [n]) && Spread(nodes + [n], cur)
  {
    var nodes' := nodes + [n];
    forall i, j | 0 <= i < j < |nodes'|
      ensures nodes'[i].dist <= nodes'[j].dist
    {
      if j == |nodes| {
        assert nodes[i].dist <= nodes[|nodes| - 1].dist;
      } else {
        assert nodes'[i] == nodes[i] && nodes'[j] == nodes[j];
      }
    }
  }

  lemma {:induction false} IndexedAppend(nodes: seq<Node>, at: map<Coord, nat>, n: Node)
    requires Indexed(nodes, at) && n.Pos() !in at && InBounds(n.row, n.col)
    ensures Indexed(nodes + [n], at[n.Pos() := |nodes|])
  {
    var nodes' := nodes + [n];
    var at' := at[n.Pos() := |nodes|];
    forall k | 0 <= k < |nodes'|
      ensures nodes'[k].Pos() in at' && at'[nodes'[k].Pos()] == k
    {
      if k < |nodes| {
        assert nodes[k].Pos() in at;
      }
    }
  }

  lemma {:induction false} ExpandedAppend(g: Grid, nodes: seq<Node>, cur: nat, at: map<Coord, nat>, n: Node)
    requires WellFormed(g) && Expanded(g, nodes, cur, at) && n.Pos() !in at
    ensures Expanded(g, nodes + [n], cur, at[n.Pos() := |nodes|])
  {
    var nodes' := nodes + [n];
    forall k, x | 0 <= k < cur && x in Neighbors(g, nodes'[k].row, nodes'[k].col)
      ensures x in at && at[x] < |nodes'| && nodes'[at[x]].dist <= nodes'[k].dist + 1
    {
      assert nodes'[k] == nodes[k];
      assert nodes'[at[x]] == nodes[at[x]];
    }
  }

  /** Every cell of xs is visited, on a node of dist at most bound. */
  ghost predicate Covered(nodes: seq<Node>, at: map<Coord, nat>, xs: seq<Coord>, bound: nat) {
    forall x {:trigger x in xs} :: x in xs ==> x in at && at[x] < |nodes| && nodes[at[x]].dist <= bound
  }

  lemma {:induction false} CoveredAppend(nodes: seq<Node>, at: map<Coord, nat>, xs: seq<Coord>, bound: nat, n: Node)
    requires Covered(nodes, at, xs, bound) && n.Pos() !in at
    ensures Covered(nodes + [n], at[n.Pos() := |nodes|], xs, bound)
  {
    forall x | x in xs
      ensures (nodes + [n])[at[x]] == nodes[at[x]]
    {
    }
  }

  /** A visited cell lies on a node at most one level deeper than the head of the queue. */
  lemma {:induction false} VisitedNearHead(g: Grid, root: Coord, nodes: seq<Node>, cur: nat, at: map<Coord, nat>, x: Coord)
    requires WellFormed(g) && Frontier(g, root, nodes, cur, at) && cur < |nodes| && x in at
    ensures at[x] < |nodes| && nodes[at[x]].dist <= nodes[cur].dist + 1
  {
    assert at[x] < |nodes|;
    assert nodes[at[x]].dist <= nodes[|nodes| - 1].dist by { assert Monotone(nodes); }
  }

  /** Once all its listed neighbours are visited, the node at the head is expanded. */
  lemma {:induction false} FrontierAdvance(g: Grid, root: Coord, nodes: seq<Node>, cur: nat, at: map<Coord, nat>)
    requires WellFormed(g) && Frontier(g, root, nodes, cur, at) && cur < |nodes|
    requires Covered(nodes, at, Neighbors(g, nodes[cur].row, nodes[cur].col), nodes[cur].dist + 1)
    ensures Frontier(g, root, nodes, cur + 1, at)
  {
    assert Spread(nodes, cur + 1) by {
      if cur + 1 < |nodes| {
        assert nodes[cur].dist <= nodes[cur + 1].dist by { assert Monotone(nodes); }
      }
    }
  }

  /** Appending nodes does not disturb what the records say about the first head nodes. */
  lemma {:induction false} RecordsExtend(nodes: seq<Node>, more: seq<Node>, head: nat,
                      minDist: Option<nat>, minIdx: nat, maxDist: nat, maxIdx: nat)
    requires MinSoFar(nodes, head, minDist, minIdx) && MaxSoFar(nodes, head, maxDist, maxIdx)
    ensures MinSoFar(nodes + more, head, minDist, minIdx) && MaxSoFar(nodes + more, head, maxDist, maxIdx)
  {
    assert forall k :: 0 <= k < |nodes| ==> (nodes + more)[k] == nodes[k];
  }

  /** Dequeuing nodes[head] updates the records by strict comparison. */
  lemma RecordsStep(nodes: seq<Node>, head: nat, minDist: Option<nat>, minIdx: nat, maxDist: nat, maxIdx: nat)
    requires MinSoFar(nodes, head, minDist, minIdx) && MaxSoFar(nodes, head, maxDist, maxIdx)
    requires head < |nodes|
    ensures var n := nodes[head];
      var escapes := IsEscapeNode(n.row, n.col) && (minDist.None? || minDist.value > n.dist);
      MinSoFar(nodes, head + 1, if escapes then Some(n.dist) else minDist, if escapes then head else minIdx)
    ensures var n := nodes[head];
      MaxSoFar(nodes, head + 1, if maxDist < n.dist then n.dist else maxDist,
               if maxDist < n.dist then head else maxIdx)
  {
  }

  /** A search whose every node is expanded has produced a trace. */
  lemma {:induction false} FrontierDone(g: Grid, root: Coord, nodes: seq<Node>, at: map<Coord, nat>)
    requires WellFormed(g) && Frontier(g, root, nodes, |nodes|, at)
    ensures IsTrace(g, root, nodes)
  {
    forall k, x | 0 <= k < |nodes| && x in Neighbors(g, nodes[k].row, nodes[k].col)
      ensures exists j :: 0 <= j < |nodes| && nodes[j].Pos() == x && nodes[j].dist <= nodes[k].dist + 1
    {
      var j := at[x];
    }
    forall i, j | 0 <= i < j < |nodes|
      ensures nodes[i].Pos() != nodes[j].Pos()
    {
      assert at[nodes[i].Pos()] == i && at[nodes[j].Pos()] == j;
    }
  }

  /** After the whole queue, the records are those of the trace's choice. */
  lemma RecordsDone(nodes: seq<Node>, minDist: Option<nat>, minIdx: nat, maxDist: nat, maxIdx: nat)
    requires MinSoFar(nodes, |nodes|, minDist, minIdx) && MaxSoFar(nodes, |nodes|, maxDist, maxIdx)
    ensures minDist.Some? <==> HasEscape(nodes)
    ensures minDist.Some? ==> NearestEscape(nodes, minIdx)
    ensures Farthest(nodes, maxIdx)
  {
  }

  // ---------------------------------------------------------------------
  // The search as a function of the board and the root

  /** The cells of the nodes created so far: the visited set. */
  ghost function Positions(nodes: seq<Node>): set<Coord> {
    set k | 0 <= k < |nodes| :: nodes[k].Pos()
  }

  /** One turn of the inner loop: x is enqueued unless already visited. */
  ghost function Enqueue(nodes: seq<Node>, cur: nat, d: nat, x: Coord): seq<Node> {
    if x in Positions(nodes) then nodes else nodes + [Node(x.row, x.col, d, Some(cur))]
  }

  /** The inner loop over xs, in order, with parent cur and dist d. */
  ghost function EnqueueAll(nodes: seq<Node>, cur: nat, d: nat, xs: seq<Coord>): seq<Node>
    decreases |xs|
  {
    if xs == [] then nodes
    else EnqueueAll(Enqueue(nodes, cur, d, xs[0]), cur, d, xs[1..])
  }

  /** Dequeuing and expanding nodes[cur]. */
  ghost function Expand(g: Grid, nodes: seq<Node>, cur: nat): seq<Node>
    requires WellFormed(g) && cur < |nodes|
  {
    EnqueueAll(nodes, cur, nodes[cur].dist + 1, Neighbors(g, nodes[cur].row, nodes[cur].col))
  }

  /** Expanding nodes[cur] runs the inner loop over all its listed neighbours. */
  lemma {:induction false} ExpandStart(g: Grid, nodes: seq<Node>, cur: nat, d: nat, xs: seq<Coord>)
    requires WellFormed(g) && cur < |nodes|
    requires d == nodes[cur].dist + 1 && xs == Neighbors(g, nodes[cur].row, nodes[cur].col)
    ensures Expand(g, nodes, cur) == EnqueueAll(nodes, cur, d, xs[0..])
  {
    assert xs[0..] == xs;
  }

  /** The arena once the first h nodes have been dequeued and expanded. */
  ghost function Explored(g: Grid, root: Coord, h: nat): seq<Node>
    requires WellFormed(g)
    decreases h
  {
    if h == 0 then [Node(root.row, root.col, 0, None)]
    else
      var nodes := Explored(g, root, h - 1);
      if h - 1 < |nodes| then Expand(g, nodes, h - 1) else nodes
  }

  lemma {:induction false} PositionsAppend(nodes: seq<Node>, n: Node)
    ensures Positions(nodes + [n]) == Positions(nodes) + {n.Pos()}
  {
    var nodes' := nodes + [n];
    forall x | x in Positions(nodes)
      ensures x in Positions(nodes')
    {
      var k :| 0 <= k < |nodes| && nodes[k].Pos() == x;
      assert nodes'[k] == nodes[k];
    }
    assert nodes'[|nodes|] == n;
  }

  /** `at` indexes exactly the visited cells. */
  lemma {:induction false} IndexedPositions(nodes: seq<Node>, at: map<Coord, nat>, x: Coord)
    requires Indexed(nodes, at)
    ensures x in at <==> x in Positions(nodes)
  {
    if x in at {
      assert nodes[at[x]].Pos() == x;
    }
    if x in Positions(nodes) {
      var k :| 0 <= k < |nodes| && nodes[k].Pos() == x;
      assert nodes[k].Pos() in at;
    }
  }

  /** The inner loop only appends. */
  lemma {:induction false} EnqueueAllExtends(nodes: seq<Node>, cur: nat, d: nat, xs: seq<Coord>)
    ensures var r := EnqueueAll(nodes, cur, d, xs);
      && |nodes| <= |r| && r == nodes + r[|nodes|..] && Positions(nodes) <= Positions(r)
      && (|nodes| < |r| ==> Positions(nodes) < Positions(r))
    decreases |xs|
  {
    if xs != [] {
      var b := Enqueue(nodes, cur, d, xs[0]);
      EnqueueAllExtends(b, cur, d, xs[1..]);
      var r := EnqueueAll(b, cur, d, xs[1..]);
      if xs[0] !in Positions(nodes) {
        var n := Node(xs[0].row, xs[0].col, d, Some(cur));
        PositionsAppend(nodes, n);
        assert r[..|nodes|] == b[..|nodes|];
        assert xs[0] in Positions(b) - Positions(nodes);
      }
    }
  }

  /** Covered for one more cell. */
  lemma CoveredSnoc(nodes: seq<Node>, at: map<Coord, nat>, ys: seq<Coord>, bound: nat, x: Coord)
    requires Covered(nodes, at, ys, bound)
    requires x in at && at[x] < |nodes| && nodes[at[x]].dist <= bound
    ensures Covered(nodes, at, ys + [x], bound)
  {
  }

  /** One turn of the inner loop keeps the trace invariant and visits x. */
  lemma {:induction false} EnqueueFrontier(g: Grid, root: Coord, nodes: seq<Node>, cur: nat, d: nat, at: map<Coord, nat>,
                        ys: seq<Coord>, x: Coord) returns (at': map<Coord, nat>)
    requires WellFormed(g) && Frontier(g, root, nodes, cur, at) && cur < |nodes|
    requires d == nodes[cur].dist + 1
    requires x in Neighbors(g, nodes[cur].row, nodes[cur].col)
    requires Covered(nodes, at, ys, d)
    ensures var r := Enqueue(nodes, cur, d, x);
      && Frontier(g, root, r, cur, at') && cur < |r| && r[cur] == nodes[cur]
      && Covered(r, at', ys + [x], d)
  {
    IndexedPositions(nodes, at, x);
    if x in Positions(nodes) {
      at' := at;
      VisitedNearHead(g, root, nodes, cur, at, x);
      CoveredSnoc(nodes, at, ys, d, x);
    } else {
      var n := Node(x.row, x.col, d, Some(cur));
      FrontierAppend(g, root, nodes, cur, at, n);
      CoveredAppend(nodes, at, ys, d, n);
      at' := at[n.Pos() := |nodes|];
      CoveredSnoc(nodes + [n], at', ys, d, x);
    }
  }

  /** Carries the trace invariant across an equality of arenas without unfolding it. */
  lemma FrontierSame(g: Grid, root: Coord, nodes: seq<Node>, nodes': seq<Node>, settled: nat, at: map<Coord, nat>)
    requires WellFormed(g) && Frontier(g, root, nodes, settled, at) && nodes == nodes'
    ensures Frontier(g, root, nodes', settled, at)
  {
  }

  /** Carries coverage across equalities of arenas and lists without unfolding it. */
  lemma CoveredSame(nodes: seq<Node>, nodes': seq<Node>, at: map<Coord, nat>, ys: seq<Coord>, ys': seq<Coord>, bound: nat)
    requires Covered(nodes, at, ys, bound) && nodes == nodes' && ys == ys'
    ensures Covered(nodes', at, ys', bound)
  {
  }

  /** One unfolding of the inner loop. */
  lemma EnqueueAllUnfold(nodes: seq<Node>, cur: nat, d: nat, xs: seq<Coord>)
    requires xs != []
    ensures EnqueueAll(nodes, cur, d, xs) == EnqueueAll(Enqueue(nodes, cur, d, xs[0]), cur, d, xs[1..])
  {
  }

  /** One turn of the inner loop: nodes' is nodes with xs[i] enqueued, and i' = i + 1. */
  lemma {:induction false} EnqueueAllAt(nodes: seq<Node>, nodes': seq<Node>, cur: nat, d: nat, xs: seq<Coord>, i: nat, i': nat)
    requires i < |xs| && i' == i + 1 && nodes' == Enqueue(nodes, cur, d, xs[i])
    ensures EnqueueAll(nodes, cur, d, xs[i..]) == EnqueueAll(nodes', cur, d, xs[i'..])
  {
    assert xs[i..][0] == xs[i] && xs[i..][1..] == xs[i'..];
  }

  /** Splitting a non-empty list into its head and the rest. */
  lemma {:induction false} SplitHead(ys: seq<Coord>, xs: seq<Coord>)
    requires xs != []
    ensures ys + [xs[0]] + xs[1..] == ys + xs
  {
    assert [xs[0]] + xs[1..] == xs;
  }

  /**
   * The inner loop over listed neighbours of c = nodes[cur] keeps the trace
   * invariant and visits every one of them.
   */
  lemma {:induction false} EnqueueAllFrontier(g: Grid, root: Coord, nodes: seq<Node>, cur: nat, d: nat,
                                              at: map<Coord, nat>, ys: seq<Coord>, xs: seq<Coord>)
    returns (at': map<Coord, nat>)
    requires WellFormed(g) && Frontier(g, root, nodes, cur, at) && cur < |nodes|
    requires d == nodes[cur].dist + 1
    requires forall x :: x in xs ==> x in Neighbors(g, nodes[cur].row, nodes[cur].col)
    requires Covered(nodes, at, ys, d)
    ensures var r := EnqueueAll(nodes, cur, d, xs);
      && Frontier(g, root, r, cur, at') && cur < |r| && r[cur] == nodes[cur]
      && Covered(r, at', ys + xs, d)
    decreases |xs|
  {
    if xs == [] {
      at' := at;
      assert ys + xs == ys;
    } else {
      var b := Enqueue(nodes, cur, d, xs[0]);
      var at1 := EnqueueFrontier(g, root, nodes, cur, d, at, ys, xs[0]);
      assert forall x :: x in xs[1..] ==> x in xs;
      at' := EnqueueAllFrontier(g, root, b, cur, d, at1, ys + [xs[0]], xs[1..]);
      var r := EnqueueAll(b, cur, d, xs[1..]);
      EnqueueAllUnfold(nodes, cur, d, xs);
      SplitHead(ys, xs);
      FrontierSame(g, root, r, EnqueueAll(nodes, cur, d, xs), cur, at');
      CoveredSame(r, EnqueueAll(nodes, cur, d, xs), at', ys + [xs[0]] + xs[1..], ys + xs, d);
    }
  }

  /** Expanding the node at the head settles it. */
  lemma {:induction false} ExpandFrontier(g: Grid, root: Coord, nodes: seq<Node>, cur: nat, settled: nat, nodes': seq<Node>,
                       at: map<Coord, nat>) returns (at': map<Coord, nat>)
    requires WellFormed(g) && Frontier(g, root, nodes, cur, at) && cur < |nodes| && settled == cur + 1
    requires nodes' == Expand(g, nodes, cur)
    ensures Frontier(g, root, nodes', settled, at')
  {
    var xs := Neighbors(g, nodes[cur].row, nodes[cur].col);
    assert Covered(nodes, at, [], nodes[cur].dist + 1);
    at' := EnqueueAllFrontier(g, root, nodes, cur, nodes[cur].dist + 1, at, [], xs);
    assert [] + xs == xs;
    FrontierAdvance(g, root, Expand(g, nodes, cur), cur, at');
    FrontierSame(g, root, Expand(g, nodes, cur), nodes', settled, at');
  }

  /** The arena after h expansions satisfies the trace invariant with h nodes settled. */
  lemma {:induction false} ExploredFrontier(g: Grid, root: Coord, h: nat) returns (at: map<Coord, nat>)
    requires WellFormed(g) && InBounds(root.row, root.col) && h <= |Explored(g, root, h)|
    ensures Frontier(g, root, Explored(g, root, h), h, at)
    decreases h
  {
    if h == 0 {
      FrontierStart(g, root);
      at := map[root := 0];
    } else {
      ExploredPrev(g, root, h);
      var prev := Explored(g, root, h - 1);
      var at0 := ExploredFrontier(g, root, h - 1);
      ExploredNext(g, root, h - 1, h, prev, Expand(g, prev, h - 1));
      at := ExpandFrontier(g, root, prev, h - 1, h, Explored(g, root, h), at0);
    }
  }

  /** A search that has not stopped before step h expanded node h - 1 to get there. */
  lemma ExploredPrev(g: Grid, root: Coord, h: nat)
    requires WellFormed(g) && 0 < h <= |Explored(g, root, h)|
    ensures h - 1 < |Explored(g, root, h - 1)|
  {
  }

  /** The arena stays ordered by dist, and every visited cell is on the board. */
  lemma {:induction false} ExploredShape(g: Grid, root: Coord, h: nat, nodes: seq<Node>)
    requires WellFormed(g) && InBounds(root.row, root.col)
    requires nodes == Explored(g, root, h) && h <= |nodes|
    ensures Monotone(nodes) && Positions(nodes) <= AllCoords()
  {
    var at := ExploredFrontier(g, root, h);
    FrontierSame(g, root, Explored(g, root, h), nodes, h, at);
    forall x | x in Positions(nodes)
      ensures x in AllCoords()
    {
      IndexedPositions(nodes, at, x);
    }
  }

  /**
   * An expansion only appends, and strictly grows the set of visited cells
   * whenever it appends at all.
   */
  lemma {:induction false} ExpandExtends(g: Grid, nodes: seq<Node>, cur: nat, nodes': seq<Node>)
    requires WellFormed(g) && cur < |nodes| && nodes' == Expand(g, nodes, cur)
    ensures |nodes| <= |nodes'| && nodes' == nodes + nodes'[|nodes|..]
    ensures |nodes| == |nodes'| ==> nodes' == nodes
    ensures |nodes| < |nodes'| ==> Positions(nodes) < Positions(nodes')
  {
    EnqueueAllExtends(nodes, cur, nodes[cur].dist + 1, Neighbors(g, nodes[cur].row, nodes[cur].col));
  }

  /** Expanding node h of the arena after h expansions gives the arena after h' = h + 1. */
  lemma ExploredNext(g: Grid, root: Coord, h: nat, h': nat, nodes: seq<Node>, nodes': seq<Node>)
    requires WellFormed(g) && h' == h + 1 && nodes == Explored(g, root, h) && h < |nodes|
    requires nodes' == Expand(g, nodes, h)
    ensures nodes' == Explored(g, root, h')
  {
  }

  /**
   * One step of the search loop: expanding node h extends the arena to the
   * one after h + 1 expansions, either unchanged or with new positions.
   */
  lemma {:induction false} ExploredAdvance(g: Grid, root: Coord, h: nat, h': nat, nodes: seq<Node>, nodes': seq<Node>)
    requires WellFormed(g) && InBounds(root.row, root.col)
    requires h' == h + 1 && nodes == Explored(g, root, h) && h < |nodes|
    requires nodes' == Expand(g, nodes, h)
    ensures nodes' == Explored(g, root, h') && h' <= |nodes'|
    ensures |nodes| <= |nodes'| && nodes' == nodes + nodes'[|nodes|..]
    ensures Monotone(nodes') && Positions(nodes') <= AllCoords()
    ensures |nodes| == |nodes'| ==> nodes' == nodes
    ensures |nodes| < |nodes'| ==> Positions(nodes) < Positions(nodes')
  {
    ExpandExtends(g, nodes, h, nodes');
    ExploredNext(g, root, h, h', nodes, nodes');
    ExploredShape(g, root, h', nodes');
  }

  /** A finished search has produced a trace. */
  lemma {:induction false} ExploredTrace(g: Grid, root: Coord, h: nat, nodes: seq<Node>)
    requires WellFormed(g) && InBounds(root.row, root.col)
    requires nodes == Explored(g, root, h) && h == |nodes|
    ensures IsTrace(g, root, nodes)
  {
    var at := ExploredFrontier(g, root, h);
    FrontierSame(g, root, Explored(g, root, h), nodes, h, at);
    FrontierDone(g, root, nodes, at);
  }

  /**
   * The selection made from the records of a finished search: the nearest
   * boundary node when there is one, the farthest node otherwise (raising
   * the surrounded flag), and the first step towards it.
   */
  lemma {:induction false} SelectedByRecords(g: Grid, root: Coord, nodes: seq<Node>, minDist: Option<nat>, minIdx: nat,
                          maxIdx: nat, step: nat, wasSurrounded: bool, surrounded: bool)
    requires WellFormed(g) && InBounds(root.row, root.col)
    requires nodes == Explored(g, root, |nodes|) && IsTrace(g, root, nodes)
    requires minDist.Some? <==> HasEscape(nodes)
    requires minDist.Some? ==> NearestEscape(nodes, minIdx)
    requires Farthest(nodes, maxIdx)
    requires surrounded == (minDist.None? || wasSurrounded)
    requires var pick := if minDist.None? then maxIdx else minIdx;
      && step < |nodes|
      && (nodes[pick].parent.None? ==> step == pick)
      && (nodes[pick].parent.Some? ==> nodes[step].Pos() == ChainPath(nodes, pick)[1])
    ensures Selected(g, root, nodes, if minDist.None? then maxIdx else minIdx, nodes[step].Pos(),
                     wasSurrounded, surrounded)
  {
    var pick := if minDist.None? then maxIdx else minIdx;
    OnlyRootAtZero(nodes, pick);
  }

  // ---------------------------------------------------------------------
  // Lemmas about search traces

  /** Only the root has dist 0. */
  lemma {:induction false} OnlyRootAtZero(nodes: seq<Node>, k: nat)
    requires Linked(nodes) && k < |nodes|
    ensures nodes[k].dist == 0 <==> k == 0
  {
    if k > 0 {
      assert nodes[k].dist == nodes[nodes[k].ParentIndex()].dist + 1;
    }
  }

  /** The parent chain of a node is a walk from the root of exactly dist steps. */
  lemma {:induction false} ChainIsPath(g: Grid, root: Coord, nodes: seq<Node>, k: nat)
    requires WellFormed(g) && IsTrace(g, root, nodes) && k < |nodes|
    ensures PathFrom(g, ChainPath(nodes, k), root)
    ensures |ChainPath(nodes, k)| == nodes[k].dist + 1
    decreases k
  {
    if k > 0 {
      var j := nodes[k].ParentIndex();
      ChainIsPath(g, root, nodes, j);
      var p := ChainPath(nodes, j);
      assert ChainPath(nodes, k) == p + [nodes[k].Pos()];
      assert p[|p| - 1] == nodes[j].Pos();
    }
  }

  /** Every walk from the root ends on a node no deeper than the walk is long. */
  lemma {:induction false} PathEndsOnNode(g: Grid, root: Coord, nodes: seq<Node>, p: seq<Coord>)
    requires WellFormed(g) && IsTrace(g, root, nodes) && PathFrom(g, p, root)
    ensures exists j :: 0 <= j < |nodes| && nodes[j].Pos() == p[|p| - 1] && nodes[j].dist <= |p| - 1
    decreases |p|
  {
    if |p| == 1 {
      assert nodes[0].Pos() == p[0];
    } else {
      var q := p[..|p| - 1];
      assert PathFrom(g, q, root) by {
        forall i | 0 <= i < |q| - 1
          ensures q[i + 1] in Neighbors(g, q[i].row, q[i].col)
        {
          assert q[i] == p[i] && q[i + 1] == p[i + 1];
        }
      }
      PathEndsOnNode(g, root, nodes, q);
      var j :| 0 <= j < |nodes| && nodes[j].Pos() == q[|q| - 1] && nodes[j].dist <= |q| - 1;
      var x := p[|p| - 1];
      assert x in Neighbors(g, p[|p| - 2].row, p[|p| - 2].col);
      assert p[|p| - 2] == nodes[j].Pos();
      assert Closed(g, nodes);
      var j' :| 0 <= j' < |nodes| && nodes[j'].Pos() == x && nodes[j'].dist <= nodes[j].dist + 1;
    }
  }

  /**
   * Each node's dist is the length of a shortest walk from the root to its
   * cell: the parent chain has that length, and no walk is shorter.
   */
  lemma {:induction false} DistIsShortest(g: Grid, root: Coord, nodes: seq<Node>, k: nat, p: seq<Coord>)
    requires WellFormed(g) && IsTrace(g, root, nodes) && k < |nodes|
    requires PathFrom(g, p, root) && p[|p| - 1] == nodes[k].Pos()
    ensures PathFrom(g, ChainPath(nodes, k), root)
    ensures nodes[k].dist <= |p| - 1
  {
    ChainIsPath(g, root, nodes, k);
    PathEndsOnNode(g, root, nodes, p);
    var j :| 0 <= j < |nodes| && nodes[j].Pos() == p[|p| - 1] && nodes[j].dist <= |p| - 1;
    assert j == k;
  }

  /** The search finds a boundary node iff some walk from the root reaches the boundary. */
  lemma {:induction false} HasEscapeIffReachable(g: Grid, root: Coord, nodes: seq<Node>)
    requires WellFormed(g) && IsTrace(g, root, nodes)
    ensures HasEscape(nodes) <==> exists p: seq<Coord> :: EscapeWalk(g, p, root)
  {
    if HasEscape(nodes) {
      var k :| 0 <= k < |nodes| && IsEscapeNode(nodes[k].row, nodes[k].col);
      ChainIsPath(g, root, nodes, k);
      var p := ChainPath(nodes, k);
      assert EscapeWalk(g, p, root);
    }
    if exists p: seq<Coord> :: EscapeWalk(g, p, root) {
      var p: seq<Coord> :| EscapeWalk(g, p, root);
      PathEndsOnNode(g, root, nodes, p);
      var j :| 0 <= j < |nodes| && nodes[j].Pos() == p[|p| - 1] && nodes[j].dist <= |p| - 1;
      assert IsEscapeNode(nodes[j].row, nodes[j].col);
    }
  }

  /**
   * When a boundary node is reachable, the chosen node's parent chain is a
   * shortest walk from the root to the boundary, and the move taken is its
   * first step.
   */
  lemma {:induction false} NearestEscapeIsShortest(g: Grid, root: Coord, nodes: seq<Node>, m: nat, p: seq<Coord>)
    requires WellFormed(g) && IsTrace(g, root, nodes) && NearestEscape(nodes, m)
    requires EscapeWalk(g, p, root)
    ensures EscapeWalk(g, ChainPath(nodes, m), root)
    ensures |ChainPath(nodes, m)| <= |p|
  {
    ChainIsPath(g, root, nodes, m);
    PathEndsOnNode(g, root, nodes, p);
    var j :| 0 <= j < |nodes| && nodes[j].Pos() == p[|p| - 1] && nodes[j].dist <= |p| - 1;
    assert IsEscapeNode(nodes[j].row, nodes[j].col);
  }

  /**
   * When no boundary node is reachable, every walk from the root ends on a
   * cell whose distance is at most that of the chosen node.
   */
  lemma {:induction false} FarthestIsFarthest(g: Grid, root: Coord, nodes: seq<Node>, m: nat, p: seq<Coord>)
    requires WellFormed(g) && IsTrace(g, root, nodes) && Farthest(nodes, m)
    requires PathFrom(g, p, root)
    ensures exists j :: 0 <= j < |nodes| && nodes[j].Pos() == p[|p| - 1] && nodes[j].dist <= nodes[m].dist
  {
    PathEndsOnNode(g, root, nodes, p);
  }

  /** The cell taken is the root itself or one of the root's listed neighbours. */
  lemma {:induction false} SelectedIsOneStep(g: Grid, root: Coord, nodes: seq<Node>, chosen: nat, next: Coord,
                          wasSurrounded: bool, surrounded: bool)
    requires WellFormed(g) && Selected(g, root, nodes, chosen, next, wasSurrounded, surrounded)
    ensures next == root || next in Neighbors(g, root.row, root.col)
    ensures chosen != 0 <==> next != root
  {
    ExploredTrace(g, root, |nodes|, nodes);
    if chosen != 0 {
      ChainIsPath(g, root, nodes, chosen);
      var p := ChainPath(nodes, chosen);
      assert next == p[1] && p[0] == root;
      assert p[1] in Neighbors(g, root.row, root.col);
      NotOwnNeighbor(g, root.row, root.col);
    }
  }

  /** No cell is its own listed neighbour (all six offsets are non-zero). */
  lemma {:induction false} NotOwnNeighbor(g: Grid, row: int, col: int)
    requires WellFormed(g)
    ensures Coord(row, col) !in Neighbors(g, row, col)
  {
    NeighborsExact(g, row, col);
    if Coord(row, col) in Neighbors(g, row, col) {
      var k :| 0 <= k < 6 && Candidate(row, col, k) == Coord(row, col);
      OffsetNonZero(row, k);
      assert false;
    }
  }

  /** A target already on the boundary stays where it is. */
  lemma {:induction false} SelectedStaysOnBoundary(g: Grid, root: Coord, nodes: seq<Node>, chosen: nat, next: Coord,
                                wasSurrounded: bool, surrounded: bool)
    requires WellFormed(g) && Selected(g, root, nodes, chosen, next, wasSurrounded, surrounded)
    requires IsEscapeNode(root.row, root.col)
    ensures chosen == 0 && next == root && surrounded == wasSurrounded
  {
    ExploredTrace(g, root, |nodes|, nodes);
    assert HasEscape(nodes) by {
      assert IsEscapeNode(nodes[0].row, nodes[0].col);
    }
    assert nodes[chosen].dist <= nodes[0].dist;
    OnlyRootAtZero(nodes, chosen);
  }

  /** The search distance of the root is 0, and of each listed neighbour of the root 1. */
  lemma {:induction false} RootAndNeighborDistances(g: Grid, root: Coord, nodes: seq<Node>, x: Coord)
    requires WellFormed(g) && IsTrace(g, root, nodes)
    requires x in Neighbors(g, root.row, root.col)
    ensures nodes[0].Pos() == root && nodes[0].dist == 0
    ensures exists j :: 0 < j < |nodes| && nodes[j].Pos() == x && nodes[j].dist == 1
  {
    ClosedAt(g, nodes, 0, x);
    var j :| 0 <= j < |nodes| && nodes[j].Pos() == x && nodes[j].dist <= 1;
    NotOwnNeighbor(g, root.row, root.col);
    OnlyRootAtZero(nodes, j);
  }

  /** Closedness at one node and one listed neighbour. */
  lemma ClosedAt(g: Grid, nodes: seq<Node>, k: nat, x: Coord)
    requires WellFormed(g) && Closed(g, nodes) && k < |nodes|
    requires x in Neighbors(g, nodes[k].row, nodes[k].col)
    ensures exists j :: 0 <= j < |nodes| && nodes[j].Pos() == x && nodes[j].dist <= nodes[k].dist + 1
  {
  }

  /** With no listed neighbour around the root, the search visits the root alone. */
  lemma {:induction false} IsolatedRootAlone(g: Grid, root: Coord, nodes: seq<Node>)
    requires WellFormed(g) && IsTrace(g, root, nodes)
    requires Neighbors(g, root.row, root.col) == []
    ensures |nodes| == 1
  {
    if |nodes| > 1 {
      SecondNodeBesideRoot(g, root, nodes);
      assert false;
    }
  }

  /** The second node dequeued is a listed neighbour of the root. */
  lemma {:induction false} SecondNodeBesideRoot(g: Grid, root: Coord, nodes: seq<Node>)
    requires WellFormed(g) && IsTrace(g, root, nodes) && |nodes| > 1
    ensures nodes[1].Pos() in Neighbors(g, root.row, root.col)
  {
    assert nodes[1].ParentIndex() == 0;
  }

  /** With no listed neighbour around it, the target chooses its own cell and stays. */
  lemma {:induction false} SelectedIsolatedStays(g: Grid, root: Coord, nodes: seq<Node>, chosen: nat, next: Coord,
                                                 wasSurrounded: bool, surrounded: bool)
    requires WellFormed(g) && Selected(g, root, nodes, chosen, next, wasSurrounded, surrounded)
    requires Neighbors(g, root.row, root.col) == []
    ensures chosen == 0 && next == root
    ensures surrounded == (wasSurrounded || !IsEscapeNode(root.row, root.col))
  {
    ExploredTrace(g, root, |nodes|, nodes);
    IsolatedRootAlone(g, root, nodes);
    assert HasEscape(nodes) <==> IsEscapeNode(nodes[0].row, nodes[0].col);
  }

  // ---------------------------------------------------------------------
  // The selection is determined by the board, the root and the old flag

  /** A step past the end of the arena leaves it as it is. */
  lemma ExploredIdle(g: Grid, root: Coord, k: nat, k': nat, nodes: seq<Node>)
    requires WellFormed(g) && k' == k + 1 && Explored(g, root, k) == nodes && |nodes| <= k
    ensures Explored(g, root, k') == nodes
  {
  }

  /** Once every node of the arena has been dequeued, further steps change nothing. */
  lemma {:induction false} ExploredStays(g: Grid, root: Coord, nodes: seq<Node>, h: nat)
    requires WellFormed(g) && nodes == Explored(g, root, |nodes|) && |nodes| <= h
    ensures Explored(g, root, h) == nodes
    decreases h
  {
    if |nodes| < h {
      var k := h - 1;
      ExploredStays(g, root, nodes, k);
      ExploredIdle(g, root, k, h, nodes);
    }
  }

  /** There is only one finished search from root on g. */
  lemma {:induction false} ExploredUnique(g: Grid, root: Coord, n1: seq<Node>, n2: seq<Node>)
    requires WellFormed(g) && n1 == Explored(g, root, |n1|) && n2 == Explored(g, root, |n2|)
    ensures n1 == n2
  {
    if |n1| <= |n2| {
      ExploredStays(g, root, n1, |n2|);
    } else {
      ExploredStays(g, root, n2, |n1|);
    }
  }

  /** The strict comparison singles out one nearest boundary node. */
  lemma NearestEscapeUnique(nodes: seq<Node>, m1: nat, m2: nat)
    requires NearestEscape(nodes, m1) && NearestEscape(nodes, m2)
    ensures m1 == m2
  {
  }

  /** The strict comparison singles out one farthest node. */
  lemma FarthestUnique(nodes: seq<Node>, m1: nat, m2: nat)
    requires Farthest(nodes, m1) && Farthest(nodes, m2)
    ensures m1 == m2
  {
    assert nodes[m1].dist == nodes[m2].dist;
  }

  /**
   * The move is deterministic: the arena, the chosen node, the cell taken
   * and the new flag are all fixed by the board, the root and the old flag.
   */
  lemma {:induction false} SelectedFunctional(g: Grid, root: Coord, wasSurrounded: bool,
                                              n1: seq<Node>, c1: nat, x1: Coord, s1: bool,
                                              n2: seq<Node>, c2: nat, x2: Coord, s2: bool)
    requires WellFormed(g)
    requires Selected(g, root, n1, c1, x1, wasSurrounded, s1)
    requires Selected(g, root, n2, c2, x2, wasSurrounded, s2)
    ensures n1 == n2 && c1 == c2 && x1 == x2 && s1 == s2
  {
    ExploredUnique(g, root, n1, n2);
    if HasEscape(n1) {
      NearestEscapeUnique(n1, c1, c2);
    } else {
      FarthestUnique(n1, c1, c2);
    }
  }
}
