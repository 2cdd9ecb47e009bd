# Trap-the-target rule engine in Dafny

This project models the rule engine of a hex-grid puzzle played on a fixed
9 x 9 board. A target token sits on the centre cell. The player blocks one
EMPTY cell per turn, and after each block the target answers with a move of
its own. The target moves by a breadth-first search over EMPTY cells, taking
one step towards the nearest boundary cell. When no boundary cell can be
reached it raises the `Surrounded` flag and steps towards the farthest
reachable cell instead. The player loses when the target stands on the
boundary, and wins when the target has no EMPTY hex neighbour.

The model is organised in four modules, one per part of `game.js`:

- `Hex` (hex.dfy) holds the cell rules: the three cell states, bounds, the
  move test `IsValid`, boundary cells, and the hex neighbours taken from two
  offset tables chosen by row parity.
- `NodeSets` (nodeset.dfy) holds the visited set of the search: coordinates
  packed into the key `row * 97 + col`, kept in a set that only grows.
- `Search` (search.dfy) holds the search as a specification. Nodes live in
  an arena in creation order, so the FIFO queue is always a suffix of the
  arena, and a node's parent is an arena index. `Explored(g, root, h)` is
  the arena after h dequeues. `IsTrace` collects what a finished search
  guarantees, and `Selected` says which node is chosen and which cell is
  taken. The lemmas about these state shortest distances, the first-found
  tie-break and the one-step move.
- `Game` (game.dfy) holds the imperative part. `Board` is a class over an
  `array2<Cell>` with the fields `Target`, `Surrounded`, `Moves` and
  `moves`. The search loop, the inner neighbour loop and the parent walk
  are methods with loop invariants, proved against the `Search`
  specification.

`Valid()` is the board invariant: a 9 x 9 grid with exactly one TARGET cell,
the one at `Target`. `NewGame` and the constructor establish it, and every
method called on a live board (`GetNextMove`, `Move`, `StepTo`, `Block`,
`PlaceBlock`, `PutBlock`) keeps it. `PutTarget` and `GenTerrain` are steps
of `NewGame` on a half-built board and state their cell effect instead.

The choice of move is deterministic: `Search.SelectedFunctional` shows that
the arena, the chosen node, the cell taken and the new flag are fixed by the
board, the target and the old flag. So the `Selected` clause in the
contracts of `GetNextMove`, `Move`, `Block` and `PlaceBlock` pins down the
new state completely.

## Model

| member | source | states |
|---|---|---|
| Hex.IsValid | game.js:55-58 | a move may go onto a cell that is in bounds and EMPTY |
| Hex.IsEscapeNode | game.js:107-110 | a cell is a boundary cell when its row or column is 0 or DIM - 1 |
| Hex.NeighborsFrom | game.js:70-76 | the neighbour loop from table position i on: at most 6 - i coordinates, each in bounds and EMPTY |
| Hex.Neighbors | game.js:60-78 | at most six neighbours, each in bounds and EMPTY |
| Hex.NeighborsExact | game.js:60-78 | the neighbours are exactly the table candidates that pass the move test, listed in table order with no repeats |
| Hex.NeighborsFromMembers | game.js:70-76 | from table position i on, the loop lists exactly the valid candidates at positions i..5 |
| Hex.NeighborsFromOrdered | game.js:70-76 | from table position i on, the loop lists candidates at strictly increasing table positions |
| Hex.OffsetNonZero | game.js:62-68 | every entry of both offset tables moves the cell |
| Hex.CandidateSymmetric | game.js:62-68 | hex adjacency is symmetric: from the cell reached by direction i, direction (i + 3) mod 6 leads back |
| Hex.EscapeIffOffBoardNeighbor | game.js:107-110 | an in-bounds cell is a boundary cell iff one of its six hex neighbours is off the board |
| Hex.AllBlocked | game.js:184-190 | the win loop: true iff every listed coordinate holds a block |
| Hex.AllBlockedIffNoNeighbor | game.js:182-191 | all listed neighbours are blocks iff there are none, iff no table candidate is in bounds and EMPTY |
| Hex.WinAndLoseCanCoincide | game.js:177-191 | there is a board whose target is on the boundary and has no listed neighbour, so both end tests hold |
| NodeSets.Hash | game.js:93-95 | the key of a coordinate: row * 97 + col |
| NodeSets.HashInjective | game.js:93-95 | two keys with columns below 97 are equal iff both rows and both columns are equal |
| NodeSets.HashInjectiveOnBoard | game.js:93-95 | keys of board cells never collide |
| NodeSets.NodeSet.constructor | game.js:89-91 | a new set is empty |
| NodeSets.NodeSet.Add | game.js:97-100 | after adding a cell it is in the set; for board cells no other membership changes |
| NodeSets.NodeSet.Has | game.js:102-105 | a cell is in the set when its key is |
| Search.Enqueue | game.js:146-150 | one turn of the inner loop: a neighbour is appended, one level deeper with the expanded node as parent, unless its cell is already visited |
| Search.EnqueueAll | game.js:145-151 | the inner loop over a list of neighbours, in order |
| Search.Expand | game.js:144-151 | dequeuing one node: the inner loop over its listed neighbours |
| Search.Explored | game.js:125-152 | the arena after h dequeues of the search from the target: the root alone, then one expansion per dequeued node |
| Search.Ancestry | game.js:112-121 | the arena indices along the parent chain: dist + 1 of them, from the root's index to the node's |
| Search.ChainPath | game.js:144-151 | the chain from the root to a node has dist + 1 cells, starting at the root and ending at the node |
| Search.OnlyRootAtZero | game.js:127 | only the root has dist 0 |
| Search.ExpandExtends | game.js:144-151 | expanding a node only appends to the arena, and every append adds a cell not visited before |
| Search.ExploredShape | game.js:125-152 | after any number of dequeues, dist never decreases along the arena and every visited cell is on the board |
| Search.ExploredAdvance | game.js:132-152 | one pass of the search loop extends the arena to the one after the next dequeue, either unchanged or with a new cell |
| Search.ExploredTrace | game.js:125-152 | a finished search is a trace: root first with dist 0 and no parent; every other node a listed neighbour of its parent with dist one more; no cell twice; dist non-decreasing; every listed neighbour of a node is a node |
| Search.RecordsStep | game.js:134-143 | dequeuing a node with strict comparisons keeps the nearest boundary node and the farthest node, first found first |
| Search.RecordsDone | game.js:153-157 | at the end the nearest-boundary record is set iff a boundary node was found, and the two records are the first-found nearest boundary node and the first-found farthest node |
| Search.SelectedByRecords | game.js:153-157 | picking the nearest boundary record, or the farthest record while raising the flag, then walking its chain, is the selection |
| Search.ChainIsPath | game.js:112-121 | a node's parent chain is a walk from the root over listed neighbours, dist steps long |
| Search.PathEndsOnNode | game.js:144-151 | every walk from the root ends on a visited cell whose dist is at most the walk's length |
| Search.DistIsShortest | game.js:146 | each node's dist is the length of a shortest walk from the root to its cell |
| Search.HasEscapeIffReachable | game.js:153 | the search finds a boundary node iff some walk from the target reaches the boundary |
| Search.NearestEscapeIsShortest | game.js:134-139 | the chosen boundary node's chain is a shortest walk from the target to the boundary |
| Search.FarthestIsFarthest | game.js:140-143 | no reachable cell is farther from the target than the farthest record |
| Search.SelectedIsOneStep | game.js:153-157 | the cell taken is the target's own cell or one of its listed neighbours, and it is the own cell iff the root was chosen |
| Search.NotOwnNeighbor | game.js:60-78 | no cell is its own listed neighbour |
| Search.SelectedStaysOnBoundary | game.js:134-139 | a target already on the boundary chooses itself, stays put and leaves the flag alone |
| Search.RootAndNeighborDistances | game.js:127-151 | the root has dist 0 and each of its listed neighbours is a node with dist 1 |
| Search.ClosedAt | game.js:144-151 | each listed neighbour of a node is itself a node at most one level deeper |
| Search.IsolatedRootAlone | game.js:144-152 | with no listed neighbour around the target the search visits only the root |
| Search.SelectedIsolatedStays | game.js:153-157 | with no listed neighbour the root is chosen and the target stays; the flag is raised unless the target is on the boundary |
| Search.ExploredIdle | game.js:132 | a step past the end of the arena leaves it as it is |
| Search.ExploredStays | game.js:132-152 | once every node has been dequeued, further steps leave the arena as it is |
| Search.ExploredUnique | game.js:125-152 | there is only one finished search from a given target on a given board |
| Search.NearestEscapeUnique | game.js:134-139 | the strict comparison singles out one nearest boundary node |
| Search.FarthestUnique | game.js:140-143 | the strict comparison singles out one farthest node |
| Search.SelectedFunctional | game.js:123-158 | the move is deterministic: the arena, the chosen node, the cell taken and the new flag are fixed by the board, the target and the old flag |
| Search.SecondNodeBesideRoot | game.js:144-151 | the second node dequeued is a listed neighbour of the target |
| Game.Explore | game.js:123-152 | the search loop produces exactly the arena of the specification, which is a trace, with the nearest boundary record set iff a boundary node was found and the two records first found |
| Game.Visit | game.js:133-151 | one turn of the search loop gives the arena after one more dequeue, which is unchanged or has a new cell, with the visited set and both records kept |
| Game.Settle | game.js:133-143 | one dequeue updates the two records by strict comparison, keeping them first-found over one more node |
| Game.ExpandNode | game.js:144-151 | the inner loop enqueues exactly the unvisited listed neighbours, in table order, and the visited set keeps matching the arena |
| Game.Offer | game.js:146-150 | one neighbour is enqueued and marked visited iff its cell was not visited |
| Game.GetNextParent | game.js:112-121 | returns the node itself when it has no parent, otherwise the index of the ancestor whose parent is the root (the second entry of the chain of indices), a node at dist 1 at the cell of the chain's first step |
| Game.ChooseMove | game.js:132-157 | the search and the choice made from its records form the selection, and the cell taken is the target's or one it may move onto |
| Game.Board.constructor | game.js:3-10 | a new board is valid, with the target at the centre, no flag, zero moves and the given terrain |
| Game.Board.NewBoard | game.js:12-24 | a fresh 9 x 9 grid of EMPTY cells |
| Game.Board.PutTarget | game.js:35-39 | the target is at (4, 4) and only that cell changes, to TARGET |
| Game.Board.GenTerrain | game.js:41-53 | each drawn cell becomes a block and no other cell changes |
| Game.Board.NewGame | game.js:80-87 | the board is valid, the target is at the centre, the flag is cleared, Moves is 0 and `moves` is untouched, and every cell is its start value for the terrain |
| Game.Board.GetNextMove | game.js:123-158 | the chosen cell is the selection for the current board, in bounds and EMPTY unless it is the target's own; only the flag changes |
| Game.Board.Move | game.js:160-166 | the target goes to the selected cell; only the old cell (now EMPTY) and the new cell (now TARGET) change, and exactly one TARGET remains |
| Game.Board.StepTo | game.js:163-165 | empties the old target cell and puts TARGET on the given cell, keeping exactly one TARGET |
| Game.Board.Block | game.js:168-175 | on a cell that is not EMPTY, or a column off the board, nothing changes; on an EMPTY cell it becomes a block, `moves` grows by one, the target makes the selected move for the blocked board, and Moves never changes |
| Game.Board.PlaceBlock | game.js:168-175 | as Block, with the same cell-by-cell effect, but the move is counted in Moves |
| Game.Board.PutBlock | game.js:171 | an EMPTY cell becomes a block and nothing else changes |
| Game.Board.Lose | game.js:177-180 | true iff the target is on the boundary, iff one of its hex neighbours is off the board |
| Game.Board.Win | game.js:182-191 | true iff the target has no listed neighbour, iff no table candidate around it is in bounds and EMPTY |

## Left out

- Random terrain: `_randInt` and `_randPos` (game.js:26-33) use `Math.random` and floating point. The board constructor, `NewGame` and `GenTerrain` take the drawn block cells as an input, described by `IsTerrain`: between 8 and 16 distinct board cells, none of them the centre. The retry loop that redraws until it hits an EMPTY cell is replaced by the requirement that each given cell is EMPTY when it is drawn.
- The `Number.MAX_VALUE` sentinel of the nearest-boundary record is an `Option`: `None` means no boundary node was dequeued.
- Search nodes and their parent references are arena entries with a parent index. The queue is the arena suffix from `head` on. `GetNextMove` returns the chosen coordinate rather than the node object.
- The NodeSet's string keys (`'h' + key`, looked up by `hasOwnProperty`) are integer keys in a `set<int>`.
- Cells are a three-valued datatype rather than the numbers 0, 1 and 2.
- Game.Board.Block: a row off the board is a precondition. In the original, `Cells[row]` is then undefined and the access throws.
- Game.Board.Block: in the original `moves` starts undefined, so its increment yields NaN. The model starts the field at 0 and counts.
- Game.Board.Block: the original increments `moves` before the target's reply. The model increments it after. The reply reads neither counter, so the final state is the same.
- The end conditions are not mutually exclusive. A target in a corner whose on-board neighbours are all blocks satisfies both `Lose` and `Win`; see `Hex.WinAndLoseCanCoincide`. The model follows the code here, so which test a caller checks first decides the outcome.

## Findings

| source | as written | input that shows it | evidently intended | confidence | as-written member | corrected member |
|---|---|---|---|---|---|---|
| game.js:172 | `block` increments `self.moves`, a field that exists nowhere else, so the move counter `Moves` that `newGame` resets (game.js:86) never changes | any `block(row, col)` on an EMPTY cell: afterwards `Moves` is still 0 | each placed block increments `Moves` | not executed | Game.Board.Block | Game.Board.PlaceBlock |
