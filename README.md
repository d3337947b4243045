# A* solver for the 3×4 sliding-tile puzzle

This project models the search engine of `aStarSearch.py`: an A* solver for a puzzle
of 12 cells, 11 numbered tiles and one blank. It proves properties of that model in
Dafny.

- **Board** (`board.dfy`). A state lists 12 cells. Entry 0 is the blank; entry k is
  tile k. A valid state is a bijection onto the 3×4 grid. A move slides the blank U,
  D, L or R. It is refused when the target cell is off the board. Otherwise the blank
  swaps places with the tile in the target cell. `Replay` applies a sequence of moves.
  `Boards(12)` is the finite universe of boards, used for termination.
- **Heuristic** (`heuristic.dfy`). The Manhattan distance (`Node.__sub__`). It sums
  the row and column distances of tiles 1..11 and leaves out the blank.
- **Nodes** (`nodes.dfy`). A node holds its state, its action list `g`, `h` and `f`.
  The parent link is held as a value, since a node never changes once built.
  `WellFormed` says which nodes the search can build.
- **Frontier** (`frontier.dfy`). Covers three things:
  - `getLowestFNodeIndex`, including the 100000 sentinel and the -1 result;
  - Python's `pop` with a negative index;
  - `checkUnique`, together with the registry invariant that no state is held twice.
- **AStar** (`search.dfy`). The expansion loop and the search loop
  (`getSolutionNode`). The class-level open and closed lists become the fields of a
  `Search` session object.
- **Report** (`report.dfy`). The four-line text of `Node.__str__`.

Main results:
- A returned node holds the goal. Replaying its actions from the root reproduces the
  goal.
- `NoSolution` is reported only when no action sequence leads from the root to the
  goal.
- The search always terminates: each round moves a new state into the explored list,
  and there are finitely many boards.
- For the goal node, `f` equals the path length. The printed `f` trail therefore has
  |g|+1 entries. It starts with the root's `f`, ends with |g| and never decreases.

For a goal reached in one move, `f = h + len(g) = 0 + 1 = 1`, so the printed trail
ends with 1; `Report.GoalTrail` proves that the last entry of the trail is |g|.

## Model

| member | source | states |
|---|---|---|
| Board.Target | aStarSearch.py:15-15 | each action moves the blank exactly one cell (Manhattan distance 1) |
| Board.IndexOf | aStarSearch.py:123-123 | `list.index`: the first index holding the cell; no earlier entry holds it |
| Board.Move | aStarSearch.py:116-124 | a move is made exactly when the new blank cell lies within rows 1..3 and columns 1..4, and the blank then sits on that cell |
| Board.SwapKeepsBoard | aStarSearch.py:122-124 | exchanging the blank with a tile keeps the state a bijection onto the 12 cells |
| Board.MoveSwapsBlank | aStarSearch.py:116-124 | a permitted move yields a valid state equal to the parent with entry 0 and the entry of the tile at the target cell exchanged, and nothing else changed |
| Board.MoveInverse | aStarSearch.py:15-15 | the opposite action undoes a move, so the parent state is recovered unchanged |
| Board.ReplayAppend | aStarSearch.py:127-128 | replaying g plus one action is replaying g and then moving, and replays stay valid states |
| Board.ReplayStaysInClosedSet | aStarSearch.py:104-137 | every replay from a state in a move-closed set stays in that set |
| Board.ValidStateIsBoard | aStarSearch.py:2-3 | every valid state is one of the finitely many boards |
| Heuristic.ManhattanDistance | aStarSearch.py:36-45 | the loop over tiles 1..11 returns the sum of their row and column distances |
| Heuristic.ManhattanZeroIff | aStarSearch.py:36-45 | the distance is zero exactly when tiles 1..11 sit in the same cells; the blank is ignored |
| Heuristic.ManhattanOfSelf | aStarSearch.py:36-45 | the distance from a state to itself is zero |
| Heuristic.ManhattanSymmetric | aStarSearch.py:36-45 | the distance does not depend on the order of its arguments |
| Heuristic.ManhattanConsistent | aStarSearch.py:36-45 | one move changes the distance by at most one in either direction |
| Nodes.RootIsWellFormed | aStarSearch.py:98-101 | the root node `RootNode` has g = [], h = the heuristic to the goal and f = h |
| Nodes.ChildIsWellFormed | aStarSearch.py:127-131 | a child built by `ChildNode` from a permitted move is well formed: it has g = parent's g plus the action, h = its heuristic and f = h + len(g) |
| Nodes.WellFormedReplays | aStarSearch.py:125-131 | replaying a built node's g from the root reproduces its state, and its depth in the parent chain is len(g) |
| Nodes.AncestorsAreWellFormed | aStarSearch.py:24-25 | every ancestor along the parent chain is a built node, and the topmost one is the root node |
| Nodes.ParentFNotLarger | aStarSearch.py:130-131 | a child's f is never below its parent's f |
| Nodes.GoalNodeCosts | aStarSearch.py:112-113 | a node holding the goal has h = 0 and f = len(g) = its depth |
| Frontier.LowestFIndex | aStarSearch.py:73-80 | -1 exactly when every f is at least 100000 (so also for the empty list); otherwise an index with the least f, and no earlier index has that f |
| Frontier.PopPosition | aStarSearch.py:106-106 | the position `pop` removes: the index itself, or for a negative index that many from the end |
| Frontier.CheckUnique | aStarSearch.py:84-92 | true exactly when no node of either list holds the state |
| Frontier.NotInStateSet | aStarSearch.py:84-92 | a state is absent from a list's state set exactly when no node of the list holds it |
| Frontier.RemoveKeepsRegistry | aStarSearch.py:106-106 | popping from open (`RemoveAt`, the list without entry k) keeps no-repeats and disjointness; the popped state is then in neither list, and nothing else leaves open |
| Frontier.AppendFresh | aStarSearch.py:133-133 | appending a node with a new state keeps the list free of repeats and adds exactly that state |
| AStar.TryMoveAppends | aStarSearch.py:122-133 | the child built by copying and swapping equals the move's result, and a unique child is appended to open |
| AStar.TryMoveSkips | aStarSearch.py:119-125 | open is unchanged when the blank cannot move or when the child's state is already in either list |
| AStar.InvAppend | aStarSearch.py:125-133 | appending a built node with a new state keeps every node built and no state held twice |
| AStar.TryMoveStep | aStarSearch.py:116-133 | trying one action keeps the invariant and only adds to open; the action's successor ends up in one of the lists |
| AStar.CoversStep | aStarSearch.py:117-117 | covering the first k actions plus action k covers the first k+1 |
| AStar.CoversAll | aStarSearch.py:117-117 | covering U, D, L and R in order covers every successor |
| AStar.PopKeepsInv | aStarSearch.py:106-106 | the popped node is built, its state is in neither list afterwards, and the invariant holds |
| AStar.RetireStep | aStarSearch.py:134-134 | moving the expanded node to closed keeps the invariant and the closure property, and strictly shrinks the set of unexplored boards |
| AStar.TryAction | aStarSearch.py:118-133 | one pass of the action loop produces exactly the frontier TryMove describes |
| AStar.ExpandNode | aStarSearch.py:116-133 | expansion tries U, D, L, R in order and appends each unique child |
| AStar.ExpansionKeepsInv | aStarSearch.py:116-133 | expansion keeps the invariant, keeps the expanded state out of open, only adds to open, and places every successor in one of the lists |
| AStar.Search.constructor | aStarSearch.py:18-20 | a new session starts with empty open and closed lists |
| AStar.Search.Solve | aStarSearch.py:97-137 | a returned node is built, holds the goal, replays from the root to the goal, and is in neither list; no solution means open is empty and no action sequence reaches the goal; the loop's decreases clause (unexplored boards) proves termination |
| Report.NatStr | aStarSearch.py:55-56 | `str` of a number is a non-empty digit string with no leading zero |
| Report.NatStrRoundTrip | aStarSearch.py:55-56 | reading the printed digits back gives the number |
| Report.NatStrInjective | aStarSearch.py:55-56 | different numbers print differently |
| Report.JoinActionsShape | aStarSearch.py:57-57 | `' '.join(g)` (`JoinActions`) has the action letters (`Symbol`: U, D, L, R, the values of `ACTIONS`) at even positions and spaces between them, 2·len(g)−1 characters |
| Report.JoinActionsDetermines | aStarSearch.py:57-57 | the joined text determines the action list |
| Report.FTrail | aStarSearch.py:59-63 | the trail after k parent steps has k+1 entries and ends with the node's own f |
| Report.AncestorStep | aStarSearch.py:61-62 | `currNode = currNode.parent` reaches the next ancestor up |
| Report.Render | aStarSearch.py:54-69 | the text is len(g), the open-plus-closed count, the joined actions and the f trail printed and joined by single spaces (`JoinNats`), on four lines |
| Report.FTrailSorted | aStarSearch.py:59-63 | along a built node's ancestors the f trail never decreases |
| Report.FTrailStartsAtRoot | aStarSearch.py:59-63 | the full trail starts with the root's f |
| Report.GoalTrail | aStarSearch.py:55-65 | for the goal node the trail walks exactly len(g) links and has len(g)+1 non-decreasing entries, from the root's heuristic to len(g) |

## Left out

- `readInput`, `main`, the module-level call to `main` and the file copying and writing are not modelled. They are file and console I/O.
- `__repr__` and the drivers `testGetSolutionNode` and `testGetLowest` are not modelled. They only print.
- The class-level `openList` and `closedList` are shared by every search in the process. `getSolutionNode` never clears them, and `main` clears them only after a successful solve, so a search after an unsolvable one starts with the earlier lists. `AStar.Search.Solve` resets them at the start of every search and does not model those leftovers.
- The mutable default argument `g=[]` of `Node.__init__` is not modelled. Every node in the model gets its own action list.
- Parent links are held as immutable values, not as object references. Object identity and aliasing between nodes are not modelled.
- `Nodes.SameState` models `Node.__eq__`, which compares states only. The search never calls it; `checkUnique` and the goal test compare states directly, so no contract is stated about it.
- The states passed to the search must be valid bijections onto the grid. The code does no validation, and the model's `ValidState` requires drop what it then does: a state that lacks the blank's target cell makes `childState.index` raise `ValueError` (aStarSearch.py:123); a state shorter than 12 entries makes `__sub__` raise `IndexError` (aStarSearch.py:39-40); a state with repeated cells makes `index` take the first match and the search runs over non-boards.
- Report.Render: requires that the node has at least f ancestors. For any other node the code reads `.f` of `None` and fails; the goal node meets the requirement (`Report.GoalTrail`).
- Report.Render: the two counts are passed in as the lengths of the session's lists rather than read from shared class state.
- Optimality of the returned path is not proved. Duplicates are discarded with no cost comparison, as the code does.
