# n-puzzle solver: a verified Dafny model

This project models the search engine of an n×n sliding-tile puzzle solver (`solve.py`, lines 8–257) and proves what it promises.

A state is a board together with the blank's position before the last move. The board is a sequence of n rows; the previous position is (-1, -1) before any move. The engine has six parts:

- It builds and checks boards: `init_state`, `is_final_state`, `find_empty_cell` and `check_duplicates`.
- It generates moves: `can_move`, `move_cell` and `move`. Move generation refuses the move that would put the blank straight back on its previous row (up/down) or column (left/right).
- It scores states with three integer heuristics: Manhattan, Hamming and Chebyshev.
- It tests solvability by inversion parity: `count_inversions` and `is_solvable`.
- It searches for the goal in four ways:
  - breadth-first, with a FIFO list;
  - depth-first, with a LIFO list;
  - A*, with a priority queue ordered by (g + h, g);
  - iterative deepening: `iddfs` over `dls` over `recursive_dls`, which keeps a visited set scoped to the current path and a global descent counter.

## Module layout

- `Common`: `Option`, `Result`, the solver's exceptions as an `Error` value, and small facts about sets, sequences and Euclidean division.
- `Board`: boards, states, flattening, the goal board, `init_state`, `find_empty_cell`, `is_final_state` and `check_duplicates`.
- `Moves`: directions, `can_move`, `move_cell` (a method that copies the rows and swaps two cells) and `move`.
- `Heuristics`: `get_goal_positions` and the three heuristics. Each is a per-tile cost summed over the flattened board. `manhattan_distance` and `chebyshev_distance` are nested-loop methods proved equal to that sum.
- `Solvability`: `count_inversions` (a nested-loop method), the inversion count as a function, and `is_solvable`.
- `Search`: move paths, the expansion loop, `bfs` and `dfs`. Both are proved sound (every answer is a goal at the end of a move path) and complete (no answer means no goal is reachable). The frontier invariant they share is "every visited state is covered".
- `AStar`: the priority queue as a sequence of entries, `heappop` as "the first entry no other entry precedes", and `a_star`, proved with the same frontier invariant.
- `Iddfs`: the class `DepthLimitedSearch`, whose fields are the shared visited set and the move counter, with `recursive_dls`, `dls` and `iddfs` as methods.
  - `recursive_dls` is proved equal to a reference function, `Explore`.
  - `Explore` is then proved sound, complete for paths that visit no state twice, and bounded in its descent count.
  - A path that revisits a state can be cut back to one that does not, so completeness extends to all move paths.
  - Hence every pass of `iddfs` that fails rules out all goals within that depth, and the first success is a shortest goal path.
  - `iddfs` is proved equal to a second reference function, `IddfsRun`: the answer of the first pass whose `dls` succeeds, with the counter summed over the passes so far. The properties of iddfs are lemmas about `IddfsRun`.

`recursive_dls` and `Explore` take the move function as a parameter (`next: Mover`). `dls` and `iddfs` instantiate it with `Successor(n)`, which is `move`. This keeps the proofs of the depth-first recursion independent of how a move is computed.

Where the source raises an exception, the model returns an `Err` value, or `None` where noted:

- `init_state` on a bad tile list gives an `Err`;
- `range` with a zero step when n = 0 gives an `Err`;
- `find_empty_cell` raises ValueError on a board with no blank. Board.EmptyCell and Board.FindEmptyCell return None there, and Moves.CanMove and Moves.Move, which call it, then return `Err(NoEmptyCell)`;
- `move_cell` reading past a short row or the last row gives `Err(IndexOutOfRange)` from Moves.Move;
- `list.index` when the list has no 0 gives an `Err`;
- division by zero in `is_solvable` when n = 0 gives an `Err`.

## Model

| member | source | states |
|---|---|---|
| Common.TileSetIffPermutation | solve.py:13 | the test that arr has n*n entries and the same set of values as 0 .. n*n-1 holds exactly when arr lists each of 0 .. n*n-1 once |
| Board.Chunks | solve.py:14 | slicing the array into rows of width w gives `count` rows of width w whose concatenation is the array again |
| Board.InitState | solve.py:11-17 | succeeds exactly when n > 0 and the array is a permutation of 0 .. n*n-1; then the rows form an n×n board that flattens back to the array, with previous position (-1, -1); otherwise, for n > 0, the error is the tile-set error; for n = 0 it is the zero-step error on the empty array and the tile-set error on any other |
| Board.GoalTileValue | solve.py:22 | the goal tile at position k is the source's (k + 1) % (n*n) |
| Board.GoalBoard | solve.py:22 | the goal is n×n and cell (i, j) holds the source's (i*n + j + 1) % (n*n): the tiles 1, 2, ... in row-major order and the blank in the last cell |
| Board.IsFinalState | solve.py:21-23 | true exactly when the board is n×n and every cell (i, j) holds (i*n + j + 1) % (n*n) |
| Board.GoalIsPermutation | solve.py:22 | the flattened goal is a permutation of 0 .. n*n-1 and its blank is the cell (n-1, n-1) |
| Board.GoalFlat | solve.py:22 | the flattened goal lists 1, 2, ..., n*n-1 and then 0 |
| Board.EmptyCell | solve.py:26-31 | the first 0 in row-major order; None exactly when no row holds a 0 |
| Board.FindEmptyCell | solve.py:26-31 | the nested scan with early return yields exactly EmptyCell, None standing for the ValueError |
| Board.ValidBlank | solve.py:26-31 | a valid board holds exactly one 0, and find_empty_cell finds it |
| Board.SameBlankSameCell | solve.py:26-31 | on a board with distinct tiles, two cells holding 0 are the same cell |
| Board.CheckDuplicates | solve.py:255-257 | true exactly when some value occurs twice in the flattened board |
| Moves.CanMove | solve.py:34-44 | fails, as find_empty_cell does, exactly on boards without a blank; never true for an unknown direction; on an n×n board, true exactly for a known direction whose target cell is on the grid and does not put the blank back on its recorded previous row (up, down) or column (left, right) |
| Moves.NoImmediateReversal | solve.py:34-44 | right after a successful move, can_move refuses the opposite direction |
| Moves.Swap | solve.py:47-57 | exchanging two cells keeps the shape and puts each of the two values in the other's cell |
| Moves.SwapFrame | solve.py:47-57 | the exchange leaves every other cell unchanged |
| Moves.MoveCell | solve.py:47-57 | copying the rows and swapping the blank with its neighbour in dir yields exactly the board with those two cells exchanged |
| Moves.MoveCellReversible | solve.py:47-57 | move_cell in the opposite direction, from the cell the blank moved to, restores the original board |
| Moves.SwapKeepsPermutation | solve.py:47-57 | exchanging two cells of an n×n permutation board gives an n×n permutation board |
| Moves.Move | solve.py:60-66 | fails with the missing-blank error exactly when the board has no blank; when it does not fail, it yields a state exactly when can_move is true |
| Moves.MoveErrors | solve.py:47-66 | the only failures are the missing blank and, on a board that is not n×n, a target past a short row or the last row (the IndexError of move_cell); on an n×n board move fails exactly when there is no blank |
| Moves.MoveResult | solve.py:47-66 | a successful move's board is the old one with the blank and its target exchanged, the target lies on the board, the previous position is the old blank position, and an n×n board stays n×n |
| Moves.MoveSwapsBlank | solve.py:60-66 | after a successful move the blank's old cell holds the neighbour's tile, the target holds the blank, and every other cell is unchanged |
| Moves.MoveKeepsValid | solve.py:60-66 | move never fails on a valid state; a successful move gives a valid state (a permutation with exactly one 0) whose blank is on the target cell |
| Search.NextValid | solve.py:60-66 | a move out of a valid state leads to a valid state, and only in one of the four direction names |
| Heuristics.GoalPositionsMatchGoal | solve.py:69-70 | for each tile v, get_goal_positions(n)[v] is (r, c) exactly when the goal board holds v at (r, c); the goal's blank is (n-1, n-1) |
| Heuristics.ManhattanDistance | solve.py:73-82 | the nested loop computes the sum over non-blank tiles of abs(row - goal row) + abs(column - goal column) |
| Heuristics.HammingIsTileSum | solve.py:85-90 | zipping the flattened board with the flattened goal counts exactly the non-blank tiles that are off their goal cell |
| Heuristics.HammingBound | solve.py:85-90 | Hamming is at most n*n - 1 on a valid state |
| Heuristics.ChebyshevDistance | solve.py:105-114 | the nested loop computes the sum over non-blank tiles of max(abs(row - goal row), abs(column - goal column)) |
| Heuristics.TileCostOrder | solve.py:73-114 | tile by tile, Hamming ≤ Chebyshev ≤ Manhattan, because a misplaced tile costs 1, then max(|dr|, |dc|) ≥ 1, then |dr| + |dc| |
| Heuristics.HeuristicOrder | solve.py:73-114 | on every valid state, Hamming ≤ Chebyshev ≤ Manhattan |
| Heuristics.HeuristicsZeroAtGoal | solve.py:73-114 | every heuristic is 0 on the goal board, whatever the previous position |
| Heuristics.Estimate | solve.py:120 | the value a_star gets from the heuristic it was given is that heuristic's tile-cost sum |
| Solvability.CountInversions | solve.py:234-240 | the nested loop returns the inversion count of the list |
| Solvability.InversionsArePairs | solve.py:234-240 | the inversion count is the number of index pairs i < j with both entries non-zero and a[i] > a[j] |
| Solvability.InversionsBound | solve.py:234-240 | twice the inversion count is at most len*(len - 1) |
| Solvability.HorizontalMoveKeepsInversions | solve.py:234-240 | a left or right move of the blank leaves the inversion count of the flattened board unchanged |
| Solvability.HorizontalSwapKeepsInversions | solve.py:234-240 | exchanging the blank with its left or right neighbour leaves the inversion count of the flattened board unchanged |
| Solvability.FirstIndex | solve.py:247 | list.index: None exactly when x is absent, else the first position holding x |
| Solvability.FirstIndexDistinct | solve.py:247 | in a list without repeats, list.index finds the one position holding x |
| Solvability.IsSolvable | solve.py:243-252 | fails exactly for an even n whose list has no 0 (missing blank) or for n = 0 (division by zero); for odd n it is "the inversion count is even" |
| Solvability.EvenWidthRule | solve.py:243-252 | for even n, with the blank at position k, the answer is "inversions + (n - k/n) is odd" |
| Solvability.SortedSolvable | solve.py:243-252 | a list with no inversions and the blank last is solvable |
| Solvability.GoalIsSolvable | solve.py:243-252 | is_solvable accepts the flattened goal for every n > 0 |
| Search.PathSnoc | solve.py:162 | appending (direction, neighbour) for a successful move extends a move path, and the new path ends at the neighbour |
| Search.Successors | solve.py:159-161 | every state one move away is in the set of successors |
| Search.Children | solve.py:159-162 | the pushed nodes are unvisited successors one step beyond the popped path, and every successor of the first k directions is visited or pushed |
| Search.ChildrenStep | solve.py:159-162 | one more direction pushes the neighbour exactly when the move succeeds onto an unvisited state |
| Search.Expand | solve.py:159-162 | the expansion loop pushes exactly Children |
| Search.ChildrenCover | solve.py:159-162 | after expansion every successor is visited or on the frontier |
| Search.ChildReached | solve.py:159-162 | a pushed child of a reached node is a valid state reached along its own path |
| Search.ExpandKeepsClosed | solve.py:154-162 | visiting and expanding a popped non-final state keeps every visited state covered |
| Search.PopVisited | solve.py:154-155 | skipping a popped state that is already visited keeps the frontier invariant |
| Search.PopExpand | solve.py:154-162 | visiting a popped non-final state and pushing its children keeps the frontier invariant |
| Search.ClosedNoGoal | solve.py:149-163 | when the frontier is empty, a closed visited set holding the start rules out every goal reachable by moves |
| Search.VisitProgress | solve.py:157 | visiting a new valid state keeps the visited set inside the finite set of states, which bounds the number of iterations |
| Search.ExpandOnce | solve.py:154-157 | visiting a popped node whose state is new and not final extends the log of expanded states, which stays free of repeats, reachable from the start, free of final states and equal to the visited set |
| Search.ExpandedAll | solve.py:149-163 | once the frontier is empty with the visited set closed, every state reachable from the start by moves is in the log of expanded states |
| Search.Bfs | solve.py:144-163 | any answer is a final state at the end of a move path from the start, after at least one pop; a final start is returned at once with the empty path and count 1; None only when no goal is reachable by any move path; the states expanded are distinct, reachable from the start and not final; on success fewer states were expanded than nodes popped; on None every reachable state was expanded |
| Search.Dfs | solve.py:166-186 | the same guarantees as for bfs, with the frontier popped from the back |
| AStar.MinIndex | solve.py:125 | heappop's choice: an entry no other entry precedes in (f, g) order, and the first such |
| AStar.NeighborEntry | solve.py:134-139 | the entry for a neighbour reached in a direction has the neighbour and the extended path, g + 1 as its cost and g + 1 + heuristic(neighbour) as its priority |
| AStar.PushNeighbors | solve.py:133-139 | the pushed nodes are exactly the unvisited successors, and each entry has g = path length and f = g + heuristic |
| AStar.AStarSearch | solve.py:117-141 | the same guarantees as for bfs; the contract says nothing about pop order, which comes from the body taking at each pop the entry AStar.MinIndex chooses (least (f, g)) |
| Iddfs.SuccessorInDirections | solve.py:206-207 | move succeeds only for the four direction names the loop tries |
| Iddfs.FreshIsPath | solve.py:206-213 | a path recursive_dls can walk is a move path |
| Iddfs.ExploreSound | solve.py:197-216 | a success of recursive_dls(s, limit) entered with visited V is a path of at most limit moves, visiting no state twice and none of V, that ends at a final state |
| Iddfs.ExploreComplete | solve.py:197-216 | a failure rules out every such path of at most limit moves to a final state |
| Iddfs.ExploreBound | solve.py:197-216 | recursive_dls(s, limit) makes at most 4 + 4^2 + ... + 4^limit recursive calls |
| Iddfs.ShortenToFresh | solve.py:208 | every move path can be cut to one that visits no state twice, no longer and with the same end |
| Iddfs.FreshSuffices | solve.py:193-216 | if no repetition-free path of at most limit moves reaches a goal, no move path of at most limit moves does |
| Iddfs.FirstSuccess | solve.py:225-231 | the first depth at which dls succeeds is the length of the path found, and that path is a shortest goal path |
| Iddfs.DepthLimitedSearch.constructor | solve.py:190 | the counter starts at 0 and visited is empty |
| Iddfs.DepthLimitedSearch.RecursiveDls | solve.py:197-216 | returns what Explore does and adds its descent count to the counter; on failure visited is as on entry, and on success it has gained exactly the path's states before the last |
| Iddfs.DlsZeroLimit | solve.py:193-203 | with limit 0, dls succeeds exactly on a final start, with the empty path, and moves no counter |
| Iddfs.DlsRunCorrect | solve.py:193-216 | dls from an empty visited set: a final start is found at once with the empty path and no descent; a success is a move path of at most limit moves to a final state; a failure means no move path of at most limit moves reaches a goal |
| Iddfs.DepthLimitedSearch.Dls | solve.py:193-194 | returns what recursive_dls from an empty visited set returns and adds its descents to the counter; a final start gives the empty path and leaves the counter alone; a success is a move path of at most limit moves to a final state; a failure means no move path of at most limit moves reaches a goal |
| Iddfs.IddfsFromCorrect | solve.py:219-231 | if every pass shallower than depth failed, the answer from that pass on is sound, a shortest goal path, exactly dls's result at the depth equal to its length, with every shallower pass failing and the counter summed over the passes, or None only when no goal lies within maxDepth moves |
| Iddfs.IddfsCorrect | solve.py:219-231 | a final start gives the empty path and count 0; any answer is a final state at the end of a move path of at most maxDepth moves, a shortest goal path, and exactly what dls returns at the first depth that succeeds, every shallower pass having failed; the count is the sum of the descents of the passes 0 .. that depth; None means no goal within maxDepth moves |
| Iddfs.DepthLimitedSearch.Iddfs | solve.py:219-231 | with the counter reset to 0, the loop over depths 0 .. maxDepth returns exactly IddfsRun, the answer of the first pass whose dls succeeds, and leaves the counter at the value it returns (at the sum over all passes when none succeeds) |

## Left out

- `euclidean_distance` (solve.py:93-102) is not modelled: it takes floating-point square roots.
- Printing, the file and CSV writers, `run_algorithms_on_state` and the interactive menu are outside the modelled lines. They are console I/O, timing and randomness.
- Python's `heapq` breaks ties between equal (f, g) by comparing states and then paths. AStar.MinIndex breaks such ties by queue order instead, so the order A* pops entries in is modelled only up to (f, g).
- Iddfs.DepthLimitedSearch.Iddfs: the source's `while True` never stops on an unsolvable puzzle, so the model stops after the pass with depth maxDepth. It then returns None, and promises that no goal lies within maxDepth moves.
- Moves.MoveCell requires the target cell to be on the board. Python would read index -1 as the last row or column, but `move` calls `move_cell` only after `can_move` passed. On an n×n board the target is then on the grid. On other boards Moves.Move reports a target past a short row or the last row as `IndexOutOfRange`, the `IndexError` of `move_cell`.
- Direction names: the source passes strings; the model uses the four names in `Direction` plus `Unknown`, for any other string (which `can_move` refuses).
- Search.Bfs, Search.Dfs, AStar.AStarSearch, Iddfs.DepthLimitedSearch.Dls, Iddfs.DepthLimitedSearch.Iddfs: they require a valid start state, with an n×n permutation board and a previous position of -1 or a cell on the grid. `init_state` produces such states, and `move` keeps them valid. On other boards the source may raise inside `move`; the model does not follow that.
- Search.Bfs, Search.Dfs, AStar.AStarSearch: the number of popped nodes is not stated as a formula, only as at least 1 and more than the number of expanded states. On success the contract does not say which states were expanded beyond that they are distinct, reachable and not final.
- Board.InitState and the rest of the model take n as a natural number. `init_state` with a negative n is not modelled: there the tile test can pass (n*n is positive), and the row slicing, a `range` with a negative step, yields an empty board.
- Search.Bfs, AStar.AStarSearch: BFS's and A*'s shortest-path optimality is not proved. Shortest paths are proved only for iterative deepening.
- Search.NextState turns the exceptions `move` raises (no blank; a target past a short row) into "no successor". The searches never meet them: Bfs, Dfs, AStarSearch, Dls and Iddfs require a valid start state, and `move` keeps states valid.
- Heuristics.ManhattanDistance, Heuristics.ChebyshevDistance, Heuristics.Estimate: they require an n×n board whose non-blank tiles all have goal positions, so the model gives no value for other boards. In the source, a board with fewer than n rows, or a row shorter than n, makes `manhattan_distance` and `chebyshev_distance` raise IndexError, and a tile with no goal position makes them raise KeyError. A board with more rows or longer rows gives a value read from its top-left n×n cells, and n = 0 gives 0 on any board. `hamming_distance` never raises, since `zip` stops at the shorter list, and the model's Heuristics.HammingDistance has no requires; Estimate's requires still applies to it. `a_star` calls the heuristics only on valid states, which are always n×n permutation boards.
- Iddfs.DepthLimitedSearch.RecursiveDls: the global `iddfs_total_moves` becomes the field `totalMoves` of the class, and the set passed down the recursion becomes the field `visited`. The method requires that its state is not already in `visited`. `dls` and the loop guarantee that.
- Iddfs.DepthLimitedSearch.RecursiveDls takes the move function as a parameter instead of calling `move` directly; `dls` passes `move`.
- Iddfs.DepthLimitedSearch.Iddfs returns the path of the successful pass directly. `accumulated_path` starts empty and is extended only once, so the two agree.
