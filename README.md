# g7 player: per-turn move decision

This project is a Dafny model of the move-decision layer of the g7 player for
the timing maze. An agent walks an unknown grid maze whose doors open
periodically, and each turn it must hand the game one move:
WAIT = -1, LEFT = 0, UP = 1, RIGHT = 2 or DOWN = 3.
The `Player` class of `players/g7/g7_player.py` makes that choice. It does four
things:

- **Direction decoding.** `get_move_direction` turns the first step of a
  planned path into a move.
- **Frontier selection.** `get_unexplored_nodes` and
  `choose_intermediate_target_node` pick a target cell when the goal is not
  visible.
- **Fallback exploration.** `explore` is a breadth-first walk over the cells
  the memory knows. It is used when the planner gives no path with a first step.
- **Turn driver.** `move` advances the turn counter and picks the path branch
  or the exploration branch. It moves the agent only after the memory's
  validity check allows the move.

Files:

- `grid.dfy` (module `Grid`) defines cells `(y, x)`, the move codes and the
  `(dy, dx)` offset table of `explore`. `Step` is the position update along
  one direction.
- `direction.dfy` (module `Direction`) holds `GetMoveDirection` and its round
  trip with the offset table.
- `row_major.dfy` (module `RowMajor`) defines the row-major order of the
  frontier scan. It proves that a sorted list is fixed by its elements.
- `player.dfy` (module `G7Player`) holds the `Player` class, with fields
  `turn`, `pos`, `visited`, `known` (the memory's `map`), `rows` and `cols`
  (the size of the memory grid). It also holds the exploration walk on values:
  `Walk`, one round of which is `WalkStep` and whose inner loop is
  `ScanNeighbours`. A direction out of a scanned cell is *settled* when its
  neighbour is visited or already reached by the walk, or when the check
  refuses the direction and the memory does not know the neighbour. The
  walk keeps a ghost record of how each cell was queued: the position of its
  parent in queue order (`pidx`) and the refused direction it was queued
  through (`qdirs`). Each scanned cell is judged settled against what the walk
  had reached when that cell's scan ended (`ReachedAt`). `WalkOutcome` gathers
  everything the walk's result satisfies; `Walk`, `Explore` and `Move` all
  state it.
- `wrappers.dfy` holds `Option`, which stands for Python's `None`.

The player's collaborators live in `players/g7/player_helper_code.py`, and that
file is not part of this model. They become parameters:

- The memory's `is_move_valid` becomes a predicate `valid(pos, direction, doorState)`.
  The door state is an opaque type parameter taken from the percept.
- The graph builder, the time-dependent shortest-path search and
  `reconstruct_path` together become a function `plan(pos, turn, target)`.
  It returns a sequence of cells, empty when there is no path.
- `update_pos` becomes `Step`: it adds the offset of lines 206-211.

Some behaviours of the code are easy to miss, and the model keeps them as
written:

- Inside `explore` the validity check is always judged from the memory's
  position, never from the popped cell `current_pos`.
- When `explore` returns a direction, it has already added the neighbour to
  `visited` and moved the agent. `move` then checks the same direction again,
  from the new position. If that check passes, the agent moves a second time
  (two steps in all). If it fails, `move` returns WAIT although the agent has
  already moved one step. `Player.Move` states both outcomes.
- The intermediate target is any unexplored cell, picked at random; nothing
  prefers cells the planner can reach.
- Line 136 passes the percept to `get_unexplored_nodes`, but the definition
  at line 185 takes no argument. The model follows the definition: the
  frontier depends only on the memory.

## Model

| member | source | states |
|---|---|---|
| `Grid.StepIsUnit` | players/g7/g7_player.py:206-211 | every entry of the direction table moves to one of the four axis neighbours, never back to the same cell |
| `Grid.StepsDiffer` | players/g7/g7_player.py:206-211 | the four directions lead from a cell to four different cells |
| `Grid.UnitStepHasDirection` | players/g7/g7_player.py:206-211 | the table covers all four axis neighbours: each is reached by some direction |
| `Direction.GetMoveDirection` | players/g7/g7_player.py:154-168 | the result is a move code; when it is a direction, stepping that way from `path[0]` reaches `path[1]`; it is WAIT exactly when no direction does |
| `Direction.DecodeStep` | players/g7/g7_player.py:159-168 | round trip with the table of lines 206-211: decoding the step from `p` to `Step(p, d)` gives back `d` for every direction `d` and cell `p` |
| `Direction.WaitIffNotUnitStep` | players/g7/g7_player.py:159-168 | WAIT is returned if and only if the first step is not a unit axis step (no move, a diagonal, or a jump) |
| `Direction.OnlyFirstStepMatters` | players/g7/g7_player.py:154-155 | the decoded move depends only on `path[0]` and `path[1]` |
| `RowMajor.SortedDeterminedByElements` | players/g7/g7_player.py:187-194 | two lists in strict row-major order with the same cells are equal, so the frontier list is fully described by its cells and its order |
| `G7Player.Player.GetUnexploredNodes` | players/g7/g7_player.py:185-194 | the result holds exactly the cells of the `rows` by `cols` grid that are known and not visited, in strict row-major order, so each appears once |
| `G7Player.Player.ChooseIntermediateTargetNode` | players/g7/g7_player.py:134-141 | the target is an unexplored cell when one exists, and otherwise the agent's own position |
| `G7Player.ScanNeighbours` | players/g7/g7_player.py:220-238 | one pass over the four neighbours of a popped cell, LEFT, UP, RIGHT, DOWN: a returned direction passes the validity check from the agent's position and leads to a neighbour neither visited nor reached; every earlier direction is settled (its neighbour was visited or reached, or the direction is refused and the neighbour unknown); with no direction returned, all four are settled; the queued cells are exactly known, unvisited, unreached neighbours through refused directions, in direction order, each once, and when a direction is returned they were all queued through earlier directions |
| `G7Player.FirstScanChoosesFirstOpen` | players/g7/g7_player.py:218-231 | the scan of the start cell returns the first direction that is open and leads to an unvisited cell, and returns nothing only when every open direction leads to a visited cell |
| `G7Player.FreshCellsShrinkUnreached` | players/g7/g7_player.py:214-238 | queuing new known cells removes exactly that many known cells from the unreached ones, so the walk's measure (unreached known cells plus queue length) drops by one per popped cell and the walk ends |
| `G7Player.FrontierAfterScan` | players/g7/g7_player.py:214-238 | after one popped cell is scanned, the queue still holds only the start or known, unvisited cells, every queued cell stays marked, new and distinct, and the walk's measure drops |
| `G7Player.HistoryAfterScan` | players/g7/g7_player.py:217-237 | a scan that finds no move keeps the walk's record: scanned cells then queue spell the start followed by the queued cells in queue order; every queued cell has a scanned parent, earlier in queue order, that it borders through a refused direction; parents follow queue order and siblings direction order; and each scanned cell, the new one included, is settled against what was reached when its scan ended |
| `G7Player.HistoryAtFind` | players/g7/g7_player.py:217-231 | when a scan finds a move, the popped cell is the next cell in queue order after the scanned ones, so it is the start or a queued cell; the cells it queued join the record with it as their parent; each earlier scanned cell stays settled against what was reached when its scan ended |
| `G7Player.RecordAfterScan` | players/g7/g7_player.py:217-237 | a scan of the cell at queue position `s` appends its queued cells to the record with parent position `s` and their refused directions, keeping parents in queue order and each parent's cells in the order LEFT, UP, RIGHT, DOWN |
| `G7Player.SettledAfterScan` | players/g7/g7_player.py:217-237 | after a scan that finds no move, the popped cell is settled against everything reached so far, and each earlier scanned cell against what was reached when its own scan ended |
| `G7Player.ClosedWhenDone` | players/g7/g7_player.py:217-240 | when the queue runs dry every reached cell was scanned, so every direction out of the start or a queued cell is settled against all reached cells |
| `G7Player.WalkStep` | players/g7/g7_player.py:217-238 | one round of the walk keeps the queue and record facts and lowers the termination measure; on a found move it states where it was found, that the cells this round queued went through earlier directions, and that every cell scanned before stays settled as of its own scan |
| `G7Player.OutcomeWhenDone` | players/g7/g7_player.py:217-242 | when the queue runs dry the walk's result is None with every reached cell scanned and settled, and every open direction from the start leads to a visited cell |
| `G7Player.Walk` | players/g7/g7_player.py:213-242 | the walk ends in `WalkOutcome`: each queued cell borders a parent earlier in queue order through a refused direction, parents in queue order and siblings in direction order, and each scanned cell is settled against what was reached when its scan ended; None comes only after every reached cell (the start and every queued cell) was scanned, so no reached cell has an open direction to a cell neither visited nor reached; a returned direction passes the check from the agent and was found while scanning `from`, the cell after the scanned ones in queue order; its neighbour is neither visited nor reached, every earlier direction out of `from` is settled, and the cells `from` queued went through earlier directions; if an open direction from the agent leads to an unvisited cell, the first one in the order LEFT, UP, RIGHT, DOWN is returned from the start; queued cells are known, unvisited and distinct |
| `G7Player.Player.Explore` | players/g7/g7_player.py:196-242 | the walk's whole outcome (`WalkOutcome`), judged from the old position and the old visited set, with `marked` as the neighbour reached; None leaves the position and `visited` unchanged; a direction `d` adds exactly the reached neighbour to `visited` and moves the position by the offset of `d` from the old position, not from `from` |
| `G7Player.Player.Move` | players/g7/g7_player.py:55-131 | the turn counter goes up by exactly one and the result is a move code; the target is the goal when it is visible, and otherwise a frontier target; with a path of two or more cells the decoded move is made and returned if the check allows it, else WAIT with the position unchanged; otherwise the ghost results are the exploration walk's outcome (`WalkOutcome` from the old position), so a walk that finds nothing gives WAIT with nothing changed, and a direction found by the walk is checked a second time from the new position as the code does |
| `G7Player.Player.constructor` | players/g7/g7_player.py:46-51 | a new player starts at turn 0 and keeps the door-frequency bound and radius it is given |

## Left out

- Memory ingest (`update_memory`, line 75) is not part of this model. `Move` works on the memory as already updated for the turn, so it leaves `known`, `rows` and `cols` unchanged.
- Graph building, the shortest-path search and `reconstruct_path` (lines 78, 94, 96) are in a file that is not part of this model. They are the `plan` parameter, whose result is any sequence of cells.
- `is_move_valid` is in the same file. It is the `valid` parameter, an arbitrary predicate, so no door timing is modelled.
- The decoder can return WAIT for a path whose first step is not a unit step, and line 103 then passes WAIT to `is_move_valid` and `update_pos`. How those treat WAIT is not shown. The model gives WAIT the zero offset, so the position does not change and WAIT is returned either way.
- `random.choice` (line 138) is a nondeterministic pick from the unexplored list, not a random number generator.
- `print`, `logger.info` and `print_min_dist_array` (lines 352-360) only write to the console.
- The `rng`, `logger` and `precomp_dir` arguments, the commented-out precomputation cache (lines 31-44) and the unused `starting_position_set` flag (line 52) play no part in the decision.
- The commented-out earlier `move` body (lines 245-350) is dead code.
- The game's percept is reduced to `is_end_visible`, `end_x`, `end_y` and an opaque door state that only the validity check reads.
- `choose_intermediate_target_node` as written calls `get_unexplored_nodes(current_percept)` at line 136, but the definition at line 185 takes only `self`, so Python raises `TypeError` on every turn where the goal is not visible. The model follows the definition and returns a target instead of modelling the exception.
- The initial contents of the player memory come from a constructor that is not part of this model. They are parameters of the `Player` constructor.
