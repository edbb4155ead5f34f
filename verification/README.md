# Pac-Man partial-observability agent: pathfinding and policy, in Dafny

This project models the pathfinding and decision core of `partialAgents.py`,
a Pac-Man agent that builds a map of its maze as it plays. It covers:

- **Path reconstruction** (`construct_path`): walks a predecessor map back to
  the start's sentinel and pushes each cell onto a stack.
- **Weighted A\*** (`ASS_for_closest_target`): `f = g + w·h`, with a
  discovered set scanned for the lowest f. Its goal test is exact, or, in
  survival mode, accepts a cell when the goal lies at one of five half-unit
  "shadow" offsets from it.
- **Breadth-first nearest-target search** (`BFS_for_closest_target`).
- **Death-trap classifier** (`BFS_for_death_traps`): a breadth-first scan
  whose items are tagged with the first move and a distance.
- **The agent** (`PartialAgent`): memory initialisation and reset, and one
  tick of `getAction` as a step function from memory and sensor readings to
  an action and the next memory.

Conventions used throughout:

- Cells are `Cell(x, y)` over unbounded integers. Ghost positions are
  `Point`s over exact reals, because ghosts stand on half-integer
  coordinates.
- A stack is a `seq` whose top is index 0. A reconstructed stack therefore
  reads, from index 0, as the path from the first step to the terminal cell.
- The searches are methods with loop invariants. Each search takes a ghost
  `region`: a finite set of cells that no move leaves except into a wall.
  The searches end because of it.
- The source raises in some situations: unpacking a search's `None`, removing
  STOP when it is not listed, taking `min` of an empty corner list. The model
  reports each of these as a `Fault`.

Modules, one per file:

| File | Module | Models |
|---|---|---|
| `wrappers.dfy` | `Wrappers` | `Option` and `Result` |
| `grid.dfy` | `Grid` | cells, moves, goal tests, walks |
| `seqs.dfy` | `Seqs` | list `index`/`remove` |
| `paths.dfy` | `Paths` | path reconstruction |
| `astar.dfy` | `AStar` | weighted A\* |
| `bfs.dfy` | `Bfs` | nearest-target search |
| `deathtraps.dfy` | `DeathTraps` | death-trap classifier |
| `mazemap.dfy` | `MazeMap` | corners, floors, corner counter |
| `actions.dfy` | `Actions` | legal-action filtering |
| `agent.dfy` | `Agent` | the policy |

Where the code and its design description disagree, the model follows the
code:

- **A\*'s floor set restricts nothing.** A\* seeds every floor cell that is
  not a wall with an "infinite" g-score (`partialAgents.py:102-105`). That
  score is never read: only discovered cells' scores are compared
  (`partialAgents.py:140-144`). So cells outside the floors are discovered
  like any other, and `AStar.WeightedAStar` does not restrict the search to
  the floors.
- **The threat cell is the route's first cell.** The cell taken as the
  imminent threat is the top of the route's stack
  (`partialAgents.py:380-381`), i.e. the route's first cell, next to the
  agent. It is not the second-to-last cell of the path.
- **A search that finds no route is a fault, not a fallback.** The policy
  unpacks every search result into two names (`partialAgents.py:370`,
  `partialAgents.py:410`, `partialAgents.py:428`). So a search that finds no
  route raises instead of falling through to the next mode. The model
  reports `NoGhostPath`, `NoFoodPath` or `NoCornerPath`, together with a
  proof that no walk reaches the target.
- **The death-trap scan follows the source's own loop.** Its `continue` fires
  only on the first removal of a direction (`partialAgents.py:241-244`). Its
  visited test re-queues a cell reached again at a distance not greater than
  the recorded one (`partialAgents.py:252`). The model keeps both.

## Model

| member | source | states |
|---|---|---|
| Paths.ConstructPath | partialAgents.py:57-64 | on success the counted length equals the number of cells pushed and the stack is the predecessor chain ending at the terminal; a terminal carrying the sentinel gives the empty stack and length 0; a terminal without an entry is a missing-link fault; a chain that returns to a pushed cell is the `Cycle` fault, where the source would loop forever |
| Paths.Backtrack | partialAgents.py:60-63 | each loop step pushes the current cell and moves to its predecessor; the result is a chain ending at the cell reached, none of whose cells was pushed before |
| Paths.ConstructPathFindsChain | partialAgents.py:57-64 | reconstruction is determined by the map: for any predecessor chain ending at the terminal, it returns exactly that chain with its length |
| Paths.ChainDistinct | partialAgents.py:60-63 | a chain that reaches the sentinel pushes no cell twice, so the backtracking loop cannot cycle on a chain |
| Paths.LinkedConstructPath | partialAgents.py:57-64 | from the bookkeeping both searches keep, reconstruction from any recorded cell succeeds, its length is the cell's depth, and the stack is a wall-free walk from the start ending at that cell |
| Grid.DirectionOf | partialAgents.py:416-423 | a displacement decodes to a move exactly when it is one of the four unit displacements, and to the move with that displacement |
| Grid.DirectionOfDelta | partialAgents.py:416-423 | decoding a move's displacement gives the move back, and STOP's displacement decodes to nothing |
| Grid.AdjacentIsNeighbor | partialAgents.py:194-195 | the cells one displacement away are exactly the neighbours produced by the four moves |
| Grid.Manhattan | partialAgents.py:107 | the heuristic is non-negative and zero exactly at the goal |
| Grid.ShadowOnCells | partialAgents.py:186-192 | for targets on whole cells, the shadow goal test accepts exactly the cells the exact test accepts |
| Grid.ShadowOnCellGoal | partialAgents.py:118-124 | for a goal on a whole cell, the survival and normal goal tests of A\* both accept exactly the goal cell |
| Grid.WalkExtend | partialAgents.py:194-205 | a walk extended by one move onto a cell that is not a wall is a walk ending there |
| Seqs.IndexOf | partialAgents.py:343 | `list.index` returns the position of the first occurrence |
| Seqs.RemoveFirst | partialAgents.py:348 | `list.remove` drops one occurrence: the multiset of the list loses exactly that element, and an absent element leaves the list unchanged |
| Seqs.RemoveFirstNoDup | partialAgents.py:348 | on a list without repetitions, removal keeps it without repetitions and removes exactly that element |
| Seqs.RemoveEach | partialAgents.py:351-353 | removing each member of a set, if present, removes one occurrence of each; on a list without repetitions it leaves exactly the elements outside the set |
| AStar.Seed | partialAgents.py:102-105 | the initial score table holds exactly the floor cells that are not walls, all infinitely far |
| AStar.LowestF | partialAgents.py:111-116 | the scan returns a discovered cell whose f is minimal among the discovered cells |
| AStar.WeightedAStar | partialAgents.py:90-148 | a returned route is a wall-free walk from the start to a cell the goal test accepts, its length is that cell's g-score, and it is the reconstruction of the final predecessor map; every cell of that map rebuilds to a walk from the start ending there whose length is its g-score; `None` exactly when no walk reaches an accepted cell, and then the map holds the end of every walk from the start; an accepted start gives the empty route |
| AStar.BookRecorded | partialAgents.py:140-148 | the search's bookkeeping makes every cell of the predecessor map rebuild to a wall-free walk from the start ending at it, with the cell's g-score as its length |
| AStar.Evaluate | partialAgents.py:126-127 | moving the rejected minimum from the discovered to the evaluated set keeps the bookkeeping (g-score equals chain length, predecessors are evaluated) and shrinks the unexplored region |
| AStar.Relax | partialAgents.py:129-147 | examining the neighbours keeps the bookkeeping, leaves every open neighbour of an evaluated cell discovered or evaluated, never shrinks the discovered set, and never changes an evaluated cell's predecessor or g-score |
| AStar.Record | partialAgents.py:146-148 | recording the evaluated cell as predecessor of a non-wall neighbour, one step further, keeps g-score equal to chain length |
| AStar.Exhausted | partialAgents.py:109-148 | when the discovered set empties, no walk from the start reaches an accepted cell, and every walk from the start ends at a cell of the predecessor map |
| Bfs.NearestTarget | partialAgents.py:170-205 | a returned route is a wall-free walk from the agent ending at an accepted cell, and no walk reaches an accepted cell in fewer moves; `None` exactly when none is reachable; the enqueued cells are listed once each, start with the agent's cell, each end a walk from the agent, include the route's end, and, when nothing is found, include the end of every walk from the agent; an accepted start gives the empty route |
| Bfs.EnqueuedWalks | partialAgents.py:194-205 | every enqueued cell ends a walk from the agent, the one its predecessor chain spells out |
| Bfs.ExpandNeighbors | partialAgents.py:194-205 | expanding the dequeued cell appends exactly `Fresh` to the queue (its open, unvisited neighbours, in displacement order), adds exactly those cells to the visited set, links each to the dequeued cell, leaves earlier links unchanged, and keeps the search's bookkeeping |
| Bfs.FreshCells | partialAgents.py:194-205 | the cells one expansion enqueues repeat nothing and are exactly the neighbours of the dequeued cell that are neither walls nor visited |
| Bfs.SearchStarts | partialAgents.py:177-180 | the queue holding only the agent's cell, visited and carrying the sentinel, satisfies the bookkeeping |
| Bfs.AcceptedIsNearest | partialAgents.py:184-192 | the first dequeued cell the goal test accepts ends a shortest walk to an accepted cell |
| Bfs.FirstAcceptedIsNearest | partialAgents.py:182-192 | no walk to an accepted cell is shorter than the depth of the first accepted dequeued cell |
| Bfs.NothingReachable | partialAgents.py:182-205 | an exhausted queue means no walk from the agent reaches an accepted cell, and every walk from the agent ends at an enqueued cell |
| DeathTraps.DeathTrapScan | partialAgents.py:222-257 | the result holds only open moves; an open move is in it exactly when none of its dequeued items reached the threshold; every seed is dequeued, so a threshold of at most 1 flags nothing; every unflagged open move starts a walk through at least `threshold` distinct cells; every dequeued item is a seed or one step beyond an earlier dequeued item that was expanded; on completion, for every open neighbour of an expanded item, some item at that neighbour was dequeued at most one step further |
| DeathTraps.Seeds | partialAgents.py:229-235 | seeding flags exactly the open moves, queues exactly one seed item per open move in the order the moves are examined, and records at distance 1 only cells of queued seeds |
| DeathTraps.Dequeue | partialAgents.py:239-244 | the head item is dequeued; its move is unflagged, and the item skipped, exactly when it reached the threshold and its move was still flagged |
| DeathTraps.EnqueueNeighbors | partialAgents.py:246-256 | expanding an item appends exactly `Spread` to the queue (the item moved onto each neighbour it may enter, in the order the moves are examined); recorded distances only fall, each change is to one step beyond the item for a queued cell, and afterwards every open neighbour is recorded at most one step further; every queued item keeps a trail free of repeated cells |
| DeathTraps.SpreadItems | partialAgents.py:246-256 | an item is queued by one expansion exactly when it is the expanded item moved one step onto a neighbour that is not a wall and is not recorded at a distance below the item's |
| DeathTraps.ExtendTracked | partialAgents.py:252-256 | queueing a neighbour never raises its recorded distance, and the extended trail repeats no cell |
| DeathTraps.StepParity | partialAgents.py:252-256 | a neighbour's recorded distance differs in parity from the item's distance, so the item may enter only when the new distance is not larger |
| DeathTraps.DequeueReached | partialAgents.py:241-243 | after a dequeue a move has reached the threshold exactly when it had before or the dequeued item of that move reaches it |
| DeathTraps.Finished | partialAgents.py:237-257 | with the queue empty, every flagged-out open move starts a long path of distinct cells and a threshold of at most 1 leaves nothing flagged |
| DeathTraps.TraceFinished | partialAgents.py:237-257 | once the queue is empty, for every open neighbour of every expanded dequeued item, some item at that neighbour was dequeued at most one step further |
| MazeMap.AdjustCorners | partialAgents.py:312-323 | every raw corner is replaced in place by the cell one step inward: a 0 coordinate becomes 1, any other is decremented |
| MazeMap.AdjustFrameCorner | partialAgents.py:312-323 | the exterior corners of a maze at least three cells wide and high become diagonally adjacent interior cells, and distinct corners stay distinct |
| MazeMap.MinOf | partialAgents.py:331 | `min` is a member of the list no larger than any member |
| MazeMap.MaxOf | partialAgents.py:331 | `max` is a member of the list no smaller than any member |
| MazeMap.EnumerateFloors | partialAgents.py:324-335 | the floors are exactly the closed rectangle spanned by the corners, each cell once, in column-major order, width times height cells, and contain every corner |
| MazeMap.Columns | partialAgents.py:333-335 | the outer loop lists exactly the cells of the columns `x0 .. x0+w-1` between the two rows, sorted, `w·h` of them |
| MazeMap.AppendColumn | partialAgents.py:334-335 | the inner loop appends exactly the column's cells in order of y, keeping the list sorted |
| MazeMap.RetargetLeaves | partialAgents.py:342-344 | on reaching a corner with distinct corners and a bump below their number, the next target corner is a different one |
| Actions.DropIf | partialAgents.py:383-385 | a conditional removal only removes, and on a list without repetitions removes exactly the named move when the condition holds |
| Actions.AvoidThreat | partialAgents.py:382-397 | the four sign tests only remove moves |
| Actions.AvoidThreatDropsFacing | partialAgents.py:382-397 | on a list without repetitions the sign tests remove exactly the moves whose displacement points toward the threat |
| Actions.FacesBySign | partialAgents.py:382-397 | a move points toward the threat exactly when the source's sign test for that move fires |
| Actions.Pad | partialAgents.py:354-355 | a non-empty list is kept unchanged; an emptied list becomes exactly `[STOP]` |
| Actions.AvoidThreatStopAlone | partialAgents.py:382-399 | removing threatened moves keeps STOP the sole element if it is listed at all |
| Actions.StepThreatFacesFirstMove | partialAgents.py:379-381 | a threat taken from a route's first cell points toward exactly one move, the route's first move |
| Actions.ShadowThreatFacesAtMostOne | partialAgents.py:377-378 | a ghost accepted by the survival test at the agent's own cell points toward at most one move |
| Actions.StepToward | partialAgents.py:413-423 | the next cell gives a move exactly when it is adjacent, and that move leads into it |
| Agent.Initial | partialAgents.py:269-276 | a new agent knows nothing, has counter 0 and no cached route |
| Agent.Final | partialAgents.py:285-292 | between games every memory is reset to that of a new agent |
| Agent.BuildMap | partialAgents.py:306-335 | walls, corners and floors are built only if not remembered; the only failure is floors from an empty corner list; new floors are exactly the corners' rectangle |
| Agent.FilterLegal | partialAgents.py:346-355 | missing STOP is a fault; the result is non-empty, drawn from the legal moves, STOP only when alone; on a list without repetitions the moves kept are exactly the legal moves other than STOP outside the traps; every open non-trap move starts a long path |
| Agent.NarrowThreat | partialAgents.py:376-381 | every threat the survival check derives points toward at most one move |
| Agent.Track | partialAgents.py:370 | the survival search for one ghost returns a wall-free walk from the agent, as long as its step count, ending where the ghost is within half a cell, and empty when the agent is that close; no route is a fault exactly when no such walk exists |
| Agent.ThreatsFrom | partialAgents.py:368-381 | an offset is a threat exactly when it is the proximity of some ghost whose route is at most `GhostRange` moves long |
| Agent.ThreatsNear | partialAgents.py:368-375 | some threat is found exactly when some ghost's route is at most `GhostRange` moves long, i.e. exactly when the source enters survival mode |
| Agent.Survey | partialAgents.py:365-399 | an unreachable ghost is a fault; otherwise there is one survival route per ghost, and the threats are exactly `Threats` of those routes, so the range test at line 372 decides which ghosts count; the moves kept are non-empty and, on a list without repetitions, exactly the legal moves pointing toward no threat; a ghost accepted at the agent's cell is always a threat |
| Agent.SurveyDone | partialAgents.py:368-381 | every ghost with a survival route is reachable, and a ghost the agent already touches always yields a threat |
| Agent.Watch | partialAgents.py:366-399 | with no ghosts the moves are left as they are and nothing threatens; otherwise as the survival check, and a threat is found exactly when some ghost's route is within `GhostRange` |
| Agent.ScreenStep | partialAgents.py:368-397 | dropping the moves that point toward one more threat keeps the survival bookkeeping |
| Agent.ScreenDone | partialAgents.py:398-399 | after padding, the survival result is non-empty, drawn from the legal moves or STOP, and keeps exactly the unthreatened moves |
| Agent.FollowFood | partialAgents.py:407-423 | a cached route's next cell is popped and followed; with no cache the route is a shortest walk to remembered food, and its absence is a fault exactly when no food is reachable |
| Agent.SeekCorner | partialAgents.py:425-441 | the move is the first move of a walk to the target corner; there is no move exactly when the agent stands on it; no route is a fault exactly when the corner is unreachable |
| Agent.Calm | partialAgents.py:406-442 | with food remembered, an adjacent cached next cell is moved into, and an empty cache searches a shortest route to food; the cached route loses its next cell even when that cell is not adjacent; whenever the hungry mode makes no move (no food, a non-adjacent cached cell, or standing on food with no cache) the agent picks at random exactly when it stands on the target corner and otherwise moves along a walk to it; memory keeps the map, food and counter |
| Agent.Decide | partialAgents.py:364-442 | returns the ghosts' survival routes and the threats they give; when some route is within `GhostRange` the cache is dropped and a random move is picked among moves pointing toward no threat; otherwise the hungry and corner-seeking outcomes of `Calm` hold |
| Agent.Prepare | partialAgents.py:302-363 | the map, the food memory (eaten cell removed, observed food and capsules added), the retargeted counter and the filtered legal moves |
| Agent.GetAction | partialAgents.py:301-442 | one tick: the memory stays valid and keeps the map; food, counter, legal moves and traps as above; one survival route per ghost, with survival mode exactly when one is within `GhostRange`; otherwise the hungry-mode moves and the corner-seeking fall-through as in `Calm`; a chosen move is never STOP and never into a wall; a random pick is among filtered legal moves pointing toward no threat; faults only for the source's raising cases and an exhausted scan budget |
| Agent.RetargetLeavesIf | partialAgents.py:342-344 | with four distinct corners, standing on one makes the next target a different corner |

## Left out

- The log of past game states (`partialAgents.py:304`) is not modelled: nothing reads it.
- The sensor calls (`api.walls`, `api.corners`, `api.whereAmI`, `api.legalActions`, `api.food`, `api.capsules`, `api.ghosts`) become fields of an `Observation` value.
- `random.choice(legal)` becomes the action `Pick(options)`, which carries the list to choose from.
- `random.choice([1, 2, 3])` becomes the parameter `bump`, required to be in 1..3.
- A\* ties are broken by the iteration order of a Python set. The model picks SOME discovered cell of minimal f, with no particular choice among ties.
- The death-trap scan's dictionary iteration order becomes the parameter `order`, a permutation of the four moves.
- Python floats are modelled as exact reals, and `sys.maxint` as the `Infinite` score.
- AStar.WeightedAStar: optimality of the route is not claimed. For a general weight the search is suboptimal by design, and the source says so.
- DeathTraps.DeathTrapScan: takes a dequeue budget `fuel` and returns `None` when it runs out. Whether the scan always ends within some budget is not proved.
- DeathTraps.DeathTrapScan: the converse of the escape guarantee is not stated. A flagged move need not lack long paths, because the shared visited map lets one move's items block another's.
- Bfs.NearestTarget, AStar.WeightedAStar: both assume a finite `region` enclosing the agent. On an unbounded open grid the source's searches need not end.
- Paths.ConstructPath: the `Cycle` fault is an artifact of the model. It stands for the source's endless loop on a predecessor map with a cycle. Paths.LinkedConstructPath proves that the maps both searches build never produce it.
- Agent.GetAction: a fault ends the tick with no memory. The source instead keeps the memory updates it made before raising, such as the map built and the counter set.
- Agent.GetAction: the `path_to_ghost == None` branch (`partialAgents.py:377`) is not modelled separately. It is unreachable, because unpacking `None` one line earlier raises. The empty-route branch of that test is modelled.
