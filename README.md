# Grid path finding: searches, a replanning planner, moving obstacles and a Q-learning agent

This project models, in Dafny, the core of a Java grid path-finding
visualiser. Everything works over one shared N x N grid of cell records.
Each record holds a type (EMPTY, WALL, START, END, VISITED, CONSIDERING or
PATH), a parent pointer `previous`, and the search scores `gScore`, `fScore`
and `distance`. A record also holds a heat-map value with its display flag.
The grid is an `array2<Cell>`, and a parent pointer is the position of the
parent cell.

The four parts of the core are:

- **The classic searches of the visualiser window** (`Visualizer`, built on
  `GridSearch`, `DiscoverySearch` and `SearchTheory`):
  - Dijkstra's algorithm, A* with the Manhattan heuristic, greedy
    best-first search and breadth-first search.
  - The path painting and the `clearPath` / `resetGrid` sweeps.
  - The click handler that places the start, the end and walls.
- **The adaptive planner** (`AdaptivePlanner`):
  - A* from scratch on every call. The class comment calls it D* Lite, but
    the code is plain A*, and so is the model.
  - A sticky replanning flag, raised when a moved obstacle stands on the
    current path or one of its five predicted positions does.
  - The obstacle registry.
- **The moving obstacle** (`Obstacles`): a WALL cell that walks the grid by
  one of four patterns (LINEAR, RANDOM, PATROL, CHASE). It has a speed
  counter and a trail buffer, and a read-only forecast `predictPath`.
- **The tabular Q-learning agent** (`Learning`):
  - `startTraining` seeds the table.
  - `trainStep` runs one transition per call and is resumable.
  - There is a greedy rollout `findPath` and a normalised heat map.

Every search keeps an abstract state: the closed set, the frontier, a score
per discovered cell and a parent per discovered cell.

- `GridSearch.Coupled` ties that state to the cell records the Java code
  actually writes.
- `SearchTheory` proves the loop invariants that make the searches correct
  against a reference definition of walks and reachability (`GridWalks`).
  These cover the tree shape of the parent pointers, optimality of every
  expanded cell for the score-ordered searches, and the exhaustion argument
  for an empty frontier.

From these the searches are proved to:

- find the end exactly when it is reachable;
- return the parent chain from the start to the end;
- for Dijkstra, A* (both copies) and breadth-first search, return a
  shortest walk.

Priority-queue ties are broken arbitrarily in the Java code. So a poll in
the model may return any cell of minimal key, and every proof holds for
all tie orders.

Random draws are parameters of the modelled operations:

- the obstacle's initial direction and its RANDOM-pattern draws (`Draws`);
- the agent's exploration roll and explored action;
- the agent's initial table values (`draw(r, c, a)`).

Q-values and rates are `real`.

Behaviours of the code that are easy to miss, all modelled as written:

- **LINEAR and PATROL reversals are not re-checked.** After turning round,
  a LINEAR or PATROL obstacle takes the reversed step without checking the
  cell it steps onto. It can step onto the start, the end or a wall, or
  step off the grid (`LinearBounceUnchecked`, `PatrolCanLeaveGrid`).
  - An off-grid step is the `Crashed` outcome. The Java code updates the
    position and then fails indexing the grid (DynamicObstacle.java:259).
    The model updates the position the same way and reports the failure.
  - It does not "stay put when still blocked", and a patrol is not kept
    inside its segment.
- **A vacated cell becomes EMPTY.** A moving obstacle turns the cell it
  leaves EMPTY, and only if that cell is a WALL. It does not restore the
  cell's previous type.
- **`clearObstacles` also writes EMPTY.** It makes every obstacle cell
  EMPTY.
- **`startTraining` keeps old table entries.** It keeps every existing
  entry and overwrites the entries of non-WALL cells. It does not discard
  the table.
- **Unknown states are not always looked up safely.** The zero-vector
  default applies only to the next state and to the greedy choices. A
  training step from a state the table does not know fails after the move,
  where the Java code dereferences a missing entry (RLPathAgent.java:137-141).
  The model returns the `MissingQEntry` outcome there.
- **The heat map writes only some values.** It writes only values above
  0.1, not every value in [0, 1].
- **Frontier ties are arbitrary.** The code has no deterministic
  tie-breaking, and the model allows any minimal cell.

## Model

| member | source | states |
|---|---|---|
| Cells.Ahead | DynamicObstacle.java:18-19 | The step in direction 0 (up), 1 (right), 2 (down) or 3 (left) lands on a 4-adjacent cell |
| Cells.ManhattanIsDistance | AdaptivePathFinder.java:299-301 | The heuristic is zero exactly between equal cells and symmetric |
| GridWalks.TriangleInequality | PathFindingVisualizer.java:574-577 | Manhattan distance obeys the triangle inequality, so the heuristic is consistent for unit moves |
| GridWalks.WalkCoversManhattan | AdaptivePathFinder.java:299-301 | Admissibility: no legal walk between two cells has fewer moves than their Manhattan distance |
| GridWalks.WalksStayInRegion | PathFindingVisualizer.java:359-398 | A walk that starts inside a set closed under passable moves ends inside it |
| GridWalks.UnreachableOutsideRegion | PathFindingVisualizer.java:359-400 | A cell outside a move-closed set holding the start cannot be reached from the start |
| SearchTheory.ChainIsWalk | PathFindingVisualizer.java:597-606 | Following `previous` from a discovered cell reaches the start along a legal walk whose length is the cell's score, each cell at the index of its score |
| SearchTheory.ChainStep | PathFindingVisualizer.java:597-606 | The parent chain of the start is the start alone; any other cell's chain is its parent's chain plus the cell |
| SearchTheory.InitialFrontier | PathFindingVisualizer.java:356-357 | The state with only the start on the frontier at score 0 satisfies the search loop invariant |
| SearchTheory.AttachKeepsTree | AdaptivePathFinder.java:258-261 | Giving an unclosed passable neighbour the expanded cell as parent, with score one higher, keeps the parent pointers a tree rooted at the start |
| SearchTheory.AttachKeepsOpt | AdaptivePathFinder.java:258-261 | Such an update leaves every closed cell's optimal score alone |
| SearchTheory.AttachKeepsSettled | AdaptivePathFinder.java:258-261 | Neighbours settled earlier stay settled when a score only decreases |
| SearchTheory.RelaxSettles | PathFindingVisualizer.java:374-397 | Relaxing one neighbour by the Dijkstra/A* rule keeps the invariant and leaves that neighbour closed or on the frontier with a score at most one more |
| SearchTheory.DiscoverSettles | PathFindingVisualizer.java:557-568 | Discovering one neighbour by the breadth-first/greedy rule keeps the invariant; for breadth-first search the neighbour is then within one move |
| SearchTheory.AttachSettles | AdaptivePathFinder.java:236-267 | Attaching one passable unclosed neighbour with a score no higher than before keeps the expansion invariant |
| SearchTheory.FirstOpenOnWalk | PathFindingVisualizer.java:359-360 | On any walk from the start to an unclosed cell, the first unclosed cell is on the frontier with a score no larger than its position on the walk |
| SearchTheory.PollIsOptimal | PathFindingVisualizer.java:423-430 | A frontier cell of least g + h (h = 0 or Manhattan) has the length of a shortest walk as its score |
| SearchTheory.WalkBeatsPolled | PathFindingVisualizer.java:423-430 | Every walk to such a polled cell is at least as long as its score |
| SearchTheory.CloseKeepsTree | PathFindingVisualizer.java:367 | Moving a polled cell from the frontier to the closed set keeps the tree shape |
| SearchTheory.CloseStartsExpanding | PathFindingVisualizer.java:367-372 | Closing a polled cell with an optimal score starts its expansion with the invariant intact |
| SearchTheory.FinishExpanding | PathFindingVisualizer.java:374-397 | Once all in-bounds neighbours are settled, the loop invariant holds again |
| SearchTheory.ExhaustedMeansUnreachable | PathFindingVisualizer.java:359-400 | A frontier that runs dry without the end closed means the end is unreachable |
| SearchTheory.ChainIsShortest | PathFindingVisualizer.java:362-364 | When the end is polled with an optimal score, its parent chain is a shortest walk |
| SearchTheory.ScoresBounded | Cell.java:29 | Every score is below N*N, so no score reaches Integer.MAX_VALUE, the "unreached" value |
| GridSearch.SearchKind | PathFindingVisualizer.java:369-390 | During a search a cell keeps its type unless discovered; expanded cells other than start and end show VISITED |
| GridSearch.ShownKeeps | PathFindingVisualizer.java:369-390 | The record shown during a search keeps the heat value, the start's and end's types, has a parent exactly for a cell with one, and shows the score in the search's own field (A*: gScore and gScore + Manhattan) |
| GridSearch.WithPathPaints | PathFindingVisualizer.java:597-606 | Painting a path changes only the type: exactly the path cells other than start and end become PATH |
| GridSearch.ApplyToAll | PathFindingVisualizer.java:349-354 | The reset sweep applies the same per-cell reset to every record of the grid |
| GridSearch.NeighborsOfMembers | PathFindingVisualizer.java:579-595 | A neighbour list holds exactly the in-bounds cells one listed move away |
| GridSearch.AdjacentIsUnitMove | PathFindingVisualizer.java:581-583 | Two cells are 4-adjacent exactly when they differ by one of the four unit moves |
| GridSearch.NeighborsAreAdjacent | AdaptivePathFinder.java:310-320 | With the four unit moves, the neighbour list holds exactly the in-bounds 4-adjacent cells |
| GridSearch.Reversed | AdaptivePathFinder.java:350 | Reversing keeps the length and the members |
| GridSearch.MinExists | PathFindingVisualizer.java:345 | A non-empty set of scored cells has a minimal one, which a poll may return |
| GridSearch.ChainUnwind | PathFindingVisualizer.java:599-605 | Following one parent pointer keeps "chain so far + reversed cells recorded" equal to the whole chain |
| GridSearch.PollLowest | PathFindingVisualizer.java:423-424 | The polled cell is on the frontier and has the least g + h of all frontier cells |
| GridSearch.CloseCell | PathFindingVisualizer.java:367-372 | Closing a polled cell paints it VISITED, unless it is the start or the end, and keeps the grid showing the search state |
| GridSearch.RelaxedIsShown | AdaptivePathFinder.java:246-261 | The record a relaxed neighbour gets is the one the relaxed search state shows there |
| GridSearch.RelaxNeighbor | AdaptivePathFinder.java:236-267 | Skips closed and WALL neighbours. A new neighbour turns CONSIDERING and joins the frontier; a new or improved one gets the current cell as parent and the score through it. The grid keeps showing the state |
| GridSearch.PaintPathCell | PathFindingVisualizer.java:600-604 | One step of walking back paints the cell PATH unless it is the start or end, and reads its parent pointer |
| GridSearch.RelaxNext | PathFindingVisualizer.java:374-397 | Relaxing the next neighbour in the list extends the set of settled neighbours by it |
| GridSearch.RelaxAll | PathFindingVisualizer.java:374-397 | After relaxing all neighbours, the loop invariant (tree, settled closed cells, optimality) holds again |
| GridSearch.ExpandCell | PathFindingVisualizer.java:367-397 | Expanding an optimally scored polled cell closes it and keeps the invariant, with the grid in step |
| GridSearch.NeighborList | AdaptivePathFinder.java:306-324 | The neighbour loop returns the in-bounds cells in move order, exactly the 4-adjacent ones |
| GridSearch.ScoreSearch | PathFindingVisualizer.java:359-400 | Dijkstra/A* loop: found exactly when the end is reachable; the end's parent chain is then a shortest walk; the grid shows the final state |
| GridSearch.WalkBack | PathFindingVisualizer.java:597-606 | Walking back from the end reaches the start, records the chain in reverse, and paints exactly the recorded cells other than start and end PATH |
| DiscoverySearch.DiscoverNeighbor | PathFindingVisualizer.java:557-567 | A neighbour is taken exactly when it is undiscovered and not a WALL; it then gets the current cell as parent and turns CONSIDERING unless it is the end |
| DiscoverySearch.HeadIsLowest | PathFindingVisualizer.java:544-545 | The head of the breadth-first queue has the lowest score on the frontier |
| DiscoverySearch.EnqueueKeepsOrder | PathFindingVisualizer.java:558-561 | Appending a cell one move further than the expanded cell keeps the queue sorted and within one move |
| DiscoverySearch.QueueAfterDiscover | PathFindingVisualizer.java:557-568 | After one discovery the queue and the visited set still match the frontier and the discovered cells |
| DiscoverySearch.SettleNext | PathFindingVisualizer.java:557-568 | Discovering the next neighbour settles it and keeps the expansion invariant |
| DiscoverySearch.BreadthExpand | PathFindingVisualizer.java:545-568 | Expanding the queue head closes it and discovers its neighbours, keeping the invariant and the queue order |
| DiscoverySearch.BreadthScan | PathFindingVisualizer.java:557-568 | The neighbour loop leaves every neighbour settled, the queue ordered and the visited set equal to the discovered cells |
| DiscoverySearch.BreadthFirstSearch | PathFindingVisualizer.java:541-571 | Found exactly when the end is reachable; the end's parent chain is then a shortest walk |
| DiscoverySearch.PollNearest | PathFindingVisualizer.java:472-473 | The greedy poll returns a frontier cell nearest to the end by Manhattan distance |
| DiscoverySearch.DiscoverLogged | PathFindingVisualizer.java:503-518 | A taken neighbour is logged once and joins the frontier; any other leaves the state unchanged |
| DiscoverySearch.GreedyExpand | PathFindingVisualizer.java:496-524 | Expanding the polled cell closes it and either discovers the end or keeps the invariant |
| DiscoverySearch.GreedyScan | PathFindingVisualizer.java:503-524 | The neighbour loop stops as soon as the end is discovered, else leaves every neighbour settled |
| DiscoverySearch.GreedySearch | PathFindingVisualizer.java:484-527 | Found exactly when the end is reachable, along the end's parent chain; each cell enters the frontier at most once |
| Obstacles.ValidMove | DynamicObstacle.java:273-284 | A legal destination is on the grid and not WALL, START or END |
| Obstacles.Enterable | DynamicObstacle.java:273-284 | The set of cells an obstacle may enter holds exactly the positions `ValidMove` accepts; every pattern decides from this set alone |
| Obstacles.ValidMoveSparesReserved | DynamicObstacle.java:273-284 | A legal destination is on the grid and not WALL, START or END, and every such cell is legal |
| Obstacles.LinearDecision | DynamicObstacle.java:120-130 | LINEAR steps to the cell ahead in the direction it ends up facing |
| Obstacles.PatrolDecision | DynamicObstacle.java:159-195 | PATROL always takes one step to a 4-adjacent cell |
| Obstacles.Retry | DynamicObstacle.java:142-149 | The retry loop ends facing a direction with its target the cell ahead |
| Obstacles.RandomDecision | DynamicObstacle.java:132-157 | RANDOM stays put or moves one step onto a legal cell |
| Obstacles.ChaseDirection | DynamicObstacle.java:199-217 | The preferred CHASE direction is a valid direction |
| Obstacles.FirstOtherValid | DynamicObstacle.java:225-236 | The fallback scan returns a direction not below its starting index, if any |
| Obstacles.ChaseDecision | DynamicObstacle.java:197-244 | CHASE ends up facing a valid direction |
| Obstacles.Decide | DynamicObstacle.java:118-245 | Every pattern picks a valid direction and either stays or targets a 4-adjacent cell |
| Obstacles.SteppingPatternsAlwaysMove | DynamicObstacle.java:119-195 | LINEAR and PATROL always change position when the counter fires |
| Obstacles.LinearBounceUnchecked | DynamicObstacle.java:124-129 | A blocked LINEAR obstacle takes the reversed step without checking that cell |
| Obstacles.PatrolKeepsAxis | DynamicObstacle.java:159-195 | A horizontal patrol keeps its row, a vertical one its column |
| Obstacles.PatrolCanLeaveGrid | DynamicObstacle.java:160-167 | A horizontal patrol at column 0 facing right with a blocked cell on its right steps to column -1 |
| Obstacles.RetryExhausted | DynamicObstacle.java:142-155 | If the retry loop ends blocked, the starting direction and every later retry were blocked |
| Obstacles.RandomStaysOnlyWhenBlocked | DynamicObstacle.java:141-156 | RANDOM stays put only when the turned direction and all four retried directions are blocked |
| Obstacles.ChaseApproaches | DynamicObstacle.java:199-217 | CHASE picks vertical exactly when the row distance is strictly larger, and the preferred step brings it one closer to the agent |
| Obstacles.FirstOtherValidIsFirst | DynamicObstacle.java:225-236 | The fallback is the lowest legal direction other than the preferred one |
| Obstacles.ChaseMovesOnlyToValid | DynamicObstacle.java:219-243 | CHASE moves only onto a legal cell, and stays exactly when all four neighbours are blocked |
| Obstacles.AfterStep | DynamicObstacle.java:247-260 | Only types change: the new cell becomes WALL, the old one EMPTY if it was a WALL |
| Obstacles.PredictStep | DynamicObstacle.java:344-417 | One forecast step keeps a valid direction |
| Obstacles.Run | DynamicObstacle.java:344-417 | Any number of forecast steps keeps a valid direction |
| Obstacles.Predict | DynamicObstacle.java:335-420 | The forecast has exactly `steps` entries, entry i being the position after i + 1 steps |
| Obstacles.UncertainForecast | DynamicObstacle.java:399-413 | For RANDOM and CHASE the forecast is on the grid after the first step and stops changing after three |
| Obstacles.UncertainPrediction | DynamicObstacle.java:399-417 | For RANDOM and CHASE every predicted position is on the grid, and entries from index 2 on are equal |
| Obstacles.LinearForecastMatchesMove | DynamicObstacle.java:352-365 | The first LINEAR forecast agrees with `move` exactly when the cell ahead is not the start or the end |
| Obstacles.DynamicObstacle.constructor | DynamicObstacle.java:46-69 | Speed 1, the drawn direction, a horizontal patrol over the five columns around its own, and a five-entry trail at its cell |
| Obstacles.DynamicObstacle.SetPatrolPath | DynamicObstacle.java:74-86 | Takes effect only when 0 <= start <= end < N, then facing right or down; nothing else changes |
| Obstacles.DynamicObstacle.SetSpeed | DynamicObstacle.java:430-432 | The speed becomes the request, or 1 when the request is below 1 |
| Obstacles.DynamicObstacle.SetTrailLength | DynamicObstacle.java:438-454 | The length is clamped to [1, 10], the buffer matches it, the old prefix is kept and new entries hold the current cell |
| Obstacles.DynamicObstacle.ShiftTrail | DynamicObstacle.java:104-110 | The trail shifts by one and the position goes to its head |
| Obstacles.DynamicObstacle.RandomTarget | DynamicObstacle.java:132-157 | The RANDOM loop computes the RANDOM decision |
| Obstacles.DynamicObstacle.ChaseTarget | DynamicObstacle.java:197-244 | The CHASE loop computes the CHASE decision |
| Obstacles.DynamicObstacle.Move | DynamicObstacle.java:94-268 | Below speed only the counter rises and nothing else changes. Otherwise the counter resets, the trail shifts and the pattern's decision is taken: grid per `AfterStep`, outcome moved, not moved or crashed |
| Obstacles.DynamicObstacle.Fire | DynamicObstacle.java:102-268 | When the counter fires: counter 0, trail shifted, direction and cell per `Decide`, outcome per the target, grid per `AfterStep`; valid unless crashed |
| Obstacles.DynamicObstacle.Choose | DynamicObstacle.java:118-245 | The switch over patterns computes `Decide` |
| Obstacles.DynamicObstacle.StepTo | DynamicObstacle.java:247-268 | Takes up the decision; a new cell clears the old one (if WALL) and marks the new one WALL, or crashes off the grid |
| Obstacles.DynamicObstacle.Forecasts | DynamicObstacle.java:335-420 | The current state's forecast has `steps` entries |
| Obstacles.DynamicObstacle.PredictPath | DynamicObstacle.java:335-420 | The prediction loop returns the forecast and changes nothing |
| Obstacles.DynamicObstacle.ForecastStep | DynamicObstacle.java:344-417 | One loop iteration on the copied state computes `PredictStep` |
| Obstacles.DynamicObstacle.LinearForecastStep | DynamicObstacle.java:352-365 | A firing LINEAR prediction step computes `PredictStep`: reverse when the cell ahead is off the grid or a WALL, then step |
| Obstacles.DynamicObstacle.PatrolForecastStep | DynamicObstacle.java:366-397 | A firing PATROL prediction step computes `PredictStep`: one cell along the axis, jumping back inside past either end |
| Cells.WallAt | DynamicObstacle.java:356-358 | A position is a WALL cell exactly when it is on the grid and its record's type is WALL |
| AdaptivePlanner.ResetForPlanning | AdaptivePathFinder.java:186-200 | The reset keeps WALL cells WALL and leaves every cell WALL, START, END or EMPTY |
| AdaptivePlanner.AdaptivePathFinder.constructor | AdaptivePathFinder.java:35-40 | No start, end, path or obstacles; all counters zero and the flag clear |
| AdaptivePlanner.AdaptivePathFinder.AddObstacle | AdaptivePathFinder.java:45-50 | Appends the obstacle and makes its cell WALL, nothing else; the list stays free of repeats exactly when the obstacle was not listed yet |
| AdaptivePlanner.AdaptivePathFinder.ClearObstacles | AdaptivePathFinder.java:55-62 | Every obstacle cell becomes EMPTY and the list is empty |
| AdaptivePlanner.AdaptivePathFinder.UpdateObstacles | AdaptivePathFinder.java:78-92 | Each obstacle moves once, in order, with its own draws and the agent's cell, as `MoveRecorded` states for its own move on the grid left by the earlier ones: below its speed it stays put (not moved); when its counter fires it lands on the cell and faces the direction `Decide` picks for its pattern from the cells it may then enter; from its old cell to its new one, outcome per `Stepped`, forecast the prediction right after the move. True exactly when one moved. A crash ends the update and later obstacles keep their states. The grid is the old grid with the steps replayed. The flag becomes old flag or some moved obstacle `Threatened` the path |
| AdaptivePlanner.AdaptivePathFinder.MoveAll | AdaptivePathFinder.java:81-89 | The obstacle loop: stops at the first crash, all obstacles valid without one, every move recorded (stay below speed, otherwise the pattern's `Decide` on the cells then enterable), the grid replayed and the flag raised per `AnyThreat` |
| AdaptivePlanner.AdaptivePathFinder.Sweep | AdaptivePathFinder.java:81-89 | The loop keeps `Tracking`: moved obstacles recorded, the others in their old states, grid and flag in step |
| AdaptivePlanner.AdaptivePathFinder.MoveNext | AdaptivePathFinder.java:82-88 | One iteration extends `Tracking` by the next obstacle's move, decided on the grid the earlier moves left |
| AdaptivePlanner.AdaptivePathFinder.MoveAndRecord | AdaptivePathFinder.java:82-88 | Moves only the i-th obstacle; all others keep their states; its move is recorded (stay below speed, otherwise `Decide`'s cell and direction on the replayed grid) and the flag extended by its threat |
| AdaptivePlanner.AdaptivePathFinder.MoveAndCheck | AdaptivePathFinder.java:82-88 | One obstacle's `move` then, if it moved, `checkPathCollision` with the forecast taken right after the move. Below speed the outcome is not moved and the direction kept; when the counter fires the new cell and direction are `Decide`'s on the cells enterable just before the move |
| AdaptivePlanner.ThreatenedMeans | AdaptivePathFinder.java:99-126 | A path is threatened exactly when it is non-empty and holds the obstacle's cell or a predicted cell |
| AdaptivePlanner.StayedIffNotMoved | DynamicObstacle.java:247-268 | A recorded step stays on its cell exactly when it did not move, and moves onto another cell on the grid exactly when it moved |
| AdaptivePlanner.RecordedSteps | AdaptivePathFinder.java:81-89 | Every recorded move starts on the obstacle's old cell and ends on its new one; below speed it is not moved; when the counter fires the new cell is `Decide`'s target for its pattern, the agent and its draws on the cells enterable after the earlier moves; not moved exactly when the cell is the same; moved means one step to an adjacent cell on the grid |
| AdaptivePlanner.OpenReplayed | AdaptivePathFinder.java:81-89 | The cells an obstacle may enter on the current grid are those enterable in the starting layout with the earlier steps replayed |
| AdaptivePlanner.RecordedSnoc | AdaptivePathFinder.java:81-89 | Recording one more move extends the record of the earlier ones |
| AdaptivePlanner.AnyThreat | AdaptivePathFinder.java:84-88 | True exactly when some recorded move went onto the grid and threatens the path |
| AdaptivePlanner.DistinctSnoc | AdaptivePathFinder.java:46 | Appending keeps a list free of repeats exactly when the new entry is not in it |
| AdaptivePlanner.AdaptivePathFinder.CheckPathCollision | AdaptivePathFinder.java:97-127 | The flag becomes old flag or (path non-empty and the obstacle or one of its 5 predicted positions on the path) |
| AdaptivePlanner.AdaptivePathFinder.SetStartEnd | AdaptivePathFinder.java:67-70 | Sets the start and the end; its frame is those two fields only |
| AdaptivePlanner.AdaptivePathFinder.GetNeighbors | AdaptivePathFinder.java:306-324 | Exactly the in-bounds 4-adjacent cells, up/right/down/left |
| AdaptivePlanner.AdaptivePathFinder.ReconstructPath | AdaptivePathFinder.java:329-351 | The current path becomes the parent chain from start to end, with the cells between painted PATH |
| AdaptivePlanner.AdaptivePathFinder.ResetForSearch | AdaptivePathFinder.java:186-208 | After the reset sweep and the start's scores the grid shows the initial search state, walls unchanged |
| AdaptivePlanner.AdaptivePathFinder.FindPath | AdaptivePathFinder.java:184-273 | Non-empty exactly when the end is reachable, and then a shortest walk. Success: path current, flag cleared, one more success. Failure: path kept, one more failure. Never repaints WALL/START/END |
| AdaptivePlanner.AdaptivePathFinder.AdaptPath | AdaptivePathFinder.java:279-294 | With a path and no flag: true, flag and everything else unchanged. Else a fresh search: true exactly when reachable; success installs the end's parent chain, a shortest walk, clears the flag and adds one replan and one success; failure keeps path, flag and replans and adds one failure; the grid shows the reset, the search's final state and the painted path |
| AdaptivePlanner.AdaptivePathFinder.SuccessRate | AdaptivePathFinder.java:365-368 | A share in [0, 1]: 1 exactly when all runs succeeded, 0 exactly when none did |
| Learning.MaxValue | RLPathAgent.java:140 | The largest value of a non-empty vector, attained by some entry; 0 for an empty one |
| Learning.GreedyUpTo | RLPathAgent.java:189-197 | The scan's best index is maximal and strictly above all earlier entries |
| Learning.Greedy | RLPathAgent.java:188-199 | The greedy action is a valid direction |
| Learning.GreedyIsLowestMax | RLPathAgent.java:189-199 | The greedy action is exactly the lowest index of a maximal value |
| Learning.ChosenAction | RLPathAgent.java:181-200 | Epsilon-greedy returns a valid action, a maximal one whenever it does not explore |
| Learning.ValuesIn | RLPathAgent.java:188 | A known state's values, else the zero vector |
| Learning.Act | RLPathAgent.java:101-131 | The agent stays or steps onto a free 4-adjacent cell; the episode ends only on a step into the end |
| Learning.ActOutcomes | RLPathAgent.java:100-131 | Blocked: stay with reward -1. Legal: step to the free neighbour; reward 10 exactly when it is the end (episode over), else -0.1 |
| Learning.Learned | RLPathAgent.java:141 | The update keeps four values |
| Learning.LearnedTouchesOneEntry | RLPathAgent.java:136-141 | Only the chosen action's value changes, by rate times the temporal-difference error |
| Learning.Decayed | RLPathAgent.java:161 | The decayed rate is at least 0.1 |
| Learning.DecayedShrinks | RLPathAgent.java:161 | Decay never raises a rate of at least 0.1, is 0.99x above 0.1/0.99, and 0.1 is a fixed point |
| Learning.Heat | RLPathAgent.java:275-277 | The normalised value is at most 1 when the table maximum bounds the cell's best value, and above 0.1 exactly when that value exceeds a tenth of the maximum |
| Learning.RatioBounds | RLPathAgent.java:275-277 | A ratio to a positive maximum is at most 1 and exceeds 0.1 exactly when the value exceeds a tenth of the maximum |
| Learning.HeatCell | RLPathAgent.java:266-281 | Only the heat fields change, and only for a cell other than WALL, START and END, to a shown value above 0.1 |
| Learning.HeatMapBounds | RLPathAgent.java:262-284 | Nothing is written when the maximum is at most 0.1; otherwise only non-WALL/START/END cells get a value in (0.1, 1] |
| Learning.Seeds | RLPathAgent.java:69-73 | Four initial values, value a being the draw for that cell and action |
| Learning.SeededValuesSmall | RLPathAgent.java:65-76 | With draws in [0, 0.1) every seeded value of a free cell lies in [0, 0.1) |
| Learning.Counted | RLPathAgent.java:143-161 | The episode count rises by at most one; reaching the end always ends the episode with the step count back at 0; one success and one length record are added per finished episode; while the episode goes on only the step count rises |
| Learning.CountedKeepsRecords | RLPathAgent.java:143-161 | One success and one length record per episode; episode ends exactly at the end or past 2*N*N steps; exploration stays in [0.1, old] |
| Learning.RLPathAgent.constructor | RLPathAgent.java:10-51 | Rates 0.1, 0.9, 0.3, 500 episodes, empty table and metrics, not training |
| Learning.RLPathAgent.StartTraining | RLPathAgent.java:56-77 | Training on, episode 0, metrics cleared; every free cell gets its drawn values, other entries are kept |
| Learning.RLPathAgent.SeedTable | RLPathAgent.java:66-76 | The row loop seeds every free cell and keeps all other entries |
| Learning.RLPathAgent.SeedRow | RLPathAgent.java:67-75 | The column loop seeds the free cells of one row and keeps all other entries |
| Learning.RLPathAgent.ResetEpisode | RLPathAgent.java:173-176 | The agent is back on the start at step 0 |
| Learning.RLPathAgent.ChooseAction | RLPathAgent.java:181-200 | Computes the epsilon-greedy choice with the table's values |
| Learning.RLPathAgent.BestAction | RLPathAgent.java:189-199 | The argmax loop returns the greedy action |
| Learning.RLPathAgent.TrainStep | RLPathAgent.java:83-168 | A stopped or finished session reports completion and changes nothing else. Otherwise one transition: move per `Act`, VISITED mark, one Q-entry updated, bookkeeping per `Counted` |
| Learning.RLPathAgent.Advance | RLPathAgent.java:89-167 | One transition of a running session, or the missing-entry stop |
| Learning.RLPathAgent.Conclude | RLPathAgent.java:133-167 | Learns and counts the step, or stops at an unknown state keeping the table |
| Learning.RLPathAgent.Explore | RLPathAgent.java:89-131 | Resets at an episode's first step, chooses epsilon-greedily and moves per `Act` |
| Learning.RLPathAgent.Move | RLPathAgent.java:101-131 | The move per `Act`; only an entered cell other than start and end turns VISITED |
| Learning.RLPathAgent.Learn | RLPathAgent.java:136-141 | The table changes only at the current state, by the Q-learning rule |
| Learning.RLPathAgent.EndOfStep | RLPathAgent.java:143-167 | The bookkeeping after one step is `Counted` |
| Learning.RLPathAgent.FindPath | RLPathAgent.java:206-247 | Starts at the start; every step is a greedy move to a free adjacent cell; at most N*N+1 cells; stops at the end, after N*N steps or at a blocked greedy move |
| Learning.RLPathAgent.MaxTableValue | RLPathAgent.java:254-260 | The maximum of 0 and every table value |
| Learning.RLPathAgent.VisualizeHeatMap | RLPathAgent.java:253-285 | Every cell becomes `HeatCell` of its old record under the table maximum |
| Learning.RLPathAgent.HeatRow | RLPathAgent.java:266-284 | One row of the heat map, other rows unchanged |
| Visualizer.ResetKeeps | PathFindingVisualizer.java:349-354 | The per-cell reset keeps type and heat, drops the parent, marks unreached exactly the search's own scores, and is idempotent |
| Visualizer.ClearedOfSearch | PathFindingVisualizer.java:631-640 | Only the type changes; START, END and WALL cells stay, everything else becomes EMPTY |
| Visualizer.Unwalled | PathFindingVisualizer.java:619-625 | Only the type changes; a WALL becomes EMPTY and any other cell stays |
| Visualizer.ClearingSettles | PathFindingVisualizer.java:631-640 | Clearing is idempotent and leaves only START, END, WALL or EMPTY |
| Visualizer.MarkersAreUnique | PathFindingVisualizer.java:646-685 | At most one START cell and one END cell, never the same cell |
| Visualizer.RepaintKeepsMarks | PathFindingVisualizer.java:369-390 | A search repaints a cell only away from start and end, and only VISITED, CONSIDERING or PATH |
| Visualizer.KeepsMarkers | PathFindingVisualizer.java:597-606 | After a search and its path painting the START and END cells are where they were |
| Visualizer.TreeScoresFollowParents | PathFindingVisualizer.java:379-383 | Each cell with a parent scores one more than its adjacent parent |
| Visualizer.NeighborsAtMost | PathFindingVisualizer.java:579-595 | A neighbour list is no longer than the move list |
| Visualizer.Click | PathFindingVisualizer.java:654-684 | Only a left click moves start or end, and only onto the clicked cell; with both set a left click only toggles EMPTY and WALL |
| Visualizer.PathFindingVisualizer.constructor | PathFindingVisualizer.java:80-102 | A 20x20 grid of new cells, START at (2, 2), END at (17, 17) |
| Visualizer.PathFindingVisualizer.GetNeighbors | PathFindingVisualizer.java:579-595 | At most four cells, exactly the in-bounds 4-adjacent ones |
| Visualizer.PathFindingVisualizer.ReconstructPath | PathFindingVisualizer.java:597-606 | Exactly the parent-chain cells strictly between end and start turn PATH |
| Visualizer.PathFindingVisualizer.ResetScratch | PathFindingVisualizer.java:348-357 | The run's reset sweep and start score leave the grid showing the initial search state, walls unchanged |
| Visualizer.PathFindingVisualizer.Finish | PathFindingVisualizer.java:362-364 | A found end has its chain painted; START and END stay put and no WALL is painted over |
| Visualizer.PathFindingVisualizer.RunDijkstra | PathFindingVisualizer.java:344-401 | True exactly when reachable; the end's distance is then the shortest length, and every distance is its parent's + 1 |
| Visualizer.PathFindingVisualizer.RunAStar | PathFindingVisualizer.java:403-469 | True exactly when reachable; the end's gScore is then the shortest length, and every gScore is its parent's + 1 |
| Visualizer.PathFindingVisualizer.RunGreedyBestFirst | PathFindingVisualizer.java:471-528 | True exactly when reachable, along a legal walk; each cell enters the frontier at most once |
| Visualizer.PathFindingVisualizer.RunBreadthFirst | PathFindingVisualizer.java:530-572 | True exactly when reachable; the painted parent chain is then a shortest walk |
| Visualizer.PathFindingVisualizer.ClearPath | PathFindingVisualizer.java:631-644 | Every cell but START, END and WALL becomes EMPTY |
| Visualizer.PathFindingVisualizer.ResetGrid | PathFindingVisualizer.java:616-629 | Afterwards every cell is EMPTY except the START and END cells |
| Visualizer.PathFindingVisualizer.MousePressed | PathFindingVisualizer.java:653-684 | Ignored while running; otherwise the `Click` effect on the clicked cell only |

## Left out

- Rendering is left out: colours, `paintComponent`, repaint and the Swing
  frame, buttons, labels and dialogs. The obstacle trail
  (`visualizeTrail`, `clearTrail`) and the danger zones
  (`visualizePredictions`, `clearDangerZones`) are display-only overlays
  with float alpha colours.
- `startAlgorithm` and `pause` are left out: they are thread and animation
  wiring around the searches (a SwingWorker, sleeps).
  - `isRunning` is a field the click handler reads; the model never sets
    it.
  - A search run is modelled as a direct call, after its caller's
    `clearPath`.
- PathFindingVisualizerML.java is not part of this model. It is window
  wiring that only calls the modelled operations.
- Randomness is not modelled as a generator. The draws are parameters:
  - the obstacle's first direction and its RANDOM turn and retry draws;
  - the agent's exploration roll and explored action;
  - the agent's initial values.
- Floating point is not modelled: Q-values, rates and the heat-map ratio
  are exact `real`s, so rounding is not captured.
- Integer overflow is not modelled: scores are unbounded `int`s.
  `ScoresBounded` shows that scores stay below Integer.MAX_VALUE. A new
  neighbour's "tentative < MAX_VALUE" test in the visualiser's Dijkstra and
  A* therefore always holds, and the shared relaxation step takes new
  neighbours unconditionally.
- The ratio getters are left out as doubles; the counts they divide are
  modelled. These are the agent's `getSuccessRate` and `getAverageSteps`
  (RLPathAgent.java:291-299).
- `episodeRewards` is never appended in the source; the model only clears
  it.
- Plain getters and setters are left out. These are `getRow`, `getCol`,
  `getSpeed`, `getPattern` and `setPattern` on the obstacle, and
  `setNumEpisodes`, `setLearningRate`, `setDiscountFactor`,
  `setExplorationRate` and the getters on the agent. They read or assign
  one field.
- Visualizer.PathFindingVisualizer.RunDijkstra (and RunAStar,
  RunGreedyBestFirst, RunBreadthFirst): these require a start and an end.
  With either missing, the Java code fails with a null dereference.
- AdaptivePlanner.AdaptivePathFinder.FindPath: requires a start and an
  end. The null case is a caller error in the source.
- Learning.RLPathAgent.StartTraining: the range [0, 0.1) of the seeded
  values is stated by the separate lemma `SeededValuesSmall`, from the
  draws' range, rather than in the method's own contract.
- Learning.RLPathAgent.TrainStep: returns `Complete`, `Continues` or
  `MissingQEntry` in place of the boolean (`Complete` is true). The
  missing-entry case is where the source dereferences a missing entry.
- Obstacles.DynamicObstacle.Move: after a `Crashed` step the obstacle's
  position is off the grid and its validity is not promised, as in the
  source, which fails at that point.
- AdaptivePlanner.AdaptivePathFinder.UpdateObstacles: requires that no
  obstacle is registered twice, that all share the planner's grid and
  that every obstacle is valid and on the grid when the update starts.
  After a crash the Java timer calls the update again with the crashed
  obstacle off the grid; that later update is not modelled. The
  Java list could hold one obstacle twice, which would then move twice in
  one update; that case is not modelled. A crash ends the update, where the
  source's exception leaves the method.
- The parent pointers are positions rather than object references. Path
  lists are sequences of positions, and `State` equality is position
  equality.
