# ICFP Contest 2019 wrapping solver — a verified model of its core

The repository is a team's entry to the ICFP Programming Contest 2019. Robots
"wrap" the cells of a grid-shaped mine: every cell a robot or one of its
manipulator arms can see becomes wrapped. Along the way they pick up boosters:
manipulator extensions, fast wheels, drills, teleports, cloning. The entry
consists of:

- a command simulator (`Simulator.apply`) over an immutable grid map;
- a generic A* search, and three searches that run the simulator inside it;
- booster-use rules shared by several bots;
- a planner for a swarm of cloned robots, which cuts a tour of map regions
  ("blobs") into stretches and hands them out;
- a region finder: flood fill per square area, merging of small blobs, and
  the neighbour graph of the blobs;
- a union-find structure and the region count built on it;
- the readers of a `Task` line, old and new;
- the generator of contest maps: its parameter reader, the booster placer and
  the wall ("tunnel") generator.

The Dafny modules follow that structure:

- `Wrappers`, `Utils`, `Text`: `Util.kt` and the Kotlin library calls the readers make (`trim`, `split`, `toInt`, `removeSurrounding`, `minBy`).
- `Maps`: `map/GameMap.kt`.
- `Sim`: `sim/Simulator.kt`.
- `AStar`, `SearchInvariant`: `player/AStar.kt`.
- `SimulatingAStar`: `player/SimulatingAStar.kt`.
- `Boosters`, `SmarterAStar`: `player/SmarterAStarBot.kt` and the booster rules of `SimulatingAStar.kt` and `CloningBot.kt`.
- `Cloning`: `player/CloningBot.kt`.
- `Blobs`: `player/SuperSmarterAStarBot.kt`, `player/SmartAsFuckBot.kt`.
- `DisjointSets`: `util/DisjointSets.java`.
- `PersistentBot`: `player/StupidPersistentBot.kt`.
- `Parsing`, `LegacyParsing`: `parse/Parsing.kt`, `Parsing.kt`.
- `GenParameters`, `BusterGen`, `TunnelGen`: `generator/Parameters.kt`, `generator/BusterGenerator.kt`, `generator/TunnelGenerator.kt`.

Each file keeps the form of its source.

- Pure Kotlin code, which builds new values, becomes Dafny datatypes,
  functions and lemmas. This covers the simulator, the map, the parsers and
  the booster rules.
- Loops become methods with invariants. These include the A* loop,
  `reconstructPath`, `getSupercoverLine`, `isVisible`, the flood fill and
  the blob scans, `optimizeBlobs`, the merge loops of `TICK`, and
  `generatePoints`.
- Classes whose fields are updated in place become Dafny classes:
  - `DisjointSets`;
  - `BusterGenerator` with its `bustersLocations`;
  - `TunnelGenerator` with its `matrix`;
  - the swarm state of `CloningBot`;
  - the mutable counter of `Util.kt`.

Kotlin `Int`s are unbounded here. The readers check the 32-bit range
explicitly, as `Integer.valueOf` does. A thrown exception becomes the `Err`
case of a `Result`. A `null` becomes `None`.

## Model

Paths are relative to the repository root.

| member | source | states |
|---|---|---|
| Utils.Incremented | src/main/kotlin/ru/spbstu/sim/Simulator.kt:247 | the immutable increment the pickup uses leaves the key present |
| Utils.IncSpec | src/main/kotlin/ru/spbstu/util/Util.kt:3-7 | an absent key gets count 1, a present one its count plus one; every other count is kept; positivity of all counts is preserved |
| Utils.Decremented | src/main/kotlin/ru/spbstu/sim/Simulator.kt:292 | decrementing never adds a key |
| Utils.DecSpec | src/main/kotlin/ru/spbstu/sim/Simulator.kt:292 | the count drops by one, the key stays exactly when its count was above one, other counts are kept, positivity is preserved |
| Utils.LeastExists | src/main/kotlin/ru/spbstu/player/CloningBot.kt:15-18 | every non-empty finite set has an element where the measure is least |
| Utils.LeastBy | src/main/kotlin/ru/spbstu/player/CloningBot.kt:15-18 | `minBy` returns a member where the measure is least |
| Utils.MutableCounter.constructor | src/main/kotlin/ru/spbstu/util/Util.kt:3 | a counter starts with no entries |
| Utils.MutableCounter.Inc | src/main/kotlin/ru/spbstu/util/Util.kt:3-7 | in place: the entry becomes the old count (0 when absent) plus one, every other entry unchanged |
| Maps.NeighboursAreAdjacent | src/main/kotlin/ru/spbstu/player/SuperSmarterAStarBot.kt:43-48 | the four neighbours are exactly the 4-adjacent points; adjacency is symmetric and irreflexive |
| Maps.IsWallExactly | src/main/kotlin/ru/spbstu/map/GameMap.kt:58-63 | `isWall` holds exactly for WALL and SUPERWALL |
| Maps.BoosterFrom | src/main/kotlin/ru/spbstu/map/GameMap.kt:45-49 | a successful lookup returns the kind with that letter; a failure is the MapException and no kind has the letter |
| Maps.BoosterFromAscii | src/main/kotlin/ru/spbstu/map/GameMap.kt:36-49 | reading a kind's letter gives the kind back |
| Maps.ToLower | src/main/kotlin/ru/spbstu/map/GameMap.kt:24 | lower-casing keeps the length, turns each upper-case letter into its lower-case partner, keeps every other character, and leaves no upper-case letter |
| Maps.CellAsciiDistinguishes | src/main/kotlin/ru/spbstu/map/GameMap.kt:22-26 | two cells with the same glyph are the same cell, for cells whose glyph shows their booster |
| Maps.GetSet | src/main/kotlin/ru/spbstu/map/GameMap.kt:131-137 | reading after `set` gives the written cell at that point and the old cell elsewhere; an absent point reads as an outer wall |
| Maps.StepStaysInBounds | src/main/kotlin/ru/spbstu/map/GameMap.kt:168-185 | the step the line walk chooses never takes a counter past its bound |
| Maps.WalkLength | src/main/kotlin/ru/spbstu/map/GameMap.kt:168-188 | the walk takes between max(nx, ny) and nx + ny steps |
| Maps.WalkEnd | src/main/kotlin/ru/spbstu/map/GameMap.kt:168-188 | the walk is empty exactly when both counters are done, and otherwise ends at the start point moved by the full displacement |
| Maps.WalkSteps | src/main/kotlin/ru/spbstu/map/GameMap.kt:168-188 | each step is vertical, horizontal or diagonal toward the target |
| Maps.OffsetIsProduct | src/main/kotlin/ru/spbstu/map/GameMap.kt:172-182 | n steps of sign s move by s * n |
| Maps.SupercoverLineEnds | src/main/kotlin/ru/spbstu/map/GameMap.kt:151-191 | the line starts at `from` and ends at `to` |
| Maps.SupercoverLineSteps | src/main/kotlin/ru/spbstu/map/GameMap.kt:151-191 | each step moves each coordinate by at most one toward `to`, and there are between max(nx, ny) and nx + ny steps |
| Maps.SupercoverLineShape | src/main/kotlin/ru/spbstu/map/GameMap.kt:151-191 | the two lemmas above together: the endpoints, the unit steps and the step count |
| Maps.GetSupercoverLine | src/main/kotlin/ru/spbstu/map/GameMap.kt:151-191 | the loop that appends to a list computes exactly the supercover line |
| Maps.IsVisible | src/main/kotlin/ru/spbstu/map/GameMap.kt:139-149 | true exactly when no point of the line, endpoints included, is a wall |
| Maps.VisibleUnchanged | src/main/kotlin/ru/spbstu/map/GameMap.kt:139-149 | changing a non-wall cell into a non-wall cell keeps every line of sight |
| Sim.Dir | src/main/kotlin/ru/spbstu/sim/Simulator.kt:20-46 | a move's direction is a unit vector |
| Sim.MoveTargetIsNeighbour | src/main/kotlin/ru/spbstu/sim/Simulator.kt:20-46 | MOVE_UP, MOVE_DOWN and MOVE_LEFT reach the up, down and left neighbours, and every move reaches one of the four neighbours |
| Sim.OrientationTables | src/main/kotlin/ru/spbstu/sim/Simulator.kt:96-116 | the clockwise and counter-clockwise tables are inverse; four clockwise turns are the identity; both agree with rotating the (dx, dy) vector |
| Sim.RotateCW | src/main/kotlin/ru/spbstu/sim/Simulator.kt:139-145 | turning keeps the position, the active boosters and the number of manipulators |
| Sim.RotateCCW | src/main/kotlin/ru/spbstu/sim/Simulator.kt:147-153 | the same for a counter-clockwise turn |
| Sim.RotateRoundTrip | src/main/kotlin/ru/spbstu/sim/Simulator.kt:139-153 | turning one way and back restores the robot exactly |
| Sim.ManipulatorPos | src/main/kotlin/ru/spbstu/sim/Simulator.kt:161-170 | one absolute cell per manipulator |
| Sim.ManipulatorPosFollowsRobot | src/main/kotlin/ru/spbstu/sim/Simulator.kt:135-170 | moving translates every manipulator cell; a clockwise or counter-clockwise turn rotates each about the robot the same way; attaching appends exactly the new cell |
| Sim.Tick | src/main/kotlin/ru/spbstu/sim/Simulator.kt:172-177 | every active counter drops by one and those at 1 go; nothing else about the robot changes |
| Sim.TickNSpec | src/main/kotlin/ru/spbstu/sim/Simulator.kt:172-177 | after n ticks a counter c is active exactly when c > n, and then reads c - n |
| Sim.PaintArmsSpec | src/main/kotlin/ru/spbstu/sim/Simulator.kt:206-214 | painting the arm cells wraps exactly those that are EMPTY and visible from the robot, and changes nothing else |
| Sim.RepaintSpec | src/main/kotlin/ru/spbstu/sim/Simulator.kt:196-216 | `repaint` wraps the robot's cell, keeping its booster, then each EMPTY arm cell visible on the map so far; every other cell is unchanged |
| Sim.Repaint | src/main/kotlin/ru/spbstu/sim/Simulator.kt:196-216 | the loop that reassigns the map computes that repaint |
| Sim.Initial | src/main/kotlin/ru/spbstu/sim/Simulator.kt:182-192 | the factory makes one robot, time 0, empty inventories, and wraps the robot's cell |
| Sim.HasSolvedIffNoEmpty | src/main/kotlin/ru/spbstu/sim/Simulator.kt:390 | solved exactly when no cell reads EMPTY |
| Sim.MergedSpec | src/main/kotlin/ru/spbstu/sim/Simulator.kt:349-361 | the merge has the union of the keys and pointwise sums of the counts, keeps positivity, and merging nothing changes nothing |
| Sim.MergeFresh | src/main/kotlin/ru/spbstu/sim/Simulator.kt:352-358 | the two merge loops of TICK compute that merge |
| Sim.AddPendingToOwned | src/main/kotlin/ru/spbstu/sim/Simulator.kt:352-354 | the first loop adds the pending count to every kind already owned |
| Sim.AddNewKinds | src/main/kotlin/ru/spbstu/sim/Simulator.kt:355-358 | the second loop adds the kinds that are only pending |
| Sim.MergedCharacterised | src/main/kotlin/ru/spbstu/sim/Simulator.kt:349-361 | any map with the union of the keys and the pointwise sums is the merge |
| Sim.Effect | src/main/kotlin/ru/spbstu/sim/Simulator.kt:255-362 | a non-nested command fails exactly when it is illegal; only the nested half of a move is skipped; only CLONE asks for a clone |
| Sim.ApplyStep | src/main/kotlin/ru/spbstu/sim/Simulator.kt:227-374 | a step adds a robot exactly for CLONE |
| Sim.Apply | src/main/kotlin/ru/spbstu/sim/Simulator.kt:227-381 | success adds a robot exactly for CLONE; the error carries the acting robot and the map, as `die` does |
| Sim.NestedMoveNeverFails | src/main/kotlin/ru/spbstu/sim/Simulator.kt:256-277 | the second half of a fast-wheels move never fails, and leaves the world as it is in front of an outer wall, or of a wall without a drill |
| Sim.ApplyFailsIff | src/main/kotlin/ru/spbstu/sim/Simulator.kt:227-381 | a non-nested apply succeeds exactly on a legal command (an independent definition of legality) |
| Sim.ApplyCases | src/main/kotlin/ru/spbstu/sim/Simulator.kt:364-381 | when the first step is taken, a successful apply is that step, then the nested repeat of a move under fast wheels, then the tick of the actor |
| Sim.ApplyErrIff | src/main/kotlin/ru/spbstu/sim/Simulator.kt:227-381 | a non-nested apply fails exactly when its first step is not taken |
| Sim.NestedMoveOk | src/main/kotlin/ru/spbstu/sim/Simulator.kt:256-277 | a nested move succeeds |
| Sim.StepLegal | src/main/kotlin/ru/spbstu/sim/Simulator.kt:255-362 | the first step of a non-nested command is taken exactly when the command is legal, and is never skipped |
| Sim.ApplyShape | src/main/kotlin/ru/spbstu/sim/Simulator.kt:364-381 | a legal apply is one step, the nested repeat exactly when a move leaves fast wheels active, and one tick |
| Sim.LegalMoveStepIgnoresNesting | src/main/kotlin/ru/spbstu/sim/Simulator.kt:256-277 | a legal move's step is the same nested or not, and moves the actor one cell |
| Sim.StepKeepsOthers | src/main/kotlin/ru/spbstu/sim/Simulator.kt:364-365 | a step changes only the acting robot; CLONE appends a default robot on the actor's cell |
| Sim.ApplyKeepsOtherRobots | src/main/kotlin/ru/spbstu/sim/Simulator.kt:364-381 | apply changes only the acting robot, never shrinks the list, and CLONE appends a default robot on the actor's cell |
| Sim.KeptThroughTick | src/main/kotlin/ru/spbstu/sim/Simulator.kt:380-388 | the trailing tick keeps every other robot |
| Sim.ApplyFrom | src/main/kotlin/ru/spbstu/sim/Simulator.kt:364-381 | a successful apply returns the world itself (a skipped nested half), the stepped world (ticked or not), or the nested repeat, ticked |
| Sim.OnlyWrapsConsequences | src/main/kotlin/ru/spbstu/sim/Simulator.kt:196-216 | "cells only become WRAP" is reflexive and transitive, and keeps wrapped cells wrapped |
| Sim.RepaintOnlyWraps | src/main/kotlin/ru/spbstu/sim/Simulator.kt:196-216 | repainting only wraps cells and leaves the robot on a wrapped cell |
| Sim.StepOnlyWraps | src/main/kotlin/ru/spbstu/sim/Simulator.kt:227-374 | a step only wraps cells and leaves the actor on a wrapped cell |
| Sim.ApplyOnlyWraps | src/main/kotlin/ru/spbstu/sim/Simulator.kt:227-390 | apply only wraps cells, leaves the actor on a wrapped cell, and a solved world stays solved |
| Sim.NestedOnlyWraps | src/main/kotlin/ru/spbstu/sim/Simulator.kt:376-378 | the nested half of a move from a wrapped cell succeeds and only wraps cells |
| Sim.SolvedStaysSolved | src/main/kotlin/ru/spbstu/sim/Simulator.kt:390 | a world whose map only gained WRAP cells is solved if the old one was |
| Sim.EffectEconomy | src/main/kotlin/ru/spbstu/sim/Simulator.kt:255-347 | outside TICK, no usable booster count rises, time stands still and the fresh inventory passes through; moves, turns, NOOP and SHIFT_TO spend nothing |
| Sim.StepEconomy | src/main/kotlin/ru/spbstu/sim/Simulator.kt:240-374 | the same for a whole step, after the pickup; when the robot's cell held a booster, that cell reads as a wrapped cell afterwards |
| Sim.ApplyLedger | src/main/kotlin/ru/spbstu/sim/Simulator.kt:364-381 | the inventories and time after apply are those after the step or the nested repeat: the trailing tick touches only the robot |
| Sim.ApplyBoosterEconomy | src/main/kotlin/ru/spbstu/sim/Simulator.kt:227-381 | the two-stage booster economy for a whole apply outside TICK; the start cell's booster is cleared; after a move the fresh boosters are those picked up at the start cell, or, with fast wheels, those picked up where the first step ended |
| Sim.StepKeepsWrap | src/main/kotlin/ru/spbstu/sim/Simulator.kt:196-253 | a step keeps every wrapped cell wrapped, and leaves the cell where the robot picked up a booster wrapped |
| Sim.MoveStepFresh | src/main/kotlin/ru/spbstu/sim/Simulator.kt:240-277 | a move step takes in as fresh the boosters of the cell it starts from |
| Sim.ApplyPickupClears | src/main/kotlin/ru/spbstu/sim/Simulator.kt:240-253 | after an apply outside TICK, the cell the robot started on reads as wrapped when it held a booster, so a booster cannot be picked up twice |
| Sim.ApplyMoveFresh | src/main/kotlin/ru/spbstu/sim/Simulator.kt:240-277 | after a move apply, the fresh boosters are those of the start cell, or of the cell the first step reached when fast wheels make a second step |
| Sim.ApplyTick | src/main/kotlin/ru/spbstu/sim/Simulator.kt:349-361 | TICK never fails; it merges the fresh boosters, including one picked up now, into the usable ones, empties the fresh ones and advances time |
| Sim.UseFastWheels | src/main/kotlin/ru/spbstu/sim/Simulator.kt:290-298 | USE_FAST_WHEELS spends one fast-wheels booster and leaves its counter at 50 after the tick; the robot stays put |
| Sim.UseDrillSpendsFastWheels | src/main/kotlin/ru/spbstu/sim/Simulator.kt:300-308 | USE_DRILL needs a drill but, as written, spends a fast-wheels booster; the drill count is kept; the drill counter is 30 |
| Sim.TeleportRules | src/main/kotlin/ru/spbstu/sim/Simulator.kt:320-337 | RESET records a new teleport on the actor's cell; SHIFT_TO succeeds exactly onto a recorded teleport, and lands there |
| Sim.LegalMoveMovesOnce | src/main/kotlin/ru/spbstu/sim/Simulator.kt:256-277 | a legal move without fast wheels moves the actor by one cell |
| Sim.PaintArmsKeys | src/main/kotlin/ru/spbstu/sim/Simulator.kt:206-214 | painting arms never adds a cell to the map |
| Sim.RepaintedKeys | src/main/kotlin/ru/spbstu/sim/Simulator.kt:196-216 | repainting adds at most the robot's own cell |
| Sim.EffectOnMap | src/main/kotlin/ru/spbstu/sim/Simulator.kt:255-347 | a command moves its robot only onto a cell of the map or a teleport, and adds at most the robot's cell to the teleports |
| Sim.StepOnMap | src/main/kotlin/ru/spbstu/sim/Simulator.kt:227-374 | a step keeps every robot and teleport on a cell of the map and keeps the set of cells |
| Sim.RepaintedOnMap | src/main/kotlin/ru/spbstu/sim/Simulator.kt:196-216 | the same for a repaint |
| Sim.ApplyOnMap | src/main/kotlin/ru/spbstu/sim/Simulator.kt:227-381 | apply neither adds nor removes a map cell and keeps every robot, a clone included, and every teleport on the map |
| Sim.TickRobotOnMap | src/main/kotlin/ru/spbstu/sim/Simulator.kt:383-388 | the tick of one robot keeps the map |
| Sim.StepWithin | src/main/kotlin/ru/spbstu/sim/Simulator.kt:227-374 | a step keeps the cells, the teleports and the actor inside any set of points that held them |
| Sim.ApplyWithin | src/main/kotlin/ru/spbstu/sim/Simulator.kt:227-381 | the same for apply: the world reaches only finitely many places |
| Sim.AttachAddsManipulator | src/main/kotlin/ru/spbstu/sim/Simulator.kt:310-318 | attaching with an extension in stock succeeds and appends exactly the new offset |
| AStar.ReconstructPath | src/main/kotlin/ru/spbstu/player/AStar.kt:13-24 | the path follows the predecessor links from the value until a node with none; no key repeats; its length is the depth difference plus one |
| AStar.AStarSearch | src/main/kotlin/ru/spbstu/player/AStar.kt:26-53 | a goal start returns `[from]`; a found path starts with a goal, ends at `from`, steps along neighbours and repeats no key; with an injective key, `null` means no walk from `from` reaches a goal |
| AStar.Expand | src/main/kotlin/ru/spbstu/player/AStar.kt:46-50 | expanding a node keeps the search invariant and queues one entry per newly discovered key |
| AStar.Discover | src/main/kotlin/ru/spbstu/player/AStar.kt:47-49 | discovering a neighbour records its predecessor and length, keeps the invariant and grows the closed set by one |
| AStar.Poll | src/main/kotlin/ru/spbstu/player/AStar.kt:31-39 | the queue yields an entry of least priority, heuristic plus length |
| AStar.ArgMin | src/main/kotlin/ru/spbstu/player/AStar.kt:31 | an index of least priority |
| AStar.RobotAndCommandIdentity | src/main/kotlin/ru/spbstu/player/AStar.kt:55-60 | two nodes are equal exactly when their robots share position and orientation; manipulators, boosters and the command play no part |
| SearchInvariant.RemoveFromOpen | src/main/kotlin/ru/spbstu/player/AStar.kt:39 | removing a queue entry loses only that entry's key |
| SearchInvariant.ClosedSetContainsWalk | src/main/kotlin/ru/spbstu/player/AStar.kt:38-51 | a node set closed under neighbours that holds a walk's start holds the whole walk |
| SearchInvariant.InitInv | src/main/kotlin/ru/spbstu/player/AStar.kt:30-36 | the initial queue, closed set and path map satisfy the invariant |
| SearchInvariant.PopKeepsInv | src/main/kotlin/ru/spbstu/player/AStar.kt:39-44 | popping a non-goal entry keeps the invariant |
| SearchInvariant.DiscoverKeepsInv | src/main/kotlin/ru/spbstu/player/AStar.kt:46-50 | discovering a neighbour keeps the invariant |
| SearchInvariant.DiscoverKeepsNodes | src/main/kotlin/ru/spbstu/player/AStar.kt:47-49 | the node and predecessor parts of that |
| SearchInvariant.DiscoverKeepsQueue | src/main/kotlin/ru/spbstu/player/AStar.kt:48-49 | the queue part of that |
| SearchInvariant.ProcessedStep | src/main/kotlin/ru/spbstu/player/AStar.kt:46 | one more neighbour of the expanded node is discovered |
| SearchInvariant.ProcessedAll | src/main/kotlin/ru/spbstu/player/AStar.kt:46-50 | after the loop every neighbour is discovered |
| SearchInvariant.FinishKeepsInv | src/main/kotlin/ru/spbstu/player/AStar.kt:46-50 | finishing an expansion keeps the invariant |
| SearchInvariant.GoalPathSound | src/main/kotlin/ru/spbstu/player/AStar.kt:44 | the rebuilt path ends at `from`, steps along neighbours and repeats no key |
| SearchInvariant.ExhaustedMeansNoGoal | src/main/kotlin/ru/spbstu/player/AStar.kt:52 | an empty queue with an injective key means no walk from `from` reaches a goal |
| SimulatingAStar.SuccessorsSpec | src/main/kotlin/ru/spbstu/player/SimulatingAStar.kt:13-18 | a successor is exactly a command whose apply succeeds, tagged with the resulting world; at most one per command |
| SimulatingAStar.NodeKeyIdentity | src/main/kotlin/ru/spbstu/player/SimulatingAStar.kt:20-24 | two nodes are equal exactly when they steer the same robot index and that robot has the same position and orientation; active boosters play no part |
| SimulatingAStar.DistanceHeuristic | src/main/kotlin/ru/spbstu/player/SimulatingAStar.kt:29-34 | the least arm cost over the manipulator cells (Manhattan distance in tenths, plus one when visible), or the no-estimate value without arms |
| SimulatingAStar.ArmCostsBelowNoEstimate | src/main/kotlin/ru/spbstu/player/SimulatingAStar.kt:29-34 | with every arm within 214,748,364 cells of the target, each arm cost lies below the no-estimate value, as every estimate lies below `Double.MAX_VALUE` |
| SimulatingAStar.EnclosedHeuristic | src/main/kotlin/ru/spbstu/player/SimulatingAStar.kt:41-50 | as parsed, each arm's value is only its last line: 10 in an enclosed area, else 0 |
| SimulatingAStar.Reversed | src/main/kotlin/ru/spbstu/player/SimulatingAStar.kt:37 | `reversed()`: element i is element n - 1 - i |
| SimulatingAStar.NeighborStep | src/main/kotlin/ru/spbstu/player/SimulatingAStar.kt:13-18 | a neighbour is one search command away |
| SimulatingAStar.PlanOfGrows | src/main/kotlin/ru/spbstu/player/SimulatingAStar.kt:37 | one more node of the path puts its command in front of the plan |
| SimulatingAStar.PlanRuns | src/main/kotlin/ru/spbstu/player/SimulatingAStar.kt:37 | the plan read off a found path drives its start world to its goal world, with search commands only |
| SimulatingAStar.NeighborStaysWithin | src/main/kotlin/ru/spbstu/player/SimulatingAStar.kt:13-18 | neighbours stay within the points that held the world, so the keys are finite |
| SimulatingAStar.NeighborsClosed | src/main/kotlin/ru/spbstu/player/SimulatingAStar.kt:13-18 | the same for every node at once |
| SimulatingAStar.SearchWithin | src/main/kotlin/ru/spbstu/player/SimulatingAStar.kt:27-36 | the generic search over a finite set of keys: a goal start gives `[from]`; a found path starts at a goal, ends at `from` and steps along neighbours |
| SimulatingAStar.SearchPlan | src/main/kotlin/ru/spbstu/player/SimulatingAStar.kt:27-37 | a found plan uses only search commands, runs without failure and reaches a goal world; a goal start gives the empty plan |
| SimulatingAStar.SimulatingAStarToWrap | src/main/kotlin/ru/spbstu/player/SimulatingAStar.kt:27-37 | unless it is the `[NOOP]` fallback, the plan runs and leaves the target wrapped; nothing to do gives `[]` |
| SimulatingAStar.SimulatingEnclosedAStar | src/main/kotlin/ru/spbstu/player/SimulatingAStar.kt:39-53 | the plan always runs, with search commands only; a non-empty plan brings the target into a visible arm cell; `[]` when the target is already in reach, and also on failure |
| SimulatingAStar.SimulatingAStarForWalking | src/main/kotlin/ru/spbstu/player/SimulatingAStar.kt:55-65 | unless it is the `[NOOP]` fallback, the plan runs and puts the robot on the target |
| SimulatingAStar.ApplySimulatingBoosters | src/main/kotlin/ru/spbstu/player/SimulatingAStar.kt:67-118 | at most one legal command, among CLONE, an attach and fast wheels, and never a drill; CLONE exactly when a clone is ready; fast wheels only without an extension in stock and while fast wheels are not active |
| SmarterAStar.CheckNearestBooster | src/main/kotlin/ru/spbstu/player/SmarterAStarBot.kt:15-25 | none exactly when every extension cell is at distance 5 or more; otherwise a nearest extension cell, closer than 5 |
| SmarterAStar.ApplyBoosters | src/main/kotlin/ru/spbstu/player/SmarterAStarBot.kt:27-71 | nothing exactly without an extension in stock; otherwise one legal attach of an offset the robot lacks, which adds exactly that offset |
| Boosters.MinOf | src/main/kotlin/ru/spbstu/player/SmarterAStarBot.kt:33-49 | the least element of a non-empty list |
| Boosters.MaxOf | src/main/kotlin/ru/spbstu/player/SmarterAStarBot.kt:51-68 | the greatest element of a non-empty list |
| Boosters.OneColumnIff | src/main/kotlin/ru/spbstu/player/SmarterAStarBot.kt:33 | the sorted distinct x list has one value exactly when all offsets share one x |
| Boosters.ColumnExtension | src/main/kotlin/ru/spbstu/player/SmarterAStarBot.kt:33-49 | in one column the new offset extends the column, touching an existing offset |
| Boosters.RowExtension | src/main/kotlin/ru/spbstu/player/SmarterAStarBot.kt:51-68 | otherwise the new offset lies in a column of its own, on an existing row |
| Boosters.ExtensionPointIsNew | src/main/kotlin/ru/spbstu/player/SmarterAStarBot.kt:33-68 | the new offset is never one the robot has, in both cases |
| Boosters.BoosterChoicePriority | src/main/kotlin/ru/spbstu/player/CloningBot.kt:42-97 | at most one command, by priority CLONE, attach, fast wheels, drill, each of the last two only while not active; nothing when no branch applies |
| Boosters.BoosterChoiceLegal | src/main/kotlin/ru/spbstu/player/CloningBot.kt:42-97 | every command chosen is legal; an attach adds exactly one new offset |
| Cloning.ApplyMasterSimulatingBoosters | src/main/kotlin/ru/spbstu/player/CloningBot.kt:42-97 | at most one legal command; CLONE exactly when ready; an attach exactly otherwise with an extension; a drill only after the other branches fail; nothing exactly when no branch applies |
| Cloning.ApplyNonsimulatingBoosters | src/main/kotlin/ru/spbstu/player/CloningBot.kt:100-147 | only CLONE or an attach, legal, and nothing exactly when neither applies |
| Cloning.BotNumber | src/main/kotlin/ru/spbstu/player/CloningBot.kt:159 | one robot per CLONING booster on the map, plus the first |
| Cloning.CeilDivCovers | src/main/kotlin/ru/spbstu/player/CloningBot.kt:172 | the rounded-up quotient's pieces cover the tour |
| Cloning.CeilDivLeast | src/main/kotlin/ru/spbstu/player/CloningBot.kt:172 | no fewer pieces cover it |
| Cloning.ChunkedFlatten | src/main/kotlin/ru/spbstu/player/CloningBot.kt:174 | the chunks put back together give the list |
| Cloning.ChunkedSizes | src/main/kotlin/ru/spbstu/player/CloningBot.kt:174 | every chunk is non-empty and at most k long, all but the last exactly k |
| Cloning.ChunkedCount | src/main/kotlin/ru/spbstu/player/CloningBot.kt:174 | there are ceil(n / k) chunks |
| Cloning.Segments | src/main/kotlin/ru/spbstu/player/CloningBot.kt:172-174 | an empty tour fails (a chunk size of 0); otherwise the tour cut into chunks of ceil(n / bots) |
| Cloning.SegmentsShape | src/main/kotlin/ru/spbstu/player/CloningBot.kt:172-174 | at most `bots` stretches, all full but the last, together the tour |
| Cloning.FlattenMember | src/main/kotlin/ru/spbstu/player/CloningBot.kt:206 | an element of the joined stretches lies in some stretch |
| Cloning.DistinctAppend | src/main/kotlin/ru/spbstu/player/CloningBot.kt:207 | the halves of a list without repeats share nothing |
| Cloning.StretchesDisjoint | src/main/kotlin/ru/spbstu/player/CloningBot.kt:174 | the stretches of a tour that visits each region once share no region |
| Cloning.FirstContaining | src/main/kotlin/ru/spbstu/player/CloningBot.kt:206 | `first { it.contains(x) }`: the first stretch holding x |
| Cloning.Without | src/main/kotlin/ru/spbstu/player/CloningBot.kt:207 | `removeAll`: exactly the elements not removed are kept |
| Cloning.AddBot | src/main/kotlin/ru/spbstu/player/CloningBot.kt:233 | the robot is recorded for a tracked region only; other regions are kept |
| Cloning.Live | src/main/kotlin/ru/spbstu/player/CloningBot.kt:219-223 | the tracked regions that still have an EMPTY cell, with their robots |
| Cloning.ClaimKeepsWhole | src/main/kotlin/ru/spbstu/player/CloningBot.kt:207 | handing out one stretch keeps every other stretch whole in the remaining tour |
| Cloning.Swarm.constructor | src/main/kotlin/ru/spbstu/player/CloningBot.kt:153-177 | the whole tour waits, cut for the robots; every region tracked with no robot; the master robot has its commands |
| Cloning.Swarm.Assign | src/main/kotlin/ru/spbstu/player/CloningBot.kt:189-237 | a robot with a remembered stretch takes its next region; otherwise, while the tour lasts, it claims a whole waiting stretch; afterwards wrapped regions are dropped and it goes to its own region or to a live region that no live region has fewer robots than, or gets nothing when no region is live |
| Cloning.Swarm.ClaimStretch | src/main/kotlin/ru/spbstu/player/CloningBot.kt:201-207 | the claimed stretch is a waiting one, or the one holding the robot's region |
| Cloning.Swarm.Turn | src/main/kotlin/ru/spbstu/player/CloningBot.kt:184-250 | a robot emits the head of its stream and advances it, or NOOP when the stream is used up, which drops it; no other robot's stream changes |
| Cloning.Swarm.Round | src/main/kotlin/ru/spbstu/player/CloningBot.kt:179-255 | one command per robot present, in index order, then TICK unless solved; each robot's turn reads which regions are wrapped at that turn |
| Blobs.AreaCells | src/main/kotlin/ru/spbstu/player/SuperSmarterAStarBot.kt:33-39 | the cells of an area are exactly those it contains |
| Blobs.IsNeighborIff | src/main/kotlin/ru/spbstu/player/SuperSmarterAStarBot.kt:43-51 | `isNeighbor` holds exactly when the blobs touch, and is symmetric |
| Blobs.ConnectedSymmetric | src/main/kotlin/ru/spbstu/player/SuperSmarterAStarBot.kt:57-77 | reachability inside an area is symmetric |
| Blobs.ConnectedStep | src/main/kotlin/ru/spbstu/player/SuperSmarterAStarBot.kt:57-77 | and extends by a step to an open neighbour |
| Blobs.ClosedHoldsPath | src/main/kotlin/ru/spbstu/player/SuperSmarterAStarBot.kt:57-77 | a closed set holding a walk's start holds its end |
| Blobs.ComponentsDisjoint | src/main/kotlin/ru/spbstu/player/SuperSmarterAStarBot.kt:79-90 | two components that do not share a start share no cell |
| Blobs.SkipKeepsState | src/main/kotlin/ru/spbstu/player/SuperSmarterAStarBot.kt:65-67 | skipping a collected or closed cell keeps the fill's state |
| Blobs.AddKeepsState | src/main/kotlin/ru/spbstu/player/SuperSmarterAStarBot.kt:68-73 | collecting an open cell and queueing its neighbours keeps the fill's state |
| Blobs.FloodFill | src/main/kotlin/ru/spbstu/player/SuperSmarterAStarBot.kt:57-77 | the blob holds open cells of the area reachable from the start, closed under open neighbours; it holds the start exactly when the start is open |
| Blobs.ScanAddKeeps | src/main/kotlin/ru/spbstu/player/SuperSmarterAStarBot.kt:79-90 | adding the fill of an uncovered open cell keeps the scan state |
| Blobs.ScanAdvance | src/main/kotlin/ru/spbstu/player/SuperSmarterAStarBot.kt:79-90 | moving up a column keeps it |
| Blobs.ScanNextColumn | src/main/kotlin/ru/spbstu/player/SuperSmarterAStarBot.kt:79-90 | moving to the next column keeps it |
| Blobs.FindBlobsInArea | src/main/kotlin/ru/spbstu/player/SuperSmarterAStarBot.kt:79-90 | the blobs of an area are disjoint connected components and cover exactly its open cells |
| Blobs.TileOfCell | src/main/kotlin/ru/spbstu/player/SuperSmarterAStarBot.kt:92-101 | a cell of a tiling area belongs to that area |
| Blobs.TileAddKeeps | src/main/kotlin/ru/spbstu/player/SuperSmarterAStarBot.kt:92-101 | adding an area's blobs keeps the map scan's state |
| Blobs.TileNextRow | src/main/kotlin/ru/spbstu/player/SuperSmarterAStarBot.kt:92-101 | moving to the next row of areas keeps it |
| Blobs.FindBlobs | src/main/kotlin/ru/spbstu/player/SuperSmarterAStarBot.kt:92-101 | every blob is a component of its tile; blobs are disjoint; every non-wall cell of the box is covered |
| Blobs.FindFirst | src/main/kotlin/ru/spbstu/player/SuperSmarterAStarBot.kt:163 | `find`: the first index satisfying the test, or none exactly when no element does |
| Blobs.IndexOf | src/main/kotlin/ru/spbstu/player/SuperSmarterAStarBot.kt:216 | the first index holding the element |
| Blobs.RemoveAt | src/main/kotlin/ru/spbstu/player/SuperSmarterAStarBot.kt:168-169 | one element fewer, the rest in order |
| Blobs.RemoveFirst | src/main/kotlin/ru/spbstu/player/SuperSmarterAStarBot.kt:168-169 | `remove(element)` drops exactly one copy of the element (as multisets), the first one, and keeps the others in order around the gap |
| Blobs.RemoveAtCovered | src/main/kotlin/ru/spbstu/player/SuperSmarterAStarBot.kt:168-169 | dropping a blob loses only its own points |
| Blobs.RemoveAtDisjoint | src/main/kotlin/ru/spbstu/player/SuperSmarterAStarBot.kt:168-169 | the blobs left are disjoint, and disjoint from the dropped one |
| Blobs.MergeStepCovers | src/main/kotlin/ru/spbstu/player/SuperSmarterAStarBot.kt:166-170 | a merge lowers the count by one, keeps the points covered and appends the union |
| Blobs.MergeStepDisjoint | src/main/kotlin/ru/spbstu/player/SuperSmarterAStarBot.kt:166-170 | a merge of disjoint blobs leaves disjoint blobs |
| Blobs.OptimizeBlobs | src/main/kotlin/ru/spbstu/player/SuperSmarterAStarBot.kt:160-173 | the covered cells never change, disjoint stays disjoint, the count never grows, and at the end no small blob has a neighbour to merge with |
| Blobs.FindGraph | src/main/kotlin/ru/spbstu/player/SuperSmarterAStarBot.kt:103-119 | the edges are exactly the pairs i < j of neighbouring blobs, without repeats |
| Blobs.GraphUndirected | src/main/kotlin/ru/spbstu/player/SuperSmarterAStarBot.kt:112-117 | read without orientation, the edges join exactly the distinct blobs that touch |
| Blobs.OrderedTour | src/main/kotlin/ru/spbstu/player/SuperSmarterAStarBot.kt:216-219 | as written: none exactly for a root not on the tour; otherwise one entry fewer than the tour (doubled when it has one node), holding all its entries but the last |
| Blobs.OrderedTourSkipsLast | src/main/kotlin/ru/spbstu/player/SuperSmarterAStarBot.kt:216-219 | for the open tour [0, 1, 2] the written order drops blob 2, and rooted at 2 drops the root itself |
| Blobs.RotatedTour | src/main/kotlin/ru/spbstu/player/Christofides.kt:69-71 | the corrected order: the tour rotated to start at the root, so entry j is the tour's entry at (root index + j) mod its length; every blob exactly once |
| Blobs.NearestUpNeighbor | src/main/kotlin/ru/spbstu/player/SmartAsFuckBot.kt:220-225 | none exactly when nothing lies above; otherwise a point above with the least horizontal distance, ties to the least height |
| DisjointSets.MaxRank | src/main/kotlin/ru/spbstu/util/DisjointSets.java:68-101 | an upper bound of every rank |
| DisjointSets.FindIn | src/main/kotlin/ru/spbstu/util/DisjointSets.java:75-81 | the representative is a root, and is the node or of higher rank |
| DisjointSets.CompressKeeps | src/main/kotlin/ru/spbstu/util/DisjointSets.java:75-81 | path compression keeps the ranks well ordered, every representative and the roots |
| DisjointSets.LinkFind | src/main/kotlin/ru/spbstu/util/DisjointSets.java:83-100 | linking one root under another redirects exactly its set and removes one root |
| DisjointSets.LinkWellRanked | src/main/kotlin/ru/spbstu/util/DisjointSets.java:89-96 | linking by rank keeps a parent's rank above its child's |
| DisjointSets.ExtendKeeps | src/main/kotlin/ru/spbstu/util/DisjointSets.java:19-27 | a new root changes no representative |
| DisjointSets.RepOfSame | src/main/kotlin/ru/spbstu/util/DisjointSets.java:66 | equal representatives node-wise give equal representatives element-wise |
| DisjointSets.RepOfMerged | src/main/kotlin/ru/spbstu/util/DisjointSets.java:43-51 | coarsening at the node level coarsens the element partition |
| DisjointSets.DisjointSets.constructor | src/main/kotlin/ru/spbstu/util/DisjointSets.java:11-17 | an empty structure |
| DisjointSets.DisjointSets.Add | src/main/kotlin/ru/spbstu/util/DisjointSets.java:19-27 | false and no change for a present element; otherwise a fresh root of rank 0; no representative changes |
| DisjointSets.DisjointSets.Root | src/main/kotlin/ru/spbstu/util/DisjointSets.java:75-81 | returns the representative and points the node straight at it; no representative changes |
| DisjointSets.DisjointSets.Join | src/main/kotlin/ru/spbstu/util/DisjointSets.java:83-100 | false exactly when already together; the two sets become one and one root goes |
| DisjointSets.DisjointSets.Link | src/main/kotlin/ru/spbstu/util/DisjointSets.java:89-96 | the root of lower rank goes under the other; on equal ranks the first under the second |
| DisjointSets.DisjointSets.InSameSet | src/main/kotlin/ru/spbstu/util/DisjointSets.java:29-41 | false for an absent element; otherwise whether they share a representative |
| DisjointSets.DisjointSets.Union | src/main/kotlin/ru/spbstu/util/DisjointSets.java:43-51 | false for an absent element or one set; otherwise the two sets become one; the partition only gets coarser |
| DisjointSets.DisjointSets.RootOf | src/main/kotlin/ru/spbstu/util/DisjointSets.java:66 | the representative node of a present element |
| DisjointSets.DisjointSets.Clear | src/main/kotlin/ru/spbstu/util/DisjointSets.java:57-64 | every element is forgotten |
| PersistentBot.CoarserKeepsDone | src/main/kotlin/ru/spbstu/player/StupidPersistentBot.kt:16-22 | a coarser partition keeps handled cells handled |
| PersistentBot.CellStep | src/main/kotlin/ru/spbstu/player/StupidPersistentBot.kt:18-21 | one more neighbour handled |
| PersistentBot.CellFinished | src/main/kotlin/ru/spbstu/player/StupidPersistentBot.kt:16-22 | after four neighbours the cell is handled |
| PersistentBot.GroupCell | src/main/kotlin/ru/spbstu/player/StupidPersistentBot.kt:16-22 | the outer loop body handles one more cell |
| PersistentBot.AddNeighbour | src/main/kotlin/ru/spbstu/player/StupidPersistentBot.kt:18-21 | a neighbour of equal status ends up with the cell's representative |
| PersistentBot.ImageBounds | src/main/kotlin/ru/spbstu/player/StupidPersistentBot.kt:24 | the distinct representatives of non-empty keys number between one and the keys |
| PersistentBot.Groups | src/main/kotlin/ru/spbstu/player/StupidPersistentBot.kt:12-25 | every cell is handled, and the count is the number of distinct representatives over the cells |
| PersistentBot.CountRoots | src/main/kotlin/ru/spbstu/player/StupidPersistentBot.kt:24 | the size of the set of roots is the number of distinct representatives |
| PersistentBot.CellsPresent | src/main/kotlin/ru/spbstu/player/StupidPersistentBot.kt:16-22 | every handled cell is in the union-find |
| PersistentBot.GroupsBounds | src/main/kotlin/ru/spbstu/player/StupidPersistentBot.kt:24 | the count is between one and the number of cells for a non-empty map, zero for an empty one |
| PersistentBot.SameStatusSameGroup | src/main/kotlin/ru/spbstu/player/StupidPersistentBot.kt:18-20 | two adjacent cells of one status are in one group |
| PersistentBot.Empties | src/main/kotlin/ru/spbstu/player/StupidPersistentBot.kt:28-32 | at most the number of points, zero exactly when none of them is an EMPTY map cell |
| PersistentBot.EmptyCellsNone | src/main/kotlin/ru/spbstu/player/StupidPersistentBot.kt:28-32 | no EMPTY cells exactly when none of the points is an EMPTY map cell |
| PersistentBot.TryApplySpec | src/main/kotlin/ru/spbstu/player/StupidPersistentBot.kt:37-40 | `tryEx { apply }` succeeds exactly for a legal command of robot 0, with apply's world |
| PersistentBot.NeighborsFromSpec | src/main/kotlin/ru/spbstu/player/StupidPersistentBot.kt:37-40 | one successor per succeeding command, carrying the points |
| PersistentBot.NeighborsSpec | src/main/kotlin/ru/spbstu/player/StupidPersistentBot.kt:37-40 | the successors are exactly the legal robot-0 moves among the six search commands; a world without robots has none |
| Text.SkipStart | src/main/kotlin/ru/spbstu/parse/Parsing.kt:8 | the first non-whitespace index at or after k |
| Text.SkipEnd | src/main/kotlin/ru/spbstu/parse/Parsing.kt:8 | the end of the text with its trailing whitespace dropped |
| Text.TrimSpec | src/main/kotlin/ru/spbstu/parse/Parsing.kt:8 | `trim` removes exactly whitespace from both ends and leaves neither end whitespace |
| Text.TrimEmptyIff | src/main/kotlin/ru/spbstu/parse/Parsing.kt:17 | `trim().isEmpty()` holds exactly for all-whitespace text |
| Text.TrimPadded | src/main/kotlin/ru/spbstu/parse/Parsing.kt:8 | trimming padded text gives the text |
| Text.SplitOn | src/main/kotlin/ru/spbstu/parse/Parsing.kt:13 | `split` always gives at least one piece |
| Text.JoinSplitOn | src/main/kotlin/ru/spbstu/parse/Parsing.kt:13 | the pieces joined by the delimiter give the text back |
| Text.SplitOnNone | src/main/kotlin/ru/spbstu/parse/Parsing.kt:13 | text without the delimiter is one piece |
| Text.SplitOnStep | src/main/kotlin/ru/spbstu/parse/Parsing.kt:13 | a leading piece without the delimiter's first character splits off whole |
| Text.SplitOnJoin | src/main/kotlin/ru/spbstu/parse/Parsing.kt:13 | splitting a join gives the pieces back when every piece but the last lacks the delimiter's first character and the last does not contain the delimiter |
| Text.SplitOnJoinFree | src/main/kotlin/ru/spbstu/parse/Parsing.kt:13 | the same for pieces free of the delimiter's first character |
| Text.SplitOnJoinChar | src/main/kotlin/ru/spbstu/parse/Parsing.kt:18 | the same for a one-character delimiter |
| Text.SplitOnAppend | src/main/kotlin/ru/spbstu/parse/Parsing.kt:27 | a one-character delimiter splits a concatenation piecewise |
| Text.RemoveSurrounding | src/main/kotlin/ru/spbstu/generator/Parameters.kt:24 | either the text unchanged or the text between the prefix and the suffix |
| Text.RemoveSurroundingOf | src/main/kotlin/ru/spbstu/generator/Parameters.kt:24 | a surrounded text loses exactly its prefix and suffix |
| Text.ParseInt | src/main/kotlin/ru/spbstu/parse/Parsing.kt:8 | a success is a 32-bit value; a failure is the number-format error for that text |
| Text.ShowNat | src/main/kotlin/ru/spbstu/parse/Parsing.kt:8 | a printed natural number is a non-empty digit string |
| Text.ShowNatValue | src/main/kotlin/ru/spbstu/parse/Parsing.kt:8 | its digits have its value |
| Text.ParseShowInt | src/main/kotlin/ru/spbstu/parse/Parsing.kt:8 | reading a printed 32-bit integer gives it back |
| Text.ShowIntChars | src/main/kotlin/ru/spbstu/parse/Parsing.kt:8 | a printed integer holds no whitespace at its ends and no separator |
| Text.ParseAll | src/main/kotlin/ru/spbstu/parse/Parsing.kt:13 | `map` with a throwing function: every result, or the first failure in list order |
| Text.ParseAllFirst | src/main/kotlin/ru/spbstu/parse/Parsing.kt:13 | a failing first element is the failure |
| Text.ParseAllOk | src/main/kotlin/ru/spbstu/parse/Parsing.kt:13 | when every element succeeds, so does the list |
| Parsing.ParsePoint | src/main/kotlin/ru/spbstu/parse/Parsing.kt:7-10 | a point read is two 32-bit values; a failure is a number-format error |
| Parsing.ParsePointPadded | src/main/kotlin/ru/spbstu/parse/Parsing.kt:7-10 | `x,y` with any parentheses or whitespace around it reads as the point |
| Parsing.ParsePointText | src/main/kotlin/ru/spbstu/parse/Parsing.kt:7-10 | reading a printed point gives it back |
| Parsing.ParsePointFirstLast | src/main/kotlin/ru/spbstu/parse/Parsing.kt:9 | of three fields the first and the last are kept |
| Parsing.ParseMap | src/main/kotlin/ru/spbstu/parse/Parsing.kt:12-14 | one point per piece of the `),(` split |
| Parsing.ParseShapeText | src/main/kotlin/ru/spbstu/parse/Parsing.kt:12-14 | reading a printed shape gives it back |
| Parsing.ParseObstacles | src/main/kotlin/ru/spbstu/parse/Parsing.kt:16-19 | blank text gives no obstacles; otherwise one shape per `;` piece |
| Parsing.ParseObstaclesText | src/main/kotlin/ru/spbstu/parse/Parsing.kt:16-19 | reading a printed obstacle list gives it back, the empty list included |
| Parsing.ParseBooster | src/main/kotlin/ru/spbstu/parse/Parsing.kt:23 | a booster read has its point from the text after the first character and its kind from that character |
| Parsing.ParseBoosters | src/main/kotlin/ru/spbstu/parse/Parsing.kt:21-24 | blank text gives no boosters |
| Parsing.KindFromLetters | src/main/kotlin/ru/spbstu/parse/Parsing.kt:23 | every kind's letter reads back as the kind |
| Parsing.ParseBoosterText | src/main/kotlin/ru/spbstu/parse/Parsing.kt:23 | one printed booster reads back |
| Parsing.ParseBoostersText | src/main/kotlin/ru/spbstu/parse/Parsing.kt:21-24 | reading a printed booster list gives it back, the empty list included |
| Parsing.ParseFields | src/main/kotlin/ru/spbstu/parse/Parsing.kt:28-34 | building the `Task` succeeds exactly when all four fields read, and it holds what each reads |
| Parsing.ParseParts | src/main/kotlin/ru/spbstu/parse/Parsing.kt:27 | fewer than four `#` fields fail at the first missing index |
| Parsing.ParseFile | src/main/kotlin/ru/spbstu/parse/Parsing.kt:26-35 | fewer than four fields fail with an index error; a task read carries its name |
| Parsing.ParsePartsIgnoresExtra | src/main/kotlin/ru/spbstu/parse/Parsing.kt:27 | fields after the fourth change nothing |
| Parsing.PartsFieldsParse | src/main/kotlin/ru/spbstu/parse/Parsing.kt:28-34 | the printed fields, read in order, give back the parts |
| Parsing.ParsePartsText | src/main/kotlin/ru/spbstu/parse/Parsing.kt:26-35 | reading a printed task line gives back its parts |
| Parsing.ParseFileText | src/main/kotlin/ru/spbstu/parse/Parsing.kt:26-35 | reading a printed task gives it back under its name |
| LegacyParsing.ValueOf | src/main/kotlin/ru/spbstu/Parsing.kt:4-6 | `valueOf` fails exactly for a name other than B, F, L, X, with that name |
| LegacyParsing.ValueOfName | src/main/kotlin/ru/spbstu/Parsing.kt:35 | every constant's name reads back as the constant |
| LegacyParsing.Obstacles | src/main/kotlin/ru/spbstu/Parsing.kt:29 | each shape is wrapped as an obstacle, in order |
| LegacyParsing.ParseFile | src/main/kotlin/ru/spbstu/Parsing.kt:38-46 | fails exactly when the newer field reader does; otherwise the same outline and start, wrapped |
| LegacyParsing.ParseFileText | src/main/kotlin/ru/spbstu/Parsing.kt:38-46 | reading a printed task gives it back, wrapped |
| LegacyParsing.CloningUnknown | src/main/kotlin/ru/spbstu/Parsing.kt:33-36 | a cloning booster `C`, which the newer reader accepts, fails the whole list |
| GenParameters.Numbers | src/main/kotlin/ru/spbstu/generator/Parameters.kt:5-16 | the eleven numbers |
| GenParameters.Build | src/main/kotlin/ru/spbstu/generator/Parameters.kt:30-44 | the record takes indices 0 to 10 and the point lists as sets |
| GenParameters.PairPoint | src/main/kotlin/ru/spbstu/generator/Parameters.kt:26 | the destructuring succeeds exactly for two or more numbers, else fails at the missing index |
| GenParameters.ReadPoints | src/main/kotlin/ru/spbstu/generator/Parameters.kt:24-26 | one point per `),(` piece |
| GenParameters.ReadFields | src/main/kotlin/ru/spbstu/generator/Parameters.kt:23-44 | succeeds exactly when all three fields read and there are at least eleven numbers; fewer numbers fail at the first missing index |
| GenParameters.Read | src/main/kotlin/ru/spbstu/generator/Parameters.kt:21-45 | fewer than three `#` fields fail at the first missing index |
| GenParameters.ReadIgnoresExtra | src/main/kotlin/ru/spbstu/generator/Parameters.kt:22 | fields after the third change nothing |
| GenParameters.NumbersRead | src/main/kotlin/ru/spbstu/generator/Parameters.kt:23 | printed numbers read back |
| GenParameters.PointsRead | src/main/kotlin/ru/spbstu/generator/Parameters.kt:24-29 | a printed point list reads back |
| GenParameters.ReadText | src/main/kotlin/ru/spbstu/generator/Parameters.kt:21-45 | reading a printed line gives its first eleven numbers and both point lists as sets |
| GenParameters.ReadTooFewNumbers | src/main/kotlin/ru/spbstu/generator/Parameters.kt:31-41 | fewer than eleven numbers fail at the first missing index, after both lists were read |
| GenParameters.ReadPointsShort | src/main/kotlin/ru/spbstu/generator/Parameters.kt:26 | a one-number point fails at index 1 |
| BusterGen.FreeMembers | src/main/kotlin/ru/spbstu/generator/BusterGenerator.kt:20-24 | the free cells are exactly the unblocked cells of the square |
| BusterGen.FreeSorted | src/main/kotlin/ru/spbstu/generator/BusterGenerator.kt:20-21 | they come in strict scan order |
| BusterGen.ScanPrefix | src/main/kotlin/ru/spbstu/generator/BusterGenerator.kt:20-21 | what the scan has passed is a prefix of them |
| BusterGen.TakenMembers | src/main/kotlin/ru/spbstu/generator/BusterGenerator.kt:20-26 | the scan has taken exactly the free cells it passed |
| BusterGen.TakenChosen | src/main/kotlin/ru/spbstu/generator/BusterGenerator.kt:27 | once `number` cells are taken, they are the first `number` free ones |
| BusterGen.ChosenInside | src/main/kotlin/ru/spbstu/generator/BusterGenerator.kt:23-24 | chosen cells are inside the square, off the walls and not handed out before |
| BusterGen.HandedSize | src/main/kotlin/ru/spbstu/generator/BusterGenerator.kt:18-32 | a request gets as many cells as were chosen |
| BusterGen.HandedOne | src/main/kotlin/ru/spbstu/generator/BusterGenerator.kt:41 | a one-cell request gets at most one, none only when no cell is free |
| BusterGen.Drawn | src/main/kotlin/ru/spbstu/generator/BusterGenerator.kt:34-42 | categories drawn one after another are pairwise disjoint and off the walls |
| BusterGen.DrawnSix | src/main/kotlin/ru/spbstu/generator/BusterGenerator.kt:34-42 | the same for the six categories of `generate` |
| BusterGen.BusterGenerator.constructor | src/main/kotlin/ru/spbstu/generator/BusterGenerator.kt:6-16 | nothing handed out yet |
| BusterGen.BusterGenerator.GeneratePoints | src/main/kotlin/ru/spbstu/generator/BusterGenerator.kt:18-32 | the result is the first `number` free cells in scan order (all of them when fewer, or when `number` is not positive), and they join the handed-out cells |
| BusterGen.BusterGenerator.ScanRow | src/main/kotlin/ru/spbstu/generator/BusterGenerator.kt:21-28 | one row of the scan, stopping when the request is met |
| BusterGen.BusterGenerator.Generate | src/main/kotlin/ru/spbstu/generator/BusterGenerator.kt:34-42 | the six categories, each drawn in argument order from what is left, pairwise disjoint and off the walls; the robot's cell is in none of them; a failure means no free cell was left for the robot |
| TunnelGen.CellKinds | src/main/kotlin/ru/spbstu/generator/TunnelGenerator.kt:95-96 | a cell is a wall, a path or absent, exactly one |
| TunnelGen.Walls | src/main/kotlin/ru/spbstu/generator/TunnelGenerator.kt:215 | the WALL keys |
| TunnelGen.FalseWallDiagonal | src/main/kotlin/ru/spbstu/generator/TunnelGenerator.kt:98-102 | a wall would be false exactly when a diagonal wall touches it at a corner only |
| TunnelGen.WallKeepsNoCornerContact | src/main/kotlin/ru/spbstu/generator/TunnelGenerator.kt:120-128 | writing a wall that is not false keeps every wall free of corner-only contacts |
| TunnelGen.FragmentTypes | src/main/kotlin/ru/spbstu/generator/TunnelGenerator.kt:22-91 | corrected: exactly the types whose pattern holds, the far column checked |
| TunnelGen.FragmentTypesAsWritten | src/main/kotlin/ru/spbstu/generator/TunnelGenerator.kt:22-91 | as written: exactly the types whose written pattern holds |
| TunnelGen.NonWallHasNoFragments | src/main/kotlin/ru/spbstu/generator/TunnelGenerator.kt:22-91 | a non-wall cell has no type |
| TunnelGen.AsWrittenAcceptsMore | src/main/kotlin/ru/spbstu/generator/TunnelGenerator.kt:74-89 | the written patterns accept a superset, differing only in the four sideways long corners |
| TunnelGen.TurnedWall | src/main/kotlin/ru/spbstu/generator/TunnelGenerator.kt:95 | reflecting the matrix reflects its walls |
| TunnelGen.TurnedPattern | src/main/kotlin/ru/spbstu/generator/TunnelGenerator.kt:22-91 | the corrected twenty patterns are closed under reflection in the diagonal |
| TunnelGen.Reflected | src/main/kotlin/ru/spbstu/generator/TunnelGenerator.kt:22-91 | the same for any matrix with the reflected walls |
| TunnelGen.AsWrittenMissesFarCell | src/main/kotlin/ru/spbstu/generator/TunnelGenerator.kt:74-77 | the written pattern reports LONG_CORNER_001001000 at (5,5) next to a wall in the far column, the corrected pattern does not, and the reflected matrix shows no long corner at the reflected point |
| TunnelGen.CornerWeightBound | src/main/kotlin/ru/spbstu/generator/TunnelGenerator.kt:218-223 | a cell shows at most eight corners |
| TunnelGen.CornerCountRemove | src/main/kotlin/ru/spbstu/generator/TunnelGenerator.kt:218-223 | the corner sum does not depend on order |
| TunnelGen.CornerCountBounds | src/main/kotlin/ru/spbstu/generator/TunnelGenerator.kt:218-223 | between zero and eight per wall |
| TunnelGen.CornerMoveOffered | src/main/kotlin/ru/spbstu/generator/TunnelGenerator.kt:145-193 | the `else if` chain moves exactly when a placement or long-corner type is present, pricing 4 after a placement and 2 after a long corner |
| TunnelGen.MoverTarget | src/main/kotlin/ru/spbstu/generator/TunnelGenerator.kt:145-193 | for every type the written patterns report, each branch tries a side neighbour of a wall that is not a wall |
| TunnelGen.CornerMoveTarget | src/main/kotlin/ru/spbstu/generator/TunnelGenerator.kt:145-193 | so a move the written `else if` chain offers grows a wall into a side neighbour |
| TunnelGen.GrownKeepsWalls | src/main/kotlin/ru/spbstu/generator/TunnelGenerator.kt:130-195 | the matrix only grows, so walls stay walls |
| TunnelGen.RoomShrinks | src/main/kotlin/ru/spbstu/generator/TunnelGenerator.kt:126 | each appended wall takes one free cell of the square, which bounds the loop |
| TunnelGen.ExtensionFacts | src/main/kotlin/ru/spbstu/generator/TunnelGenerator.kt:120-128 | a move the written patterns offer and that can be made is a wall `addWallIfCan` accepts, priced 2 to 4 |
| TunnelGen.WrittenPassStalls | src/main/kotlin/ru/spbstu/generator/TunnelGenerator.kt:145-193 | walls at (5,5), (5,6), (3,4) in a 10-cell square: the written patterns offer (4,5), which cannot be added, so the point grows nothing, while the corrected patterns would grow (6,5) at price 2 |
| TunnelGen.AppendedKeeps | src/main/kotlin/ru/spbstu/generator/TunnelGenerator.kt:120-128 | an appended wall takes a free cell and makes no corner-only contact |
| TunnelGen.NewWallsJoin | src/main/kotlin/ru/spbstu/generator/TunnelGenerator.kt:134-194 | the walls appended by two passes are those of both, disjoint |
| TunnelGen.RingStep | src/main/kotlin/ru/spbstu/generator/TunnelGenerator.kt:203-208 | each step of the border loop adds exactly its four ring cells |
| TunnelGen.BorderStep | src/main/kotlin/ru/spbstu/generator/TunnelGenerator.kt:204-207 | one step of the border loop writes its ring cells as walls and nothing else |
| TunnelGen.NoneLeft | src/main/kotlin/ru/spbstu/generator/TunnelGenerator.kt:141-143 | a pass that finds no wall had none at the start either |
| TunnelGen.TunnelGenerator.constructor | src/main/kotlin/ru/spbstu/generator/TunnelGenerator.kt:8-93 | an empty matrix |
| TunnelGen.TunnelGenerator.AddWallIfCan | src/main/kotlin/ru/spbstu/generator/TunnelGenerator.kt:120-128 | true exactly for a cell in the square that is neither a wall nor a false wall, which then becomes a wall; nothing changes otherwise |
| TunnelGen.TunnelGenerator.CountCorners | src/main/kotlin/ru/spbstu/generator/TunnelGenerator.kt:218-223 | the corners, by the written patterns, shown by all walls |
| TunnelGen.TunnelGenerator.WallList | src/main/kotlin/ru/spbstu/generator/TunnelGenerator.kt:141 | the WALL keys in some order |
| TunnelGen.TunnelGenerator.TryExtend | src/main/kotlin/ru/spbstu/generator/TunnelGenerator.kt:143-193 | one point of the loop: the move the written patterns offer, made if accepted |
| TunnelGen.TunnelGenerator.AppendCorners | src/main/kotlin/ru/spbstu/generator/TunnelGenerator.kt:130-195 | the matrix only grows by walls, no corner-only contact appears, and it stops stuck (no wall can grow), spent (budget exceeded) or without walls |
| TunnelGen.TunnelGenerator.Pass | src/main/kotlin/ru/spbstu/generator/TunnelGenerator.kt:135-193 | one pass over a snapshot with the written patterns; a pass spending nothing changes nothing and leaves no move |
| TunnelGen.TunnelGenerator.Visit | src/main/kotlin/ru/spbstu/generator/TunnelGenerator.kt:143-193 | one point of a pass, paying the move's price |
| TunnelGen.TunnelGenerator.GenerateWalls | src/main/kotlin/ru/spbstu/generator/TunnelGenerator.kt:117 | every route cell becomes a wall and nothing else changes |
| TunnelGen.TunnelGenerator.MarkPaths | src/main/kotlin/ru/spbstu/generator/TunnelGenerator.kt:202 | every path point becomes PATH and nothing else changes |
| TunnelGen.TunnelGenerator.MarkBorder | src/main/kotlin/ru/spbstu/generator/TunnelGenerator.kt:203-208 | the ring around the square becomes walls and nothing else changes |
| TunnelGen.TunnelGenerator.Generate | src/main/kotlin/ru/spbstu/generator/TunnelGenerator.kt:201-216 | the result is the WALL keys; the border ring and every route cell are walls; every path point stays in the matrix |

## Left out

- Swing drawing (`SimFrame`, `GameMap.toPanel`), `println` logging and `GameMap.toASCII` of a whole map: output only.
- The polygon rasterising `GameMap` factory (`GameMap.kt` lines 76-121) and `Map.kt`/`MapUtils.kt` are not part of this model; maps are given as cell maps.
- `Christofides.kt`, the JGraphT graph, the all-pairs shortest paths and the Kruskal/DFS tour of `SmartAsFuckBot.run`: the tour and the nearest-node choice are inputs (`chris`, `plan`, the `ClaimStretch` candidate).
- The lazy bot streams around the searches (`AStarBot`, `ProirityAStarBot`, the `invoke` loops of the bots after the booster rules, `astarWalk`, `wholeMapAStar`): they drive the searches and booster rules modelled here, and their command streams are not modelled.
- `SimAndCommand.equals` by hash (`StupidPersistentBot.kt` lines 42-46) is not modelled; the search nodes there are only given their successors and `empties`.
- Floating-point heuristics: distances are integer tenths (0.1 becomes 1, a step becomes 10); `Double.MAX_VALUE` becomes `NoEstimate`, 2^31 - 1, which exceeds every arm cost only while every arm lies within 214,748,364 cells of the target (SimulatingAStar.ArmCostsBelowNoEstimate); on larger maps the model's no-arms value can fall below an estimate, which the source's cannot. The `euclidDistance` heuristic of `generateWalls` is not modelled.
- Maps.ToLower: only the ASCII letters are lowered; Kotlin's `toLowerCase` also lowers letters of other scripts, which no booster name holds.
- TunnelGen.TunnelGenerator.GenerateWalls: the route search and its `!!` are not modelled; the route is a parameter.
- `removeCorners` has an empty body and is not modelled.
- The `CLONING` booster kind is modelled with letter `C` and timer 0, as the simulator and the newer reader use it; the `GameMap.kt` in this model's sources lists no such kind.
- The immutable `inc`/`dec` extension functions that `Simulator.kt` imports are not among the sources: `Utils.Incremented` follows `Util.kt`'s mutable `inc`, and `Utils.Decremented` drops a key once its count is no longer positive.
- Hash map and hash set iteration orders are not fixed: a loop over a map or set takes its elements in some order, and `minBy` returns some least element.
- DisjointSets.DisjointSets: the Java `Node` objects are an index arena (`parent`, `rank`); aliasing between nodes is not modelled.
- Text.ParseInt: only ASCII digits are read; Java also accepts other Unicode digits.
- Parsing.ParseBooster: the `it[0]` index error for an empty item cannot be reached, since the point read fails first, and it is not modelled.
- BusterGen.BusterGenerator.Generate: the `first()` of an empty set throws in the source; here it is `None`.
- `GameMap.inEnclosedArea` is a parameter of SimulatingAStar.SimulatingEnclosedAStar.
- SimulatingAStar.ApplySimulatingBoosters, Cloning.ApplyMasterSimulatingBoosters, Cloning.ApplyNonsimulatingBoosters, SmarterAStar.ApplyBoosters: require a manipulator when an extension is owned; the source's `maxBy`/`minBy` on the offsets throws otherwise.
- SimulatingAStar.SearchWithin, SimulatingAStar.SearchPlan: the path returned is not proved to be one of least priority; the queue order only decides which of several paths is found.
- Sim.RotateCW, Sim.RotateCCW: the contracts state the fixed parts and the number of arms; the rotation of each arm is stated by Sim.ManipulatorPosFollowsRobot and Sim.RotateRoundTrip.
- `SmartAsFuckBot.kt` repeats `contains`, `isNeighbor`, `floodFill`, `findBlobs`, `findGraph` and `optimizeBlobs` of `SuperSmarterAStarBot.kt` line for line; the `Blobs` members model both copies.
- Sim.UseDrillSpendsFastWheels: USE_DRILL spending a fast-wheels booster (`Simulator.kt` line 302) is kept as written; this model proves what it does.

## Findings

| source | as written | input that shows it | evidently intended | confidence | as-written member | corrected member |
|---|---|---|---|---|---|---|
| src/main/kotlin/ru/spbstu/player/SuperSmarterAStarBot.kt:216-219 | the blob order takes `subList(rootIndex, lastIndex)` then `subList(0, rootIndex)`, dropping the tour's last entry; the tour from `Christofides.kt` lines 69-71 is already open, so that entry is a distinct blob | tour [0, 1, 2], root 0 gives [0, 1]; root 2 gives [0, 1] | the tour rotated to start at the root, every blob once | high, not executed | Blobs.OrderedTourSkipsLast | Blobs.RotatedTour |
| src/main/kotlin/ru/spbstu/generator/TunnelGenerator.kt:74-89 | the four sideways long corners test `left().down()` (or `right().down()`) twice and never the cell below the far column | walls at (5,5), (5,6) and (3,4); point (5,5) is reported as LONG_CORNER_001001000, while its mirror image is not a long corner; the corner pass then offers (4,5), which cannot be added, where the mirrored program grows (6,5) | the far column's lower cell is tested too, making the twenty patterns symmetric under reflection | high, not executed | TunnelGen.AsWrittenMissesFarCell, TunnelGen.WrittenPassStalls | TunnelGen.TurnedPattern |
