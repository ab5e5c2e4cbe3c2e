# Robot fleet traffic coordination, modelled in Dafny

This project models the core of a robot fleet manager. Robots move over a fixed
navigation graph of vertices joined by undirected lanes. A traffic manager keeps
an occupancy ledger of lanes and junctions and tells each robot whether it may
move. A fleet manager hands out sequential robot ids, assigns and cancels tasks,
and runs the tick that lets every robot move once.

The model has one module per source file:

- `nav_graph.dfy`, module `NavGraph` (`src/models/nav_graph.py`):
  - The graph is a value: an adjacency map with neighbours in insertion order, and a position map.
  - `Load` is a method with the loader's two loops.
  - `ShortestPath` is a breadth-first search, proved to return a hop-minimal walk, or `[]` exactly when no walk exists.
- `traffic.dfy`, module `Traffic` (`src/controllers/traffic_manager.py`):
  - The ledger is a `Ledger` value. The blocked and waiting tests and the ledger updates (arrival, clear robot, clear edge) are functions on it, with lemmas about them.
  - The class `TrafficManager` holds the two dictionaries the source mutates. Each of its methods is proved to produce exactly the corresponding function's result.
- `robot.dfy`, module `Robots` (`src/models/robot.py`):
  - The status machine: `Step` is one call of `update_position`, and lemmas state each of its branches.
  - The class `Robot` has the source's fields. Its methods are proved equal to the transitions on `RobotState`.
- `fleet.dfy`, module `Fleet` (`src/controllers/fleet_manager.py`):
  - `FleetState` holds the robot table, the id counter, the ledger and the event log.
  - The operations are functions on it: `Add`, `Remove`, `Assign`, `Cancel` and `Tick`.
  - The class `FleetManager` holds the robot objects. Each of its methods ends in the state its function computes from the state before.
  - The tick runs through ids 0 to `nextId - 1`. A robot steps against the ledger as the robots with smaller ids left it.
- `wrappers.dfy`, module `Wrappers`: the `Option` type.

Behaviour of the source that the model reproduces as written, and proves:

- Every path from the shortest-path search starts at the robot's own vertex. So the first "hop" of every task ends at the vertex the robot already stands on.
- A robot reports an arrival with its new vertex as both "current" and "next". So an arrival never releases anything: the lemma `Robots.StepLedgerGrows` proves this. It reserves the degenerate lane key (v, v), and junction v when v is a junction.
- The arrival at the last stop reserves nothing, because the path is already empty.
- BLOCKED is a fixed point of the tick.
- WAITING is never produced. The waiting test is one clause of the blocked test, and the blocked test is asked first.
- ERROR is never set by anything in the core.
- Removing a robot cancels its task first. That empties its path, so the lane-clearing branch that follows (`src/controllers/fleet_manager.py:39-43`) finds no lane to clear, and the robot's id stays in the ledger.
- Removing an unknown robot is a silent no-op.
- Reassigning or cancelling clears the whole entry of the lane the robot was heading along. Other robots' ids are cleared with it, and the robot's id stays in every other entry.
- `cancel_task` refuses only an unknown or IDLE robot (`src/controllers/fleet_manager.py:100`). So an ERROR robot can be cancelled.
- No step ever yields WAITING. The waiting test implies the blocked test, which is asked first.

## Model

| member | source | states |
|---|---|---|
| NavGraph.Load | src/models/nav_graph.py:33-47 | vertices are exactly 0..n-1, each with its listed coordinates; x lists y as a neighbour iff some lane joins them, in either order; the graph is undirected with no neighbour listed twice |
| NavGraph.Graph.Neighbors | src/models/nav_graph.py:53-55 | each neighbour is listed once, is a vertex, and lists the queried vertex back |
| NavGraph.Graph.VertexPosition | src/models/nav_graph.py:49-51 | the recorded position of a vertex, or the origin when none is recorded |
| NavGraph.Graph.IsValidVertex | src/models/nav_graph.py:64-66 | true iff the vertex is a node of the graph; a loaded map's nodes are exactly 0..n-1 (Load), and the neighbours of a node are nodes (Neighbors) |
| NavGraph.Graph.ShortestPath | src/models/nav_graph.py:57-62 | [] exactly when no walk joins start to end; otherwise a walk from start to end with no walk shorter; start == end gives [start] |
| Traffic.GetEdge | src/controllers/traffic_manager.py:22-24 | the key holds the two vertices, the smaller first |
| Traffic.GetEdgeSymmetric | src/controllers/traffic_manager.py:22-24 | the key does not depend on the order of the two vertices |
| Traffic.LaneOccupiedEitherWay | src/controllers/traffic_manager.py:26-30 | a lane is occupied whichever way round it is asked, and exactly when its canonical entry has a robot |
| Traffic.LaneOccupied | src/controllers/traffic_manager.py:26-30 | the lane test on a canonical key: some robot is in its entry; LaneOccupiedEitherWay states it for either order of the two vertices |
| Traffic.IntersectionOccupied | src/controllers/traffic_manager.py:32-37 | true iff the vertex has more than two neighbours and its junction entry holds a robot; never for a vertex with at most two neighbours |
| Traffic.Blocked | src/controllers/traffic_manager.py:51-70 | true iff another robot holds the junction stood on, the junction headed for, or the lane between them; the robot's own id never counts |
| Traffic.Waiting | src/controllers/traffic_manager.py:84-93 | true iff the next stop is a junction that another robot holds |
| Traffic.WaitingImpliesBlocked | src/controllers/traffic_manager.py:58-91 | whenever the waiting test holds, the blocked test holds too |
| Traffic.HeldJunctionBlocks | src/controllers/traffic_manager.py:51-61 | a junction held by one robot blocks every other robot standing on it or heading for it |
| Traffic.RobotBlocked | src/controllers/traffic_manager.py:39-70 | an unknown robot or one with no stops is never blocked; otherwise the blocked test at its current vertex and first stop |
| Traffic.RobotWaiting | src/controllers/traffic_manager.py:72-93 | an unknown robot or one with no stops never waits; otherwise the waiting test at its first stop; a waiting robot is always blocked too |
| Traffic.InitEdge | src/controllers/traffic_manager.py:17-20 | adds an empty entry for a missing key and changes nothing else; an existing key is left as it is |
| Traffic.Arrive | src/controllers/traffic_manager.py:95-125 | an arrival for a robot with no stops changes nothing; otherwise the ledger after the arrival, which ArriveKeys, ArriveHolds, ArriveReleases, ArriveOthersUnchanged and ArriveInPlaceGrows describe |
| Traffic.ArriveKeys | src/controllers/traffic_manager.py:113-122 | an arrival adds the key of the lane taken, plus the next vertex when it is a junction, and no other key |
| Traffic.ArriveHolds | src/controllers/traffic_manager.py:113-125 | after an arrival the robot holds the lane taken, and holds the junction only when it already stood on it |
| Traffic.ArriveReleases | src/controllers/traffic_manager.py:102-111 | moving to another vertex takes the robot off the junction it stood on and off the lane toward its first stop |
| Traffic.ArriveOthersUnchanged | src/controllers/traffic_manager.py:95-125 | an arrival changes nothing the ledger says about any other robot |
| Traffic.ArriveInPlaceGrows | src/controllers/traffic_manager.py:103-125 | an arrival reported at the vertex already stood on removes nobody from any entry; it adds the robot to the lane key (v, v) when the robot has stops left, and to junction v when v is also a junction, and adds nothing else |
| Traffic.ClearRobot | src/controllers/traffic_manager.py:127-135 | afterwards the robot is in no lane or junction entry; the keys and every other robot's entries are unchanged |
| Traffic.ClearEdgeEntry | src/controllers/traffic_manager.py:141-144 | an existing entry is emptied of every robot; no key is created; every other entry is unchanged |
| Traffic.EdgeOccupancy | src/controllers/traffic_manager.py:137-139 | the entry stored under the key exactly as given, or the empty set |
| Traffic.DescendingKeyFindsNothing | src/controllers/traffic_manager.py:137-139 | on a canonical ledger an unsorted key finds nobody, while the lane query on the same pair sees the sorted entry |
| Traffic.UpdatesKeepCanonical | src/controllers/traffic_manager.py:95-144 | arrival, clearing a robot, clearing a lane and creating an entry via GetEdge keep every lane key sorted |
| Traffic.TrafficManager.constructor | src/controllers/traffic_manager.py:7-11 | a new traffic manager has an empty ledger |
| Traffic.TrafficManager.InitializeEdge | src/controllers/traffic_manager.py:17-20 | the dictionaries become InitEdge of the old ledger |
| Traffic.TrafficManager.GetEdgeOccupancy | src/controllers/traffic_manager.py:137-139 | the entry for the key as given, as EdgeOccupancy states |
| Traffic.TrafficManager.IsLaneOccupied | src/controllers/traffic_manager.py:26-30 | agrees with the lane query on the ledger value |
| Traffic.TrafficManager.IsIntersectionOccupied | src/controllers/traffic_manager.py:32-37 | agrees with IntersectionOccupied on the ledger value |
| Traffic.TrafficManager.IsRobotBlocked | src/controllers/traffic_manager.py:39-70 | agrees with RobotBlocked on the ledger and the robot table |
| Traffic.TrafficManager.IsRobotWaiting | src/controllers/traffic_manager.py:72-93 | agrees with RobotWaiting on the ledger and the robot table |
| Traffic.TrafficManager.UpdateRobotPosition | src/controllers/traffic_manager.py:95-125 | the dictionaries become the arrival of the robot on the old ledger |
| Traffic.TrafficManager.ClearRobotOccupancy | src/controllers/traffic_manager.py:127-135 | the dictionaries become ClearRobot of the old ledger |
| Traffic.TrafficManager.ClearFromLanes | src/controllers/traffic_manager.py:129-131 | the loop over the lane dictionary removes the robot from every lane entry, whatever order it visits them in |
| Traffic.TrafficManager.ClearFromJunctions | src/controllers/traffic_manager.py:133-135 | the loop over the junction dictionary removes the robot from every junction entry, whatever order it visits them in |
| Traffic.TrafficManager.ClearEdge | src/controllers/traffic_manager.py:141-144 | the dictionaries become ClearEdgeEntry of the old ledger |
| Robots.TaskSetupEffects | src/models/robot.py:22-30 | setting a target makes any robot MOVING, ERROR ones included; setting a path replaces it and restarts progress at 0; the two commute |
| Robots.CancelForgetsTask | src/models/robot.py:32-37 | cancelling leaves a robot IDLE with no target, no path and progress 0, whatever it was doing, like a freshly created robot at the same vertex |
| Robots.Step | src/models/robot.py:39-77 | one update_position call as a value: the new robot and the new ledger, which the Step lemmas below describe case by case |
| Robots.StepInactiveIsFixed | src/models/robot.py:41-42 | IDLE, BLOCKED, TASK_COMPLETED and ERROR robots and the ledger are left exactly as they are |
| Robots.StepWithoutPathIdles | src/models/robot.py:44-46 | an active robot with no stops only becomes IDLE |
| Robots.StepHeldBack | src/models/robot.py:48-56 | a robot the traffic manager holds back only becomes BLOCKED: path, progress, vertex and ledger are untouched |
| Robots.StepNeverWaits | src/models/robot.py:51-56 | a step never produces WAITING |
| Robots.StepMoves | src/models/robot.py:57-63 | an unobstructed robot becomes MOVING and gains speed times dt in progress; once that reaches 1 it stands on its first stop with progress 0, the ledger records the arrival, and it stays MOVING towards the same target while stops remain or completes its task, with no target, on the last one |
| Robots.StepConsumesAtMostOne | src/models/robot.py:61-77 | at most one stop is consumed; on consumption the robot stands on the old first stop with progress 0, the ledger records the arrival, an emptied path means TASK_COMPLETED with no target, and otherwise the robot is MOVING with its target kept |
| Robots.StepKeepsProgressInRange | src/models/robot.py:61-66 | with dt >= 0, progress stays in [0, 1) |
| Robots.StepKeepsRobotOk | src/models/robot.py:39-77 | after a step the robot still names only vertices of the graph |
| Robots.StepLedgerGrows | src/models/robot.py:65-72 | a step removes nobody from any ledger entry and changes nothing about other robots |
| Robots.Robot.constructor | src/models/robot.py:13-20 | a new robot is IDLE at its start vertex, with no target, no path and progress 0 |
| Robots.Robot.SetTarget | src/models/robot.py:22-25 | the fields become WithTarget of the old robot |
| Robots.Robot.SetPath | src/models/robot.py:27-30 | the fields become WithPath of the old robot |
| Robots.Robot.CancelTask | src/models/robot.py:32-37 | the fields become Cancelled of the old robot |
| Robots.Robot.UpdatePosition | src/models/robot.py:39-77 | the robot's fields and the traffic manager's ledger become Step of their old values |
| Fleet.Add | src/controllers/fleet_manager.py:19-29 | add_robot on the fleet's state: the new state and the new id, described by AddGivesFreshIdleRobot and AddTwiceConsecutive |
| Fleet.AddGivesFreshIdleRobot | src/controllers/fleet_manager.py:19-29 | the new robot gets the next id, which is larger than every id in use; it is IDLE at its start with nothing to do; the counter moves on by one; nothing else changes but the log |
| Fleet.AddTwiceConsecutive | src/controllers/fleet_manager.py:21-28 | two additions in a row give consecutive ids |
| Fleet.Remove | src/controllers/fleet_manager.py:31-51 | remove_robot on the fleet's state, described by RemoveDeletesOnlyTheRobot |
| Fleet.RemoveDeletesOnlyTheRobot | src/controllers/fleet_manager.py:31-51 | an unknown id changes nothing; otherwise exactly that robot leaves the table, exactly one "removed" record is logged for it, the counter is kept, and the lane-clearing branch, run on the cancelled robot, leaves the ledger as it was, so the ledger keeps its id |
| Fleet.Assign | src/controllers/fleet_manager.py:53-91 | assign_task on the fleet's state: the new state and the result, described by AssignFailsExactly, AssignSetsShortestPath and AssignLedgerEffect |
| Fleet.Dispatched | src/controllers/fleet_manager.py:73-91 | the successful part of assign_task: the ledger and log updates, then set_target and set_path |
| Fleet.AssignFailsExactly | src/controllers/fleet_manager.py:53-71 | assignment fails iff the robot is unknown, is in ERROR, or has no walk to the target; a failure only logs an error |
| Fleet.AssignSetsShortestPath | src/controllers/fleet_manager.py:65-91 | on success the robot is MOVING toward the target with progress 0, along a hop-minimal walk that starts at its own vertex; other robots and the counter do not change; an IDLE or TASK_COMPLETED robot gets exactly a "new task" record, an under-way robot with a stop ahead exactly a "reassigned" record, and an under-way robot without one no record |
| Fleet.AssignLedgerEffect | src/controllers/fleet_manager.py:73-87 | reassigning an under-way robot empties the whole entry of its next lane and logs a reassignment; no other assignment touches the ledger |
| Fleet.Cancel | src/controllers/fleet_manager.py:93-116 | cancel_task on the fleet's state: the new state and the result, described by CancelOutcome and CancelTwiceFails |
| Fleet.CancelOutcome | src/controllers/fleet_manager.py:93-116 | cancelling fails iff the robot is unknown or IDLE, and then only logs an error (unknown) or a warning (IDLE); otherwise the robot is reset like a new robot at its vertex, no other robot changes, the entry of the lane it was heading along is emptied and every other ledger entry is kept (the whole ledger when it had no stops), and TASK_CANCELLED is logged for it |
| Fleet.CancelTwiceFails | src/controllers/fleet_manager.py:93-116 | a cancel right after a successful one fails |
| Fleet.Classify | src/controllers/fleet_manager.py:126-151 | at most one record per robot per tick, only on a status change; entering WAITING, BLOCKED or TASK_COMPLETED logs exactly traffic-waiting, traffic-blocked or task-completion; any other change logs movement-resumed iff the robot was WAITING or BLOCKED, and nothing otherwise |
| Fleet.StepAt | src/controllers/fleet_manager.py:120-151 | one robot's turn: it takes its step against the current ledger and table, no other robot changes, the log grows by exactly the record that the status change calls for, and the fleet invariant is kept |
| Fleet.TickUpTo | src/controllers/fleet_manager.py:120-124 | the first k turns of a tick keep the robot ids, the counter and the fleet invariant |
| Fleet.Tick | src/controllers/fleet_manager.py:118-151 | a tick keeps the robot ids, the counter and the fleet invariant |
| Fleet.TickFrom | src/controllers/fleet_manager.py:120-124 | the turns from id k on never touch a robot with a smaller id |
| Fleet.TickSplits | src/controllers/fleet_manager.py:120-124 | a tick is its first k turns followed by the remaining turns |
| Fleet.TickUpToLeavesHigherIds | src/controllers/fleet_manager.py:120-124 | robots from id k upward have not moved after the first k turns |
| Fleet.TickOrder | src/controllers/fleet_manager.py:120-124 | robot j steps exactly once, against the ledger and table as the smaller ids left them, and no later turn changes it |
| Fleet.HeldJunctionBlocksLaterRobot | src/controllers/fleet_manager.py:120-124 | if another robot holds robot j's junction when j's turn comes, j ends the tick BLOCKED where it was |
| Fleet.TickUpToLedgerGrows | src/controllers/fleet_manager.py:120-124 | no turn of a tick removes anyone from the ledger |
| Fleet.TickLeavesInactiveRobots | src/controllers/fleet_manager.py:120-124 | IDLE, BLOCKED, TASK_COMPLETED and ERROR robots come out of a tick unchanged |
| Fleet.TickLeavesNoneWaiting | src/controllers/fleet_manager.py:120-124 | no robot is WAITING after a tick |
| Fleet.StepKeepsCoherent | src/models/robot.py:39-77 | a step keeps status and path consistent: stops ahead iff MOVING or BLOCKED, none iff IDLE or TASK_COMPLETED |
| Fleet.TickUpToKeepsCoherent | src/controllers/fleet_manager.py:120-124 | every turn of a tick keeps the whole fleet's status and path consistent |
| Fleet.OperationsKeepCoherent | src/controllers/fleet_manager.py:19-124 | adding, removing, assigning, cancelling and ticking all keep the fleet consistent, so WAITING and ERROR never occur |
| Fleet.StatusOf | src/controllers/fleet_manager.py:153-157 | None exactly for an unknown robot, otherwise its status |
| Fleet.PathOf | src/controllers/fleet_manager.py:165-169 | None exactly for an unknown robot or one with no stops; otherwise its current vertex followed by its stops |
| Fleet.AssignedPathRepeatsCurrentVertex | src/controllers/fleet_manager.py:165-169 | right after an assignment the reported path names the robot's own vertex twice |
| Fleet.FleetManager.constructor | src/controllers/fleet_manager.py:8-13 | an empty fleet with counter 0 and an empty log, wired to the given traffic manager |
| Fleet.FleetManager.AddRobot | src/controllers/fleet_manager.py:19-29 | the new state and returned id are Add of the old state; a fresh robot object is returned |
| Fleet.FleetManager.ReleaseLane | src/controllers/fleet_manager.py:39-43 | when the robot has a stop ahead, the entry of the lane towards it is emptied; otherwise the ledger is unchanged |
| Fleet.FleetManager.RemoveRobot | src/controllers/fleet_manager.py:31-51 | cancels the task, runs the lane-clearing branch, logs and drops the robot: the new state is Remove of the old state |
| Fleet.FleetManager.AssignTask | src/controllers/fleet_manager.py:53-91 | the new state and the result are Assign of the old state |
| Fleet.FleetManager.Reassign | src/controllers/fleet_manager.py:73-91 | the successful part of assign_task: the new state is Dispatched of the old one |
| Fleet.FleetManager.CancelTask | src/controllers/fleet_manager.py:93-116 | the new state and the result are Cancel of the old state |
| Fleet.FleetManager.UpdateFleet | src/controllers/fleet_manager.py:118-151 | the new state is Tick of the old state; the loop keeps the state equal to the first id turns of the tick |
| Fleet.FleetManager.TakeTurn | src/controllers/fleet_manager.py:120-151 | one pass of the loop body: the new state is StepAt of the old state |
| Fleet.FleetManager.Dispatch | src/controllers/fleet_manager.py:89-90 | only robot id changes, to WithPath of WithTarget of its old value |
| Fleet.FleetManager.Halt | src/controllers/fleet_manager.py:37 | only robot id changes, to Cancelled of its old value |
| Fleet.FleetManager.Move | src/controllers/fleet_manager.py:124 | only robot id and the ledger change, to Step of their old values |
| Fleet.FleetManager.GetRobotStatus | src/controllers/fleet_manager.py:153-157 | agrees with StatusOf on the fleet state |
| Fleet.FleetManager.GetRobotPath | src/controllers/fleet_manager.py:165-169 | agrees with PathOf on the fleet state |

## Left out

- The event log keeps only, for each record, the robot it names and its category. Message text, timestamps, log levels, the console and file handlers and the 100-entry drop-oldest queue of `src/utils/logger.py` are not modelled.
- The graphical interface, process start-up (`src/main.py`), the geometry helpers (`src/utils/helpers.py`) and the protocol declarations (`src/models/manager_types.py`) are not part of this model.
- Reading the map from a JSON file (`load_graph`) is I/O and is left out. `Load` takes the vertex and lane lists directly.
- `get_path_length` is left out. It sums a lane weight that the loader never sets.
- `Robot.get_current_position` and `get_robot_position` are left out. They interpolate floating-point positions along a lane.
- Progress, speed and dt are real numbers, so floating-point rounding is not modelled.
- The graph library's shortest-path search is not visible. `ShortestPath` is a breadth-first search with the same contract: a hop-minimal walk, or [] when none exists.
- NavGraph.Graph.ShortestPath: when several hop-minimal walks exist, the contract does not say which one the graph library would return.
- NavGraph.Graph.Neighbors: the contract does not state the order of the list. The model keeps insertion order.
- NavGraph.Load: every lane must name listed vertices. The graph library would silently add an unknown id as a new vertex.
- A vertex the graph does not hold makes the graph library raise, and the source does not catch it. So every neighbour, junction or path query on such a vertex is a precondition here, for example `Fleet.CanAssign` for `assign_task`.
- Only the wired configuration is modelled, with the traffic manager and the fleet manager set on each other. Runs with either reference unset are left out.
- The traffic manager reads the fleet's robot table through the robots' current vertex and remaining path. The table is passed to it as a parameter instead of a back-reference.
- The source's tick iterates the robot dictionary in insertion order. Ids are issued in increasing order and never reinserted, so the model iterates ids 0 to nextId - 1 in ascending order. That the two orders agree is argued here, not proved.
- Robot objects returned by `add_robot` could be changed by a caller outside the fleet manager. Such changes are not modelled.
- The robot class's speed is the constant 0.8 rather than a field, since nothing in the core changes it.
