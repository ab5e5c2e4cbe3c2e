/**
 * The fleet manager: a table of robots under sequential ids, the task
 * operations that change it (add, remove, assign, cancel), the tick that lets
 * every robot move once, in ascending id order, and the event log those
 * operations append to.
 *
 * Each operation is a function on FleetState; the FleetManager class holds the
 * robot objects, the id counter and the log, and its methods are proved to
 * produce exactly those functions' results. The traffic manager's ledger is
 * part of the state, as the operations read and change it.
 */
module Fleet {
  import opened Wrappers
  import opened NavGraph
  import opened Traffic
  import opened Robots

  /** The kinds of record the fleet writes to its log; the message text is not modelled. */
  datatype Category =
    | RobotCreated | RobotRemoved
    | NewTaskAssigned | TaskReassigned | TaskCancelled
    | TrafficWaiting | TrafficBlocked | MovementResumed | TaskCompletion
    | ErrorLogged | WarningLogged

  /** A log record: the robot it is about, when the source names one, and its kind. */
  datatype Event = Event(robot: Option<nat>, category: Category)

  datatype FleetState = FleetState(
    robots: map<nat, RobotState>,
    nextId: nat,
    ledger: Ledger,
    log: seq<Event>)

  /** The robot table as the traffic manager reads it. */
  function Table(robots: map<nat, RobotState>): map<nat, Whereabouts> {
    map id | id in robots :: Where(robots[id])
  }

  /** Every robot is filed under its own id, below the next id, and names only graph vertices for its stops. */
  ghost predicate FleetOk(g: Graph, S: FleetState) {
    var ok :=
      (forall id :: id in S.robots ==> S.robots[id].id == id && id < S.nextId) &&
      (forall id {:trigger RobotOk(g, S.robots[id])} :: id in S.robots ==> RobotOk(g, S.robots[id]));
    ok
  }

  lemma TableWellPlaced(g: Graph, S: FleetState)
    requires FleetOk(g, S)
    ensures WellPlaced(g, Table(S.robots))
  {
    forall id | id in Table(S.robots) && Table(S.robots)[id].path != []
      ensures g.IsValidVertex(Table(S.robots)[id].currentVertex) && g.IsValidVertex(Table(S.robots)[id].path[0])
    {
      assert RobotOk(g, S.robots[id]);
    }
  }

  /**
   * How status and path go together: a robot with stops ahead is MOVING or
   * BLOCKED, one without is IDLE or TASK_COMPLETED. WAITING and ERROR do not
   * occur.
   */
  ghost predicate Coherent(r: RobotState) {
    r.status in {Idle, Moving, Blocked, TaskCompleted} &&
    (r.path == [] <==> r.status in {Idle, TaskCompleted})
  }

  ghost predicate FleetCoherent(S: FleetState) {
    forall id :: id in S.robots ==> Coherent(S.robots[id])
  }

  // ---------------------------------------------------------------------------
  // Adding and removing robots
  // ---------------------------------------------------------------------------

  /** Add a robot at `start` under the next id; the result also gives that id. */
  function Add(S: FleetState, start: int): (FleetState, nat) {
    var id := S.nextId;
    (FleetState(S.robots[id := NewRobot(id, start)], S.nextId + 1, S.ledger, S.log + [Event(Some(id), RobotCreated)]), id)
  }

  /**
   * The new robot gets the next id, which no robot has had: every id in use is
   * smaller. It is IDLE at its start vertex with nothing to do; no other robot
   * and nothing in the ledger changes.
   */
  lemma AddGivesFreshIdleRobot(g: Graph, S: FleetState, start: int)
    requires FleetOk(g, S)
    ensures var (S', id) := Add(S, start);
      id == S.nextId && id !in S.robots && (forall j :: j in S.robots ==> j < id) &&
      S'.nextId == id + 1 &&
      S'.robots.Keys == S.robots.Keys + {id} &&
      (forall j :: j in S.robots ==> S'.robots[j] == S.robots[j]) &&
      S'.robots[id].status == Idle && S'.robots[id].currentVertex == start && S'.robots[id].path == [] &&
      S'.robots[id].targetVertex == None && S'.robots[id].progress == 0.0 &&
      S'.ledger == S.ledger && S'.log == S.log + [Event(Some(id), RobotCreated)] &&
      FleetOk(g, S')
  {
  }

  /** Two additions in a row give consecutive ids. */
  lemma AddTwiceConsecutive(S: FleetState, a: int, b: int)
    ensures Add(Add(S, a).0, b).1 == Add(S, a).1 + 1
  {
  }

  /** The ledger once the lane robot `r` is heading along is emptied; unchanged when it has no stops. */
  function LaneReleased(L: Ledger, r: RobotState): Ledger {
    if r.path != [] then ClearEdgeEntry(L, GetEdge(r.currentVertex, r.path[0])) else L
  }

  /**
   * Remove a robot: cancel its task, release the lane it is heading along, and
   * drop it. The cancel comes first and empties the path, so the release finds
   * no lane to clear.
   */
  function Remove(S: FleetState, id: nat): FleetState {
    if id !in S.robots then S
    else FleetState(S.robots - {id}, S.nextId, LaneReleased(S.ledger, Cancelled(S.robots[id])),
                    S.log + [Event(Some(id), RobotRemoved)])
  }

  /** Removal deletes exactly that robot and leaves every ledger entry, its own included, as it was. */
  lemma RemoveDeletesOnlyTheRobot(g: Graph, S: FleetState, id: nat)
    requires FleetOk(g, S)
    ensures id !in S.robots ==> Remove(S, id) == S
    ensures id in S.robots ==>
      Remove(S, id).robots.Keys == S.robots.Keys - {id} &&
      (forall j :: j in Remove(S, id).robots ==> Remove(S, id).robots[j] == S.robots[j]) &&
      Remove(S, id).ledger == S.ledger && Remove(S, id).nextId == S.nextId &&
      Remove(S, id).log == S.log + [Event(Some(id), RobotRemoved)] &&
      FleetOk(g, Remove(S, id))
    ensures id in S.robots ==> LaneReleased(S.ledger, Cancelled(S.robots[id])) == S.ledger
  {
  }

  // ---------------------------------------------------------------------------
  // Assigning and cancelling tasks
  // ---------------------------------------------------------------------------

  /** The shortest-path search raises for a vertex the graph lacks; the source does not catch it. */
  ghost predicate CanAssign(g: Graph, S: FleetState, id: nat, target: int) {
    id in S.robots && S.robots[id].status != Error ==>
      g.IsValidVertex(S.robots[id].currentVertex) && g.IsValidVertex(target)
  }

  function Failed(S: FleetState, category: Category): (FleetState, bool) {
    (S.(log := S.log + [Event(None, category)]), false)
  }

  /**
   * Give robot `id` the task of reaching `target` along a shortest path. A
   * robot that was under way gives up the lane it was heading along, emptied
   * for every robot.
   */
  function Assign(g: Graph, S: FleetState, id: nat, target: int): (FleetState, bool)
    requires g.Valid() && CanAssign(g, S, id, target)
  {
    if id !in S.robots then Failed(S, ErrorLogged)
    else
      var r := S.robots[id];
      if r.status == Error then Failed(S, ErrorLogged)
      else
        var path := g.ShortestPath(r.currentVertex, target);
        if path == [] then Failed(S, ErrorLogged)
        else (Dispatched(S, id, target, path), true)
  }

  /** The fleet once robot `id`, known to the fleet, has been given `target` and `path`. */
  function Dispatched(S: FleetState, id: nat, target: int, path: seq<int>): FleetState
    requires id in S.robots
  {
    var r := S.robots[id];
    var ledgerLog :=
      if r.status in {Moving, Waiting, Blocked} then
        if r.path != [] then
          (ClearEdgeEntry(S.ledger, GetEdge(r.currentVertex, r.path[0])), S.log + [Event(Some(id), TaskReassigned)])
        else (S.ledger, S.log)
      else (S.ledger, S.log + [Event(Some(id), NewTaskAssigned)]);
    FleetState(S.robots[id := WithPath(WithTarget(r, target), path)], S.nextId, ledgerLog.0, ledgerLog.1)
  }

  /**
   * Assignment fails exactly for an unknown robot, an ERROR robot, or a target
   * no walk reaches; a failure only logs an error.
   */
  lemma AssignFailsExactly(g: Graph, S: FleetState, id: nat, target: int)
    requires g.Valid() && CanAssign(g, S, id, target)
    ensures var (S', ok) := Assign(g, S, id, target);
      (!ok <==> id !in S.robots || S.robots[id].status == Error ||
                forall q :: !IsWalk(g.adj, q, S.robots[id].currentVertex, target)) &&
      (!ok ==> S'.robots == S.robots && S'.ledger == S.ledger && S'.nextId == S.nextId &&
               S'.log == S.log + [Event(None, ErrorLogged)])
  {
    var (S', ok) := Assign(g, S, id, target);
    if id in S.robots && S.robots[id].status != Error {
      var p := g.ShortestPath(S.robots[id].currentVertex, target);
      if p != [] {
        assert IsWalk(g.adj, p, S.robots[id].currentVertex, target);
      }
    }
  }

  /**
   * A successful assignment sets the target, makes the robot MOVING at the start
   * of a segment, and gives it a hop-minimal path that begins with the vertex it
   * stands on and ends at the target. Other robots and the id counter do not
   * change. A robot that was IDLE or TASK_COMPLETED gets a "new task" record;
   * one under way gets a "reassigned" record when it had a stop ahead, and no
   * record at all otherwise.
   */
  lemma AssignSetsShortestPath(g: Graph, S: FleetState, id: nat, target: int)
    requires g.Valid() && CanAssign(g, S, id, target) && FleetOk(g, S)
    ensures var (S', ok) := Assign(g, S, id, target);
      ok ==>
        var r, r' := S.robots[id], S'.robots[id];
        S'.robots.Keys == S.robots.Keys &&
        (forall j :: j in S.robots && j != id ==> S'.robots[j] == S.robots[j]) &&
        r'.targetVertex == Some(target) && r'.status == Moving && r'.progress == 0.0 &&
        r'.currentVertex == r.currentVertex &&
        IsWalk(g.adj, r'.path, r.currentVertex, target) &&
        r'.path[0] == r.currentVertex &&
        (forall q :: IsWalk(g.adj, q, r.currentVertex, target) ==> |r'.path| <= |q|) &&
        S'.nextId == S.nextId &&
        FleetOk(g, S')
    ensures var (S', ok) := Assign(g, S, id, target);
      ok ==>
        var r := S.robots[id];
        (r.status !in {Moving, Waiting, Blocked} ==> S'.log == S.log + [Event(Some(id), NewTaskAssigned)]) &&
        (r.status in {Moving, Waiting, Blocked} && r.path != [] ==>
           S'.log == S.log + [Event(Some(id), TaskReassigned)]) &&
        (r.status in {Moving, Waiting, Blocked} && r.path == [] ==> S'.log == S.log)
  {
    var (S', ok) := Assign(g, S, id, target);
    if ok {
      var r' := S'.robots[id];
      WalkInGraph(g, r'.path, S.robots[id].currentVertex, target);
    }
  }

  /** Every stop of a walk from a vertex of the graph is a vertex of the graph. */
  lemma WalkInGraph(g: Graph, p: seq<int>, a: int, b: int)
    requires g.Valid() && g.IsValidVertex(a) && IsWalk(g.adj, p, a, b)
    ensures OnGraph(g, p)
  {
    forall i | 0 <= i < |p| ensures g.IsValidVertex(p[i]) {
      if i > 0 {
        assert Hop(g.adj, p, i - 1);
        assert p[i] in g.Neighbors(p[i - 1]);
      }
    }
    OnGraphEveryStop(g, p);
  }

  /**
   * Reassigning a robot that was under way empties the whole entry of the lane
   * it was heading along, other robots' ids included, and changes nothing else
   * in the ledger. Any other assignment leaves the ledger alone.
   */
  lemma AssignLedgerEffect(g: Graph, S: FleetState, id: nat, target: int)
    requires g.Valid() && CanAssign(g, S, id, target)
    ensures var (S', ok) := Assign(g, S, id, target);
      if ok && S.robots[id].status in {Moving, Waiting, Blocked} && S.robots[id].path != [] then
        var e := GetEdge(S.robots[id].currentVertex, S.robots[id].path[0]);
        S'.ledger.edges.Keys == S.ledger.edges.Keys && S'.ledger.junctions == S.ledger.junctions &&
        (e in S.ledger.edges ==> S'.ledger.edges[e] == {}) &&
        (forall k :: k in S.ledger.edges && k != e ==> S'.ledger.edges[k] == S.ledger.edges[k]) &&
        S'.log == S.log + [Event(Some(id), TaskReassigned)]
      else S'.ledger == S.ledger
  {
  }

  /** Cancel robot `id`'s task, releasing the lane it was heading along. */
  function Cancel(S: FleetState, id: nat): (FleetState, bool) {
    if id !in S.robots then Failed(S, ErrorLogged)
    else
      var r := S.robots[id];
      if r.status == Idle then Failed(S, WarningLogged)
      else
        (FleetState(S.robots[id := Cancelled(r)], S.nextId, LaneReleased(S.ledger, r),
                    S.log + [Event(Some(id), TaskCancelled)]), true)
  }

  /**
   * Cancelling fails exactly for an unknown or IDLE robot, and then only logs an
   * error or a warning. Otherwise, ERROR robots included, the robot is left IDLE
   * with no task, the whole entry of the lane it was heading along is emptied,
   * nothing else in the ledger changes, and the cancellation is logged.
   */
  lemma CancelOutcome(g: Graph, S: FleetState, id: nat)
    requires FleetOk(g, S)
    ensures var (S', ok) := Cancel(S, id);
      (ok <==> id in S.robots && S.robots[id].status != Idle) &&
      (!ok ==> S'.robots == S.robots && S'.ledger == S.ledger && S'.nextId == S.nextId &&
               S'.log == S.log + [Event(None, if id in S.robots then WarningLogged else ErrorLogged)]) &&
      (ok ==> S'.robots.Keys == S.robots.Keys &&
              S'.robots[id] == NewRobot(id, S.robots[id].currentVertex) &&
              (forall j :: j in S.robots && j != id ==> S'.robots[j] == S.robots[j]) &&
              S'.nextId == S.nextId && S'.log == S.log + [Event(Some(id), TaskCancelled)] &&
              FleetOk(g, S'))
    ensures var (S', ok) := Cancel(S, id);
      ok ==>
        var r := S.robots[id];
        S'.ledger.edges.Keys == S.ledger.edges.Keys && S'.ledger.junctions == S.ledger.junctions &&
        (r.path == [] ==> S'.ledger == S.ledger) &&
        (r.path != [] ==>
          var e := GetEdge(r.currentVertex, r.path[0]);
          (e in S.ledger.edges ==> S'.ledger.edges[e] == {}) &&
          (forall k :: k in S.ledger.edges && k != e ==> S'.ledger.edges[k] == S.ledger.edges[k]))
  {
  }

  /** A second cancel right after a successful one fails. */
  lemma CancelTwiceFails(S: FleetState, id: nat)
    requires Cancel(S, id).1
    ensures !Cancel(Cancel(S, id).0, id).1
  {
  }

  // ---------------------------------------------------------------------------
  // The tick
  // ---------------------------------------------------------------------------

  /** The log records written for a robot whose status went from `prev` to that of `post`. */
  function Classify(prev: Status, post: RobotState): (events: seq<Event>)
    ensures |events| <= 1
    ensures events != [] ==> prev != post.status && events[0].robot == Some(post.id)
    ensures prev != post.status && post.status == Waiting ==> events == [Event(Some(post.id), TrafficWaiting)]
    ensures prev != post.status && post.status == Blocked ==> events == [Event(Some(post.id), TrafficBlocked)]
    ensures prev != post.status && post.status == TaskCompleted ==> events == [Event(Some(post.id), TaskCompletion)]
    ensures prev != post.status && post.status !in {Waiting, Blocked, TaskCompleted} ==>
      (events != [] <==> prev in {Waiting, Blocked}) &&
      (events != [] ==> events[0].category == MovementResumed)
  {
    if post.status == prev then []
    else if post.status == Waiting then [Event(Some(post.id), TrafficWaiting)]
    else if post.status == Blocked then [Event(Some(post.id), TrafficBlocked)]
    else if post.status == TaskCompleted then [Event(Some(post.id), TaskCompletion)]
    else if prev == Waiting || prev == Blocked then [Event(Some(post.id), MovementResumed)]
    else []
  }

  /** Let robot `id` take its step and log its status change. */
  function StepAt(g: Graph, S: FleetState, dt: real, id: nat): (S': FleetState)
    requires g.Valid() && FleetOk(g, S) && id in S.robots
    ensures S'.robots.Keys == S.robots.Keys && S'.nextId == S.nextId
    ensures forall j :: j in S.robots && j != id ==> S'.robots[j] == S.robots[j]
    ensures (TableWellPlaced(g, S); (S'.robots[id], S'.ledger) == Step(g, S.ledger, Table(S.robots), S.robots[id], dt))
    ensures S'.log == S.log + Classify(S.robots[id].status, S'.robots[id])
    ensures FleetOk(g, S')
  {
    TableWellPlaced(g, S);
    var prev := S.robots[id];
    var (r, L) := Step(g, S.ledger, Table(S.robots), prev, dt);
    StepKeepsRobotOk(g, S.ledger, Table(S.robots), prev, dt);
    StepConsumesAtMostOne(g, S.ledger, Table(S.robots), prev, dt);
    FleetState(S.robots[id := r], S.nextId, L, S.log + Classify(prev.status, r))
  }

  /** The tick restricted to ids below k: each present robot steps once, in ascending id order. */
  function TickUpTo(g: Graph, S: FleetState, dt: real, k: nat): (S': FleetState)
    requires g.Valid() && FleetOk(g, S)
    ensures S'.robots.Keys == S.robots.Keys && S'.nextId == S.nextId
    ensures FleetOk(g, S')
    decreases k
  {
    if k == 0 then S
    else
      var S1 := TickUpTo(g, S, dt, k - 1);
      if k - 1 in S1.robots then StepAt(g, S1, dt, k - 1) else S1
  }

  /** One tick of the whole fleet: every id ever issued is below nextId. */
  function Tick(g: Graph, S: FleetState, dt: real): (S': FleetState)
    requires g.Valid() && FleetOk(g, S)
    ensures S'.robots.Keys == S.robots.Keys && S'.nextId == S.nextId && FleetOk(g, S')
  {
    TickUpTo(g, S, dt, S.nextId)
  }

  /** Robots from id k upward have not moved yet after the first k steps of a tick. */
  lemma {:induction false} TickUpToLeavesHigherIds(g: Graph, S: FleetState, dt: real, k: nat, j: nat)
    requires g.Valid() && FleetOk(g, S) && j in S.robots && j >= k
    ensures TickUpTo(g, S, dt, k).robots[j] == S.robots[j]
    decreases k
  {
    if k > 0 {
      TickUpToLeavesHigherIds(g, S, dt, k - 1, j);
    }
  }

  /**
   * The rest of a tick from id k on: each present robot from k upward steps
   * once, in ascending id order. The robots below k are not touched.
   */
  function TickFrom(g: Graph, X: FleetState, dt: real, k: nat): (S': FleetState)
    requires g.Valid() && FleetOk(g, X)
    ensures S'.robots.Keys == X.robots.Keys && S'.nextId == X.nextId
    ensures forall i :: i in X.robots && i < k ==> S'.robots[i] == X.robots[i]
    ensures FleetOk(g, S')
    decreases X.nextId - k
  {
    if k >= X.nextId then X
    else if k in X.robots then TickFrom(g, StepAt(g, X, dt, k), dt, k + 1)
    else TickFrom(g, X, dt, k + 1)
  }

  /** A tick is its first k steps followed by the rest. */
  lemma {:induction false} TickSplits(g: Graph, S: FleetState, dt: real, k: nat)
    requires g.Valid() && FleetOk(g, S) && k <= S.nextId
    ensures TickFrom(g, TickUpTo(g, S, dt, k), dt, k) == Tick(g, S, dt)
    decreases S.nextId - k
  {
    if k < S.nextId {
      TickSplits(g, S, dt, k + 1);
    }
  }

  /**
   * In a tick robot j takes its step against the ledger as the robots with
   * smaller ids left it, and nothing after changes it.
   */
  lemma TickOrder(g: Graph, S: FleetState, dt: real, j: nat)
    requires g.Valid() && FleetOk(g, S) && j in S.robots
    ensures var before := TickUpTo(g, S, dt, j);
      before.robots[j] == S.robots[j] &&
      Tick(g, S, dt).robots[j] == StepAt(g, before, dt, j).robots[j]
  {
    TickUpToLeavesHigherIds(g, S, dt, j, j);
    assert j < S.nextId;
    TickSplits(g, S, dt, j);
  }

  /**
   * A reservation made earlier in the same tick is seen by a later robot: if,
   * when robot j's turn comes, another robot holds the junction j stands on or
   * heads for, j ends the tick BLOCKED where it was.
   */
  lemma HeldJunctionBlocksLaterRobot(g: Graph, S: FleetState, dt: real, j: nat, holder: nat, v: int)
    requires g.Valid() && FleetOk(g, S) && j in S.robots && holder != j
    requires Active(S.robots[j].status) && S.robots[j].path != []
    requires v == S.robots[j].currentVertex || v == S.robots[j].path[0]
    requires g.IsValidVertex(v) && IsJunction(g, v)
    requires holder in Occupants(TickUpTo(g, S, dt, j).ledger.junctions, v)
    ensures Tick(g, S, dt).robots[j] == S.robots[j].(status := Blocked)
  {
    var before := TickUpTo(g, S, dt, j);
    TickOrder(g, S, dt, j);
    var r := S.robots[j];
    assert RobotOk(g, r);
    HeldJunctionBlocks(g, before.ledger, holder, j, r.currentVertex, r.path[0]);
    TableWellPlaced(g, before);
    assert Table(before.robots)[j] == Where(r);
    StepHeldBack(g, before.ledger, Table(before.robots), r, dt);
  }

  /** A tick never takes anyone out of the ledger. */
  lemma {:induction false} TickUpToLedgerGrows(g: Graph, S: FleetState, dt: real, k: nat)
    requires g.Valid() && FleetOk(g, S)
    ensures Grows(S.ledger, TickUpTo(g, S, dt, k).ledger)
    decreases k
  {
    if k > 0 {
      var S1 := TickUpTo(g, S, dt, k - 1);
      TickUpToLedgerGrows(g, S, dt, k - 1);
      if k - 1 in S1.robots {
        TableWellPlaced(g, S1);
        StepLedgerGrows(g, S1.ledger, Table(S1.robots), S1.robots[k - 1], dt);
        GrowsTransitive(S.ledger, S1.ledger, StepAt(g, S1, dt, k - 1).ledger);
      }
    }
  }

  lemma GrowsTransitive(L1: Ledger, L2: Ledger, L3: Ledger)
    requires Grows(L1, L2) && Grows(L2, L3)
    ensures Grows(L1, L3)
  {
  }

  /** IDLE, BLOCKED, TASK_COMPLETED and ERROR robots come out of a tick exactly as they went in. */
  lemma TickLeavesInactiveRobots(g: Graph, S: FleetState, dt: real, j: nat)
    requires g.Valid() && FleetOk(g, S) && j in S.robots && !Active(S.robots[j].status)
    ensures Tick(g, S, dt).robots[j] == S.robots[j]
  {
    TickOrder(g, S, dt, j);
    var before := TickUpTo(g, S, dt, j);
    TableWellPlaced(g, before);
    StepInactiveIsFixed(g, before.ledger, Table(before.robots), S.robots[j], dt);
  }

  /** After a tick no robot is WAITING. */
  lemma TickLeavesNoneWaiting(g: Graph, S: FleetState, dt: real, j: nat)
    requires g.Valid() && FleetOk(g, S) && j in S.robots
    ensures Tick(g, S, dt).robots[j].status != Waiting
  {
    TickOrder(g, S, dt, j);
    var before := TickUpTo(g, S, dt, j);
    TableWellPlaced(g, before);
    StepNeverWaits(g, before.ledger, Table(before.robots), S.robots[j], dt);
  }

  /** One step keeps a coherent robot coherent. */
  lemma StepKeepsCoherent(g: Graph, L: Ledger, robots: map<nat, Whereabouts>, r: RobotState, dt: real)
    requires g.Valid() && WellPlaced(g, robots) && RobotOk(g, r) && Coherent(r)
    ensures Coherent(Step(g, L, robots, r, dt).0)
  {
    StepNeverWaits(g, L, robots, r, dt);
  }

  lemma {:induction false} TickUpToKeepsCoherent(g: Graph, S: FleetState, dt: real, k: nat)
    requires g.Valid() && FleetOk(g, S) && FleetCoherent(S)
    ensures FleetCoherent(TickUpTo(g, S, dt, k))
    decreases k
  {
    if k > 0 {
      var S1 := TickUpTo(g, S, dt, k - 1);
      TickUpToKeepsCoherent(g, S, dt, k - 1);
      if k - 1 in S1.robots {
        TableWellPlaced(g, S1);
        StepKeepsCoherent(g, S1.ledger, Table(S1.robots), S1.robots[k - 1], dt);
      }
    }
  }

  /**
   * Every operation keeps every robot coherent. So WAITING and ERROR never
   * occur, the ERROR test of assign_task never fires, and a MOVING robot always
   * has a stop ahead.
   */
  lemma OperationsKeepCoherent(g: Graph, S: FleetState, id: nat, start: int, target: int, dt: real)
    requires g.Valid() && FleetOk(g, S) && FleetCoherent(S)
    ensures FleetCoherent(Add(S, start).0)
    ensures FleetCoherent(Remove(S, id))
    ensures CanAssign(g, S, id, target) ==> FleetCoherent(Assign(g, S, id, target).0)
    ensures FleetCoherent(Cancel(S, id).0)
    ensures FleetCoherent(Tick(g, S, dt))
  {
    TickUpToKeepsCoherent(g, S, dt, S.nextId);
    if CanAssign(g, S, id, target) {
      var (S', ok) := Assign(g, S, id, target);
      if ok {
        var r := S.robots[id];
        assert IsWalk(g.adj, S'.robots[id].path, r.currentVertex, target);
      }
    }
  }

  // ---------------------------------------------------------------------------
  // Queries
  // ---------------------------------------------------------------------------

  function StatusOf(S: FleetState, id: nat): (s: Option<Status>)
    ensures s.Some? <==> id in S.robots
    ensures s.Some? ==> s.value == S.robots[id].status
  {
    if id !in S.robots then None else Some(S.robots[id].status)
  }

  /** The vertex a robot stands on followed by its remaining stops, or None when it has none. */
  function PathOf(S: FleetState, id: nat): (p: Option<seq<int>>)
    ensures p.Some? <==> id in S.robots && S.robots[id].path != []
    ensures p.Some? ==> |p.value| >= 2 && p.value[0] == S.robots[id].currentVertex && p.value[1..] == S.robots[id].path
  {
    if id !in S.robots then None
    else if S.robots[id].path != [] then Some([S.robots[id].currentVertex] + S.robots[id].path)
    else None
  }

  /**
   * Right after an assignment the reported path names the robot's own vertex
   * twice, since the shortest path already starts there.
   */
  lemma AssignedPathRepeatsCurrentVertex(g: Graph, S: FleetState, id: nat, target: int)
    requires g.Valid() && CanAssign(g, S, id, target) && Assign(g, S, id, target).1
    ensures var p := PathOf(Assign(g, S, id, target).0, id);
      p.Some? && p.value[0] == p.value[1] == S.robots[id].currentVertex
  {
    var S' := Assign(g, S, id, target).0;
    assert IsWalk(g.adj, S'.robots[id].path, S.robots[id].currentVertex, target);
  }

  // ---------------------------------------------------------------------------
  // The fleet manager object
  // ---------------------------------------------------------------------------

  /** The robot objects as values. */
  function ViewsOf(rs: map<nat, Robot>): map<nat, RobotState>
    reads rs.Values
  {
    map id | id in rs :: rs[id].View()
  }

  class FleetManager {
    const nav: Graph
    const tm: TrafficManager
    var robots: map<nat, Robot>
    var nextRobotId: nat
    var log: seq<Event>

    /** The fleet as a value. */
    function Snapshot(): FleetState
      reads this, robots.Values, tm
    {
      FleetState(ViewsOf(robots), nextRobotId, tm.View(), log)
    }

    /** Every robot object is filed under its own id; so no object is filed twice. */
    ghost predicate IdsMatch()
      reads this, robots.Values
    {
      forall id :: id in robots ==> robots[id].id == id
    }

    ghost predicate Valid()
      reads this, robots.Values, tm
    {
      var ok := tm.nav == nav && nav.Valid() && IdsMatch() && FleetOk(nav, Snapshot());
      ok
    }

    constructor(nav: Graph, tm: TrafficManager)
      requires nav.Valid() && tm.nav == nav
      ensures Valid() && this.nav == nav && this.tm == tm
      ensures Snapshot() == FleetState(map[], 0, tm.View(), [])
    {
      this.nav := nav;
      this.tm := tm;
      robots := map[];
      nextRobotId := 0;
      log := [];
    }

    method AddRobot(start: int) returns (robot: Robot)
      requires Valid()
      modifies this
      ensures Valid() && fresh(robot)
      ensures (Snapshot(), robot.id) == Add(old(Snapshot()), start)
    {
      ghost var S := Snapshot();
      robot := new Robot(nextRobotId, start);
      assert ViewsOf(robots) == S.robots;
      assert robot.View() == NewRobot(nextRobotId, start);
      AddView(robots, robot);
      robots := robots[nextRobotId := robot];
      log := log + [Event(Some(robot.id), RobotCreated)];
      nextRobotId := nextRobotId + 1;
      assert ViewsOf(robots) == S.robots[robot.id := NewRobot(robot.id, start)];
      assert Snapshot() == Add(S, start).0;
      AddGivesFreshIdleRobot(nav, S, start);
    }

    /** Filing one more robot adds its view and changes no other. */
    static lemma AddView(rs: map<nat, Robot>, r: Robot)
      ensures ViewsOf(rs[r.id := r]) == ViewsOf(rs)[r.id := r.View()]
    {
    }

    method RemoveRobot(id: nat)
      requires Valid()
      modifies this, robots.Values, tm
      ensures Valid()
      ensures Snapshot() == Remove(old(Snapshot()), id)
    {
      if id in robots {
        Halt(id);
        ReleaseLane(id);
        log := log + [Event(Some(id), RobotRemoved)];
        robots := robots - {id};
        assert ViewsOf(robots) == old(ViewsOf(robots)) - {id};
      }
    }

    method AssignTask(id: nat, target: int) returns (ok: bool)
      requires Valid() && CanAssign(nav, Snapshot(), id, target)
      modifies this, robots.Values, tm
      ensures Valid()
      ensures (Snapshot(), ok) == Assign(nav, old(Snapshot()), id, target)
    {
      if id !in robots {
        log := log + [Event(None, ErrorLogged)];
        return false;
      }
      var robot := robots[id];
      if robot.status == Error {
        log := log + [Event(None, ErrorLogged)];
        return false;
      }
      var path := nav.ShortestPath(robot.currentVertex, target);
      if path == [] {
        log := log + [Event(None, ErrorLogged)];
        return false;
      }
      Reassign(id, target, path);
      ok := true;
      AssignSetsShortestPath(nav, old(Snapshot()), id, target);
    }

    /** The part of assign_task after the path is found: release the old lane, log, and hand the robot its task. */
    method Reassign(id: nat, target: int, path: seq<int>)
      requires IdsMatch() && id in robots
      modifies this, robots[id], tm
      ensures IdsMatch() && robots.Keys == old(robots.Keys) && nextRobotId == old(nextRobotId)
      ensures Snapshot() == Dispatched(old(Snapshot()), id, target, path)
    {
      ghost var S' := Dispatched(Snapshot(), id, target, path);
      var robot := robots[id];
      if robot.status == Moving || robot.status == Waiting || robot.status == Blocked {
        if robot.path != [] {
          tm.ClearEdge(GetEdge(robot.currentVertex, robot.path[0]));
          log := log + [Event(Some(id), TaskReassigned)];
        }
      } else {
        log := log + [Event(Some(id), NewTaskAssigned)];
      }
      assert tm.View() == S'.ledger && log == S'.log;
      assert ViewsOf(robots) == old(ViewsOf(robots));
      Dispatch(id, target, path);
      assert ViewsOf(robots) == S'.robots;
    }

    method CancelTask(id: nat) returns (ok: bool)
      requires Valid()
      modifies this, robots.Values, tm
      ensures Valid()
      ensures (Snapshot(), ok) == Cancel(old(Snapshot()), id)
    {
      if id !in robots {
        log := log + [Event(None, ErrorLogged)];
        return false;
      }
      var robot := robots[id];
      if robot.status == Idle {
        log := log + [Event(None, WarningLogged)];
        return false;
      }
      ghost var S' := Cancel(Snapshot(), id).0;
      if robot.path != [] {
        tm.ClearEdge(GetEdge(robot.currentVertex, robot.path[0]));
      }
      log := log + [Event(Some(id), TaskCancelled)];
      assert tm.View() == S'.ledger && log == S'.log;
      assert ViewsOf(robots) == old(ViewsOf(robots));
      Halt(id);
      ok := true;
      assert ViewsOf(robots) == S'.robots;
      CancelOutcome(nav, old(Snapshot()), id);
    }

    method UpdateFleet(dt: real)
      requires Valid()
      modifies this, robots.Values, tm
      ensures Valid()
      ensures Snapshot() == Tick(nav, old(Snapshot()), dt)
    {
      ghost var S0 := Snapshot();
      for id := 0 to nextRobotId
        invariant robots == old(robots) && nextRobotId == old(nextRobotId)
        invariant Valid()
        invariant Snapshot() == TickUpTo(nav, S0, dt, id)
      {
        if id in robots {
          TakeTurn(id, dt);
        }
      }
    }

    /** Robot `id`'s turn in a tick: it takes its step and its status change is logged. */
    method TakeTurn(id: nat, dt: real)
      requires Valid() && id in robots
      modifies this, robots[id], tm
      ensures Valid() && robots == old(robots) && nextRobotId == old(nextRobotId)
      ensures Snapshot() == StepAt(nav, old(Snapshot()), dt, id)
    {
      var prevStatus := robots[id].status;
      ghost var before := Snapshot();
      TableWellPlaced(nav, before);
      assert RobotOk(nav, before.robots[id]) && before.robots[id] == robots[id].View();
      Move(id, dt);
      ghost var views, ledger := ViewsOf(robots), tm.View();
      assert views == StepAt(nav, before, dt, id).robots && ledger == StepAt(nav, before, dt, id).ledger;
      log := log + Classify(prevStatus, robots[id].View());
      assert ViewsOf(robots) == views && tm.View() == ledger;
      assert Snapshot() == StepAt(nav, before, dt, id);
    }

    /** Empty the entry of the lane robot `id` is heading along, if it has a stop ahead. */
    method ReleaseLane(id: nat)
      requires id in robots
      modifies tm
      ensures tm.View() == LaneReleased(old(tm.View()), robots[id].View())
    {
      var robot := robots[id];
      if robot.path != [] {
        tm.ClearEdge(GetEdge(robot.currentVertex, robot.path[0]));
      }
    }

    /** Robot `id` takes a new target and a new path. */
    method Dispatch(id: nat, target: int, path: seq<int>)
      requires IdsMatch() && id in robots
      modifies robots[id]
      ensures IdsMatch()
      ensures ViewsOf(robots) == old(ViewsOf(robots))[id := WithPath(WithTarget(old(robots[id].View()), target), path)]
    {
      var robot := robots[id];
      robot.SetTarget(target);
      robot.SetPath(path);
      OnlyOneChanged(id);
    }

    /** Robot `id` drops its task. */
    method Halt(id: nat)
      requires IdsMatch() && id in robots
      modifies robots[id]
      ensures IdsMatch()
      ensures ViewsOf(robots) == old(ViewsOf(robots))[id := Cancelled(old(robots[id].View()))]
    {
      robots[id].CancelTask();
      OnlyOneChanged(id);
    }

    /** Robot `id` takes its step of a tick. */
    method Move(id: nat, dt: real)
      requires IdsMatch() && id in robots && tm.nav.Valid()
      requires WellPlaced(tm.nav, Table(ViewsOf(robots))) && RobotOk(tm.nav, robots[id].View())
      modifies robots[id], tm
      ensures IdsMatch()
      ensures ViewsOf(robots) == old(ViewsOf(robots))[id := robots[id].View()]
      ensures (robots[id].View(), tm.View()) ==
        Step(tm.nav, old(tm.View()), old(Table(ViewsOf(robots))), old(robots[id].View()), dt)
    {
      robots[id].UpdatePosition(dt, tm, Table(ViewsOf(robots)));
      OnlyOneChanged(id);
    }

    /** When only robot `id`'s object has changed, only its entry of the fleet's values has. */
    twostate lemma OnlyOneChanged(id: nat)
      requires old(IdsMatch()) && id in robots && robots == old(robots)
      requires forall j :: j in robots && j != id ==> unchanged(robots[j])
      ensures IdsMatch()
      ensures ViewsOf(robots) == old(ViewsOf(robots))[id := robots[id].View()]
    {
      forall j | j in robots && j != id ensures robots[j].View() == old(robots[j].View()) {
      }
    }

    function GetRobotStatus(id: nat): (s: Option<Status>)
      reads this, robots.Values, tm
      ensures s == StatusOf(Snapshot(), id)
    {
      if id !in robots then None else Some(robots[id].status)
    }

    function GetRobotPath(id: nat): (p: Option<seq<int>>)
      reads this, robots.Values, tm
      ensures p == PathOf(Snapshot(), id)
    {
      if id !in robots then None
      else if robots[id].path != [] then Some([robots[id].currentVertex] + robots[id].path)
      else None
    }
  }
}
