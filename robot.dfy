/**
 * A robot: where it stands, the stops still ahead of it, its task status and
 * how far it has got along the current segment. Each tick it asks the traffic
 * manager whether it may move; if so it advances by speed times the elapsed
 * time, and on completing a segment it steps onto the next stop and reports
 * its new position to the traffic manager.
 *
 * The transitions are functions on RobotState; the Robot class holds the
 * fields the source assigns and its methods are proved to produce exactly
 * those functions' results.
 */
module Robots {
  import opened Wrappers
  import opened NavGraph
  import opened Traffic

  datatype Status = Idle | Moving | TaskCompleted | Error | Waiting | Blocked

  /** Fraction of a segment covered per unit of time. */
  const Speed: real := 0.8

  datatype RobotState = RobotState(
    id: nat,
    currentVertex: int,
    targetVertex: Option<int>,
    path: seq<int>,
    status: Status,
    progress: real)

  /** Only a moving or waiting robot reacts to a tick. */
  predicate Active(s: Status) {
    s == Moving || s == Waiting
  }

  /** A fresh robot: idle at its start vertex, with nothing to do. */
  function NewRobot(id: nat, start: int): RobotState {
    RobotState(id, start, None, [], Idle, 0.0)
  }

  function WithTarget(r: RobotState, target: int): RobotState {
    r.(targetVertex := Some(target), status := Moving)
  }

  function WithPath(r: RobotState, path: seq<int>): RobotState {
    r.(path := path, progress := 0.0)
  }

  function Cancelled(r: RobotState): RobotState {
    r.(targetVertex := None, path := [], progress := 0.0, status := Idle)
  }

  /** Setting a target makes any robot, an ERROR one included, MOVING; setting a path restarts the segment. */
  lemma TaskSetupEffects(r: RobotState, target: int, path: seq<int>)
    ensures WithTarget(r, target).status == Moving && WithTarget(r, target).targetVertex == Some(target)
    ensures WithPath(r, path).path == path && WithPath(r, path).progress == 0.0
    ensures WithPath(WithTarget(r, target), path) == WithTarget(WithPath(r, path), target)
  {
  }

  /** Cancelling forgets everything about the task, whatever the robot was doing. */
  lemma CancelForgetsTask(r1: RobotState, r2: RobotState)
    requires r1.id == r2.id && r1.currentVertex == r2.currentVertex
    ensures Cancelled(r1) == Cancelled(r2) == NewRobot(r1.id, r1.currentVertex)
  {
  }

  /** What the traffic manager sees of the robot. */
  function Where(r: RobotState): Whereabouts {
    Whereabouts(r.currentVertex, r.path)
  }

  /** Every stop of `p` is a vertex of the graph. */
  ghost predicate OnGraph(g: Graph, p: seq<int>) {
    p == [] || (g.IsValidVertex(p[0]) && OnGraph(g, p[1..]))
  }

  lemma {:induction false} OnGraphEveryStop(g: Graph, p: seq<int>)
    requires forall i :: 0 <= i < |p| ==> g.IsValidVertex(p[i])
    ensures OnGraph(g, p)
  {
    if p != [] {
      assert forall i :: 0 <= i < |p[1..]| ==> g.IsValidVertex(p[1..][i]) by {
        forall i | 0 <= i < |p[1..]| ensures g.IsValidVertex(p[1..][i]) {
          assert p[1..][i] == p[i + 1];
        }
      }
      OnGraphEveryStop(g, p[1..]);
    }
  }

  /** A robot with stops ahead stands on a vertex of the graph, and every stop is one. */
  ghost predicate RobotOk(g: Graph, r: RobotState) {
    (r.path != [] ==> g.IsValidVertex(r.currentVertex)) && OnGraph(g, r.path)
  }

  /**
   * One tick of `dt` time units for robot `r`, against ledger `L` and the
   * fleet's robot table: the new robot and the new ledger.
   */
  function Step(g: Graph, L: Ledger, robots: map<nat, Whereabouts>, r: RobotState, dt: real)
    : (RobotState, Ledger)
    requires g.Valid() && WellPlaced(g, robots) && RobotOk(g, r)
  {
    if !Active(r.status) then (r, L)
    else if r.path == [] then (r.(status := Idle), L)
    else if RobotBlocked(g, L, robots, r.id) then (r.(status := Blocked), L)
    else if RobotWaiting(g, L, robots, r.id) then (r.(status := Waiting), L)
    else
      var status := if r.status == Waiting || r.status == Blocked then Moving else r.status;
      var progress := r.progress + Speed * dt;
      if progress >= 1.0 then
        var r1 := r.(status := status, progress := 0.0, currentVertex := r.path[0], path := r.path[1..]);
        var L1 := Arrive(g, L, r.id, Where(r1), r1.currentVertex);
        if r1.path == [] then (r1.(status := TaskCompleted, targetVertex := None), L1) else (r1, L1)
      else (r.(status := status, progress := progress), L)
  }

  /** IDLE, BLOCKED, TASK_COMPLETED and ERROR robots are left exactly as they are, and so is the ledger. */
  lemma StepInactiveIsFixed(g: Graph, L: Ledger, robots: map<nat, Whereabouts>, r: RobotState, dt: real)
    requires g.Valid() && WellPlaced(g, robots) && RobotOk(g, r)
    requires r.status in {Idle, Blocked, TaskCompleted, Error}
    ensures Step(g, L, robots, r, dt) == (r, L)
  {
  }

  /** An active robot with no stops ahead only becomes IDLE. */
  lemma StepWithoutPathIdles(g: Graph, L: Ledger, robots: map<nat, Whereabouts>, r: RobotState, dt: real)
    requires g.Valid() && WellPlaced(g, robots) && RobotOk(g, r)
    requires Active(r.status) && r.path == []
    ensures Step(g, L, robots, r, dt) == (r.(status := Idle), L)
  {
  }

  /** A robot the traffic manager holds back changes only its status, and the ledger is untouched. */
  lemma StepHeldBack(g: Graph, L: Ledger, robots: map<nat, Whereabouts>, r: RobotState, dt: real)
    requires g.Valid() && WellPlaced(g, robots) && RobotOk(g, r)
    requires Active(r.status) && r.path != []
    requires RobotBlocked(g, L, robots, r.id) || RobotWaiting(g, L, robots, r.id)
    ensures Step(g, L, robots, r, dt) == (r.(status := Blocked), L)
  {
  }

  /** The status WAITING is never produced: whenever the waiting test holds, the blocked test, asked first, holds too. */
  lemma StepNeverWaits(g: Graph, L: Ledger, robots: map<nat, Whereabouts>, r: RobotState, dt: real)
    requires g.Valid() && WellPlaced(g, robots) && RobotOk(g, r)
    ensures Step(g, L, robots, r, dt).0.status != Waiting
  {
  }

  /**
   * A tick consumes at most one stop. When it does, the robot stands on the old
   * first stop, progress restarts at 0, the ledger records the arrival, and
   * reaching the last stop completes the task.
   */
  lemma StepConsumesAtMostOne(g: Graph, L: Ledger, robots: map<nat, Whereabouts>, r: RobotState, dt: real)
    requires g.Valid() && WellPlaced(g, robots) && RobotOk(g, r)
    ensures var (r', L') := Step(g, L, robots, r, dt);
      r'.id == r.id &&
      ((r'.path == r.path && r'.currentVertex == r.currentVertex && r'.targetVertex == r.targetVertex && L' == L) ||
       (r.path != [] && r'.path == r.path[1..] && r'.currentVertex == r.path[0] && r'.progress == 0.0 &&
        L' == Arrive(g, L, r.id, Where(r'), r'.currentVertex) &&
        (r'.path == [] ==> r'.status == TaskCompleted && r'.targetVertex == None) &&
        (r'.path != [] ==> r'.status == Moving && r'.targetVertex == r.targetVertex)))
  {
  }

  /**
   * Movement adds speed times the elapsed time to the progress along the
   * segment. Reaching the end of the segment puts the robot on its first stop
   * with progress 0; it stays MOVING towards the same target while stops remain,
   * and completes its task on the last one.
   */
  lemma StepMoves(g: Graph, L: Ledger, robots: map<nat, Whereabouts>, r: RobotState, dt: real)
    requires g.Valid() && WellPlaced(g, robots) && RobotOk(g, r)
    requires Active(r.status) && r.path != []
    requires !RobotBlocked(g, L, robots, r.id)
    ensures var (r', L') := Step(g, L, robots, r, dt);
      if r.progress + Speed * dt >= 1.0 then
        r'.id == r.id && r'.path == r.path[1..] && r'.currentVertex == r.path[0] && r'.progress == 0.0 &&
        L' == Arrive(g, L, r.id, Where(r'), r'.currentVertex) &&
        (r'.path != [] ==> r'.status == Moving && r'.targetVertex == r.targetVertex) &&
        (r'.path == [] ==> r'.status == TaskCompleted && r'.targetVertex == None)
      else r' == r.(status := Moving, progress := r.progress + Speed * dt) && L' == L
  {
    assert !RobotWaiting(g, L, robots, r.id);
  }

  /** With a non-negative time step, progress stays in [0, 1). */
  lemma StepKeepsProgressInRange(g: Graph, L: Ledger, robots: map<nat, Whereabouts>, r: RobotState, dt: real)
    requires g.Valid() && WellPlaced(g, robots) && RobotOk(g, r)
    requires 0.0 <= r.progress < 1.0 && dt >= 0.0
    ensures 0.0 <= Step(g, L, robots, r, dt).0.progress < 1.0
  {
  }

  /** A tick keeps every vertex the robot names in the graph. */
  lemma StepKeepsRobotOk(g: Graph, L: Ledger, robots: map<nat, Whereabouts>, r: RobotState, dt: real)
    requires g.Valid() && WellPlaced(g, robots) && RobotOk(g, r)
    ensures RobotOk(g, Step(g, L, robots, r, dt).0)
  {
  }

  /**
   * A tick never takes anyone out of the ledger: the arrival it records is at
   * the vertex the robot now stands on, so nothing is released. Other robots'
   * entries are untouched.
   */
  lemma StepLedgerGrows(g: Graph, L: Ledger, robots: map<nat, Whereabouts>, r: RobotState, dt: real)
    requires g.Valid() && WellPlaced(g, robots) && RobotOk(g, r)
    ensures Grows(L, Step(g, L, robots, r, dt).1)
    ensures SameForOthers(L, Step(g, L, robots, r, dt).1, r.id)
  {
    var (r', L') := Step(g, L, robots, r, dt);
    if L' != L {
      ArriveInPlaceGrows(g, L, r.id, Where(r'));
      ArriveOthersUnchanged(g, L, r.id, Where(r'), r'.currentVertex);
    }
  }

  class Robot {
    const id: nat
    var currentVertex: int
    var targetVertex: Option<int>
    var path: seq<int>
    var status: Status
    var progress: real

    function View(): RobotState
      reads this
    {
      RobotState(id, currentVertex, targetVertex, path, status, progress)
    }

    constructor(robotId: nat, startVertex: int)
      ensures View() == NewRobot(robotId, startVertex)
      ensures View().status == Idle && View().path == [] && View().targetVertex == None && View().progress == 0.0
    {
      id := robotId;
      currentVertex := startVertex;
      targetVertex := None;
      path := [];
      status := Idle;
      progress := 0.0;
    }

    method SetTarget(target: int)
      modifies this
      ensures View() == WithTarget(old(View()), target)
    {
      targetVertex := Some(target);
      status := Moving;
    }

    method SetPath(newPath: seq<int>)
      modifies this
      ensures View() == WithPath(old(View()), newPath)
    {
      path := newPath;
      progress := 0.0;
    }

    method CancelTask()
      modifies this
      ensures View() == Cancelled(old(View()))
    {
      targetVertex := None;
      path := [];
      progress := 0.0;
      status := Idle;
    }

    /** One tick; `robots` is the fleet's robot table as the traffic manager reads it. */
    method UpdatePosition(dt: real, tm: TrafficManager, robots: map<nat, Whereabouts>)
      requires tm.nav.Valid() && WellPlaced(tm.nav, robots) && RobotOk(tm.nav, View())
      modifies this, tm
      ensures (View(), tm.View()) == Step(tm.nav, old(tm.View()), robots, old(View()), dt)
    {
      if status != Moving && status != Waiting {
        return;
      }
      if path == [] {
        status := Idle;
        return;
      }
      if tm.IsRobotBlocked(robots, id) {
        status := Blocked;
        return;
      } else if tm.IsRobotWaiting(robots, id) {
        // The source sets WAITING here (as Step does), but the branch is never
        // reached: the waiting test implies the blocked test above (StepNeverWaits).
        assert false;
      } else if status == Waiting || status == Blocked {
        status := Moving;
      }
      progress := progress + Speed * dt;
      if progress >= 1.0 {
        progress := 0.0;
        currentVertex := path[0];
        path := path[1..];
        tm.UpdateRobotPosition(id, Whereabouts(currentVertex, path), currentVertex);
        if path == [] {
          status := TaskCompleted;
          targetVertex := None;
        }
      }
    }
  }
}
