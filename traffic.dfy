/**
 * The traffic manager: an occupancy ledger that records which robots hold
 * which lane (under a canonical, sorted vertex pair) and which junction (a
 * vertex with more than two neighbours), the blocked and waiting queries the
 * robots ask before moving, and the operations that reserve, release and clear
 * entries. Entries are created on first use and never deleted.
 *
 * The ledger operations are first given as functions on a Ledger value; the
 * TrafficManager class holds the two dictionaries the source mutates and its
 * methods are proved to produce exactly those functions' results.
 */
module Traffic {
  import opened NavGraph

  /** A lane key: a pair of vertex ids. */
  type Edge = (int, int)

  /** Lane key -> robots on that lane; junction vertex -> robots holding it. */
  datatype Ledger = Ledger(edges: map<Edge, set<nat>>, junctions: map<int, set<nat>>)

  /**
   * What the traffic manager reads of a robot through the fleet's robot table:
   * the vertex it stands on and the stops still ahead of it.
   */
  datatype Whereabouts = Whereabouts(currentVertex: int, path: seq<int>)

  /** The lane key for two vertices: the pair in ascending order. */
  function GetEdge(u: int, v: int): (e: Edge)
    ensures e.0 <= e.1
    ensures (e.0 == u && e.1 == v) || (e.0 == v && e.1 == u)
  {
    if u <= v then (u, v) else (v, u)
  }

  lemma GetEdgeSymmetric(u: int, v: int)
    ensures GetEdge(u, v) == GetEdge(v, u)
  {
  }

  /** The dictionary lookup with an empty set as default. */
  function Occupants<K>(m: map<K, set<nat>>, k: K): set<nat> {
    if k in m then m[k] else {}
  }

  /** Some robot other than `rid` is in `s`. */
  predicate OtherThan(s: set<nat>, rid: nat) {
    exists o :: o in s && o != rid
  }

  /** A junction is a vertex with more than two neighbours. */
  predicate IsJunction(g: Graph, v: int)
    requires g.Valid() && g.IsValidVertex(v)
  {
    |g.Neighbors(v)| > 2
  }

  /** Every lane key of the ledger is in ascending order, as GetEdge produces them. */
  ghost predicate Canonical(L: Ledger) {
    forall e :: e in L.edges ==> e.0 <= e.1
  }

  /** No robot leaves any entry: every set of `L` is contained in the same entry of `L'`. */
  ghost predicate Grows(L: Ledger, L': Ledger) {
    (forall e :: e in L.edges ==> e in L'.edges && L.edges[e] <= L'.edges[e]) &&
    (forall v :: v in L.junctions ==> v in L'.junctions && L.junctions[v] <= L'.junctions[v])
  }

  /** The ledger is the same as `L` for every robot other than `rid`. */
  ghost predicate SameForOthers(L: Ledger, L': Ledger, rid: nat) {
    (forall e, o :: o != rid ==> (o in Occupants(L'.edges, e) <==> o in Occupants(L.edges, e))) &&
    (forall v, o :: o != rid ==> (o in Occupants(L'.junctions, v) <==> o in Occupants(L.junctions, v)))
  }

  // ---------------------------------------------------------------------------
  // Queries
  // ---------------------------------------------------------------------------

  /** A lane is occupied when its canonical entry holds a robot; the argument's order does not matter. */
  predicate LaneOccupied(L: Ledger, e: Edge) {
    Occupants(L.edges, GetEdge(e.0, e.1)) != {}
  }

  lemma LaneOccupiedEitherWay(L: Ledger, u: int, v: int)
    ensures LaneOccupied(L, (u, v)) <==> LaneOccupied(L, (v, u))
    ensures LaneOccupied(L, (u, v)) <==> exists rid :: rid in Occupants(L.edges, GetEdge(u, v))
  {
    GetEdgeSymmetric(u, v);
  }

  /** A vertex with at most two neighbours is never an occupied intersection. */
  function IntersectionOccupied(g: Graph, L: Ledger, v: int): (r: bool)
    requires g.Valid() && g.IsValidVertex(v)
    ensures r ==> IsJunction(g, v)
    ensures r <==> IsJunction(g, v) && exists rid :: rid in Occupants(L.junctions, v)
  {
    if |g.Neighbors(v)| <= 2 then false
    else |Occupants(L.junctions, v)| > 0
  }

  /**
   * A robot `rid` standing on `cur` with next stop `next` is blocked when another
   * robot holds the junction it stands on, the junction it heads for, or the
   * lane between the two.
   */
  function Blocked(g: Graph, L: Ledger, rid: nat, cur: int, next: int): (r: bool)
    requires g.Valid() && g.IsValidVertex(cur) && g.IsValidVertex(next)
    ensures r <==>
      (IsJunction(g, cur) && OtherThan(Occupants(L.junctions, cur), rid)) ||
      (IsJunction(g, next) && OtherThan(Occupants(L.junctions, next), rid)) ||
      OtherThan(Occupants(L.edges, GetEdge(cur, next)), rid)
  {
    if |g.Neighbors(cur)| > 2 && |Occupants(L.junctions, cur) - {rid}| > 0 then
      assert OtherThan(Occupants(L.junctions, cur), rid) by { NonEmptyDifference(Occupants(L.junctions, cur), rid); }
      true
    else if |g.Neighbors(next)| > 2 && |Occupants(L.junctions, next) - {rid}| > 0 then
      assert OtherThan(Occupants(L.junctions, next), rid) by { NonEmptyDifference(Occupants(L.junctions, next), rid); }
      true
    else
      var others := Occupants(L.edges, GetEdge(cur, next)) - {rid};
      if others != {} then
        assert OtherThan(Occupants(L.edges, GetEdge(cur, next)), rid) by { NonEmptyDifference(Occupants(L.edges, GetEdge(cur, next)), rid); }
        true
      else
        assert !OtherThan(Occupants(L.edges, GetEdge(cur, next)), rid) by { NonEmptyDifference(Occupants(L.edges, GetEdge(cur, next)), rid); }
        assert !(|g.Neighbors(cur)| > 2 && OtherThan(Occupants(L.junctions, cur), rid)) by { NonEmptyDifference(Occupants(L.junctions, cur), rid); }
        assert !(|g.Neighbors(next)| > 2 && OtherThan(Occupants(L.junctions, next), rid)) by { NonEmptyDifference(Occupants(L.junctions, next), rid); }
        false
  }

  lemma NonEmptyDifference(s: set<nat>, rid: nat)
    ensures |s - {rid}| > 0 <==> OtherThan(s, rid)
  {
    if o :| o in s && o != rid {
      assert o in s - {rid};
    } else {
      assert s - {rid} == {};
    }
  }

  /** A robot waits when it heads for a junction some other robot holds. */
  function Waiting(g: Graph, L: Ledger, rid: nat, next: int): (r: bool)
    requires g.Valid() && g.IsValidVertex(next)
    ensures r <==> IsJunction(g, next) && OtherThan(Occupants(L.junctions, next), rid)
  {
    NonEmptyDifference(Occupants(L.junctions, next), rid);
    if |g.Neighbors(next)| <= 2 then false
    else |Occupants(L.junctions, next) - {rid}| > 0
  }

  /** The waiting test is one clause of the blocked test, so a waiting robot is always blocked too. */
  lemma WaitingImpliesBlocked(g: Graph, L: Ledger, rid: nat, cur: int, next: int)
    requires g.Valid() && g.IsValidVertex(cur) && g.IsValidVertex(next)
    ensures Waiting(g, L, rid, next) ==> Blocked(g, L, rid, cur, next)
  {
  }

  /** A junction held by a robot blocks every other robot standing on it or heading for it. */
  lemma HeldJunctionBlocks(g: Graph, L: Ledger, holder: nat, rid: nat, cur: int, next: int)
    requires g.Valid() && g.IsValidVertex(cur) && g.IsValidVertex(next)
    requires holder != rid
    requires (IsJunction(g, cur) && holder in Occupants(L.junctions, cur)) ||
             (IsJunction(g, next) && holder in Occupants(L.junctions, next))
    ensures Blocked(g, L, rid, cur, next)
  {
  }

  /** The robot table entries the blocked and waiting queries may look at name vertices of the graph. */
  ghost predicate WellPlaced(g: Graph, robots: map<nat, Whereabouts>) {
    forall id :: id in robots && robots[id].path != [] ==>
      g.IsValidVertex(robots[id].currentVertex) && g.IsValidVertex(robots[id].path[0])
  }

  /** The blocked query for a robot looked up in the fleet's table: an unknown robot or an empty path is never blocked. */
  function RobotBlocked(g: Graph, L: Ledger, robots: map<nat, Whereabouts>, rid: nat): (r: bool)
    requires g.Valid() && WellPlaced(g, robots)
    ensures r <==> rid in robots && robots[rid].path != [] &&
                   Blocked(g, L, rid, robots[rid].currentVertex, robots[rid].path[0])
  {
    if rid !in robots || robots[rid].path == [] then false
    else Blocked(g, L, rid, robots[rid].currentVertex, robots[rid].path[0])
  }

  /** The waiting query for a robot looked up in the fleet's table. */
  function RobotWaiting(g: Graph, L: Ledger, robots: map<nat, Whereabouts>, rid: nat): (r: bool)
    requires g.Valid() && WellPlaced(g, robots)
    ensures r <==> rid in robots && robots[rid].path != [] && Waiting(g, L, rid, robots[rid].path[0])
    ensures r ==> RobotBlocked(g, L, robots, rid)
  {
    if rid !in robots || robots[rid].path == [] then false
    else
      WaitingImpliesBlocked(g, L, rid, robots[rid].currentVertex, robots[rid].path[0]);
      Waiting(g, L, rid, robots[rid].path[0])
  }

  // ---------------------------------------------------------------------------
  // Updates
  // ---------------------------------------------------------------------------

  /** Create an empty entry for a lane key that has none. */
  function InitEdge(L: Ledger, e: Edge): (L': Ledger)
    ensures L'.edges.Keys == L.edges.Keys + {e} && L'.junctions == L.junctions
    ensures e in L.edges ==> L' == L
    ensures e !in L.edges ==> L'.edges[e] == {} && forall k :: k in L.edges ==> L'.edges[k] == L.edges[k]
  {
    if e in L.edges then L else L.(edges := L.edges[e := {}])
  }

  /** Take `rid` off the lane it was on and, when it stood on a junction, off that junction. */
  function Release(g: Graph, L: Ledger, rid: nat, cur: int, prev: int): (L': Ledger)
    requires g.Valid() && g.IsValidVertex(cur)
  {
    var e := GetEdge(cur, prev);
    var edges := if e in L.edges then L.edges[e := L.edges[e] - {rid}] else L.edges;
    var junctions :=
      if |g.Neighbors(cur)| > 2 && cur in L.junctions then L.junctions[cur := L.junctions[cur] - {rid}]
      else L.junctions;
    Ledger(edges, junctions)
  }

  /** `rid` holds lane key `e`; the entry is created if missing. */
  function Reserve(L: Ledger, rid: nat, e: Edge): (L': Ledger)
  {
    var L1 := InitEdge(L, e);
    L1.(edges := L1.edges[e := L1.edges[e] + {rid}])
  }

  /** Junction `v` gets an entry if missing, and `rid` holds it when `hold` is set. */
  function ReserveJunction(L: Ledger, rid: nat, v: int, hold: bool): (L': Ledger)
  {
    var js := if v in L.junctions then L.junctions else L.junctions[v := {}];
    if hold then L.(junctions := js[v := js[v] + {rid}]) else L.(junctions := js)
  }

  /**
   * The ledger update when robot `rid`, whose table entry is `w`, reaches
   * `next`. Nothing happens for an empty path. When `next` is not the robot's
   * current vertex, the robot first leaves the lane toward its first stop and
   * the junction it stands on. It then holds the lane from its current vertex
   * to `next`, and, when `next` is a junction, that junction gets an entry,
   * which the robot holds only if it already stands on it. The lemmas below
   * state what this does.
   */
  function Arrive(g: Graph, L: Ledger, rid: nat, w: Whereabouts, next: int): (L': Ledger)
    requires g.Valid() && g.IsValidVertex(w.currentVertex) && g.IsValidVertex(next)
    ensures w.path == [] ==> L' == L
  {
    if w.path == [] then L
    else
      var cur := w.currentVertex;
      var L1 := if cur != next then Release(g, L, rid, cur, w.path[0]) else L;
      var L2 := Reserve(L1, rid, GetEdge(cur, next));
      if |g.Neighbors(next)| > 2 then ReserveJunction(L2, rid, next, cur == next) else L2
  }

  /** Arrival adds the key of the lane taken, and the key of `next` when it is a junction, and no other key. */
  lemma ArriveKeys(g: Graph, L: Ledger, rid: nat, w: Whereabouts, next: int)
    requires g.Valid() && g.IsValidVertex(w.currentVertex) && g.IsValidVertex(next) && w.path != []
    ensures Arrive(g, L, rid, w, next).edges.Keys == L.edges.Keys + {GetEdge(w.currentVertex, next)}
    ensures Arrive(g, L, rid, w, next).junctions.Keys ==
      L.junctions.Keys + (if IsJunction(g, next) then {next} else {})
  {
  }

  /** After arrival the robot holds the lane taken, and holds junction `next` when it already stood on it. */
  lemma ArriveHolds(g: Graph, L: Ledger, rid: nat, w: Whereabouts, next: int)
    requires g.Valid() && g.IsValidVertex(w.currentVertex) && g.IsValidVertex(next) && w.path != []
    ensures rid in Arrive(g, L, rid, w, next).edges[GetEdge(w.currentVertex, next)]
    ensures IsJunction(g, next) && w.currentVertex == next ==> rid in Arrive(g, L, rid, w, next).junctions[next]
    ensures IsJunction(g, next) && w.currentVertex != next ==>
      (rid in Arrive(g, L, rid, w, next).junctions[next] <==> rid in Occupants(L.junctions, next))
  {
  }

  /** Moving to another vertex releases the lane toward the first stop and the junction stood on. */
  lemma ArriveReleases(g: Graph, L: Ledger, rid: nat, w: Whereabouts, next: int)
    requires g.Valid() && g.IsValidVertex(w.currentVertex) && g.IsValidVertex(next) && w.path != []
    requires w.currentVertex != next
    ensures IsJunction(g, w.currentVertex) ==> rid !in Occupants(Arrive(g, L, rid, w, next).junctions, w.currentVertex)
    ensures GetEdge(w.currentVertex, w.path[0]) != GetEdge(w.currentVertex, next) ==>
      rid !in Occupants(Arrive(g, L, rid, w, next).edges, GetEdge(w.currentVertex, w.path[0]))
  {
  }

  /** Arrival never changes what the ledger says about any other robot. */
  lemma ArriveOthersUnchanged(g: Graph, L: Ledger, rid: nat, w: Whereabouts, next: int)
    requires g.Valid() && g.IsValidVertex(w.currentVertex) && g.IsValidVertex(next)
    ensures SameForOthers(L, Arrive(g, L, rid, w, next), rid)
  {
    if w.path != [] {
      var cur := w.currentVertex;
      var L1 := if cur != next then Release(g, L, rid, cur, w.path[0]) else L;
      if cur != next {
        ReleaseOthersUnchanged(g, L, rid, cur, w.path[0]);
      }
      var L2 := Reserve(L1, rid, GetEdge(cur, next));
      ReserveOthersUnchanged(L1, rid, GetEdge(cur, next));
      SameForOthersTransitive(L, L1, L2, rid);
      if |g.Neighbors(next)| > 2 {
        ReserveJunctionOthersUnchanged(L2, rid, next, cur == next);
        SameForOthersTransitive(L, L2, ReserveJunction(L2, rid, next, cur == next), rid);
      }
    }
  }

  lemma ReleaseOthersUnchanged(g: Graph, L: Ledger, rid: nat, cur: int, prev: int)
    requires g.Valid() && g.IsValidVertex(cur)
    ensures SameForOthers(L, Release(g, L, rid, cur, prev), rid)
  {
  }

  lemma ReserveOthersUnchanged(L: Ledger, rid: nat, e: Edge)
    ensures SameForOthers(L, Reserve(L, rid, e), rid)
  {
  }

  lemma ReserveJunctionOthersUnchanged(L: Ledger, rid: nat, v: int, hold: bool)
    ensures SameForOthers(L, ReserveJunction(L, rid, v, hold), rid)
  {
  }

  lemma SameForOthersTransitive(L1: Ledger, L2: Ledger, L3: Ledger, rid: nat)
    requires SameForOthers(L1, L2, rid) && SameForOthers(L2, L3, rid)
    ensures SameForOthers(L1, L3, rid)
  {
  }

  /**
   * Arrival at the vertex v the robot already stands on removes nobody from any
   * entry. It adds the robot to lane key (v, v) and, when v is a junction, to
   * junction v (only when the robot still has stops ahead), and to nothing else.
   */
  lemma ArriveInPlaceGrows(g: Graph, L: Ledger, rid: nat, w: Whereabouts)
    requires g.Valid() && g.IsValidVertex(w.currentVertex)
    ensures Grows(L, Arrive(g, L, rid, w, w.currentVertex))
    ensures var v, L' := w.currentVertex, Arrive(g, L, rid, w, w.currentVertex);
      var added := if w.path != [] then {rid} else {};
      Occupants(L'.edges, GetEdge(v, v)) == Occupants(L.edges, GetEdge(v, v)) + added &&
      Occupants(L'.junctions, v) == Occupants(L.junctions, v) + (if IsJunction(g, v) then added else {}) &&
      (forall e :: e != GetEdge(v, v) ==> Occupants(L'.edges, e) == Occupants(L.edges, e)) &&
      (forall u :: u != v ==> Occupants(L'.junctions, u) == Occupants(L.junctions, u))
  {
  }

  /** Take `rid` out of every lane and junction entry. */
  function ClearRobot(L: Ledger, rid: nat): (L': Ledger)
    ensures L'.edges.Keys == L.edges.Keys && L'.junctions.Keys == L.junctions.Keys
    ensures forall e :: e in L'.edges ==> rid !in L'.edges[e]
    ensures forall v :: v in L'.junctions ==> rid !in L'.junctions[v]
    ensures SameForOthers(L, L', rid)
  {
    Ledger(map e | e in L.edges :: L.edges[e] - {rid}, map v | v in L.junctions :: L.junctions[v] - {rid})
  }

  /** Empty the entry of lane key `e`, if it has one; no key is created. */
  function ClearEdgeEntry(L: Ledger, e: Edge): (L': Ledger)
    ensures L'.edges.Keys == L.edges.Keys && L'.junctions == L.junctions
    ensures e in L.edges ==> L'.edges[e] == {}
    ensures forall k :: k in L.edges && k != e ==> L'.edges[k] == L.edges[k]
  {
    if e in L.edges then L.(edges := L.edges[e := {}]) else L
  }

  lemma NonEmptyHasElement(s: set<int>)
    requires s != {}
    ensures exists v :: v in s
  {
    if forall v :: v !in s {
      assert false;
    }
  }

  /** The source's lookup for a lane entry takes the key as given. */
  function EdgeOccupancy(L: Ledger, e: Edge): (s: set<nat>)
    ensures e in L.edges ==> s == L.edges[e]
    ensures e !in L.edges ==> s == {}
  {
    Occupants(L.edges, e)
  }

  /**
   * Unlike the lane query, the entry lookup does not sort its key: on a ledger
   * whose keys are canonical, a descending key finds nothing.
   */
  lemma DescendingKeyFindsNothing(L: Ledger, u: int, v: int)
    requires Canonical(L) && u > v
    ensures EdgeOccupancy(L, (u, v)) == {}
    ensures LaneOccupied(L, (u, v)) <==> EdgeOccupancy(L, (v, u)) != {}
  {
  }

  /** Every update keeps lane keys canonical. */
  lemma {:induction false} UpdatesKeepCanonical(g: Graph, L: Ledger, rid: nat, w: Whereabouts, next: int, e: Edge)
    requires Canonical(L)
    requires g.Valid() && g.IsValidVertex(w.currentVertex) && g.IsValidVertex(next)
    ensures Canonical(Arrive(g, L, rid, w, next))
    ensures Canonical(ClearRobot(L, rid))
    ensures Canonical(ClearEdgeEntry(L, e))
    ensures Canonical(InitEdge(L, GetEdge(e.0, e.1)))
  {
  }

  // ---------------------------------------------------------------------------
  // The traffic manager object
  // ---------------------------------------------------------------------------

  class TrafficManager {
    const nav: Graph
    var edgeOccupancy: map<Edge, set<nat>>
    var intersectionOccupancy: map<int, set<nat>>

    /** The ledger the two dictionaries hold. */
    function View(): Ledger
      reads this
    {
      Ledger(edgeOccupancy, intersectionOccupancy)
    }

    constructor(nav: Graph)
      ensures this.nav == nav
      ensures View() == Ledger(map[], map[])
    {
      this.nav := nav;
      edgeOccupancy := map[];
      intersectionOccupancy := map[];
    }

    method InitializeEdge(e: Edge)
      modifies this
      ensures View() == InitEdge(old(View()), e)
    {
      if e !in edgeOccupancy {
        edgeOccupancy := edgeOccupancy[e := {}];
      }
    }

    function GetEdgeOccupancy(e: Edge): (s: set<nat>)
      reads this
      ensures s == EdgeOccupancy(View(), e)
    {
      if e in edgeOccupancy then edgeOccupancy[e] else {}
    }

    function IsLaneOccupied(e: Edge): (r: bool)
      reads this
      ensures r == LaneOccupied(View(), e)
    {
      var k := GetEdge(e.0, e.1);
      k in edgeOccupancy && |edgeOccupancy[k]| > 0
    }

    function IsIntersectionOccupied(v: int): (r: bool)
      requires nav.Valid() && nav.IsValidVertex(v)
      reads this
      ensures r == IntersectionOccupied(nav, View(), v)
    {
      IntersectionOccupied(nav, View(), v)
    }

    function IsRobotBlocked(robots: map<nat, Whereabouts>, rid: nat): (r: bool)
      requires nav.Valid() && WellPlaced(nav, robots)
      reads this
      ensures r == RobotBlocked(nav, View(), robots, rid)
    {
      RobotBlocked(nav, View(), robots, rid)
    }

    function IsRobotWaiting(robots: map<nat, Whereabouts>, rid: nat): (r: bool)
      requires nav.Valid() && WellPlaced(nav, robots)
      reads this
      ensures r == RobotWaiting(nav, View(), robots, rid)
    {
      RobotWaiting(nav, View(), robots, rid)
    }

    method UpdateRobotPosition(rid: nat, w: Whereabouts, next: int)
      requires nav.Valid() && nav.IsValidVertex(w.currentVertex) && nav.IsValidVertex(next)
      modifies this
      ensures View() == Arrive(nav, old(View()), rid, w, next)
    {
      if w.path == [] {
        return;
      }
      var cur := w.currentVertex;
      if cur != next {
        var prev := GetEdge(cur, w.path[0]);
        if prev in edgeOccupancy {
          edgeOccupancy := edgeOccupancy[prev := edgeOccupancy[prev] - {rid}];
        }
        if |nav.Neighbors(cur)| > 2 && cur in intersectionOccupancy {
          intersectionOccupancy := intersectionOccupancy[cur := intersectionOccupancy[cur] - {rid}];
        }
      }
      var e := GetEdge(cur, next);
      if e !in edgeOccupancy {
        InitializeEdge(e);
      }
      edgeOccupancy := edgeOccupancy[e := edgeOccupancy[e] + {rid}];
      if |nav.Neighbors(next)| > 2 {
        if next !in intersectionOccupancy {
          intersectionOccupancy := intersectionOccupancy[next := {}];
        }
        if cur == next {
          intersectionOccupancy := intersectionOccupancy[next := intersectionOccupancy[next] + {rid}];
        }
      }
    }

    method ClearRobotOccupancy(rid: nat)
      modifies this
      ensures View() == ClearRobot(old(View()), rid)
    {
      ClearFromLanes(rid);
      ClearFromJunctions(rid);
    }

    /** The loop over the lane dictionary. */
    method ClearFromLanes(rid: nat)
      modifies this
      ensures edgeOccupancy == map e | e in old(edgeOccupancy) :: old(edgeOccupancy)[e] - {rid}
      ensures intersectionOccupancy == old(intersectionOccupancy)
    {
      ghost var edges0 := edgeOccupancy;
      var todo := edgeOccupancy.Keys;
      while todo != {}
        invariant todo <= edges0.Keys && edgeOccupancy.Keys == edges0.Keys
        invariant forall e :: e in edges0 && e !in todo ==> edgeOccupancy[e] == edges0[e] - {rid}
        invariant forall e :: e in todo ==> edgeOccupancy[e] == edges0[e]
        invariant intersectionOccupancy == old(intersectionOccupancy)
        decreases todo
      {
        var e :| e in todo;
        edgeOccupancy := edgeOccupancy[e := edgeOccupancy[e] - {rid}];
        todo := todo - {e};
      }
    }

    /** The loop over the junction dictionary. */
    method ClearFromJunctions(rid: nat)
      modifies this
      ensures intersectionOccupancy == map v | v in old(intersectionOccupancy) :: old(intersectionOccupancy)[v] - {rid}
      ensures edgeOccupancy == old(edgeOccupancy)
    {
      ghost var junctions0 := intersectionOccupancy;
      var todo := intersectionOccupancy.Keys;
      while todo != {}
        invariant todo <= junctions0.Keys && intersectionOccupancy.Keys == junctions0.Keys
        invariant forall v :: v in junctions0 && v !in todo ==> intersectionOccupancy[v] == junctions0[v] - {rid}
        invariant forall v :: v in todo ==> intersectionOccupancy[v] == junctions0[v]
        invariant edgeOccupancy == old(edgeOccupancy)
        decreases todo
      {
        NonEmptyHasElement(todo);
        var v :| v in todo;
        intersectionOccupancy := intersectionOccupancy[v := intersectionOccupancy[v] - {rid}];
        todo := todo - {v};
      }
      ghost var cleared := map v | v in junctions0 :: junctions0[v] - {rid};
      assert cleared.Keys == intersectionOccupancy.Keys;
      assert forall v :: v in cleared ==> cleared[v] == intersectionOccupancy[v];
    }

    method ClearEdge(e: Edge)
      modifies this
      ensures View() == ClearEdgeEntry(old(View()), e)
    {
      if e in edgeOccupancy {
        edgeOccupancy := edgeOccupancy[e := {}];
      }
    }
  }
}
