/**
 * The navigation graph: vertices numbered by their index in the map's vertex
 * list, each with a 2-D position, joined by undirected lanes. After loading the
 * graph never changes, so it is a value here; loading itself is a method with
 * the two loops the loader runs.
 */
module NavGraph {

  /** Adjacency lists in insertion order, as the graph library keeps them. */
  type Adjacency = map<int, seq<int>>

  type Point = (real, real)

  /** An entry of the map's lane list: two vertex ids. */
  type LaneEntry = (int, int)

  predicate NoDup(s: seq<int>) {
    forall i, j :: 0 <= i < j < |s| ==> s[i] != s[j]
  }

  datatype Graph = Graph(adj: Adjacency, positions: map<int, Point>) {

    /** Neighbours are vertices, lanes run both ways and each neighbour is listed once. */
    ghost predicate Valid() {
      forall v :: v in adj ==>
        NoDup(adj[v]) && forall u :: u in adj[v] ==> u in adj && v in adj[u]
    }

    predicate IsValidVertex(v: int) {
      v in adj
    }

    /** The neighbours of `v`; the graph library raises for a vertex it does not hold. */
    function Neighbors(v: int): (r: seq<int>)
      requires Valid() && IsValidVertex(v)
      ensures NoDup(r)
      ensures forall u :: u in r ==> IsValidVertex(u) && v in adj[u]
    {
      adj[v]
    }

    /** The recorded position of `v`, or the origin when none is recorded. */
    function VertexPosition(v: int): (p: Point)
      ensures v in positions ==> p == positions[v]
      ensures v !in positions ==> p == (0.0, 0.0)
    {
      if v in positions then positions[v] else (0.0, 0.0)
    }

    /**
     * A hop-minimal path from `start` to `end`, both included, or [] when no
     * path exists. The graph library's search is not part of this model; this is
     * a breadth-first search that keeps, for every vertex it reaches, one
     * shortest path to it.
     */
    function ShortestPath(start: int, end: int): (p: seq<int>)
      requires Valid() && IsValidVertex(start) && IsValidVertex(end)
      ensures p == [] ==> forall q :: !IsWalk(adj, q, start, end)
      ensures p != [] ==> IsWalk(adj, p, start, end)
      ensures p != [] ==> forall q :: IsWalk(adj, q, start, end) ==> |p| <= |q|
      ensures start == end ==> p == [start]
    {
      var found := Search(this, start, map[start := [start]], [start], 0);
      if end in found then found[end] else []
    }
  }

  // ---------------------------------------------------------------------------
  // Walks and breadth-first layers
  // ---------------------------------------------------------------------------

  /** `p` is a walk from `a` to `b`: consecutive stops are neighbours. Its hop count is |p| - 1. */
  ghost predicate IsWalk(adj: Adjacency, p: seq<int>, a: int, b: int) {
    |p| >= 1 && p[0] == a && p[|p| - 1] == b &&
    forall i :: 0 <= i < |p| - 1 ==> Hop(adj, p, i)
  }

  /** Stop i + 1 of `p` is a neighbour of stop i. */
  ghost predicate Hop(adj: Adjacency, p: seq<int>, i: nat)
    requires i + 1 < |p|
  {
    p[i] in adj && p[i + 1] in adj[p[i]]
  }

  /** Every neighbour of a vertex of `s`. */
  ghost function Expand(adj: Adjacency, s: set<int>): set<int> {
    set v, u | v in s && v in adj && u in adj[v] :: u
  }

  /** The vertices at most `k` hops from `a`. */
  ghost function Within(adj: Adjacency, a: int, k: nat): set<int>
    decreases k
  {
    if k == 0 then {a} else Within(adj, a, k - 1) + Expand(adj, Within(adj, a, k - 1))
  }

  lemma {:induction false} WithinGrows(adj: Adjacency, a: int, i: nat, j: nat)
    requires i <= j
    ensures Within(adj, a, i) <= Within(adj, a, j)
    decreases j
  {
    if i < j {
      WithinGrows(adj, a, i, j - 1);
    }
  }

  /** The last stop of a walk from `a` with h hops is within h hops of `a`. */
  lemma {:induction false} WalkEndWithin(adj: Adjacency, p: seq<int>, a: int)
    requires |p| >= 1 && IsWalk(adj, p, a, p[|p| - 1])
    ensures p[|p| - 1] in Within(adj, a, |p| - 1)
    decreases |p|
  {
    if |p| > 1 {
      var q := p[..|p| - 1];
      assert IsWalk(adj, q, a, q[|q| - 1]) by {
        forall i | 0 <= i < |q| - 1 ensures Hop(adj, q, i) {
          assert Hop(adj, p, i);
        }
      }
      WalkEndWithin(adj, q, a);
      var x, y := p[|p| - 2], p[|p| - 1];
      assert x in Within(adj, a, |p| - 2);
      assert Hop(adj, p, |p| - 2);
      assert y in Expand(adj, Within(adj, a, |p| - 2));
    }
  }

  /** Once a layer adds nothing, no later layer does. */
  lemma {:induction false} WithinStable(adj: Adjacency, a: int, k: nat, j: nat)
    requires Within(adj, a, k + 1) == Within(adj, a, k)
    requires k <= j
    ensures Within(adj, a, j) == Within(adj, a, k)
    decreases j
  {
    if j > k {
      WithinStable(adj, a, k, j - 1);
    }
  }

  /** A vertex absent from layer k is more than k hops from `a` on every walk. */
  lemma OutsideWithinIsFar(adj: Adjacency, a: int, v: int, k: nat, q: seq<int>)
    requires v !in Within(adj, a, k)
    requires IsWalk(adj, q, a, v)
    ensures |q| > k + 1
  {
    WalkEndWithin(adj, q, a);
    if |q| <= k + 1 {
      WithinGrows(adj, a, |q| - 1, k);
    }
  }

  lemma WithinInGraph(g: Graph, a: int, k: nat)
    requires g.Valid() && a in g.adj
    ensures Within(g.adj, a, k) <= g.adj.Keys
  {
    if k > 0 {
      WithinInGraph(g, a, k - 1);
    }
  }

  /** The next layer only needs the neighbours of the current frontier. */
  lemma NextLayer(adj: Adjacency, a: int, d: nat, paths: map<int, seq<int>>, frontier: seq<int>)
    requires paths.Keys == Within(adj, a, d)
    requires IsFrontier(adj, a, paths, d, frontier)
    ensures Within(adj, a, d + 1) == Within(adj, a, d) + Expand(adj, set v | v in frontier)
  {
    var w, f := Within(adj, a, d), set v | v in frontier;
    assert f <= w by {
      forall v | v in f ensures v in w {
        var i :| 0 <= i < |frontier| && frontier[i] == v;
      }
    }
    assert Expand(adj, f) <= Expand(adj, w);
    forall u | u in Expand(adj, w) ensures u in w + Expand(adj, f) {
      var v :| v in w && v in adj && u in adj[v];
      if v !in f {
        assert d > 0 && v in Within(adj, a, d - 1);
        assert u in Expand(adj, Within(adj, a, d - 1));
      } else {
        assert u in Expand(adj, f);
      }
    }
  }

  // ---------------------------------------------------------------------------
  // Breadth-first search, one layer at a time
  // ---------------------------------------------------------------------------

  /** Every vertex within d hops has a recorded walk, no longer than d hops and hop-minimal. */
  ghost predicate Explored(adj: Adjacency, a: int, paths: map<int, seq<int>>, d: nat) {
    paths.Keys == Within(adj, a, d) &&
    forall v :: v in paths ==>
      IsWalk(adj, paths[v], a, v) && |paths[v]| <= d + 1 &&
      (|paths[v]| >= 2 ==> v !in Within(adj, a, |paths[v]| - 2))
  }

  /** The frontier lists every vertex exactly d hops away, each with a d-hop walk. */
  ghost predicate IsFrontier(adj: Adjacency, a: int, paths: map<int, seq<int>>, d: nat, frontier: seq<int>) {
    (forall i :: 0 <= i < |frontier| ==> frontier[i] in paths && |paths[frontier[i]]| == d + 1) &&
    (forall v :: v in Within(adj, a, d) && (d == 0 || v !in Within(adj, a, d - 1)) ==> v in frontier)
  }

  /** Entries recorded during the current layer are (d+1)-hop walks to vertices outside `base`. */
  ghost predicate NewEntries(adj: Adjacency, a: int, d: nat, base: set<int>, paths: map<int, seq<int>>) {
    forall v :: v in paths && v !in base ==> IsWalk(adj, paths[v], a, v) && |paths[v]| == d + 2
  }

  /** Visit the neighbours `nbrs` of vertex x (reached by walk `px`), recording each unseen one. */
  function VisitNeighbors(g: Graph, ghost a: int, ghost d: nat, ghost base: set<int>, ghost x: int,
                          px: seq<int>, nbrs: seq<int>, paths: map<int, seq<int>>, next: seq<int>)
    : (res: (map<int, seq<int>>, seq<int>))
    requires x in g.adj && forall u :: u in nbrs ==> u in g.adj[x]
    requires IsWalk(g.adj, px, a, x) && |px| == d + 1
    requires base <= paths.Keys && (set u | u in next) == paths.Keys - base
    requires NewEntries(g.adj, a, d, base, paths)
    ensures res.0.Keys == paths.Keys + (set u | u in nbrs)
    ensures Extends(paths, res.0)
    ensures (set u | u in res.1) == res.0.Keys - base
    ensures NewEntries(g.adj, a, d, base, res.0)
    decreases |nbrs|
  {
    if nbrs == [] then (paths, next)
    else
      var u := nbrs[0];
      if u in paths then
        VisitNeighbors(g, a, d, base, x, px, nbrs[1..], paths, next)
      else
        assert IsWalk(g.adj, px + [u], a, u) by {
          forall i | 0 <= i < |px| ensures Hop(g.adj, px + [u], i) {
            if i < |px| - 1 {
              assert Hop(g.adj, px, i);
            }
          }
        }
        assert (set w | w in next + [u]) == (set w | w in next) + {u};
        VisitNeighbors(g, a, d, base, x, px, nbrs[1..], paths[u := px + [u]], next + [u])
  }

  /** Each frontier vertex has a recorded d-hop walk. */
  ghost predicate WalkedFrontier(adj: Adjacency, a: int, d: nat, paths: map<int, seq<int>>, frontier: seq<int>) {
    forall i :: 0 <= i < |frontier| ==>
      frontier[i] in paths && IsWalk(adj, paths[frontier[i]], a, frontier[i]) && |paths[frontier[i]]| == d + 1
  }

  lemma StartLayer(adj: Adjacency, a: int, d: nat, paths: map<int, seq<int>>, frontier: seq<int>)
    requires Explored(adj, a, paths, d) && IsFrontier(adj, a, paths, d, frontier)
    ensures WalkedFrontier(adj, a, d, paths, frontier)
    ensures (set u | u in []) == paths.Keys - paths.Keys
    ensures NewEntries(adj, a, d, paths.Keys, paths)
  {
  }

  /** Visit every frontier vertex in turn. */
  function VisitLayer(g: Graph, ghost a: int, ghost d: nat, ghost base: set<int>,
                      frontier: seq<int>, paths: map<int, seq<int>>, next: seq<int>)
    : (res: (map<int, seq<int>>, seq<int>))
    requires g.Valid() && a in g.adj
    requires WalkedFrontier(g.adj, a, d, paths, frontier)
    requires base <= paths.Keys && (set u | u in next) == paths.Keys - base
    requires NewEntries(g.adj, a, d, base, paths)
    ensures res.0.Keys == paths.Keys + Expand(g.adj, set v | v in frontier)
    ensures Extends(paths, res.0)
    ensures (set u | u in res.1) == res.0.Keys - base
    ensures NewEntries(g.adj, a, d, base, res.0)
    decreases |frontier|
  {
    if frontier == [] then (paths, next)
    else
      var x := frontier[0];
      assert x in g.adj by {
        var px := paths[x];
        assert IsWalk(g.adj, px, a, x);
        if |px| == 1 {
          assert x == px[0] == a;
        } else {
          var y := px[|px| - 2];
          assert Hop(g.adj, px, |px| - 2);
          assert y in g.adj && px[|px| - 1] in g.adj[y];
        }
      }
      var step := VisitNeighbors(g, a, d, base, x, paths[x], g.adj[x], paths, next);
      var res := VisitLayer(g, a, d, base, frontier[1..], step.0, step.1);
      ExpandFirst(g.adj, frontier);
      res
  }

  lemma ExpandFirst(adj: Adjacency, s: seq<int>)
    requires s != [] && s[0] in adj
    ensures Expand(adj, set v | v in s) == (set u | u in adj[s[0]]) + Expand(adj, set v | v in s[1..])
  {
    var whole, rest := set v | v in s, set v | v in s[1..];
    forall u | u in Expand(adj, whole) ensures u in adj[s[0]] || u in Expand(adj, rest) {
      var v :| v in whole && v in adj && u in adj[v];
      if v != s[0] {
        assert v in rest;
      }
    }
    forall u | u in Expand(adj, rest) ensures u in Expand(adj, whole) {
      var v :| v in rest && v in adj && u in adj[v];
      assert v in whole;
    }
    forall u | u in adj[s[0]] ensures u in Expand(adj, whole) {
      var x := s[0];
      assert x in whole && x in adj && u in adj[x];
    }
  }

  /**
   * The search has explored `d` hops from `a` and `frontier` holds the vertices exactly d hops away.
   * (This predicate and Answers bind their body to a name so the verifier keeps it as one fact.)
   */
  ghost predicate SearchState(g: Graph, a: int, paths: map<int, seq<int>>, d: nat, frontier: seq<int>) {
    var ok := g.Valid() && a in g.adj && Explored(g.adj, a, paths, d) && IsFrontier(g.adj, a, paths, d, frontier);
    ok
  }

  /** `res` keeps every entry of `paths` and records exactly the shortest walks from `a`. */
  ghost predicate Answers(adj: Adjacency, a: int, paths: map<int, seq<int>>, res: map<int, seq<int>>) {
    var ok := Extends(paths, res) && ShortestWalks(adj, a, res);
    ok
  }

  /** One whole layer of the search: the state for d + 1 hops, with fewer vertices left to find. */
  function FullLayer(g: Graph, ghost a: int, ghost d: nat, paths: map<int, seq<int>>, frontier: seq<int>)
    : (layer: (map<int, seq<int>>, seq<int>))
    requires SearchState(g, a, paths, d, frontier)
    ensures SearchState(g, a, layer.0, d + 1, layer.1) && Extends(paths, layer.0)
    ensures layer.1 != [] ==> g.adj.Keys - layer.0.Keys < g.adj.Keys - paths.Keys
    ensures layer.1 == [] ==> g.adj.Keys - layer.0.Keys == g.adj.Keys - paths.Keys
  {
    StartLayer(g.adj, a, d, paths, frontier);
    var layer := VisitLayer(g, a, d, paths.Keys, frontier, paths, []);
    AdvanceLayer(g, a, d, paths, frontier, layer);
    layer
  }

  /** The search ends once a layer adds nothing: `paths` is then complete. */
  function Finish(g: Graph, ghost a: int, paths: map<int, seq<int>>, ghost d: nat): (res: map<int, seq<int>>)
    requires SearchState(g, a, paths, d, [])
    ensures Answers(g.adj, a, paths, res)
  {
    ExploredFinal(g.adj, a, paths, d, []);
    paths
  }

  /** Search outward from `a` layer by layer until a layer adds nothing. */
  function Search(g: Graph, ghost a: int, paths: map<int, seq<int>>, frontier: seq<int>, ghost d: nat)
    : (res: map<int, seq<int>>)
    requires SearchState(g, a, paths, d, frontier)
    ensures Answers(g.adj, a, paths, res)
    decreases g.adj.Keys - paths.Keys, |frontier|, 2
  {
    if frontier == [] then Finish(g, a, paths, d) else SearchLayer(g, a, paths, frontier, d)
  }

  /** Explore the next layer, then go on searching from it. */
  function SearchLayer(g: Graph, ghost a: int, paths: map<int, seq<int>>, frontier: seq<int>, ghost d: nat)
    : (res: map<int, seq<int>>)
    requires SearchState(g, a, paths, d, frontier) && frontier != []
    ensures Answers(g.adj, a, paths, res)
    decreases g.adj.Keys - paths.Keys, |frontier|, 1
  {
    var layer := FullLayer(g, a, d, paths, frontier);
    Continue(g, a, paths, layer.0, layer.1, d + 1)
  }

  /** Search on from the layer just explored, whose entries extend `paths`. */
  function Continue(g: Graph, ghost a: int, ghost paths: map<int, seq<int>>, next: map<int, seq<int>>,
                    frontier: seq<int>, ghost d: nat)
    : (res: map<int, seq<int>>)
    requires SearchState(g, a, next, d, frontier) && Extends(paths, next)
    ensures Answers(g.adj, a, paths, res)
    decreases g.adj.Keys - next.Keys, |frontier|, 3
  {
    var res := Search(g, a, next, frontier, d);
    AnswersExtend(g.adj, a, paths, next, res);
    res
  }

  /** `big` keeps every entry of `small`. */
  ghost predicate Extends(small: map<int, seq<int>>, big: map<int, seq<int>>) {
    forall v :: v in small ==> v in big && big[v] == small[v]
  }

  lemma AnswersExtend(adj: Adjacency, a: int, m1: map<int, seq<int>>, m2: map<int, seq<int>>, m3: map<int, seq<int>>)
    requires Extends(m1, m2) && Answers(adj, a, m2, m3)
    ensures Answers(adj, a, m1, m3)
  {
  }

  /**
   * `paths` records a walk from `a` to each vertex it holds, no walk is shorter,
   * and every vertex some walk from `a` reaches is held.
   */
  ghost predicate ShortestWalks(adj: Adjacency, a: int, paths: map<int, seq<int>>) {
    (forall v :: v in paths ==> IsWalk(adj, paths[v], a, v)) &&
    (forall v, q :: v in paths && IsWalk(adj, q, a, v) ==> |paths[v]| <= |q|) &&
    (forall v, q :: IsWalk(adj, q, a, v) ==> v in paths)
  }

  /** One layer of VisitLayer turns the state for d hops into the state for d + 1 hops. */
  lemma AdvanceLayer(g: Graph, a: int, d: nat, paths: map<int, seq<int>>, frontier: seq<int>,
                     layer: (map<int, seq<int>>, seq<int>))
    requires SearchState(g, a, paths, d, frontier)
    requires LayerResult(g.adj, a, d, paths, frontier, layer)
    ensures SearchState(g, a, layer.0, d + 1, layer.1)
    ensures Extends(paths, layer.0)
    ensures layer.1 != [] ==> g.adj.Keys - layer.0.Keys < g.adj.Keys - paths.Keys
    ensures layer.1 == [] ==> g.adj.Keys - layer.0.Keys == g.adj.Keys - paths.Keys
  {
    var paths', next := layer.0, layer.1;
    NextLayer(g.adj, a, d, paths, frontier);
    AdvanceExplored(g.adj, a, d, paths, paths');
    AdvanceFrontier(g.adj, a, d, paths, paths', next);
    WithinInGraph(g, a, d + 1);
    LayerShrinks(g.adj.Keys, paths.Keys, paths'.Keys, next);
  }

  /** What VisitLayer computes for one layer started from `paths` and `frontier`. */
  ghost predicate LayerResult(adj: Adjacency, a: int, d: nat, paths: map<int, seq<int>>, frontier: seq<int>,
                              layer: (map<int, seq<int>>, seq<int>)) {
    layer.0.Keys == paths.Keys + Expand(adj, set v | v in frontier) &&
    Extends(paths, layer.0) &&
    (set u | u in layer.1) == layer.0.Keys - paths.Keys &&
    NewEntries(adj, a, d, paths.Keys, layer.0)
  }

  /** The unexplored vertices shrink exactly when the next frontier is not empty. */
  lemma LayerShrinks(keys: set<int>, old_: set<int>, new_: set<int>, next: seq<int>)
    requires old_ <= new_ && new_ <= keys
    requires (set u | u in next) == new_ - old_
    ensures next != [] ==> keys - new_ < keys - old_
    ensures next == [] ==> keys - new_ == keys - old_
  {
    var ns := set u | u in next;
    if next != [] {
      var x := next[0];
      assert x in ns;
      assert x in keys - old_ && x !in keys - new_;
    } else {
      assert ns == {};
      forall x | x in new_ ensures x in old_ {
        assert x !in new_ - old_;
      }
    }
  }

  lemma AdvanceExplored(adj: Adjacency, a: int, d: nat, paths: map<int, seq<int>>, paths': map<int, seq<int>>)
    requires Explored(adj, a, paths, d)
    requires paths'.Keys == Within(adj, a, d + 1)
    requires Extends(paths, paths')
    requires NewEntries(adj, a, d, paths.Keys, paths')
    ensures Explored(adj, a, paths', d + 1)
  {
    forall v | v in paths'
      ensures IsWalk(adj, paths'[v], a, v) && |paths'[v]| <= d + 2
      ensures |paths'[v]| >= 2 ==> v !in Within(adj, a, |paths'[v]| - 2)
    {
      if v !in paths {
        assert |paths'[v]| - 2 == d;
      }
    }
  }

  lemma AdvanceFrontier(adj: Adjacency, a: int, d: nat, paths: map<int, seq<int>>, paths': map<int, seq<int>>,
                        next: seq<int>)
    requires paths.Keys == Within(adj, a, d) && paths'.Keys == Within(adj, a, d + 1)
    requires (set u | u in next) == paths'.Keys - paths.Keys
    requires NewEntries(adj, a, d, paths.Keys, paths')
    ensures IsFrontier(adj, a, paths', d + 1, next)
  {
    var nextSet := set u | u in next;
    forall i | 0 <= i < |next| ensures next[i] in paths' && |paths'[next[i]]| == d + 2 {
      assert next[i] in nextSet;
    }
    forall v | v in Within(adj, a, d + 1) && v !in Within(adj, a, d) ensures v in next {
      assert v in nextSet;
    }
  }

  /** With the layers stable at d, every walk from `a` ends at a recorded vertex, by a walk no shorter. */
  lemma ExploredFinal(adj: Adjacency, a: int, paths: map<int, seq<int>>, d: nat, frontier: seq<int>)
    requires Explored(adj, a, paths, d) && IsFrontier(adj, a, paths, d, frontier) && frontier == []
    ensures Answers(adj, a, paths, paths)
  {
    assert a in Within(adj, a, 0);
    assert d > 0 && Within(adj, a, d) <= Within(adj, a, d - 1);
    WithinGrows(adj, a, d - 1, d);
    forall v, q | v in paths && IsWalk(adj, q, a, v) ensures |paths[v]| <= |q| {
      if |paths[v]| >= 2 {
        OutsideWithinIsFar(adj, a, v, |paths[v]| - 2, q);
      }
    }
    forall v, q | IsWalk(adj, q, a, v) ensures v in paths {
      WalkEndWithin(adj, q, a);
      if |q| - 1 > d {
        WithinStable(adj, a, d - 1, |q| - 1);
        WithinGrows(adj, a, d - 1, d);
      } else {
        WithinGrows(adj, a, |q| - 1, d);
      }
    }
  }

  // ---------------------------------------------------------------------------
  // Loading
  // ---------------------------------------------------------------------------

  /** Lane entry `l` joins x and y, in either order. */
  predicate Joins(l: LaneEntry, x: int, y: int) {
    (l.0 == x && l.1 == y) || (l.0 == y && l.1 == x)
  }

  /** Some entry of `lanes` joins x and y. */
  ghost predicate HasLane(lanes: seq<LaneEntry>, x: int, y: int) {
    exists i :: 0 <= i < |lanes| && Joins(lanes[i], x, y)
  }

  lemma HasLaneSymmetric(lanes: seq<LaneEntry>, x: int, y: int)
    ensures HasLane(lanes, x, y) <==> HasLane(lanes, y, x)
  {
    if HasLane(lanes, x, y) {
      var i :| 0 <= i < |lanes| && Joins(lanes[i], x, y);
      assert Joins(lanes[i], y, x);
    }
    if HasLane(lanes, y, x) {
      var i :| 0 <= i < |lanes| && Joins(lanes[i], y, x);
      assert Joins(lanes[i], x, y);
    }
  }

  /**
   * Builds the graph from the map's vertex list (index = vertex id) and lane
   * list. Every lane must name listed vertices: the graph library would
   * otherwise add the unknown id as a new vertex, which well-formed maps never
   * ask for.
   */
  method Load(vertices: seq<Point>, lanes: seq<LaneEntry>) returns (g: Graph)
    requires forall i :: 0 <= i < |lanes| ==> 0 <= lanes[i].0 < |vertices| && 0 <= lanes[i].1 < |vertices|
    ensures forall v :: v in g.adj <==> 0 <= v < |vertices|
    ensures forall v :: 0 <= v < |vertices| ==> v in g.positions && g.positions[v] == vertices[v]
    ensures g.positions.Keys == g.adj.Keys
    ensures forall x, y :: x in g.adj ==> (y in g.adj[x] <==> HasLane(lanes, x, y))
    ensures g.Valid()
  {
    var adj: Adjacency := map[];
    var positions: map<int, Point> := map[];
    for i := 0 to |vertices|
      invariant adj.Keys == positions.Keys
      invariant forall v :: v in adj <==> 0 <= v < i
      invariant forall v :: v in adj ==> adj[v] == [] && positions[v] == vertices[v]
    {
      adj := adj[i := []];
      positions := positions[i := vertices[i]];
    }
    for k := 0 to |lanes|
      invariant forall v :: v in adj <==> 0 <= v < |vertices|
      invariant forall x :: x in adj ==> NoDup(adj[x])
      invariant forall x, y :: x in adj ==> (y in adj[x] <==> HasLane(lanes[..k], x, y))
    {
      var (u, v) := lanes[k];
      ghost var before := adj;
      if v !in adj[u] {
        adj := adj[u := adj[u] + [v]];
      }
      if u !in adj[v] {
        adj := adj[v := adj[v] + [u]];
      }
      forall x, y | x in adj ensures y in adj[x] <==> HasLane(lanes[..k + 1], x, y) {
        assert lanes[..k + 1] == lanes[..k] + [lanes[k]];
        if HasLane(lanes[..k + 1], x, y) && !Joins(lanes[k], x, y) {
          var i :| 0 <= i < k + 1 && Joins(lanes[..k + 1][i], x, y);
          assert i < k && lanes[..k][i] == lanes[..k + 1][i];
        }
        if HasLane(lanes[..k], x, y) {
          var i :| 0 <= i < k && Joins(lanes[..k][i], x, y);
          assert lanes[..k + 1][i] == lanes[..k][i];
        }
        if Joins(lanes[k], x, y) {
          assert lanes[..k + 1][k] == lanes[k];
        }
      }
    }
    assert lanes[..|lanes|] == lanes;
    g := Graph(adj, positions);
    forall x | x in adj ensures forall y :: y in adj[x] ==> y in adj && x in adj[y] {
      forall y | y in adj[x] ensures y in adj && x in adj[y] {
        var i :| 0 <= i < |lanes| && Joins(lanes[i], x, y);
        HasLaneSymmetric(lanes, x, y);
      }
    }
  }
}
