/** calculate_distance_matrix and nearest_neighbor of submissions/team1/test.py.

    Nodes are numbered by their position in the node list, node 0 is the
    depot, demands is a list indexed by node and the distance matrix a list
    of rows. The heuristic flips a `visited` array in place and builds routes
    that start and end with the depot: from the current node it moves to the
    lowest-numbered unvisited node that fits the remaining capacity and is
    strictly nearest, and closes the route when no node fits.

    The functions Scan, Extend and Rounds state the three loops on values;
    the methods run the loops on the arrays and are proved equal to them. An
    out-of-range list index is an IndexError, and a round that visits nothing
    (the Python then repeats it forever) is Diverges. */
module NearestHeuristic {
  import opened Wrappers
  import opened Geometry
  import opened Routes
  import Verifier

  /** One entry of the node list: (node id, x, y). */
  datatype Node = Node(id: int, x: real, y: real)

  type Matrix = seq<seq<real>>

  function Position(node: Node): Point {
    Point(node.x, node.y)
  }

  /** The cell calculate_distance_matrix leaves at row i, column j: the
      initial 0 on the diagonal, the distance of the two nodes elsewhere. */
  function DistanceEntry(nodes: seq<Node>, dist: Distance, i: nat, j: nat): real
    requires i < |nodes| && j < |nodes|
  {
    if i != j then dist(Position(nodes[i]), Position(nodes[j])) else 0.0
  }

  /** The rows of a two-dimensional array, as nearest_neighbor indexes them. */
  function Rows(a: array2<real>): (m: Matrix)
    reads a
    ensures |m| == a.Length0
    ensures forall i :: 0 <= i < |m| ==> |m[i]| == a.Length1
    ensures forall i, j :: 0 <= i < a.Length0 && 0 <= j < a.Length1 ==> m[i][j] == a[i, j]
  {
    seq(a.Length0, i requires 0 <= i < a.Length0 reads a =>
      seq(a.Length1, j requires 0 <= j < a.Length1 reads a => a[i, j]))
  }

  /** Lines 40-51: an n-by-n matrix of zeros whose off-diagonal cells are
      overwritten one by one. */
  method CalculateDistanceMatrix(nodes: seq<Node>, dist: Distance) returns (m: array2<real>)
    ensures fresh(m) && m.Length0 == |nodes| && m.Length1 == |nodes|
    ensures forall i, j :: 0 <= i < |nodes| && 0 <= j < |nodes| ==> m[i, j] == DistanceEntry(nodes, dist, i, j)
  {
    var n := |nodes|;
    m := new real[n, n]((i, j) => 0.0);
    for i := 0 to n
      invariant forall a, b :: 0 <= a < i && 0 <= b < n ==> m[a, b] == DistanceEntry(nodes, dist, a, b)
      invariant forall a, b :: i <= a < n && 0 <= b < n ==> m[a, b] == 0.0
    {
      for j := 0 to n
        invariant forall a, b :: 0 <= a < i && 0 <= b < n ==> m[a, b] == DistanceEntry(nodes, dist, a, b)
        invariant forall b :: 0 <= b < j ==> m[i, b] == DistanceEntry(nodes, dist, i, b)
        invariant forall a, b :: i <= a < n && 0 <= b < n && (a > i || b >= j) ==> m[a, b] == 0.0
      {
        if i != j {
          m[i, j] := dist(Position(nodes[i]), Position(nodes[j]));
        }
      }
    }
  }

  // ---------------------------------------------------------------------
  // The scan of lines 90-97

  /** next_node and min_distance once some node has been kept. */
  datatype Pick = Pick(node: nat, distance: real)

  /** Node i passes the test of line 94: it is not visited and its demand
      fits on top of the current load. */
  predicate Candidate(visited: seq<bool>, demands: seq<int>, capacity: int, load: int, i: nat) {
    i < |visited| && i < |demands| && !visited[i] && load + demands[i] <= capacity
  }

  /** A kept node is a candidate and its distance its cell in the current row. */
  predicate PickOk(visited: seq<bool>, demands: seq<int>, m: Matrix, capacity: int, load: int, current: nat, p: Pick) {
    Candidate(visited, demands, capacity, load, p.node) &&
    current < |m| && p.node < |m[current]| && p.distance == m[current][p.node]
  }

  /** The for loop from index i on, with the node kept so far (None while
      min_distance is still infinite). */
  function Scan(visited: seq<bool>, demands: seq<int>, m: Matrix, capacity: int, load: int, current: nat,
                i: nat, best: Option<Pick>): (r: Result<Option<Pick>>)
    requires best.Some? ==> PickOk(visited, demands, m, capacity, load, current, best.value)
    ensures r.Err? ==> r.error == IndexError
    ensures r.Ok? && r.value.Some? ==> PickOk(visited, demands, m, capacity, load, current, r.value.value)
    decreases |visited| - i
  {
    if i >= |visited| then Ok(best)
    else if visited[i] then Scan(visited, demands, m, capacity, load, current, i + 1, best)
    else if i >= |demands| then Err(IndexError)
    else if load + demands[i] > capacity then Scan(visited, demands, m, capacity, load, current, i + 1, best)
    else if current >= |m| || i >= |m[current]| then Err(IndexError)
    else if best.None? || m[current][i] < best.value.distance then
      Scan(visited, demands, m, capacity, load, current, i + 1, Some(Pick(i, m[current][i])))
    else Scan(visited, demands, m, capacity, load, current, i + 1, best)
  }

  /** Lines 90-97 on the arrays. */
  method NextNode(visited: array<bool>, distanceMatrix: array2<real>, capacity: int, demands: seq<int>,
                  load: int, current: nat) returns (res: Result<Option<Pick>>)
    ensures res == Scan(visited[..], demands, Rows(distanceMatrix), capacity, load, current, 0, None)
  {
    ghost var v, m := visited[..], Rows(distanceMatrix);
    ghost var goal := Scan(v, demands, m, capacity, load, current, 0, None);
    var best: Option<Pick> := None;
    for i := 0 to visited.Length
      invariant best.Some? ==> PickOk(v, demands, m, capacity, load, current, best.value)
      invariant goal == Scan(v, demands, m, capacity, load, current, i, best)
    {
      if !visited[i] {
        if i >= |demands| {
          return Err(IndexError);
        }
        if load + demands[i] <= capacity {
          if current >= distanceMatrix.Length0 || i >= distanceMatrix.Length1 {
            return Err(IndexError);
          }
          var d := distanceMatrix[current, i];
          if best.None? || d < best.value.distance {
            best := Some(Pick(i, d));
          }
        }
      }
    }
    return Ok(best);
  }

  // ---------------------------------------------------------------------
  // The loops of lines 82-106

  /** The number of nodes not yet visited. */
  function Unvisited(v: seq<bool>): nat {
    if |v| == 0 then 0 else Unvisited(v[..|v| - 1]) + (if v[|v| - 1] then 0 else 1)
  }

  /** The inner while True loop (lines 87-103), entered right after
      visited[current] = True with the route so far, which ends in current,
      and the load; it yields the route closed by the depot (line 105) and
      the visited list. Each route grows by one node per node it visits. */
  function Extend(visited: seq<bool>, demands: seq<int>, m: Matrix, capacity: int, load: int, current: nat,
                  route: seq<int>): (r: Result<(seq<int>, seq<bool>)>)
    requires current < |visited| && visited[current]
    ensures r.Err? ==> r.error == IndexError
    ensures r.Ok? ==> |r.value.0| > |route| && |r.value.1| == |visited|
    ensures r.Ok? ==> Unvisited(r.value.1) + |r.value.0| == Unvisited(visited) + |route| + 1
    ensures r.Ok? ==> forall i :: 0 <= i < |visited| && visited[i] ==> r.value.1[i]
    decreases Unvisited(visited)
  {
    match Scan(visited, demands, m, capacity, load, current, 0, None)
    case Err(e) => Err(e)
    case Ok(None) => Ok((route + [0], visited))
    case Ok(Some(p)) =>
      UnvisitedMark(visited, p.node);
      Extend(visited[p.node := true], demands, m, capacity, load + demands[p.node], p.node, route + [p.node])
  }

  /** The outer while loop (line 82) from a visited list whose depot is
      marked, with the routes built so far. A round that visits nothing
      appends [0, 0] and leaves the state as it found it, so the loop would
      repeat it forever. */
  function Rounds(visited: seq<bool>, demands: seq<int>, m: Matrix, capacity: int, routes: Solution): Result<Solution>
    requires |visited| > 0 && visited[0]
    decreases Unvisited(visited)
  {
    if Unvisited(visited) == 0 then Ok(routes)
    else
      match Extend(visited, demands, m, capacity, 0, 0, [0])
      case Err(e) => Err(e)
      case Ok((route, next)) =>
        if |route| == 2 then Err(Diverges)
        else Rounds(next, demands, m, capacity, routes + [route])
  }

  /** nearest_neighbor on values: visited[0] = True fails on an empty node
      list, otherwise the rounds start from the depot alone. */
  function NearestSpec(numNodes: nat, m: Matrix, capacity: int, demands: seq<int>): Result<Solution> {
    if numNodes == 0 then Err(IndexError)
    else Rounds(seq(numNodes, i => i == 0), demands, m, capacity, [])
  }

  /** One pass of the outer loop body (lines 83-105) on the visited array:
      the route from the depot, closed by the depot. */
  method BuildRoute(visited: array<bool>, distanceMatrix: array2<real>, capacity: int, demands: seq<int>)
    returns (res: Result<seq<int>>)
    requires visited.Length > 0 && visited[0]
    modifies visited
    ensures var round := Extend(old(visited[..]), demands, Rows(distanceMatrix), capacity, 0, 0, [0]);
      res == (if round.Ok? then Ok(round.value.0) else Err(round.error)) &&
      (round.Ok? ==> visited[..] == round.value.1)
  {
    ghost var m := Rows(distanceMatrix);
    ghost var round := Extend(visited[..], demands, m, capacity, 0, 0, [0]);
    var depot := 0;
    var currentRoute: seq<int> := [];
    var currentCapacity := 0;
    var currentNode := depot;
    assert visited[..][currentNode := true] == visited[..];
    assert currentRoute + [currentNode] == [0];
    while true
      invariant currentNode < visited.Length && m == Rows(distanceMatrix)
      invariant round == Extend(visited[..][currentNode := true], demands, m, capacity, currentCapacity,
                                currentNode, currentRoute + [currentNode])
      decreases Unvisited(visited[..][currentNode := true])
    {
      ghost var marked := visited[..][currentNode := true];
      currentRoute := currentRoute + [currentNode];
      visited[currentNode] := true;
      assert visited[..] == marked;
      var pick := NextNode(visited, distanceMatrix, capacity, demands, currentCapacity, currentNode);
      if pick.Err? {
        return Err(pick.error);
      }
      if pick.value.None? {
        break;
      }
      var p := pick.value.value;
      ExtendStep(marked, demands, m, capacity, currentCapacity, currentNode, currentRoute, p);
      UnvisitedMark(marked, p.node);
      currentNode := p.node;
      currentCapacity := currentCapacity + demands[currentNode];
      assert visited[..][currentNode := true] == marked[p.node := true];
    }
    currentRoute := currentRoute + [depot];
    return Ok(currentRoute);
  }

  /** Lines 75-108 on the arrays. */
  method NearestNeighbor(nodes: seq<Node>, distanceMatrix: array2<real>, capacity: int, demands: seq<int>)
    returns (res: Result<Solution>)
    ensures res == NearestSpec(|nodes|, Rows(distanceMatrix), capacity, demands)
  {
    var numNodes := |nodes|;
    if numNodes == 0 {
      return Err(IndexError);
    }
    ghost var m := Rows(distanceMatrix);
    var visited := new bool[numNodes](i => false);
    var routes: Solution := [];
    var depot := 0;
    visited[depot] := true;
    assert visited[..] == seq(numNodes, i => i == 0);
    ghost var goal := Rounds(visited[..], demands, m, capacity, routes);
    while exists i :: 0 <= i < numNodes && !visited[i]
      invariant visited.Length == numNodes && visited[0] && m == Rows(distanceMatrix)
      invariant goal == Rounds(visited[..], demands, m, capacity, routes)
      decreases Unvisited(visited[..])
    {
      UnvisitedNone(visited[..]);
      ghost var before := visited[..];
      var currentRoute := BuildRoute(visited, distanceMatrix, capacity, demands);
      if currentRoute.Err? {
        return Err(currentRoute.error);
      }
      if |currentRoute.value| == 2 {
        return Err(Diverges);
      }
      routes := routes + [currentRoute.value];
    }
    UnvisitedNone(visited[..]);
    return Ok(routes);
  }

  // ---------------------------------------------------------------------
  // What the routes are

  /** demands as a dictionary from node to demand. */
  function DemandMap(demands: seq<int>): map<int, int> {
    map i | 0 <= i < |demands| :: demands[i]
  }

  /** A route that leaves the depot and comes back to it. */
  predicate Bracketed(route: seq<int>) {
    |route| >= 2 && route[0] == 0 && route[|route| - 1] == 0
  }

  /** The nodes a route visits between its two depot ends. */
  function Interior(route: seq<int>): seq<int> {
    if |route| >= 2 then route[1..|route| - 1] else []
  }

  function Interiors(routes: Solution): Solution {
    seq(|routes|, k requires 0 <= k < |routes| => Interior(routes[k]))
  }

  /** The nodes other than the depot that are marked visited. */
  function VisitedNodes(v: seq<bool>): set<int> {
    set i | 0 < i < |v| && v[i]
  }

  /** Every route is bracketed by the depot and never exceeds the capacity
      along the way, no node is in two places, and the routes hold exactly
      the visited nodes other than the depot. */
  ghost predicate Served(visited: seq<bool>, demands: seq<int>, capacity: int, routes: Solution) {
    (forall k :: 0 <= k < |routes| ==>
      Bracketed(routes[k]) && Demanded(Interior(routes[k]), DemandMap(demands)) &&
      Verifier.PrefixesFit(Interior(routes[k]), DemandMap(demands), 0, capacity)) &&
    NoDuplicates(Flatten(Interiors(routes))) &&
    Elements(Flatten(Interiors(routes))) == VisitedNodes(visited)
  }

  /** What the scan has established by index upto: every unvisited node
      before it has a demand, and the kept node is a candidate whose
      distance is at most that of every candidate before upto and strictly
      below that of every candidate before it; without one, nothing before
      upto is a candidate. */
  ghost predicate Nearest(visited: seq<bool>, demands: seq<int>, m: Matrix, capacity: int, load: int, current: nat,
                          upto: nat, best: Option<Pick>) {
    (forall j :: 0 <= j < upto && j < |visited| && !visited[j] ==> j < |demands|) &&
    (best.None? ==> forall j :: 0 <= j < upto ==> !Candidate(visited, demands, capacity, load, j)) &&
    (best.Some? ==>
      best.value.node < upto && PickOk(visited, demands, m, capacity, load, current, best.value) &&
      (forall j :: 0 <= j < upto && Candidate(visited, demands, capacity, load, j) ==>
        j < |m[current]| && best.value.distance <= m[current][j]) &&
      (forall j :: 0 <= j < best.value.node && Candidate(visited, demands, capacity, load, j) ==>
        j < |m[current]| && best.value.distance < m[current][j]))
  }

  // ---------------------------------------------------------------------
  // Lemmas

  lemma {:induction false} UnvisitedMark(v: seq<bool>, p: nat)
    requires p < |v|
    ensures Unvisited(v[p := true]) == if v[p] then Unvisited(v) else Unvisited(v) - 1
    decreases |v|
  {
    var w := v[p := true];
    if p < |v| - 1 {
      assert w[..|w| - 1] == v[..|v| - 1][p := true];
      UnvisitedMark(v[..|v| - 1], p);
    } else {
      assert w[..|w| - 1] == v[..|v| - 1];
    }
  }

  lemma {:induction false} UnvisitedNone(v: seq<bool>)
    ensures Unvisited(v) == 0 <==> forall i :: 0 <= i < |v| ==> v[i]
    decreases |v|
  {
    if |v| > 0 {
      UnvisitedNone(v[..|v| - 1]);
      assert forall i :: 0 <= i < |v| - 1 ==> v[..|v| - 1][i] == v[i];
    }
  }

  /** The scan keeps what it has established, so a scan that completes
      returns the lowest-numbered candidate at the strictly smallest
      distance, or None exactly when no node is a candidate. */
  lemma {:induction false} ScanNearest(visited: seq<bool>, demands: seq<int>, m: Matrix, capacity: int, load: int,
                                       current: nat, i: nat, best: Option<Pick>)
    requires i <= |visited| && Nearest(visited, demands, m, capacity, load, current, i, best)
    ensures var r := Scan(visited, demands, m, capacity, load, current, i, best);
      r.Ok? ==> Nearest(visited, demands, m, capacity, load, current, |visited|, r.value)
    decreases |visited| - i
  {
    if i < |visited| {
      if visited[i] || (i < |demands| && load + demands[i] > capacity) {
        NearestSkip(visited, demands, m, capacity, load, current, i, best);
        ScanNearest(visited, demands, m, capacity, load, current, i + 1, best);
      } else if i < |demands| && current < |m| && i < |m[current]| {
        if best.None? || m[current][i] < best.value.distance {
          NearestTake(visited, demands, m, capacity, load, current, i, best);
          ScanNearest(visited, demands, m, capacity, load, current, i + 1, Some(Pick(i, m[current][i])));
        } else {
          NearestSkip(visited, demands, m, capacity, load, current, i, best);
          ScanNearest(visited, demands, m, capacity, load, current, i + 1, best);
        }
      }
    }
  }

  /** Passing over node i keeps the kept node nearest: i is visited, does
      not fit, or is no nearer. */
  lemma {:induction false} NearestSkip(visited: seq<bool>, demands: seq<int>, m: Matrix, capacity: int, load: int,
                                       current: nat, i: nat, best: Option<Pick>)
    requires i < |visited| && Nearest(visited, demands, m, capacity, load, current, i, best)
    requires !visited[i] ==> i < |demands|
    requires Candidate(visited, demands, capacity, load, i) ==>
      best.Some? && current < |m| && i < |m[current]| && best.value.distance <= m[current][i]
    ensures Nearest(visited, demands, m, capacity, load, current, i + 1, best)
  {
  }

  /** Keeping node i, a candidate strictly nearer than the kept one. */
  lemma {:induction false} NearestTake(visited: seq<bool>, demands: seq<int>, m: Matrix, capacity: int, load: int,
                                       current: nat, i: nat, best: Option<Pick>)
    requires i < |visited| && Nearest(visited, demands, m, capacity, load, current, i, best)
    requires Candidate(visited, demands, capacity, load, i) && current < |m| && i < |m[current]|
    requires best.None? || m[current][i] < best.value.distance
    ensures Nearest(visited, demands, m, capacity, load, current, i + 1, Some(Pick(i, m[current][i])))
  {
  }

  /** The next node of line 97, for the scan from the first index. */
  lemma {:induction false} NextIsNearest(visited: seq<bool>, demands: seq<int>, m: Matrix, capacity: int, load: int,
                                         current: nat)
    requires Scan(visited, demands, m, capacity, load, current, 0, None).Ok?
    ensures var r := Scan(visited, demands, m, capacity, load, current, 0, None).value;
      (r.None? <==> forall j :: 0 <= j < |visited| ==> !Candidate(visited, demands, capacity, load, j)) &&
      (r.Some? ==>
        var p := r.value;
        Candidate(visited, demands, capacity, load, p.node) && p.distance == m[current][p.node] &&
        (forall j :: 0 <= j < |visited| && Candidate(visited, demands, capacity, load, j) ==>
          j < |m[current]| && p.distance <= m[current][j]) &&
        (forall j :: 0 <= j < p.node && Candidate(visited, demands, capacity, load, j) ==>
          j < |m[current]| && p.distance < m[current][j]))
  {
    ScanNearest(visited, demands, m, capacity, load, current, 0, None);
  }

  /** The scan reads every unvisited node's demand and, for every node
      that fits, its cell in the current row, and fails on nothing else. */
  lemma {:induction false} ScanTotal(visited: seq<bool>, demands: seq<int>, m: Matrix, capacity: int, load: int,
                                     current: nat, i: nat, best: Option<Pick>)
    requires best.Some? ==> PickOk(visited, demands, m, capacity, load, current, best.value)
    requires |demands| >= |visited| && current < |m| && |m[current]| >= |visited|
    ensures Scan(visited, demands, m, capacity, load, current, i, best).Ok?
    decreases |visited| - i
  {
    if i < |visited| {
      if Candidate(visited, demands, capacity, load, i) && (best.None? || m[current][i] < best.value.distance) {
        ScanTotal(visited, demands, m, capacity, load, current, i + 1, Some(Pick(i, m[current][i])));
      } else {
        ScanTotal(visited, demands, m, capacity, load, current, i + 1, best);
      }
    }
  }

  /** One pass of the inner loop: the kept node is marked visited, added
      to the route, and its demand to the load. */
  lemma {:induction false} ExtendStep(visited: seq<bool>, demands: seq<int>, m: Matrix, capacity: int, load: int,
                                      current: nat, route: seq<int>, p: Pick)
    requires current < |visited| && visited[current]
    requires Scan(visited, demands, m, capacity, load, current, 0, None) == Ok(Some(p))
    ensures Candidate(visited, demands, capacity, load, p.node)
    ensures Extend(visited, demands, m, capacity, load, current, route) ==
      Extend(visited[p.node := true], demands, m, capacity, load + demands[p.node], p.node, route + [p.node])
  {
  }

  /** The nodes a closed route r adds to the route it was started from. */
  function Added(r: seq<int>, route: seq<int>): seq<int>
    requires |route| < |r|
  {
    r[|route|..|r| - 1]
  }

  /** The closed route starts with the route it was given and ends at the
      depot. */
  lemma {:induction false} ExtendShape(visited: seq<bool>, demands: seq<int>, m: Matrix, capacity: int, load: int,
                                       current: nat, route: seq<int>)
    requires current < |visited| && visited[current]
    requires Extend(visited, demands, m, capacity, load, current, route).Ok?
    ensures var r := Extend(visited, demands, m, capacity, load, current, route).value.0;
      r[..|route|] == route && r[|r| - 1] == 0
    decreases Unvisited(visited)
  {
    var s := Scan(visited, demands, m, capacity, load, current, 0, None);
    var e := Extend(visited, demands, m, capacity, load, current, route);
    if s.value.None? {
      assert e.value.0 == route + [0];
      assert (route + [0])[..|route|] == route;
    } else {
      var x := s.value.value.node;
      ExtendStep(visited, demands, m, capacity, load, current, route, s.value.value);
      UnvisitedMark(visited, x);
      var v2 := visited[x := true];
      ghost var next := Extend(v2, demands, m, capacity, load + demands[x], x, route + [x]);
      assert e == next;
      ExtendShape(v2, demands, m, capacity, load + demands[x], x, route + [x]);
      PrefixCons(next.value.0, route, x);
    }
  }

  lemma {:induction false} PrefixCons(r: seq<int>, route: seq<int>, x: int)
    requires |r| > |route| + 1 && r[..|route| + 1] == route + [x]
    ensures r[..|route|] == route
  {
    assert r[..|route|] == r[..|route| + 1][..|route|];
  }

  /** The first node added is the kept one. */
  lemma {:induction false} AddedStep(visited: seq<bool>, demands: seq<int>, m: Matrix, capacity: int, load: int,
                                     current: nat, route: seq<int>, p: Pick)
    requires current < |visited| && visited[current]
    requires Scan(visited, demands, m, capacity, load, current, 0, None) == Ok(Some(p))
    requires Extend(visited, demands, m, capacity, load, current, route).Ok?
    ensures var r := Extend(visited, demands, m, capacity, load, current, route).value.0;
      |r| > |route| + 1 && Added(r, route) == [p.node] + Added(r, route + [p.node])
  {
    var x := p.node;
    ExtendStep(visited, demands, m, capacity, load, current, route, p);
    UnvisitedMark(visited, x);
    ExtendShape(visited[x := true], demands, m, capacity, load + demands[x], x, route + [x]);
    var r := Extend(visited, demands, m, capacity, load, current, route).value.0;
    assert r[|route|] == r[..|route| + 1][|route|];
  }

  /** The nodes a route adds all have a demand, and the load on top of the
      one it started with stays within the capacity at every prefix. */
  lemma {:induction false} ExtendFits(visited: seq<bool>, demands: seq<int>, m: Matrix, capacity: int, load: int,
                                      current: nat, route: seq<int>)
    requires current < |visited| && visited[current]
    requires Extend(visited, demands, m, capacity, load, current, route).Ok?
    ensures var added := Added(Extend(visited, demands, m, capacity, load, current, route).value.0, route);
      Demanded(added, DemandMap(demands)) && Verifier.PrefixesFit(added, DemandMap(demands), load, capacity)
    decreases Unvisited(visited)
  {
    var s := Scan(visited, demands, m, capacity, load, current, 0, None);
    var r := Extend(visited, demands, m, capacity, load, current, route).value.0;
    if s.value.None? {
      assert Added(r, route) == [];
    } else {
      var x := s.value.value.node;
      AddedStep(visited, demands, m, capacity, load, current, route, s.value.value);
      ExtendStep(visited, demands, m, capacity, load, current, route, s.value.value);
      UnvisitedMark(visited, x);
      ExtendFits(visited[x := true], demands, m, capacity, load + demands[x], x, route + [x]);
      var added := Added(r, route);
      assert added[0] == x && added[1..] == Added(r, route + [x]);
      assert DemandMap(demands)[x] == demands[x];
      Verifier.PrefixesFitCons(added, DemandMap(demands), load, capacity);
    }
  }

  /** The nodes a route adds were unvisited, and are distinct. */
  lemma {:induction false} ExtendFresh(visited: seq<bool>, demands: seq<int>, m: Matrix, capacity: int, load: int,
                                       current: nat, route: seq<int>)
    requires current < |visited| && visited[current]
    requires Extend(visited, demands, m, capacity, load, current, route).Ok?
    ensures var added := Added(Extend(visited, demands, m, capacity, load, current, route).value.0, route);
      (forall k :: 0 <= k < |added| ==> 0 <= added[k] < |visited| && !visited[added[k]]) && NoDuplicates(added)
    decreases Unvisited(visited)
  {
    var s := Scan(visited, demands, m, capacity, load, current, 0, None);
    var r := Extend(visited, demands, m, capacity, load, current, route).value.0;
    if s.value.None? {
      assert Added(r, route) == [];
    } else {
      var x := s.value.value.node;
      AddedStep(visited, demands, m, capacity, load, current, route, s.value.value);
      ExtendStep(visited, demands, m, capacity, load, current, route, s.value.value);
      UnvisitedMark(visited, x);
      var v2 := visited[x := true];
      ghost var next := Extend(v2, demands, m, capacity, load + demands[x], x, route + [x]);
      assert next.Ok? && next.value.0 == r;
      ExtendFresh(v2, demands, m, capacity, load + demands[x], x, route + [x]);
      var rest := Added(r, route + [x]);
      assert NoDuplicates(rest) && forall k :: 0 <= k < |rest| ==> 0 <= rest[k] < |visited| && !v2[rest[k]];
      FreshCons(visited, x, rest);
    }
  }

  lemma {:induction false} FreshCons(visited: seq<bool>, x: int, rest: seq<int>)
    requires 0 <= x < |visited| && !visited[x] && NoDuplicates(rest)
    requires forall k :: 0 <= k < |rest| ==> 0 <= rest[k] < |visited| && !visited[x := true][rest[k]]
    ensures var added := [x] + rest;
      (forall k :: 0 <= k < |added| ==> 0 <= added[k] < |visited| && !visited[added[k]]) && NoDuplicates(added)
  {
    assert x !in rest;
    NoDuplicatesAppend([x], rest);
    assert Elements([x]) == {x};
    var added := [x] + rest;
    forall k | 0 <= k < |added| ensures 0 <= added[k] < |visited| && !visited[added[k]] {
      if k > 0 {
        assert added[k] == rest[k - 1];
      }
    }
  }

  /** The nodes a route marks visited are exactly the ones it adds. */
  lemma {:induction false} ExtendMarks(visited: seq<bool>, demands: seq<int>, m: Matrix, capacity: int, load: int,
                                       current: nat, route: seq<int>)
    requires current < |visited| && visited[current]
    requires Extend(visited, demands, m, capacity, load, current, route).Ok?
    ensures var res := Extend(visited, demands, m, capacity, load, current, route).value;
      forall i :: 0 <= i < |visited| ==> (res.1[i] <==> visited[i] || i in Added(res.0, route))
    decreases Unvisited(visited)
  {
    var s := Scan(visited, demands, m, capacity, load, current, 0, None);
    var res := Extend(visited, demands, m, capacity, load, current, route).value;
    if s.value.None? {
      assert Added(res.0, route) == [];
    } else {
      var x := s.value.value.node;
      AddedStep(visited, demands, m, capacity, load, current, route, s.value.value);
      ExtendStep(visited, demands, m, capacity, load, current, route, s.value.value);
      UnvisitedMark(visited, x);
      var v2 := visited[x := true];
      ghost var next := Extend(v2, demands, m, capacity, load + demands[x], x, route + [x]);
      assert next.Ok? && next.value == res;
      ExtendMarks(v2, demands, m, capacity, load + demands[x], x, route + [x]);
      var rest := Added(res.0, route + [x]);
      assert forall i :: 0 <= i < |visited| ==> (res.1[i] <==> v2[i] || i in rest);
      MarksCons(visited, res.1, x, rest);
    }
  }

  lemma {:induction false} MarksCons(visited: seq<bool>, marked: seq<bool>, x: int, rest: seq<int>)
    requires 0 <= x < |visited| && |marked| == |visited|
    requires forall i :: 0 <= i < |visited| ==> (marked[i] <==> visited[x := true][i] || i in rest)
    ensures forall i :: 0 <= i < |visited| ==> (marked[i] <==> visited[i] || i in [x] + rest)
  {
    forall i | 0 <= i < |visited| ensures marked[i] <==> visited[i] || i in [x] + rest {
      assert i in [x] + rest <==> i == x || i in rest;
    }
  }

  /** A round from the depot visits a new node exactly when some unvisited
      node fits an empty vehicle; otherwise it is the route [0, 0]. */
  lemma {:induction false} RoundProgress(visited: seq<bool>, demands: seq<int>, m: Matrix, capacity: int)
    requires |visited| > 0 && visited[0]
    requires Extend(visited, demands, m, capacity, 0, 0, [0]).Ok?
    ensures var route := Extend(visited, demands, m, capacity, 0, 0, [0]).value.0;
      (|route| > 2 <==> exists j :: 0 <= j < |visited| && Candidate(visited, demands, capacity, 0, j)) &&
      (|route| == 2 ==> route == [0, 0])
  {
    var route := Extend(visited, demands, m, capacity, 0, 0, [0]).value.0;
    NextIsNearest(visited, demands, m, capacity, 0, 0);
    match Scan(visited, demands, m, capacity, 0, 0, 0, None)
    case Ok(None) =>
      assert route == [0, 0];
    case Ok(Some(p)) =>
      var x := p.node;
      ExtendStep(visited, demands, m, capacity, 0, 0, [0], p);
      AddedStep(visited, demands, m, capacity, 0, 0, [0], p);
  }

  lemma {:induction false} InteriorsAppend(routes: Solution, route: seq<int>)
    ensures Flatten(Interiors(routes + [route])) == Flatten(Interiors(routes)) + Interior(route)
  {
    assert Interiors(routes + [route])[..|routes|] == Interiors(routes);
  }

  /** One round keeps Served: the new route's interior is fresh, distinct
      and within the capacity, and it is what the round marks visited. */
  lemma {:induction false} RoundServed(visited: seq<bool>, demands: seq<int>, m: Matrix, capacity: int, routes: Solution)
    requires |visited| > 0 && visited[0] && Served(visited, demands, capacity, routes)
    requires Extend(visited, demands, m, capacity, 0, 0, [0]).Ok?
    ensures var res := Extend(visited, demands, m, capacity, 0, 0, [0]).value;
      Served(res.1, demands, capacity, routes + [res.0])
  {
    var res := Extend(visited, demands, m, capacity, 0, 0, [0]).value;
    var route, next := res.0, res.1;
    ExtendShape(visited, demands, m, capacity, 0, 0, [0]);
    ExtendFits(visited, demands, m, capacity, 0, 0, [0]);
    ExtendFresh(visited, demands, m, capacity, 0, 0, [0]);
    ExtendMarks(visited, demands, m, capacity, 0, 0, [0]);
    var added := Added(route, [0]);
    assert Interior(route) == added;
    assert Bracketed(route) by {
      assert route[0] == route[..1][0];
    }
    VisitedGrow(visited, next, added);
    ServedCons(visited, next, demands, capacity, routes, route);
  }

  /** A bracketed route that fits and whose interior is fresh and distinct
      extends Served by exactly the nodes it marks. */
  lemma {:induction false} ServedCons(visited: seq<bool>, next: seq<bool>, demands: seq<int>, capacity: int,
                                      routes: Solution, route: seq<int>)
    requires Served(visited, demands, capacity, routes)
    requires Bracketed(route) && Demanded(Interior(route), DemandMap(demands))
    requires Verifier.PrefixesFit(Interior(route), DemandMap(demands), 0, capacity)
    requires NoDuplicates(Interior(route))
    requires forall k :: 0 <= k < |Interior(route)| ==>
      0 <= Interior(route)[k] < |visited| && !visited[Interior(route)[k]]
    requires VisitedNodes(next) == VisitedNodes(visited) + Elements(Interior(route))
    ensures Served(next, demands, capacity, routes + [route])
  {
    var added := Interior(route);
    var flat := Flatten(Interiors(routes));
    InteriorsAppend(routes, route);
    ElementsAppend(flat, added);
    assert Elements(flat) !! Elements(added) by {
      assert forall x :: x in Elements(added) ==> x !in VisitedNodes(visited);
    }
    NoDuplicatesAppend(flat, added);
    assert forall k :: 0 <= k < |routes| ==> (routes + [route])[k] == routes[k];
  }

  /** Marking the added nodes adds them to the visited nodes. */
  lemma {:induction false} VisitedGrow(visited: seq<bool>, next: seq<bool>, added: seq<int>)
    requires |visited| > 0 && visited[0] && |next| == |visited|
    requires forall k :: 0 <= k < |added| ==> 0 <= added[k] < |visited| && !visited[added[k]]
    requires forall i :: 0 <= i < |visited| ==> (next[i] <==> visited[i] || i in added)
    ensures VisitedNodes(next) == VisitedNodes(visited) + Elements(added)
  {
    assert forall x :: x in Elements(added) ==> 0 < x < |next| && next[x];
  }

  /** Hence the routes the rounds finish with serve every node other than
      the depot exactly once. */
  lemma {:induction false} RoundsSound(visited: seq<bool>, demands: seq<int>, m: Matrix, capacity: int, routes: Solution)
    requires |visited| > 0 && visited[0] && Served(visited, demands, capacity, routes)
    ensures var r := Rounds(visited, demands, m, capacity, routes);
      r.Ok? ==> Served(seq(|visited|, i => true), demands, capacity, r.value)
    decreases Unvisited(visited)
  {
    if Unvisited(visited) == 0 {
      UnvisitedNone(visited);
      assert visited == seq(|visited|, i => true);
    } else if Extend(visited, demands, m, capacity, 0, 0, [0]).Ok? {
      var res := Extend(visited, demands, m, capacity, 0, 0, [0]).value;
      if |res.0| != 2 {
        RoundServed(visited, demands, m, capacity, routes);
        RoundsSound(res.1, demands, m, capacity, routes + [res.0]);
      }
    }
  }

  /** The routes nearest_neighbor returns go out from the depot and back,
      never exceed the capacity along the way, and visit every node other
      than the depot exactly once. */
  lemma {:induction false} NearestRoutes(numNodes: nat, m: Matrix, capacity: int, demands: seq<int>)
    ensures var r := NearestSpec(numNodes, m, capacity, demands);
      r.Ok? ==>
        (forall k :: 0 <= k < |r.value| ==>
          Bracketed(r.value[k]) && Demanded(Interior(r.value[k]), DemandMap(demands)) &&
          Verifier.PrefixesFit(Interior(r.value[k]), DemandMap(demands), 0, capacity)) &&
        NoDuplicates(Flatten(Interiors(r.value))) &&
        forall x :: x in Flatten(Interiors(r.value)) <==> 0 < x < numNodes
  {
    if numNodes > 0 {
      var start := seq(numNodes, i => i == 0);
      assert VisitedNodes(start) == {};
      assert Interiors([]) == [];
      RoundsSound(start, demands, m, capacity, []);
      var r := NearestSpec(numNodes, m, capacity, demands);
      if r.Ok? {
        forall x ensures x in Flatten(Interiors(r.value)) <==> 0 < x < numNodes {
          assert x in Flatten(Interiors(r.value)) <==> x in VisitedNodes(seq(numNodes, i => true));
        }
      }
    }
  }

  /** The loop runs forever only on a node the empty vehicle cannot take. */
  lemma {:induction false} RoundsDiverge(visited: seq<bool>, demands: seq<int>, m: Matrix, capacity: int, routes: Solution)
    requires |visited| > 0 && visited[0]
    requires Rounds(visited, demands, m, capacity, routes) == Err(Diverges)
    ensures exists i :: 0 < i < |visited| && !visited[i] && i < |demands| && demands[i] > capacity
    decreases Unvisited(visited)
  {
    UnvisitedNone(visited);
    var (route, next) := Extend(visited, demands, m, capacity, 0, 0, [0]).value;
    RoundProgress(visited, demands, m, capacity);
    if |route| == 2 {
      NextIsNearest(visited, demands, m, capacity, 0, 0);
      ScanNearest(visited, demands, m, capacity, 0, 0, 0, None);
      var i :| 0 <= i < |visited| && !visited[i];
      assert !Candidate(visited, demands, capacity, 0, i);
    } else {
      RoundsDiverge(next, demands, m, capacity, routes + [route]);
      var i :| 0 < i < |next| && !next[i] && i < |demands| && demands[i] > capacity;
      assert !visited[i];
    }
  }

  /** With a demand for every node, a square matrix of the node count and
      every demand within the capacity, every round visits a node and
      the loop ends. */
  lemma {:induction false} RoundsTerminate(visited: seq<bool>, demands: seq<int>, m: Matrix, capacity: int, routes: Solution)
    requires |visited| > 0 && visited[0]
    requires |demands| >= |visited| && |m| >= |visited| && forall i :: 0 <= i < |m| ==> |m[i]| >= |visited|
    requires forall i :: 0 < i < |visited| ==> demands[i] <= capacity
    ensures Rounds(visited, demands, m, capacity, routes).Ok?
    decreases Unvisited(visited)
  {
    if Unvisited(visited) != 0 {
      ExtendTotal(visited, demands, m, capacity, 0, 0, [0]);
      var (route, next) := Extend(visited, demands, m, capacity, 0, 0, [0]).value;
      UnvisitedNone(visited);
      var i :| 0 <= i < |visited| && !visited[i];
      assert Candidate(visited, demands, capacity, 0, i);
      RoundProgress(visited, demands, m, capacity);
      RoundsTerminate(next, demands, m, capacity, routes + [route]);
    }
  }

  lemma {:induction false} ExtendTotal(visited: seq<bool>, demands: seq<int>, m: Matrix, capacity: int, load: int,
                                       current: nat, route: seq<int>)
    requires current < |visited| && visited[current]
    requires |demands| >= |visited| && |m| >= |visited| && forall i :: 0 <= i < |m| ==> |m[i]| >= |visited|
    ensures Extend(visited, demands, m, capacity, load, current, route).Ok?
    decreases Unvisited(visited)
  {
    ScanTotal(visited, demands, m, capacity, load, current, 0, None);
    match Scan(visited, demands, m, capacity, load, current, 0, None)
    case Ok(None) =>
    case Ok(Some(p)) =>
      UnvisitedMark(visited, p.node);
      ExtendTotal(visited[p.node := true], demands, m, capacity, load + demands[p.node], p.node, route + [p.node]);
  }

  /** nearest_neighbor diverges only on a non-depot node whose demand alone
      exceeds the capacity, and on well-formed input where every demand
      fits it always returns routes. */
  lemma {:induction false} NearestTerminates(numNodes: nat, m: Matrix, capacity: int, demands: seq<int>)
    ensures NearestSpec(numNodes, m, capacity, demands) == Err(Diverges) ==>
      exists i :: 0 < i < numNodes && i < |demands| && demands[i] > capacity
    ensures (numNodes > 0 && |demands| >= numNodes && |m| >= numNodes &&
      (forall i :: 0 <= i < |m| ==> |m[i]| >= numNodes) &&
      (forall i :: 0 < i < numNodes ==> demands[i] <= capacity)) ==>
      NearestSpec(numNodes, m, capacity, demands).Ok?
  {
    if numNodes > 0 {
      var start := seq(numNodes, i => i == 0);
      if NearestSpec(numNodes, m, capacity, demands) == Err(Diverges) {
        RoundsDiverge(start, demands, m, capacity, []);
      }
      if |demands| >= numNodes && |m| >= numNodes && (forall i :: 0 <= i < |m| ==> |m[i]| >= numNodes) &&
         (forall i :: 0 < i < numNodes ==> demands[i] <= capacity) {
        RoundsTerminate(start, demands, m, capacity, []);
      }
    }
  }

  /** On the matrix calculate_distance_matrix builds with a distance that
      behaves like the Euclidean one, the matrix is symmetric and
      non-negative and holds the distance in every cell, the diagonal
      included; nearest_neighbor on it fails only by diverging. */
  lemma {:induction false} MatrixFeedsHeuristic(nodes: seq<Node>, dist: Distance, a: array2<real>, capacity: int,
                                                demands: seq<int>)
    requires MetricLike(dist) && a.Length0 == |nodes| && a.Length1 == |nodes|
    requires forall i, j :: 0 <= i < |nodes| && 0 <= j < |nodes| ==> a[i, j] == DistanceEntry(nodes, dist, i, j)
    requires |nodes| > 0 && |demands| >= |nodes|
    ensures forall i, j :: 0 <= i < |nodes| && 0 <= j < |nodes| ==>
      a[i, j] == a[j, i] && a[i, j] >= 0.0 && a[i, j] == dist(Position(nodes[i]), Position(nodes[j]))
    ensures NearestSpec(|nodes|, Rows(a), capacity, demands).Err? ==>
      NearestSpec(|nodes|, Rows(a), capacity, demands).error == Diverges
  {
    var m := Rows(a);
    var start := seq(|nodes|, i => i == 0);
    RoundsOnlyDiverge(start, demands, m, capacity, []);
  }

  /** With a demand for every node and a square matrix, the only failure
      left is divergence. */
  lemma {:induction false} RoundsOnlyDiverge(visited: seq<bool>, demands: seq<int>, m: Matrix, capacity: int, routes: Solution)
    requires |visited| > 0 && visited[0]
    requires |demands| >= |visited| && |m| >= |visited| && forall i :: 0 <= i < |m| ==> |m[i]| >= |visited|
    ensures Rounds(visited, demands, m, capacity, routes).Err? ==>
      Rounds(visited, demands, m, capacity, routes).error == Diverges
    decreases Unvisited(visited)
  {
    if Unvisited(visited) != 0 {
      ExtendTotal(visited, demands, m, capacity, 0, 0, [0]);
      var (route, next) := Extend(visited, demands, m, capacity, 0, 0, [0]).value;
      if |route| != 2 {
        RoundsOnlyDiverge(next, demands, m, capacity, routes + [route]);
      }
    }
  }
}
