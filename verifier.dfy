/** verify_solution (template_code/verify_solution.py): the feasibility and
    cost oracle every solver of the repository calls.

    The checks run in the source's order: the truck count, then route by
    route and node by node a repeated customer, the demand lookup, the running
    load against the capacity and the coordinate lookups, then the return to
    the depot, and finally coverage against every node id except 0 and the
    largest one. A Python KeyError or ValueError is an Err; the diagnostic
    message is not modelled. */
module Verifier {
  import opened Wrappers
  import opened Geometry
  import opened Routes

  /** The parsed instance: coordinates and demands by id, the capacity, and
      the optional "trucks" and "optimal_value" entries. */
  datatype Instance = Instance(
    nodes: map<int, Point>,
    demands: map<int, int>,
    capacity: int,
    trucks: Option<int>,
    optimalValue: Option<real>)

  /** The boolean and the cost of verify_solution's result triple. */
  datatype Verdict = Verdict(feasible: bool, cost: real)

  /** The state of the walk over the solution: still going, with the visited
      set and the cost so far, or stopped by a failed check. */
  datatype Walk = Running(visited: set<int>, cost: real) | Rejected

  /** set(nodes.keys()) - {0}, less its maximum; max() of an empty set raises
      ValueError. */
  ghost function Customers(nodes: map<int, Point>): (r: Result<set<int>>)
    ensures r.Err? <==> nodes.Keys - {0} == {}
    ensures r.Err? ==> r.error == ValueError
    ensures r.Ok? ==> forall x :: x in r.value <==>
      x in nodes && x != 0 && exists y :: y in nodes && y != 0 && x < y
  {
    var s := nodes.Keys - {0};
    if s == {} then Err(ValueError)
    else
      CustomersMembers(nodes, s);
      Ok(s - {SetMax(s)})
  }

  lemma {:induction false} CustomersMembers(nodes: map<int, Point>, s: set<int>)
    requires s == nodes.Keys - {0} && s != {}
    ensures forall x :: x in s - {SetMax(s)} <==>
      x in nodes && x != 0 && exists y :: y in nodes && y != 0 && x < y
  {
    var m := SetMax(s);
    forall x | x in s - {m} ensures exists y :: y in nodes && y != 0 && x < y {
      assert m in nodes && m != 0 && x < m;
    }
    forall x | x in nodes && x != 0 && (exists y :: y in nodes && y != 0 && x < y) ensures x in s - {m} {
      var y :| y in nodes && y != 0 && x < y;
      assert y in s;
    }
  }

  /** The inner loop over one route, from the state (visited, load, cost,
      prev) on the remaining nodes `rest`, ending with the leg back to 0. */
  function WalkRoute(inst: Instance, dist: Distance, visited: set<int>, load: int, cost: real,
                     prev: int, rest: seq<int>): (r: Result<Walk>)
    ensures r.Err? ==> r.error == KeyError
    ensures r.Ok? && r.value.Running? ==> visited <= r.value.visited
    decreases |rest|
  {
    if |rest| == 0 then
      if prev in inst.nodes && 0 in inst.nodes then Ok(Running(visited, cost + dist(inst.nodes[prev], inst.nodes[0])))
      else Err(KeyError)
    else
      var node := rest[0];
      if node in visited then Ok(Rejected)
      else if node !in inst.demands then Err(KeyError)
      else if load + inst.demands[node] > inst.capacity then Ok(Rejected)
      else if prev !in inst.nodes || node !in inst.nodes then Err(KeyError)
      else WalkRoute(inst, dist, visited + {node}, load + inst.demands[node],
                     cost + dist(inst.nodes[prev], inst.nodes[node]), node, rest[1..])
  }

  /** The outer loop over the remaining routes. */
  function WalkRoutes(inst: Instance, dist: Distance, visited: set<int>, total: real, routes: Solution): (r: Result<Walk>)
    ensures r.Err? ==> r.error == KeyError
    ensures r.Ok? && r.value.Running? ==> visited <= r.value.visited
    decreases |routes|
  {
    if |routes| == 0 then Ok(Running(visited, total))
    else
      match WalkRoute(inst, dist, visited, 0, 0.0, 0, routes[0])
      case Err(e) => Err(e)
      case Ok(Rejected) => Ok(Rejected)
      case Ok(Running(v, c)) => WalkRoutes(inst, dist, v, total + c, routes[1..])
  }

  /** What verify_solution returns. A rejection always carries cost 0, and a
      wrong truck count is rejected before any route is looked at. */
  ghost function VerifySpec(inst: Instance, dist: Distance, solution: Solution): (r: Result<Verdict>)
    ensures r.Ok? && !r.value.feasible ==> r.value.cost == 0.0
    ensures inst.trucks.Some? && |solution| != inst.trucks.value ==> r == Ok(Verdict(false, 0.0))
    ensures r.Err? ==> r.error == KeyError || r.error == ValueError
  {
    if inst.trucks.Some? && |solution| != inst.trucks.value then Ok(Verdict(false, 0.0))
    else
      match WalkRoutes(inst, dist, {}, 0.0, solution)
      case Err(e) => Err(e)
      case Ok(Rejected) => Ok(Verdict(false, 0.0))
      case Ok(Running(visited, total)) =>
        match Customers(inst.nodes)
        case Err(e) => Err(e)
        case Ok(all) => if visited == all then Ok(Verdict(true, total)) else Ok(Verdict(false, 0.0))
  }

  // ---------------------------------------------------------------------
  // The declarative meaning of a feasible solution.

  /** Every lookup the walk makes succeeds. */
  ghost predicate WellKeyed(inst: Instance, solution: Solution) {
    (|solution| > 0 ==> 0 in inst.nodes) &&
    AllDemanded(solution, inst.demands) && AllLocated(solution, inst.nodes)
  }

  /** Starting from `start`, no non-empty prefix of the route exceeds the
      capacity. */
  ghost predicate PrefixesFit(route: seq<int>, demands: map<int, int>, start: int, capacity: int)
    requires Demanded(route, demands)
  {
    forall k :: 1 <= k <= |route| ==> start + Load(route[..k], demands) <= capacity
  }

  /** The remaining nodes of a route pass every check of the inner loop. */
  ghost predicate RouteFits(inst: Instance, visited: set<int>, load: int, prev: int, rest: seq<int>) {
    prev in inst.nodes && 0 in inst.nodes &&
    Demanded(rest, inst.demands) && Located(rest, inst.nodes) &&
    NoDuplicates(rest) && Elements(rest) !! visited &&
    PrefixesFit(rest, inst.demands, load, inst.capacity)
  }

  /** The remaining routes pass every check of the outer loop. */
  ghost predicate RoutesFit(inst: Instance, visited: set<int>, routes: Solution) {
    WellKeyed(inst, routes) &&
    NoDuplicates(Flatten(routes)) && Elements(Flatten(routes)) !! visited &&
    forall r :: 0 <= r < |routes| ==> PrefixesFit(routes[r], inst.demands, 0, inst.capacity)
  }

  /** A feasible solution: the right number of trucks, every id known, no
      customer twice, no route over capacity at any point, and the visited
      ids exactly the customers. */
  ghost predicate Feasible(inst: Instance, solution: Solution) {
    (inst.trucks.Some? ==> |solution| == inst.trucks.value) &&
    RoutesFit(inst, {}, solution) &&
    Customers(inst.nodes) == Ok(Elements(Flatten(solution)))
  }

  // ---------------------------------------------------------------------
  // Lemmas

  lemma {:induction false} PrefixesFitCons(route: seq<int>, demands: map<int, int>, start: int, capacity: int)
    requires |route| > 0 && Demanded(route, demands)
    ensures PrefixesFit(route, demands, start, capacity) <==>
      start + demands[route[0]] <= capacity &&
      PrefixesFit(route[1..], demands, start + demands[route[0]], capacity)
  {
    var d := demands[route[0]];
    LoadSingle(route[0], demands);
    forall k | 1 <= k <= |route|
      ensures Load(route[..k], demands) == d + Load(route[1..][..k - 1], demands)
    {
      assert route[..k] == [route[0]] + route[1..][..k - 1];
      LoadAppend([route[0]], route[1..][..k - 1], demands);
    }
    if PrefixesFit(route, demands, start, capacity) {
      assert start + Load(route[..1], demands) <= capacity;
      forall k | 1 <= k <= |route| - 1
        ensures start + d + Load(route[1..][..k], demands) <= capacity
      {
        assert start + Load(route[..k + 1], demands) <= capacity;
      }
    }
  }

  /** The checks of a route's first node, and the checks of the rest from
      the state after it. */
  lemma {:induction false} RouteFitsCons(inst: Instance, visited: set<int>, load: int, prev: int, rest: seq<int>)
    requires |rest| > 0 && rest[0] !in visited && rest[0] in inst.demands
    requires prev in inst.nodes && rest[0] in inst.nodes
    ensures Elements(rest) == {rest[0]} + Elements(rest[1..])
    ensures RouteFits(inst, visited, load, prev, rest) <==>
      load + inst.demands[rest[0]] <= inst.capacity &&
      RouteFits(inst, visited + {rest[0]}, load + inst.demands[rest[0]], rest[0], rest[1..])
  {
    var node, tail := rest[0], rest[1..];
    assert rest == [node] + tail;
    ElementsAppend([node], tail);
    assert Elements([node]) == {node};
    NoDuplicatesAppend([node], tail);
    assert NoDuplicates([node]);
    assert Demanded(rest, inst.demands) <==> Demanded(tail, inst.demands) by {
      if Demanded(tail, inst.demands) {
        forall i | 0 < i < |rest| ensures rest[i] in inst.demands {
          assert rest[i] == tail[i - 1];
        }
      }
    }
    assert Located(rest, inst.nodes) <==> Located(tail, inst.nodes) by {
      if Located(tail, inst.nodes) {
        forall i | 0 < i < |rest| ensures rest[i] in inst.nodes {
          assert rest[i] == tail[i - 1];
        }
      }
    }
    if Demanded(rest, inst.demands) {
      PrefixesFitCons(rest, inst.demands, load, inst.capacity);
    }
    assert NoDuplicates(rest) && Elements(rest) !! visited <==> NoDuplicates(tail) && Elements(tail) !! visited + {node};
  }

  /** The inner loop reaches the depot iff the remaining nodes pass every
      check, and then it has visited exactly them and added their tour. */
  lemma {:induction false} WalkRouteRunning(inst: Instance, dist: Distance, visited: set<int>, load: int,
                                           cost: real, prev: int, rest: seq<int>)
    ensures (WalkRoute(inst, dist, visited, load, cost, prev, rest).Ok? &&
             WalkRoute(inst, dist, visited, load, cost, prev, rest).value.Running?)
            <==> RouteFits(inst, visited, load, prev, rest)
    ensures RouteFits(inst, visited, load, prev, rest) ==>
      WalkRoute(inst, dist, visited, load, cost, prev, rest) ==
        Ok(Running(visited + Elements(rest), cost + PathCost(inst.nodes, dist, 0, prev, rest)))
    decreases |rest|
  {
    if |rest| == 0 {
      assert Elements(rest) == {};
      assert visited + Elements(rest) == visited;
    } else {
      var node, tail := rest[0], rest[1..];
      if node in visited {
        assert node in Elements(rest);
      } else if node !in inst.demands {
        assert !Demanded(rest, inst.demands);
      } else if prev !in inst.nodes || node !in inst.nodes {
        assert !RouteFits(inst, visited, load, prev, rest) by {
          if prev in inst.nodes { assert !Located(rest, inst.nodes); }
        }
      } else {
        var d := inst.demands[node];
        RouteFitsCons(inst, visited, load, prev, rest);
        if load + d <= inst.capacity {
          var c := cost + dist(inst.nodes[prev], inst.nodes[node]);
          WalkRouteRunning(inst, dist, visited + {node}, load + d, c, node, tail);
          assert visited + {node} + Elements(tail) == visited + Elements(rest);
        }
      }
    }
  }

  lemma {:induction false} AllDemandedCons(s: Solution, demands: map<int, int>)
    requires |s| > 0
    ensures AllDemanded(s, demands) <==> Demanded(s[0], demands) && AllDemanded(s[1..], demands)
  {
    if Demanded(s[0], demands) && AllDemanded(s[1..], demands) {
      forall r | 0 < r < |s| ensures Demanded(s[r], demands) {
        assert s[r] == s[1..][r - 1];
      }
    }
  }

  lemma {:induction false} AllLocatedCons(s: Solution, coords: map<int, Point>)
    requires |s| > 0
    ensures AllLocated(s, coords) <==> Located(s[0], coords) && AllLocated(s[1..], coords)
  {
    if Located(s[0], coords) && AllLocated(s[1..], coords) {
      forall r | 0 < r < |s| ensures Located(s[r], coords) {
        assert s[r] == s[1..][r - 1];
      }
    }
  }

  /** RoutesFit splits into the first route and the rest. */
  lemma {:induction false} RoutesFitCons(inst: Instance, visited: set<int>, routes: Solution)
    requires |routes| > 0
    ensures RoutesFit(inst, visited, routes) <==>
      RouteFits(inst, visited, 0, 0, routes[0]) &&
      RoutesFit(inst, visited + Elements(routes[0]), routes[1..])
  {
    var r0, rest := routes[0], routes[1..];
    FlattenCons(routes);
    NoDuplicatesAppend(r0, Flatten(rest));
    ElementsAppend(r0, Flatten(rest));
    AllDemandedCons(routes, inst.demands);
    AllLocatedCons(routes, inst.nodes);
    if AllDemanded(routes, inst.demands) {
      if forall r :: 0 <= r < |routes| ==> PrefixesFit(routes[r], inst.demands, 0, inst.capacity) {
        assert PrefixesFit(r0, inst.demands, 0, inst.capacity);
        forall r | 0 <= r < |rest| ensures PrefixesFit(rest[r], inst.demands, 0, inst.capacity) {
          assert rest[r] == routes[r + 1];
        }
      }
      if PrefixesFit(r0, inst.demands, 0, inst.capacity) &&
         forall r :: 0 <= r < |rest| ==> PrefixesFit(rest[r], inst.demands, 0, inst.capacity) {
        forall r | 0 <= r < |routes| ensures PrefixesFit(routes[r], inst.demands, 0, inst.capacity) {
          if r > 0 {
            assert routes[r] == rest[r - 1];
          }
        }
      }
    }
  }

  /** The outer loop finishes iff the remaining routes pass every check, and
      then it has visited exactly their ids and added their tours. */
  lemma {:induction false} WalkRoutesRunning(inst: Instance, dist: Distance, visited: set<int>, total: real,
                                            routes: Solution)
    ensures (WalkRoutes(inst, dist, visited, total, routes).Ok? &&
             WalkRoutes(inst, dist, visited, total, routes).value.Running?)
            <==> RoutesFit(inst, visited, routes)
    ensures RoutesFit(inst, visited, routes) ==>
      WalkRoutes(inst, dist, visited, total, routes) ==
        Ok(Running(visited + Elements(Flatten(routes)), total + SolutionCost(inst.nodes, dist, 0, routes)))
    decreases |routes|
  {
    if |routes| == 0 {
      assert Elements(Flatten(routes)) == {};
      assert visited + Elements(Flatten(routes)) == visited;
    } else {
      var r0, rest := routes[0], routes[1..];
      RoutesFitCons(inst, visited, routes);
      WalkRouteRunning(inst, dist, visited, 0, 0.0, 0, r0);
      var next := visited + Elements(r0);
      if RouteFits(inst, visited, 0, 0, r0) {
        var c := 0.0 + PathCost(inst.nodes, dist, 0, 0, r0);
        WalkRoutesRunning(inst, dist, next, total + c, rest);
        if RoutesFit(inst, visited, routes) {
          FlattenCons(routes);
          ElementsAppend(r0, Flatten(rest));
          SolutionCostCons(inst.nodes, dist, 0, routes);
          assert WalkRoute(inst, dist, visited, 0, 0.0, 0, r0) == Ok(Running(next, c));
          assert WalkRoutes(inst, dist, visited, total, routes) == WalkRoutes(inst, dist, next, total + c, rest);
          assert next + Elements(Flatten(rest)) == visited + Elements(Flatten(routes));
        }
      }
    }
  }

  /** verify_solution says True exactly for the feasible solutions, and then
      its cost is the closed-tour cost out of depot 0. */
  lemma {:induction false} VerifyFeasibleIff(inst: Instance, dist: Distance, solution: Solution)
    ensures (VerifySpec(inst, dist, solution).Ok? && VerifySpec(inst, dist, solution).value.feasible)
            <==> Feasible(inst, solution)
    ensures Feasible(inst, solution) ==>
      VerifySpec(inst, dist, solution) == Ok(Verdict(true, SolutionCost(inst.nodes, dist, 0, solution)))
  {
    WalkRoutesRunning(inst, dist, {}, 0.0, solution);
    assert {} + Elements(Flatten(solution)) == Elements(Flatten(solution));
  }

  /** A feasible solution never visits the depot 0 nor the largest id. */
  lemma {:induction false} VerifyRejectsDepotAndLargest(inst: Instance, dist: Distance, solution: Solution)
    requires VerifySpec(inst, dist, solution).Ok? && VerifySpec(inst, dist, solution).value.feasible
    ensures inst.nodes.Keys - {0} != {}
    ensures 0 !in Flatten(solution) && SetMax(inst.nodes.Keys - {0}) !in Flatten(solution)
  {
    VerifyFeasibleIff(inst, dist, solution);
    assert Customers(inst.nodes) == Ok(Elements(Flatten(solution)));
  }

  lemma {:induction false} WalkRouteNoKeyError(inst: Instance, dist: Distance, visited: set<int>, load: int,
                                              cost: real, prev: int, rest: seq<int>)
    requires prev in inst.nodes && 0 in inst.nodes
    requires Demanded(rest, inst.demands) && Located(rest, inst.nodes)
    ensures WalkRoute(inst, dist, visited, load, cost, prev, rest).Ok?
    decreases |rest|
  {
    if |rest| > 0 {
      var node := rest[0];
      WalkRouteNoKeyError(inst, dist, visited + {node}, load + inst.demands[node],
                          cost + dist(inst.nodes[prev], inst.nodes[node]), node, rest[1..]);
    }
  }

  lemma {:induction false} WalkRoutesNoKeyError(inst: Instance, dist: Distance, visited: set<int>, total: real,
                                               routes: Solution)
    requires WellKeyed(inst, routes)
    ensures WalkRoutes(inst, dist, visited, total, routes).Ok?
    decreases |routes|
  {
    if |routes| > 0 {
      AllDemandedCons(routes, inst.demands);
      AllLocatedCons(routes, inst.nodes);
      WalkRouteNoKeyError(inst, dist, visited, 0, 0.0, 0, routes[0]);
      match WalkRoute(inst, dist, visited, 0, 0.0, 0, routes[0])
      case Ok(Running(v, c)) =>
        WalkRoutesNoKeyError(inst, dist, v, total + c, routes[1..]);
      case _ =>
    }
  }

  /** With every id known, a customer that occurs twice anywhere in the
      solution, in one route or in two, makes the result (False, 0). */
  lemma {:induction false} VerifyRejectsDuplicates(inst: Instance, dist: Distance, solution: Solution)
    requires WellKeyed(inst, solution)
    requires !NoDuplicates(Flatten(solution))
    ensures VerifySpec(inst, dist, solution) == Ok(Verdict(false, 0.0))
  {
    WalkRoutesNoKeyError(inst, dist, {}, 0.0, solution);
    WalkRoutesRunning(inst, dist, {}, 0.0, solution);
  }

  /** With every id known, a route with a prefix whose demand exceeds the
      capacity makes the result (False, 0). */
  lemma {:induction false} VerifyRejectsOverload(inst: Instance, dist: Distance, solution: Solution, r: nat, k: nat)
    requires WellKeyed(inst, solution)
    requires r < |solution| && 1 <= k <= |solution[r]|
    requires Load(solution[r][..k], inst.demands) > inst.capacity
    ensures VerifySpec(inst, dist, solution) == Ok(Verdict(false, 0.0))
  {
    assert !PrefixesFit(solution[r], inst.demands, 0, inst.capacity);
    WalkRoutesNoKeyError(inst, dist, {}, 0.0, solution);
    WalkRoutesRunning(inst, dist, {}, 0.0, solution);
  }

  /** The optimal value only changes the message. */
  lemma {:induction false} OptimalValueIgnored(inst: Instance, dist: Distance, solution: Solution, o: Option<real>)
    ensures VerifySpec(inst.(optimalValue := o), dist, solution) == VerifySpec(inst, dist, solution)
  {
    assert WalkRoutes(inst.(optimalValue := o), dist, {}, 0.0, solution) == WalkRoutes(inst, dist, {}, 0.0, solution) by {
      WalkRoutesIgnoresOptimal(inst, dist, {}, 0.0, solution, o);
    }
  }

  lemma {:induction false} WalkRoutesIgnoresOptimal(inst: Instance, dist: Distance, visited: set<int>, total: real,
                                                   routes: Solution, o: Option<real>)
    ensures WalkRoutes(inst.(optimalValue := o), dist, visited, total, routes) ==
            WalkRoutes(inst, dist, visited, total, routes)
    decreases |routes|
  {
    if |routes| > 0 {
      WalkRouteIgnoresOptimal(inst, dist, visited, 0, 0.0, 0, routes[0], o);
      match WalkRoute(inst, dist, visited, 0, 0.0, 0, routes[0])
      case Ok(Running(v, c)) =>
        WalkRoutesIgnoresOptimal(inst, dist, v, total + c, routes[1..], o);
      case _ =>
    }
  }

  lemma {:induction false} WalkRouteIgnoresOptimal(inst: Instance, dist: Distance, visited: set<int>, load: int,
                                                  cost: real, prev: int, rest: seq<int>, o: Option<real>)
    ensures WalkRoute(inst.(optimalValue := o), dist, visited, load, cost, prev, rest) ==
            WalkRoute(inst, dist, visited, load, cost, prev, rest)
    decreases |rest|
  {
    if |rest| > 0 && rest[0] in inst.demands && rest[0] in inst.nodes && prev in inst.nodes {
      var node := rest[0];
      WalkRouteIgnoresOptimal(inst, dist, visited + {node}, load + inst.demands[node],
                              cost + dist(inst.nodes[prev], inst.nodes[node]), node, rest[1..], o);
    }
  }

  // ---------------------------------------------------------------------
  // The imperative verifier

  /** verify_solution: the nested loops over routes and nodes with their
      early returns. */
  method VerifySolution(inst: Instance, dist: Distance, solution: Solution) returns (res: Result<Verdict>)
    ensures res == VerifySpec(inst, dist, solution)
  {
    if inst.trucks.Some? && |solution| != inst.trucks.value {
      return Ok(Verdict(false, 0.0));
    }
    var visited: set<int> := {};
    var total := 0.0;
    var i := 0;
    while i < |solution|
      invariant 0 <= i <= |solution|
      invariant WalkRoutes(inst, dist, {}, 0.0, solution) == WalkRoutes(inst, dist, visited, total, solution[i..])
    {
      var route := solution[i];
      ghost var start := visited;
      var load := 0;
      var routeCost := 0.0;
      var prev := 0;
      var j := 0;
      while j < |route|
        invariant 0 <= j <= |route|
        invariant WalkRoute(inst, dist, start, 0, 0.0, 0, route) ==
                  WalkRoute(inst, dist, visited, load, routeCost, prev, route[j..])
      {
        var node := route[j];
        if node in visited {
          return Ok(Verdict(false, 0.0));
        }
        ghost var before := visited;
        visited := visited + {node};
        if node !in inst.demands {
          return Err(KeyError);
        }
        load := load + inst.demands[node];
        if load > inst.capacity {
          return Ok(Verdict(false, 0.0));
        }
        if prev !in inst.nodes || node !in inst.nodes {
          return Err(KeyError);
        }
        routeCost := routeCost + dist(inst.nodes[prev], inst.nodes[node]);
        prev := node;
        assert route[j..][1..] == route[j + 1..];
        j := j + 1;
      }
      if prev !in inst.nodes || 0 !in inst.nodes {
        return Err(KeyError);
      }
      routeCost := routeCost + dist(inst.nodes[prev], inst.nodes[0]);
      total := total + routeCost;
      assert solution[i..][1..] == solution[i + 1..];
      i := i + 1;
    }
    var allCustomers := inst.nodes.Keys - {0};
    if allCustomers == {} {
      return Err(ValueError);
    }
    var m := MaxOf(allCustomers);
    assert m == SetMax(allCustomers);
    allCustomers := allCustomers - {m};
    if visited != allCustomers {
      return Ok(Verdict(false, 0.0));
    }
    return Ok(Verdict(true, total));
  }
}
