/** simulated_annealing and its helpers (submissions/team2/recuitSimuleImpl.py).

    An initial solution cuts a shuffled list of the customers 1..n into
    consecutive capacity-respecting segments, one per vehicle, plus an
    unchecked leftover route. Each pass of the inner loop swaps one random
    customer between two random routes, discards the candidate unless
    verify_solution calls it feasible, and accepts it when it is cheaper or
    when the random acceptance test says so; every acceptance multiplies the
    temperature by alpha.

    The randomness is given: the shuffled list, and one Step per pass of the
    inner loop (the draws of perturb_solution and the outcome of
    `random.random() < math.exp(-cost_diff / temperature)`, consulted only
    where that outcome is not already fixed). calculate_cost
    is Greedy.CostSpec, which models the identical function of
    heuristiqueGloutonne.py. */
module Annealing {
  import opened Wrappers
  import opened Geometry
  import opened Routes
  import opened Verifier
  import opened Greedy
  import opened Neighborhood
  import InstanceReader

  // ---------------------------------------------------------------------
  // generate_initial_solution

  /** list(range(1, n + 1)). */
  function CustomerIds(n: nat): (r: seq<int>)
    ensures |r| == n && forall i :: 0 <= i < n ==> r[i] == i + 1
  {
    seq(n, i => i + 1)
  }

  /** What random.shuffle may leave in `customers`: a permutation of 1..n. */
  ghost predicate IsShuffle(shuffled: seq<int>, n: nat) {
    multiset(shuffled) == multiset(CustomerIds(n))
  }

  /** The while loop of one vehicle, with `load` already on board: pop
      customers from the front while the next one fits. The route and the
      customers left, or the KeyError of a customer without demand. */
  function FillFront(customers: seq<int>, demands: map<int, int>, capacity: int, load: int)
    : (r: Result<(Route, seq<int>)>)
    ensures r.Err? ==> r.error == KeyError
    decreases |customers|
  {
    if |customers| == 0 then Ok(([], customers))
    else if customers[0] !in demands then Err(KeyError)
    else if load + demands[customers[0]] > capacity then Ok(([], customers))
    else Prefixed([customers[0]], FillFront(customers[1..], demands, capacity, load + demands[customers[0]]))
  }

  /** How many times `for _ in range(vehicles)` runs. */
  function VehicleCount(vehicles: int): nat {
    if vehicles > 0 then vehicles else 0
  }

  /** The routes `routes` placed before those of the remaining vehicles. */
  function Stacked(routes: Solution, r: Result<(Solution, seq<int>)>): Result<(Solution, seq<int>)> {
    match r
    case Err(e) => Err(e)
    case Ok(p) => Ok((routes + p.0, p.1))
  }

  /** The for loop over the vehicles still to fill. */
  function FillVehicles(customers: seq<int>, vehicles: int, demands: map<int, int>, capacity: int)
    : (r: Result<(Solution, seq<int>)>)
    ensures r.Err? ==> r.error == KeyError
    decreases VehicleCount(vehicles)
  {
    if vehicles <= 0 then Ok(([], customers))
    else match FillFront(customers, demands, capacity, 0)
      case Err(e) => Err(e)
      case Ok(p) => Stacked([p.0], FillVehicles(p.1, vehicles - 1, demands, capacity))
  }

  /** generate_initial_solution on the shuffled customer list. */
  function InitialSpec(customers: seq<int>, numVehicles: int, capacity: int, demands: map<int, int>)
    : (r: Result<Solution>)
    ensures r.Err? ==> r.error == KeyError
  {
    match FillVehicles(customers, numVehicles, demands, capacity)
    case Err(e) => Err(e)
    case Ok(p) => Ok(if |p.1| > 0 then p.0 + [p.1] else p.0)
  }

  /** The inner while loop, popping from the front of the list. */
  method FillRoute(customers: seq<int>, demands: map<int, int>, capacity: int) returns (res: Result<(Route, seq<int>)>)
    ensures res == FillFront(customers, demands, capacity, 0)
  {
    var route: Route := [];
    var routeCapacity := 0;
    var left := customers;
    PrefixedNothing(FillFront(customers, demands, capacity, 0));
    while |left| > 0
      invariant FillFront(customers, demands, capacity, 0) == Prefixed(route, FillFront(left, demands, capacity, routeCapacity))
    {
      if left[0] !in demands {
        return Err(KeyError);
      }
      if routeCapacity + demands[left[0]] > capacity {
        break;
      }
      var customer := left[0];
      PrefixedAppend(route, [customer], FillFront(left[1..], demands, capacity, routeCapacity + demands[customer]));
      left := left[1..];
      route := route + [customer];
      routeCapacity := routeCapacity + demands[customer];
    }
    assert route + [] == route;
    return Ok((route, left));
  }

  lemma {:induction false} StackedNothing(r: Result<(Solution, seq<int>)>)
    ensures Stacked([], r) == r
  {
    if r.Ok? {
      assert [] + r.value.0 == r.value.0;
    }
  }

  lemma {:induction false} StackedAppend(xs: Solution, ys: Solution, r: Result<(Solution, seq<int>)>)
    ensures Stacked(xs, Stacked(ys, r)) == Stacked(xs + ys, r)
  {
    if r.Ok? {
      assert xs + (ys + r.value.0) == (xs + ys) + r.value.0;
    }
  }

  /** generate_initial_solution: the for loop over the vehicles, then the
      leftover route. */
  method GenerateInitialSolution(customers: seq<int>, numVehicles: int, capacity: int, demands: map<int, int>)
    returns (res: Result<Solution>)
    ensures res == InitialSpec(customers, numVehicles, capacity, demands)
  {
    var solution: Solution := [];
    var left := customers;
    var v := 0;
    StackedNothing(FillVehicles(customers, numVehicles, demands, capacity));
    while v < numVehicles
      invariant 0 <= v <= VehicleCount(numVehicles)
      invariant FillVehicles(customers, numVehicles, demands, capacity) ==
        Stacked(solution, FillVehicles(left, numVehicles - v, demands, capacity))
      decreases numVehicles - v
    {
      var r := FillRoute(left, demands, capacity);
      if r.Err? {
        return Err(r.error);
      }
      StackedAppend(solution, [r.value.0], FillVehicles(r.value.1, numVehicles - v - 1, demands, capacity));
      solution := solution + [r.value.0];
      left := r.value.1;
      v := v + 1;
    }
    assert solution + [] == solution;
    if |left| > 0 {
      solution := solution + [left];
    }
    return Ok(solution);
  }

  // ---------------------------------------------------------------------
  // Lemmas about the initial solution

  /** One vehicle takes the longest prefix of the list whose running load
      stays within the capacity: every prefix of its route fits, and the
      first customer left behind has a demand and would overflow. */
  lemma {:induction false} FillFrontLongest(customers: seq<int>, demands: map<int, int>, capacity: int, load: int)
    requires FillFront(customers, demands, capacity, load).Ok?
    ensures var p := FillFront(customers, demands, capacity, load).value;
      customers == p.0 + p.1 && Demanded(p.0, demands) && PrefixesFit(p.0, demands, load, capacity) &&
      (|p.1| > 0 ==> p.1[0] in demands && load + Load(p.0, demands) + demands[p.1[0]] > capacity)
    decreases |customers|
  {
    var p := FillFront(customers, demands, capacity, load).value;
    if |customers| > 0 && customers[0] in demands && load + demands[customers[0]] <= capacity {
      var c := customers[0];
      var q := FillFront(customers[1..], demands, capacity, load + demands[c]).value;
      FillFrontLongest(customers[1..], demands, capacity, load + demands[c]);
      assert p.0 == [c] + q.0 && p.1 == q.1;
      assert customers == [c] + customers[1..];
      LoadAppend([c], q.0, demands);
      LoadSingle(c, demands);
      assert p.0[0] == c && p.0[1..] == q.0;
      assert Demanded(p.0, demands);
      PrefixesFitCons(p.0, demands, load, capacity);
    }
  }

  /** The vehicles' routes concatenated with what is left give back the
      list, and each route is what one vehicle takes from the customers not
      yet placed. */
  lemma {:induction false} VehiclesRoutes(customers: seq<int>, vehicles: int, demands: map<int, int>, capacity: int)
    requires FillVehicles(customers, vehicles, demands, capacity).Ok?
    ensures var p := FillVehicles(customers, vehicles, demands, capacity).value;
      |p.0| == VehicleCount(vehicles) && Flatten(p.0) + p.1 == customers &&
      forall r :: 0 <= r < |p.0| ==>
        FillFront(Flatten(p.0[r..]) + p.1, demands, capacity, 0) == Ok((p.0[r], Flatten(p.0[r + 1..]) + p.1))
    decreases VehicleCount(vehicles)
  {
    var p := FillVehicles(customers, vehicles, demands, capacity).value;
    if vehicles <= 0 {
      assert p == ([], customers);
    } else {
      var f := FillFront(customers, demands, capacity, 0).value;
      var q := FillVehicles(f.1, vehicles - 1, demands, capacity).value;
      assert p == ([f.0] + q.0, q.1);
      VehiclesRoutes(f.1, vehicles - 1, demands, capacity);
      assert |p.0| == VehicleCount(vehicles);
      FillFrontLongest(customers, demands, capacity, 0);
      var take := xs => FillFront(xs, demands, capacity, 0);
      forall r | 0 <= r < |q.0|
        ensures take(Flatten(q.0[r..]) + q.1) == Ok((q.0[r], Flatten(q.0[r + 1..]) + q.1))
      {
        assert FillFront(Flatten(q.0[r..]) + q.1, demands, capacity, 0) == Ok((q.0[r], Flatten(q.0[r + 1..]) + q.1));
      }
      RoutesCons(f.0, q.0, q.1, customers, take);
      forall r | 0 <= r < |p.0|
        ensures FillFront(Flatten(p.0[r..]) + p.1, demands, capacity, 0) == Ok((p.0[r], Flatten(p.0[r + 1..]) + p.1))
      {
        assert take(Flatten(p.0[r..]) + p.1) == Ok((p.0[r], Flatten(p.0[r + 1..]) + p.1));
      }
    }
  }

  /** The vehicle routes [first] + rest when first is taken from the whole
      list and rest from what it leaves; `take` is one vehicle's fill. */
  lemma {:induction false} RoutesCons(first: Route, rest: Solution, left: seq<int>, customers: seq<int>,
                                      take: seq<int> -> Result<(Route, seq<int>)>)
    requires customers == first + (Flatten(rest) + left)
    requires take(customers) == Ok((first, Flatten(rest) + left))
    requires forall r :: 0 <= r < |rest| ==> take(Flatten(rest[r..]) + left) == Ok((rest[r], Flatten(rest[r + 1..]) + left))
    ensures var routes := [first] + rest;
      Flatten(routes) + left == customers &&
      forall r :: 0 <= r < |routes| ==> take(Flatten(routes[r..]) + left) == Ok((routes[r], Flatten(routes[r + 1..]) + left))
  {
    var routes := [first] + rest;
    FlattenCons(routes);
    assert routes[0] == first && routes[1..] == rest;
    forall r | 0 <= r < |routes|
      ensures take(Flatten(routes[r..]) + left) == Ok((routes[r], Flatten(routes[r + 1..]) + left))
    {
      if r == 0 {
        VehicleFirst(first, rest, left);
      } else {
        assert routes[r..] == rest[r - 1..] && routes[r + 1..] == rest[r..] && routes[r] == rest[r - 1];
      }
    }
  }

  /** Vehicle 0 of the routes [first] + rest takes first from everything. */
  lemma {:induction false} VehicleFirst(first: Route, rest: Solution, left: seq<int>)
    ensures var routes := [first] + rest;
      routes[0] == first && Flatten(routes[0..]) + left == first + (Flatten(rest) + left) &&
      Flatten(routes[1..]) + left == Flatten(rest) + left
  {
    var routes := [first] + rest;
    FlattenCons(routes);
    assert routes[0..] == routes && routes[1..] == rest;
  }

  /** The routes, concatenated, are the shuffled list in order; there is one
      route per vehicle and, when customers remain, one more non-empty route
      holding them; and each vehicle's route is the longest fitting prefix
      (FillFrontLongest) of the customers not placed before it. */
  lemma {:induction false} InitialRoutes(customers: seq<int>, numVehicles: int, capacity: int, demands: map<int, int>)
    requires InitialSpec(customers, numVehicles, capacity, demands).Ok?
    ensures var s := InitialSpec(customers, numVehicles, capacity, demands).value;
      var n := VehicleCount(numVehicles);
      Flatten(s) == customers &&
      (|s| == n || (|s| == n + 1 && |s[n]| > 0)) &&
      forall r :: 0 <= r < n ==>
        FillFront(Flatten(s[r..]), demands, capacity, 0) == Ok((s[r], Flatten(s[r + 1..])))
  {
    var s := InitialSpec(customers, numVehicles, capacity, demands).value;
    var p := FillVehicles(customers, numVehicles, demands, capacity).value;
    var n := VehicleCount(numVehicles);
    VehiclesRoutes(customers, numVehicles, demands, capacity);
    if |p.1| > 0 {
      assert s == p.0 + [p.1];
      FlattenAppend(p.0, [p.1]);
      FlattenSingle(p.1);
      LeftoverRoutes(p.0, p.1, demands, capacity);
    } else {
      assert s == p.0;
      NoLeftoverRoutes(p.0, p.1, demands, capacity);
    }
  }

  /** Each vehicle's route still takes the same prefix once the leftover
      route closes the solution. */
  lemma {:induction false} LeftoverRoutes(routes: seq<seq<int>>, left: seq<int>, demands: map<int, int>, capacity: int)
    requires |left| > 0
    requires forall r :: 0 <= r < |routes| ==>
      FillFront(Flatten(routes[r..]) + left, demands, capacity, 0) == Ok((routes[r], Flatten(routes[r + 1..]) + left))
    ensures var s := routes + [left];
      forall r :: 0 <= r < |routes| ==>
        FillFront(Flatten(s[r..]), demands, capacity, 0) == Ok((s[r], Flatten(s[r + 1..])))
  {
    forall r | 0 <= r < |routes|
      ensures FillFront(Flatten((routes + [left])[r..]), demands, capacity, 0) ==
        Ok(((routes + [left])[r], Flatten((routes + [left])[r + 1..])))
    {
      LeftoverSuffix(routes, left, r);
    }
  }

  /** Without leftover customers the suffixes are unchanged. */
  lemma {:induction false} NoLeftoverRoutes(routes: seq<seq<int>>, left: seq<int>, demands: map<int, int>, capacity: int)
    requires left == []
    requires forall r :: 0 <= r < |routes| ==>
      FillFront(Flatten(routes[r..]) + left, demands, capacity, 0) == Ok((routes[r], Flatten(routes[r + 1..]) + left))
    ensures forall r :: 0 <= r < |routes| ==>
      FillFront(Flatten(routes[r..]), demands, capacity, 0) == Ok((routes[r], Flatten(routes[r + 1..])))
  {
    forall r | 0 <= r < |routes|
      ensures FillFront(Flatten(routes[r..]), demands, capacity, 0) == Ok((routes[r], Flatten(routes[r + 1..])))
    {
      assert Flatten(routes[r..]) + left == Flatten(routes[r..]);
      assert Flatten(routes[r + 1..]) + left == Flatten(routes[r + 1..]);
    }
  }

  /** Appending the leftover route to the vehicles' routes appends the
      leftover customers to every suffix's concatenation. */
  lemma {:induction false} LeftoverSuffix(routes: seq<seq<int>>, left: seq<int>, r: nat)
    requires r < |routes| && |left| > 0
    ensures (routes + [left])[r] == routes[r]
    ensures Flatten((routes + [left])[r..]) == Flatten(routes[r..]) + left
    ensures Flatten((routes + [left])[r + 1..]) == Flatten(routes[r + 1..]) + left
  {
    var s := routes + [left];
    assert s[r..] == routes[r..] + [left] && s[r + 1..] == routes[r + 1..] + [left];
    FlattenAppend(routes[r..], [left]);
    FlattenAppend(routes[r + 1..], [left]);
    FlattenSingle(left);
  }

  /** Each of the first num_vehicles routes passes the verifier's capacity
      check at every prefix; only the leftover route is unchecked. */
  lemma {:induction false} InitialCapacity(customers: seq<int>, numVehicles: int, capacity: int, demands: map<int, int>)
    requires InitialSpec(customers, numVehicles, capacity, demands).Ok?
    ensures var s := InitialSpec(customers, numVehicles, capacity, demands).value;
      |s| >= VehicleCount(numVehicles) &&
      forall r :: 0 <= r < VehicleCount(numVehicles) ==>
        Demanded(s[r], demands) && PrefixesFit(s[r], demands, 0, capacity)
  {
    var s := InitialSpec(customers, numVehicles, capacity, demands).value;
    InitialRoutes(customers, numVehicles, capacity, demands);
    forall r | 0 <= r < VehicleCount(numVehicles)
      ensures Demanded(s[r], demands) && PrefixesFit(s[r], demands, 0, capacity)
    {
      assert FillFront(Flatten(s[r..]), demands, capacity, 0) == Ok((s[r], Flatten(s[r + 1..])));
      FillFrontLongest(Flatten(s[r..]), demands, capacity, 0);
    }
  }

  /** From a shuffle of 1..n, the initial solution holds every customer
      1..n exactly once. */
  lemma {:induction false} InitialCustomers(customers: seq<int>, numVehicles: int, capacity: int,
                                            demands: map<int, int>)
    requires IsShuffle(customers, |demands|)
    requires InitialSpec(customers, numVehicles, capacity, demands).Ok?
    ensures multiset(Flatten(InitialSpec(customers, numVehicles, capacity, demands).value)) ==
            multiset(CustomerIds(|demands|))
  {
    InitialRoutes(customers, numVehicles, capacity, demands);
  }

  // ---------------------------------------------------------------------
  // perturb_solution

  /** perturb_solution: random.sample raises ValueError with fewer than two
      routes; with both chosen routes non-empty, the chosen customers trade
      places, each going to the end of the other route. */
  function Perturb(solution: Solution, d: Draw): (r: Result<Solution>)
    ensures r.Err? <==> |solution| < 2
    ensures r.Err? ==> r.error == ValueError
  {
    if |solution| < 2 then Err(ValueError)
    else
      var p := Pair(|solution|, d.first, d.second);
      var route1, route2 := solution[p.a], solution[p.b];
      if |route1| == 0 || |route2| == 0 then Ok(solution)
      else Ok(Exchange(solution, p.a, p.b, route1[d.pick1 % |route1|], route2[d.pick2 % |route2|]))
  }

  /** The copy of the solution, changed in place step by step. */
  method PerturbSolution(solution: Solution, d: Draw) returns (res: Result<Solution>)
    ensures res == Perturb(solution, d)
  {
    if |solution| < 2 {
      return Err(ValueError);
    }
    var newSolution := solution;
    var p := Pair(|newSolution|, d.first, d.second);
    var route1, route2 := p.a, p.b;
    if |newSolution[route1]| > 0 && |newSolution[route2]| > 0 {
      var customer1 := newSolution[route1][d.pick1 % |newSolution[route1]|];
      var customer2 := newSolution[route2][d.pick2 % |newSolution[route2]|];
      newSolution := newSolution[route1 := RemoveFirst(newSolution[route1], customer1)];
      newSolution := newSolution[route2 := RemoveFirst(newSolution[route2], customer2)];
      newSolution := newSolution[route1 := newSolution[route1] + [customer2]];
      newSolution := newSolution[route2 := newSolution[route2] + [customer1]];
      assert newSolution == Exchange(solution, route1, route2, customer1, customer2);
    }
    return Ok(newSolution);
  }

  /** A perturbation keeps the number of routes, the length of every route
      and the multiset of customers; only the two drawn routes change, and
      nothing changes when one of them is empty. */
  lemma {:induction false} PerturbKeeps(solution: Solution, d: Draw)
    requires |solution| >= 2
    ensures var s := Perturb(solution, d).value;
      var p := Pair(|solution|, d.first, d.second);
      |s| == |solution| && multiset(Flatten(s)) == multiset(Flatten(solution)) &&
      (forall r :: 0 <= r < |s| ==> |s[r]| == |solution[r]|) &&
      (forall r :: 0 <= r < |s| && r != p.a && r != p.b ==> s[r] == solution[r]) &&
      (|solution[p.a]| == 0 || |solution[p.b]| == 0 ==> s == solution)
  {
    var p := Pair(|solution|, d.first, d.second);
    var route1, route2 := solution[p.a], solution[p.b];
    if |route1| > 0 && |route2| > 0 {
      var x, y := route1[d.pick1 % |route1|], route2[d.pick2 % |route2|];
      ExchangeKeeps(solution, p.a, p.b, x, y);
    }
  }

  /** Every swap of a customer of one route with a customer of another is
      the outcome of some draw, whatever the loads. */
  lemma {:induction false} PerturbReachable(solution: Solution, a: nat, b: nat, i: nat, j: nat)
    requires a < |solution| && b < |solution| && a != b && i < |solution[a]| && j < |solution[b]|
    ensures Perturb(solution, Draw(a, if b > a then b - 1 else b, i, j)) ==
            Ok(Exchange(solution, a, b, solution[a][i], solution[b][j]))
  {
    PairReachable(|solution|, a, b);
    ModSmall(i, |solution[a]|);
    ModSmall(j, |solution[b]|);
  }

  // ---------------------------------------------------------------------
  // simulated_annealing

  /** The random outcomes behind one pass of the inner loop: the draws of
      perturb_solution, and whether `random.random() < exp(-cost_diff /
      temperature)` holds (consulted only for a feasible candidate that is
      not cheaper). */
  datatype Step = Step(move: Draw, accept: bool)

  /** The loop's variables. `accepted` counts the accepted moves; the
      source does not keep it, the model uses it to state the cooling. */
  datatype State = State(current: Solution, currentCost: real, best: Solution, bestCost: real,
                         temp: real, accepted: nat)

  /** A pass either ends at `continue` (the candidate is infeasible) or
      reaches the temperature test with a new state. */
  datatype Trial = Skipped | Tried(next: State)

  /** temperature *= alpha. */
  function Cooled(temp: real, alpha: real): real {
    temp * alpha
  }

  /** Lines 92-99: the candidate becomes current, the temperature drops by
      the factor alpha, and the best is replaced on strict improvement. */
  function Accept(st: State, candidate: Solution, cost: real, alpha: real): State {
    var temp := Cooled(st.temp, alpha);
    if cost < st.bestCost then State(candidate, cost, candidate, cost, temp, st.accepted + 1)
    else State(candidate, cost, st.best, st.bestCost, temp, st.accepted + 1)
  }

  /** One pass of the for loop (lines 82-99). */
  ghost function Pass(inst: Instance, dist: Distance, alpha: real, st: State, step: Step): Result<Trial> {
    match Perturb(st.current, step.move)
    case Err(e) => Err(e)
    case Ok(candidate) =>
      match VerifySpec(inst, dist, candidate)
      case Err(e) => Err(e)
      case Ok(verdict) =>
        if !verdict.feasible then Ok(Skipped)
        else
          match CostSpec(inst.nodes, dist, candidate)
          case Err(e) => Err(e)
          case Ok(newCost) => Decide(st, candidate, newCost, alpha, step.accept)
  }

  /** Line 91 onwards for a feasible candidate of cost newCost: a cheaper
      one is accepted without consulting the random test; otherwise the
      division by the temperature raises ZeroDivisionError at temperature 0;
      where the exponent is not negative (ExponentNonNegative) exp is at
      least 1, above any random.random(), so the candidate is accepted too;
      only for a negative exponent does the random test decide. */
  function Decide(st: State, candidate: Solution, newCost: real, alpha: real, accept: bool): Result<Trial> {
    var costDiff := newCost - st.currentCost;
    if costDiff < 0.0 then Ok(Tried(Accept(st, candidate, newCost, alpha)))
    else if st.temp == 0.0 then Err(ZeroDivisionError)
    else if costDiff == 0.0 || st.temp < 0.0 || accept then Ok(Tried(Accept(st, candidate, newCost, alpha)))
    else Ok(Tried(st))
  }

  /** For a candidate that is not cheaper and a non-zero temperature, the
      exponent -cost_diff / temperature of line 91 is non-negative exactly
      when the cost does not change or the temperature is negative. */
  lemma {:induction false} ExponentNonNegative(costDiff: real, temp: real)
    requires costDiff >= 0.0 && temp != 0.0
    ensures -costDiff / temp >= 0.0 <==> costDiff == 0.0 || temp < 0.0
  {
    var q := -costDiff / temp;
    assert q * temp == -costDiff;
    if temp > 0.0 && costDiff > 0.0 {
      assert q < 0.0;
    }
  }

  /** The nested loops from the state st, with one Step per pass. When
      i < maxIter, pass i of the for loop is next; otherwise the while test
      is. The result is the state at `return`, or Diverges where the while
      loop spins with an empty for loop, or Exhausted when the steps run
      out. */
  ghost function Anneal(inst: Instance, dist: Distance, finalTemp: real, alpha: real, maxIter: int,
                        st: State, i: int, steps: seq<Step>): Result<State>
    decreases |steps|, if i < maxIter then 0 else 1
  {
    if i >= maxIter then
      if !(st.temp > finalTemp) then Ok(st)
      else if maxIter <= 0 then Err(Diverges)
      else Anneal(inst, dist, finalTemp, alpha, maxIter, st, 0, steps)
    else if |steps| == 0 then Err(Exhausted)
    else
      match Pass(inst, dist, alpha, st, steps[0])
      case Err(e) => Err(e)
      case Ok(Skipped) => Anneal(inst, dist, finalTemp, alpha, maxIter, st, i + 1, steps[1..])
      case Ok(Tried(next)) =>
        if next.temp < finalTemp then Ok(next)
        else Anneal(inst, dist, finalTemp, alpha, maxIter, next, i + 1, steps[1..])
  }

  /** The state before the while loop. */
  function Start(init: Solution, cost: real, initialTemp: real): State {
    State(init, cost, init, cost, initialTemp, 0)
  }

  /** simulated_annealing: the instance lookups (a missing "trucks" raises
      KeyError), the initial solution and its cost, and the loops. */
  ghost function AnnealSpec(inst: Instance, dist: Distance, initialTemp: real, finalTemp: real, alpha: real,
                            maxIter: int, shuffled: seq<int>, steps: seq<Step>): Result<(Solution, real)> {
    if inst.trucks.None? then Err(KeyError)
    else
      match InitialSpec(shuffled, inst.trucks.value, inst.capacity, inst.demands)
      case Err(e) => Err(e)
      case Ok(init) =>
        match CostSpec(inst.nodes, dist, init)
        case Err(e) => Err(e)
        case Ok(cost) =>
          match Anneal(inst, dist, finalTemp, alpha, maxIter, Start(init, cost, initialTemp), maxIter, steps)
          case Err(e) => Err(e)
          case Ok(st) => Ok((st.best, st.bestCost))
  }

  /** One pass of the for loop. */
  method TryMove(inst: Instance, dist: Distance, alpha: real, st: State, step: Step) returns (res: Result<Trial>)
    ensures res == Pass(inst, dist, alpha, st, step)
  {
    var candidate := PerturbSolution(st.current, step.move);
    if candidate.Err? {
      return Err(candidate.error);
    }
    var newSolution := candidate.value;
    var verdict := VerifySolution(inst, dist, newSolution);
    if verdict.Err? {
      return Err(verdict.error);
    }
    if !verdict.value.feasible {
      return Ok(Skipped);
    }
    var newCost := CalculateCost(newSolution, inst.nodes, dist);
    if newCost.Err? {
      return Err(newCost.error);
    }
    assert Pass(inst, dist, alpha, st, step) == Decide(st, newSolution, newCost.value, alpha, step.accept);
    res := DecideMove(st, newSolution, newCost.value, alpha, step.accept);
  }

  /** Lines 90-99 for a feasible candidate: the acceptance test, the
      assignments to the current and best solutions, and the cooling. */
  method DecideMove(st: State, newSolution: Solution, newCost: real, alpha: real, accept: bool)
    returns (res: Result<Trial>)
    ensures res == Decide(st, newSolution, newCost, alpha, accept)
  {
    var costDiff := newCost - st.currentCost;
    if costDiff >= 0.0 && st.temp == 0.0 {
      return Err(ZeroDivisionError);
    }
    if costDiff < 0.0 || costDiff == 0.0 || st.temp < 0.0 || accept {
      var current, currentCost := newSolution, newCost;
      var temperature := Cooled(st.temp, alpha);
      var best, bestCost := st.best, st.bestCost;
      if currentCost < bestCost {
        best, bestCost := current, currentCost;
      }
      return Ok(Tried(State(current, currentCost, best, bestCost, temperature, st.accepted + 1)));
    }
    return Ok(Tried(st));
  }

  /** How one pass of the for loop continues the loops. */
  lemma {:induction false} AnnealPass(inst: Instance, dist: Distance, finalTemp: real, alpha: real, maxIter: int,
                                      st: State, i: int, steps: seq<Step>)
    requires i < maxIter && |steps| > 0 && Pass(inst, dist, alpha, st, steps[0]).Ok?
    ensures var t := Pass(inst, dist, alpha, st, steps[0]).value;
      var next := if t.Tried? then t.next else st;
      Anneal(inst, dist, finalTemp, alpha, maxIter, st, i, steps) ==
        if t.Tried? && next.temp < finalTemp then Ok(next)
        else Anneal(inst, dist, finalTemp, alpha, maxIter, next, i + 1, steps[1..])
  {
  }

  /** One round of the while loop: the for loop from pass 0, with the
      steps from position k on. It returns the state and the position of
      the next unused step: a round makes at least one pass and at most
      max_iterations. */
  method Round(inst: Instance, dist: Distance, finalTemp: real, alpha: real, maxIterations: int,
               st: State, steps: seq<Step>, k: nat) returns (res: Result<(State, nat)>)
    requires 0 < maxIterations && k <= |steps|
    ensures res.Ok? ==> k < res.value.1 <= k + maxIterations
    ensures res.Ok? ==> (k < res.value.1 <= |steps| &&
      Anneal(inst, dist, finalTemp, alpha, maxIterations, st, 0, steps[k..]) ==
      Anneal(inst, dist, finalTemp, alpha, maxIterations, res.value.0, maxIterations, steps[res.value.1..]))
    ensures res.Err? ==> Anneal(inst, dist, finalTemp, alpha, maxIterations, st, 0, steps[k..]) == Err(res.error)
  {
    ghost var goal := Anneal(inst, dist, finalTemp, alpha, maxIterations, st, 0, steps[k..]);
    var current := st;
    var j: nat := k;
    var i := 0;
    while i < maxIterations
      invariant 0 <= i <= maxIterations && j == k + i && j <= |steps|
      invariant goal == Anneal(inst, dist, finalTemp, alpha, maxIterations, current, i, steps[j..])
    {
      if j == |steps| {
        return Err(Exhausted);
      }
      var t := TryMove(inst, dist, alpha, current, steps[j]);
      if t.Err? {
        return Err(t.error);
      }
      AnnealPass(inst, dist, finalTemp, alpha, maxIterations, current, i, steps[j..]);
      assert steps[j..][0] == steps[j] && steps[j..][1..] == steps[j + 1..];
      ghost var rest := Anneal(inst, dist, finalTemp, alpha, maxIterations,
                               if t.value.Tried? then t.value.next else current, i + 1, steps[j + 1..]);
      assert goal == if t.value.Tried? && t.value.next.temp < finalTemp then Ok(t.value.next) else rest;
      j := j + 1;
      i := i + 1;
      if t.value.Tried? {
        current := t.value.next;
        if current.temp < finalTemp {
          break;
        }
      }
      assert goal == rest;
    }
    return Ok((current, j));
  }

  /** simulated_annealing with the shuffle and the steps given. */
  method SimulatedAnnealing(inst: Instance, dist: Distance, initialTemp: real, finalTemp: real, alpha: real,
                            maxIterations: int, shuffled: seq<int>, steps: seq<Step>)
    returns (res: Result<(Solution, real)>)
    requires IsShuffle(shuffled, |inst.demands|)
    ensures res == AnnealSpec(inst, dist, initialTemp, finalTemp, alpha, maxIterations, shuffled, steps)
  {
    if inst.trucks.None? {
      return Err(KeyError);
    }
    var numVehicles := inst.trucks.value;
    var init := GenerateInitialSolution(shuffled, numVehicles, inst.capacity, inst.demands);
    if init.Err? {
      return Err(init.error);
    }
    var cost := CalculateCost(init.value, inst.nodes, dist);
    if cost.Err? {
      return Err(cost.error);
    }
    var st := Start(init.value, cost.value, initialTemp);
    ghost var goal := Anneal(inst, dist, finalTemp, alpha, maxIterations, st, maxIterations, steps);
    var k := 0;
    while st.temp > finalTemp
      invariant 0 <= k <= |steps|
      invariant goal == Anneal(inst, dist, finalTemp, alpha, maxIterations, st, maxIterations, steps[k..])
      decreases |steps| - k
    {
      if maxIterations <= 0 {
        return Err(Diverges);
      }
      var r := Round(inst, dist, finalTemp, alpha, maxIterations, st, steps, k);
      if r.Err? {
        return Err(r.error);
      }
      st, k := r.value.0, r.value.1;
    }
    return Ok((st.best, st.bestCost));
  }

  // ---------------------------------------------------------------------
  // Lemmas about the search

  /** t0 multiplied by alpha k times. */
  function CooledTimes(t0: real, alpha: real, k: nat): real {
    if k == 0 then t0 else Cooled(CooledTimes(t0, alpha, k - 1), alpha)
  }

  /** verify_solution returns True for s. */
  ghost predicate Verified(inst: Instance, dist: Distance, s: Solution) {
    VerifySpec(inst, dist, s).Ok? && VerifySpec(inst, dist, s).value.feasible
  }

  /** What holds of the loop's variables throughout, for a search that
      started from `init` of cost initCost at temperature t0: both costs are
      calculate_cost of their solutions, the best is no dearer than the
      current one nor than the start, each of the two solutions is the start
      or a solution the verifier accepts, both keep the start's route count
      and customers, and the temperature is t0 cooled once per accepted
      move. */
  ghost predicate Sound(inst: Instance, dist: Distance, t0: real, alpha: real, init: Solution, initCost: real,
                        st: State) {
    CostSpec(inst.nodes, dist, st.current) == Ok(st.currentCost) &&
    CostSpec(inst.nodes, dist, st.best) == Ok(st.bestCost) &&
    st.bestCost <= st.currentCost && st.bestCost <= initCost &&
    Kept(inst, dist, init, st.current) && Kept(inst, dist, init, st.best) &&
    st.temp == CooledTimes(t0, alpha, st.accepted)
  }

  /** s is the start or a solution the verifier accepts, with the start's
      route count and customers. */
  ghost predicate Kept(inst: Instance, dist: Distance, init: Solution, s: Solution) {
    (s == init || Verified(inst, dist, s)) &&
    |s| == |init| && multiset(Flatten(s)) == multiset(Flatten(init))
  }

  /** A pass keeps Sound. A rejected candidate leaves every variable as it
      was; an accepted one cools the temperature once. best_cost never
      increases, and the best solution changes only on a strict improvement,
      to the new current solution. */
  lemma {:induction false} PassSound(inst: Instance, dist: Distance, t0: real, alpha: real, init: Solution,
                                     initCost: real, st: State, step: Step)
    requires Sound(inst, dist, t0, alpha, init, initCost, st)
    requires Pass(inst, dist, alpha, st, step).Ok? && Pass(inst, dist, alpha, st, step).value.Tried?
    ensures var next := Pass(inst, dist, alpha, st, step).value.next;
      Sound(inst, dist, t0, alpha, init, initCost, next) &&
      next.bestCost <= st.bestCost &&
      (next.best != st.best ==> next.bestCost < st.bestCost && next.best == next.current) &&
      (next == st || (next.accepted == st.accepted + 1 && next.temp == Cooled(st.temp, alpha)))
  {
    var c := Perturb(st.current, step.move).value;
    PerturbKeeps(st.current, step.move);
    var newCost := CostSpec(inst.nodes, dist, c).value;
    assert Pass(inst, dist, alpha, st, step) == Decide(st, c, newCost, alpha, step.accept);
    assert Kept(inst, dist, init, c);
    DecideSound(inst, dist, t0, alpha, init, initCost, st, c, newCost, step.accept);
  }

  /** The same for the acceptance decision on a feasible candidate c with
      the start's route count and customers. */
  lemma {:induction false} DecideSound(inst: Instance, dist: Distance, t0: real, alpha: real, init: Solution,
                                       initCost: real, st: State, c: Solution, newCost: real, accept: bool)
    requires Sound(inst, dist, t0, alpha, init, initCost, st)
    requires CostSpec(inst.nodes, dist, c) == Ok(newCost) && Kept(inst, dist, init, c)
    requires Decide(st, c, newCost, alpha, accept).Ok? && Decide(st, c, newCost, alpha, accept).value.Tried?
    ensures var next := Decide(st, c, newCost, alpha, accept).value.next;
      Sound(inst, dist, t0, alpha, init, initCost, next) &&
      next.bestCost <= st.bestCost &&
      (next.best != st.best ==> next.bestCost < st.bestCost && next.best == next.current) &&
      (next == st || (next.accepted == st.accepted + 1 && next.temp == Cooled(st.temp, alpha)))
  {
    if newCost - st.currentCost <= 0.0 || st.temp < 0.0 || accept {
      assert Decide(st, c, newCost, alpha, accept).value.next == Accept(st, c, newCost, alpha);
      AcceptSound(inst, dist, t0, alpha, init, initCost, st, c, newCost);
    } else {
      assert Decide(st, c, newCost, alpha, accept).value.next == st;
    }
  }

  /** Adopting c keeps Sound. */
  lemma {:induction false} AcceptSound(inst: Instance, dist: Distance, t0: real, alpha: real, init: Solution,
                                       initCost: real, st: State, c: Solution, newCost: real)
    requires Sound(inst, dist, t0, alpha, init, initCost, st)
    requires CostSpec(inst.nodes, dist, c) == Ok(newCost) && Kept(inst, dist, init, c)
    ensures Sound(inst, dist, t0, alpha, init, initCost, Accept(st, c, newCost, alpha))
  {
    if newCost < st.bestCost {
      AcceptBetter(inst, dist, t0, alpha, init, initCost, st, c, newCost);
    } else {
      AcceptNoBetter(inst, dist, t0, alpha, init, initCost, st, c, newCost);
    }
  }

  /** A strictly cheaper candidate becomes both the current and the best
      solution. */
  lemma {:induction false} AcceptBetter(inst: Instance, dist: Distance, t0: real, alpha: real, init: Solution,
                                        initCost: real, st: State, c: Solution, newCost: real)
    requires newCost < st.bestCost <= initCost && st.temp == CooledTimes(t0, alpha, st.accepted)
    requires CostSpec(inst.nodes, dist, c) == Ok(newCost) && Kept(inst, dist, init, c)
    ensures Sound(inst, dist, t0, alpha, init, initCost, Accept(st, c, newCost, alpha))
  {
    CooledNext(t0, alpha, st.accepted);
    assert Accept(st, c, newCost, alpha) == State(c, newCost, c, newCost, Cooled(st.temp, alpha), st.accepted + 1);
    SoundState(inst, dist, t0, alpha, init, initCost, State(c, newCost, c, newCost, Cooled(st.temp, alpha), st.accepted + 1));
  }

  /** Any other accepted candidate becomes the current solution only. */
  lemma {:induction false} AcceptNoBetter(inst: Instance, dist: Distance, t0: real, alpha: real, init: Solution,
                                          initCost: real, st: State, c: Solution, newCost: real)
    requires Sound(inst, dist, t0, alpha, init, initCost, st) && !(newCost < st.bestCost)
    requires CostSpec(inst.nodes, dist, c) == Ok(newCost) && Kept(inst, dist, init, c)
    ensures Sound(inst, dist, t0, alpha, init, initCost, Accept(st, c, newCost, alpha))
  {
    CooledNext(t0, alpha, st.accepted);
    assert Accept(st, c, newCost, alpha) == State(c, newCost, st.best, st.bestCost, Cooled(st.temp, alpha), st.accepted + 1);
    SoundState(inst, dist, t0, alpha, init, initCost, State(c, newCost, st.best, st.bestCost, Cooled(st.temp, alpha), st.accepted + 1));
  }

  /** One more cooling step. */
  lemma {:induction false} CooledNext(t0: real, alpha: real, k: nat)
    ensures Cooled(CooledTimes(t0, alpha, k), alpha) == CooledTimes(t0, alpha, k + 1)
  {
  }

  /** Sound, conjunct by conjunct. */
  lemma {:induction false} SoundState(inst: Instance, dist: Distance, t0: real, alpha: real, init: Solution,
                                      initCost: real, st: State)
    requires CostSpec(inst.nodes, dist, st.current) == Ok(st.currentCost)
    requires CostSpec(inst.nodes, dist, st.best) == Ok(st.bestCost)
    requires st.bestCost <= st.currentCost && st.bestCost <= initCost
    requires Kept(inst, dist, init, st.current) && Kept(inst, dist, init, st.best)
    requires st.temp == CooledTimes(t0, alpha, st.accepted)
    ensures Sound(inst, dist, t0, alpha, init, initCost, st)
  {
  }

  /** The loops keep Sound; when they return, the temperature is no longer
      above the final one, best_cost is no dearer than at the start, and
      the count of accepted moves has only grown. */
  lemma {:induction false} AnnealSound(inst: Instance, dist: Distance, finalTemp: real, alpha: real, maxIter: int,
                                       t0: real, init: Solution, initCost: real, st: State, i: int, steps: seq<Step>)
    requires Sound(inst, dist, t0, alpha, init, initCost, st)
    requires Anneal(inst, dist, finalTemp, alpha, maxIter, st, i, steps).Ok?
    ensures var fin := Anneal(inst, dist, finalTemp, alpha, maxIter, st, i, steps).value;
      Sound(inst, dist, t0, alpha, init, initCost, fin) && fin.bestCost <= st.bestCost &&
      fin.accepted >= st.accepted && !(fin.temp > finalTemp)
    decreases |steps|, if i < maxIter then 0 else 1
  {
    ghost var goal := Anneal(inst, dist, finalTemp, alpha, maxIter, st, i, steps);
    if i >= maxIter {
      if st.temp > finalTemp {
        assert goal == Anneal(inst, dist, finalTemp, alpha, maxIter, st, 0, steps);
        AnnealSound(inst, dist, finalTemp, alpha, maxIter, t0, init, initCost, st, 0, steps);
      }
    } else {
      var t := Pass(inst, dist, alpha, st, steps[0]).value;
      if t.Skipped? {
        assert goal == Anneal(inst, dist, finalTemp, alpha, maxIter, st, i + 1, steps[1..]);
        AnnealSound(inst, dist, finalTemp, alpha, maxIter, t0, init, initCost, st, i + 1, steps[1..]);
      } else {
        PassSound(inst, dist, t0, alpha, init, initCost, st, steps[0]);
        if t.next.temp >= finalTemp {
          assert goal == Anneal(inst, dist, finalTemp, alpha, maxIter, t.next, i + 1, steps[1..]);
          AnnealSound(inst, dist, finalTemp, alpha, maxIter, t0, init, initCost, t.next, i + 1, steps[1..]);
        } else {
          assert goal == Ok(t.next);
        }
      }
    }
  }

  /** What simulated_annealing returns: a cost that is calculate_cost of the
      returned solution and no dearer than the initial solution's; a solution
      that is the initial one or one the verifier accepts, with the initial
      route count and customers; and it returns only once the temperature,
      initialTemp multiplied by alpha once per accepted move, is at most
      finalTemp. */
  lemma {:induction false} AnnealResult(inst: Instance, dist: Distance, initialTemp: real, finalTemp: real,
                                        alpha: real, maxIter: int, shuffled: seq<int>, steps: seq<Step>)
    requires AnnealSpec(inst, dist, initialTemp, finalTemp, alpha, maxIter, shuffled, steps).Ok?
    ensures inst.trucks.Some? && InitialSpec(shuffled, inst.trucks.value, inst.capacity, inst.demands).Ok?
    ensures var init := InitialSpec(shuffled, inst.trucks.value, inst.capacity, inst.demands).value;
      var r := AnnealSpec(inst, dist, initialTemp, finalTemp, alpha, maxIter, shuffled, steps).value;
      CostSpec(inst.nodes, dist, init).Ok? && CostSpec(inst.nodes, dist, r.0) == Ok(r.1) &&
      r.1 <= CostSpec(inst.nodes, dist, init).value &&
      (r.0 == init || (Verified(inst, dist, r.0) && Feasible(inst, r.0))) &&
      |r.0| == |init| && multiset(Flatten(r.0)) == multiset(Flatten(init)) &&
      exists k: nat :: CooledTimes(initialTemp, alpha, k) <= finalTemp
  {
    var init := InitialSpec(shuffled, inst.trucks.value, inst.capacity, inst.demands).value;
    var cost := CostSpec(inst.nodes, dist, init).value;
    var st := Start(init, cost, initialTemp);
    assert Sound(inst, dist, initialTemp, alpha, init, cost, st);
    AnnealSound(inst, dist, finalTemp, alpha, maxIter, initialTemp, init, cost, st, maxIter, steps);
    var fin := Anneal(inst, dist, finalTemp, alpha, maxIter, st, maxIter, steps).value;
    assert CooledTimes(initialTemp, alpha, fin.accepted) <= finalTemp;
    VerifyFeasibleIff(inst, dist, fin.best);
  }

  /** The random acceptance test matters exactly when its outcome is not
      fixed: the candidate is feasible, has a cost, is strictly costlier
      than the current solution, and the temperature is positive. */
  lemma {:induction false} PassConsultsTest(inst: Instance, dist: Distance, alpha: real, st: State, move: Draw)
    ensures Pass(inst, dist, alpha, st, Step(move, true)) != Pass(inst, dist, alpha, st, Step(move, false)) <==>
      Perturb(st.current, move).Ok? && Feasible(inst, Perturb(st.current, move).value) &&
      CostSpec(inst.nodes, dist, Perturb(st.current, move).value).Ok? &&
      CostSpec(inst.nodes, dist, Perturb(st.current, move).value).value > st.currentCost &&
      st.temp > 0.0
  {
    if Perturb(st.current, move).Ok? {
      VerifyFeasibleIff(inst, dist, Perturb(st.current, move).value);
    }
  }

  /** With a route count other than the truck count, every candidate keeps
      that count and the verifier turns it down, so no move is ever accepted
      and the temperature never falls: above the final temperature the loops
      never return, whatever the steps. */
  lemma {:induction false} AnnealStalls(inst: Instance, dist: Distance, finalTemp: real, alpha: real, maxIter: int,
                                        st: State, i: int, steps: seq<Step>)
    requires inst.trucks.Some? && |st.current| != inst.trucks.value
    requires st.temp > finalTemp && 0 < maxIter
    ensures Anneal(inst, dist, finalTemp, alpha, maxIter, st, i, steps) ==
      Err(if |st.current| < 2 && |steps| > 0 then ValueError else Exhausted)
    decreases |steps|, if i < maxIter then 0 else 1
  {
    if i >= maxIter {
      AnnealStalls(inst, dist, finalTemp, alpha, maxIter, st, 0, steps);
    } else if |steps| > 0 && |st.current| >= 2 {
      PerturbKeeps(st.current, steps[0].move);
      assert Pass(inst, dist, alpha, st, steps[0]) == Ok(Skipped);
      AnnealStalls(inst, dist, finalTemp, alpha, maxIter, st, i + 1, steps[1..]);
    }
  }

  /** The outer loop makes progress only through accepted moves: with an
      empty inner loop (max_iterations <= 0) it spins for ever, and when the
      initial solution has a route count other than the truck count (a
      leftover route, or a negative count) it never returns either. */
  lemma {:induction false} AnnealNoProgress(inst: Instance, dist: Distance, initialTemp: real, finalTemp: real,
                                            alpha: real, maxIter: int, shuffled: seq<int>, steps: seq<Step>)
    requires initialTemp > finalTemp && inst.trucks.Some?
    requires InitialSpec(shuffled, inst.trucks.value, inst.capacity, inst.demands).Ok?
    requires CostSpec(inst.nodes, dist, InitialSpec(shuffled, inst.trucks.value, inst.capacity, inst.demands).value).Ok?
    ensures maxIter <= 0 ==>
      AnnealSpec(inst, dist, initialTemp, finalTemp, alpha, maxIter, shuffled, steps) == Err(Diverges)
    ensures maxIter > 0 && |InitialSpec(shuffled, inst.trucks.value, inst.capacity, inst.demands).value| != inst.trucks.value ==>
      AnnealSpec(inst, dist, initialTemp, finalTemp, alpha, maxIter, shuffled, steps).Err?
  {
    var init := InitialSpec(shuffled, inst.trucks.value, inst.capacity, inst.demands).value;
    var cost := CostSpec(inst.nodes, dist, init).value;
    if maxIter > 0 && |init| != inst.trucks.value {
      AnnealStalls(inst, dist, finalTemp, alpha, maxIter, Start(init, cost, initialTemp), maxIter, steps);
    }
  }

  /** An instance read by read_instance has no "trucks" entry, so
      simulated_annealing raises KeyError on it before doing anything else. */
  lemma {:induction false} ReadInstanceLacksTrucks(data: InstanceReader.Data, dist: Distance, initialTemp: real,
                                                   finalTemp: real, alpha: real, maxIter: int, shuffled: seq<int>,
                                                   steps: seq<Step>)
    requires InstanceReader.ToInstance(data).Ok?
    ensures AnnealSpec(InstanceReader.ToInstance(data).value, dist, initialTemp, finalTemp, alpha, maxIter,
                       shuffled, steps) == Err(KeyError)
  {
  }
}
