/** What greedy_cvrp (submissions/team2/heuristiqueGloutonne.py) delivers:
    the routes partition the customers it starts from, it runs for ever
    exactly when some sweep cannot place anybody, and a route can end up
    over capacity because every pass restarts at full capacity. */
module GreedyProperties {
  import opened Wrappers
  import opened Geometry
  import opened Routes
  import opened Greedy

  // ---------------------------------------------------------------------
  // Helpers

  lemma {:induction false} FlattenEmpties(n: nat)
    ensures Flatten(seq(n, _ => [])) == []
  {
    if n > 0 {
      var s: Solution := seq(n, _ => []);
      assert s[..n - 1] == seq(n - 1, _ => []);
      FlattenEmpties(n - 1);
    }
  }

  lemma {:induction false} SubMultisetLength(a: seq<int>, b: seq<int>)
    requires multiset(a) <= multiset(b)
    ensures |a| <= |b|
  {
    var d := multiset(b) - multiset(a);
    assert multiset(b) == multiset(a) + d;
    assert |multiset(b)| == |multiset(a)| + |d|;
  }

  /** Start is the customer list without its maximum: each customer once. */
  lemma {:induction false} StartShape(order: seq<int>, demands: map<int, int>)
    requires Enumerates(order, demands.Keys - {0}) && demands.Keys - {0} != {}
    ensures NoDuplicates(Start(order, demands))
    ensures Elements(Start(order, demands)) == demands.Keys - {0} - {SetMax(demands.Keys - {0})}
  {
    var m := SetMax(demands.Keys - {0});
    var s := Start(order, demands);
    EnumeratesElements(order, demands.Keys - {0});
    assert m in order;
    RemoveFirstMultiset(order, m);
    assert multiset(s) + multiset{m} == multiset(order);
    forall x ensures multiset(s)[x] <= 1 {
      assert (multiset(s) + multiset{m})[x] == multiset(order)[x];
    }
    NoDuplicatesCount(s);
    forall x ensures x in Elements(s) <==> x in demands.Keys - {0} - {m} {
      assert (multiset(s) + multiset{m})[x] == multiset(order)[x];
      assert x in Elements(order) <==> x in order;
      assert multiset(order)[x] <= 1;
    }
  }

  // ---------------------------------------------------------------------
  // The partition

  /** An answer of greedy_cvrp has `trucks` routes (none for a negative
      count) holding every customer except the depot 0 and the largest id,
      each exactly once. */
  lemma {:induction false} GreedyPartition(coords: map<int, Point>, demands: map<int, int>, capacity: int,
                                           trucks: int, order: seq<int>, dist: Distance)
    requires Enumerates(order, demands.Keys - {0})
    ensures var r := GreedySpec(coords, demands, capacity, trucks, order, dist);
      r.Ok? ==>
        demands.Keys - {0} != {} &&
        |r.value.0| == TruckCount(trucks) &&
        multiset(Flatten(r.value.0)) == multiset(Start(order, demands)) &&
        NoDuplicates(Flatten(r.value.0)) &&
        Elements(Flatten(r.value.0)) == demands.Keys - {0} - {SetMax(demands.Keys - {0})}
  {
    if demands.Keys - {0} != {} {
      var empties: Solution := seq(TruckCount(trucks), _ => []);
      var start := Start(order, demands);
      RoundsKeeps(empties, start, demands, capacity, coords, dist);
      FlattenEmpties(TruckCount(trucks));
      assert Placed(empties, start) == multiset(start);
      var r := Rounds(empties, start, demands, capacity, coords, dist);
      if r.Ok? {
        StartShape(order, demands);
        NoDuplicatesMultiset(Flatten(r.value), start);
      }
    }
  }

  // ---------------------------------------------------------------------
  // When the outer loop never ends

  /** With at least one route and every unvisited customer fitting an empty
      truck, a sweep places somebody: the outer loop cannot spin. */
  lemma {:induction false} SweepPlacesOne(routes: Solution, left: seq<int>, demands: map<int, int>, capacity: int,
                                          coords: map<int, Point>, dist: Distance)
    requires |routes| > 0 && |left| > 0
    requires forall i :: 0 <= i < |left| ==> left[i] != 0 && FitsRoom(demands, capacity, left[i])
    ensures var s := Sweep(routes, 0, left, demands, capacity, coords, dist);
      s.Ok? ==> |s.value.1| < |left|
  {
    var cl := Closest(left, demands, capacity, coords, dist, 0);
    if cl.Ok? {
      ClosestOfIsFirstClosest(left, demands, capacity, coords, dist, 0);
      assert FitsRoom(demands, capacity, left[0]);
      var c := cl.value.value;
      ClosestFits(left, demands, capacity, coords, dist, 0);
      ExtendStep(left, demands, capacity, coords, dist, 0, c);
      var e := Extend(left, demands, capacity, coords, dist, 0);
      if e.Ok? {
        SweepStep(routes, 0, left, demands, capacity, coords, dist);
        var added, rest := e.value.0, e.value.1;
        assert |added| > 0;
        assert |multiset(added)| + |multiset(rest)| == |multiset(left)|;
        SweepPlaced(routes[0 := routes[0] + added], 1, rest, demands, capacity, coords, dist);
        var s := Sweep(routes[0 := routes[0] + added], 1, rest, demands, capacity, coords, dist);
        if s.Ok? {
          SubMultisetLength(s.value.1, rest);
        }
      }
    }
  }

  /** A sweep fails only on a missing coordinate, as a pass does. */
  lemma {:induction false} SweepFails(routes: Solution, k: nat, left: seq<int>, demands: map<int, int>,
                                      capacity: int, coords: map<int, Point>, dist: Distance)
    requires k <= |routes|
    ensures Sweep(routes, k, left, demands, capacity, coords, dist).Err? ==>
      Sweep(routes, k, left, demands, capacity, coords, dist).error == KeyError
    decreases |routes| - k
  {
    if k < |routes| && |left| > 0 {
      var e := Extend(left, demands, capacity, coords, dist, 0);
      if e.Ok? {
        SweepFails(routes[k := routes[k] + e.value.0], k + 1, e.value.1, demands, capacity, coords, dist);
      }
    }
  }

  /** Hence Rounds reports Diverges only when there is no route or some
      unvisited customer exceeds the capacity of an empty truck. */
  lemma {:induction false} RoundsProgress(routes: Solution, left: seq<int>, demands: map<int, int>, capacity: int,
                                          coords: map<int, Point>, dist: Distance)
    requires |routes| > 0
    requires forall i :: 0 <= i < |left| ==> left[i] != 0 && FitsRoom(demands, capacity, left[i])
    ensures Rounds(routes, left, demands, capacity, coords, dist) != Err(Diverges)
    decreases |left|
  {
    if |left| > 0 {
      var s := Sweep(routes, 0, left, demands, capacity, coords, dist);
      SweepPlacesOne(routes, left, demands, capacity, coords, dist);
      SweepFails(routes, 0, left, demands, capacity, coords, dist);
      if s.Ok? {
        SweepShape(routes, 0, left, demands, capacity, coords, dist);
        SweepPlaced(routes, 0, left, demands, capacity, coords, dist);
        var rest := s.value.1;
        forall i | 0 <= i < |rest| ensures rest[i] != 0 && FitsRoom(demands, capacity, rest[i]) {
          assert multiset(rest)[rest[i]] > 0;
          assert rest[i] in multiset(left);
        }
        RoundsProgress(s.value.0, rest, demands, capacity, coords, dist);
        assert Rounds(routes, left, demands, capacity, coords, dist) ==
          Rounds(s.value.0, rest, demands, capacity, coords, dist);
      }
    }
  }

  /** greedy_cvrp loops for ever only with no truck or with a customer (other
      than the largest id) whose demand exceeds the capacity. */
  lemma {:induction false} GreedyDiverges(coords: map<int, Point>, demands: map<int, int>, capacity: int,
                                          trucks: int, order: seq<int>, dist: Distance)
    requires Enumerates(order, demands.Keys - {0})
    requires GreedySpec(coords, demands, capacity, trucks, order, dist) == Err(Diverges)
    ensures trucks <= 0 ||
      exists x :: x in demands && x != 0 && x != SetMax(demands.Keys - {0}) && demands[x] > capacity
  {
    assert demands.Keys - {0} != {};
    if trucks > 0 && forall x :: x in demands && x != 0 && x != SetMax(demands.Keys - {0}) ==> demands[x] <= capacity {
      var start := Start(order, demands);
      StartShape(order, demands);
      forall i | 0 <= i < |start| ensures start[i] != 0 && FitsRoom(demands, capacity, start[i]) {
        assert start[i] in Elements(start);
      }
      RoundsProgress(seq(TruckCount(trucks), _ => []), start, demands, capacity, coords, dist);
    }
  }

  /** With no truck, any customer left to place makes the loop spin. */
  lemma {:induction false} GreedyNoTrucks(coords: map<int, Point>, demands: map<int, int>, capacity: int,
                                          trucks: int, order: seq<int>, dist: Distance)
    requires Enumerates(order, demands.Keys - {0}) && trucks <= 0
    requires demands.Keys - {0} != {} && |Start(order, demands)| > 0
    ensures GreedySpec(coords, demands, capacity, trucks, order, dist) == Err(Diverges)
  {
    var empties: Solution := seq(TruckCount(trucks), _ => []);
    assert Sweep(empties, 0, Start(order, demands), demands, capacity, coords, dist) ==
      Ok((empties, Start(order, demands)));
  }

  // ---------------------------------------------------------------------
  // Capacity

  // Customers 1 and 2 demand 6 each against a capacity of 10, with one
  // truck; every point coincides, so every leg measures 0.
  const ExDemands: map<int, int> := map[0 := 0, 1 := 6, 2 := 6, 3 := 1]
  const ExCoords: map<int, Point> :=
    map[0 := Point(0.0, 0.0), 1 := Point(0.0, 0.0), 2 := Point(0.0, 0.0), 3 := Point(0.0, 0.0)]
  const ExDist: Distance := (p, q) => 0.0

  /** The first pass takes 1 and leaves 2, which no longer fits. */
  lemma {:induction false} ExFirstPass()
    ensures Extend([1, 2], ExDemands, 10, ExCoords, ExDist, 0) == Ok(([1], [2]))
  {
    assert ClosestOf([1], ExDemands, 10, ExCoords, ExDist, 0) == Some(1);
    assert ClosestOf([1, 2], ExDemands, 10, ExCoords, ExDist, 0) == Some(1);
    assert Closest([1, 2], ExDemands, 10, ExCoords, ExDist, 0) == Ok(Some(1));
    ExtendStep([1, 2], ExDemands, 10, ExCoords, ExDist, 0, 1);
    assert RemoveFirst([1, 2], 1) == [2];
    assert ClosestOf([2], ExDemands, 4, ExCoords, ExDist, 1) == None;
    assert Closest([2], ExDemands, 4, ExCoords, ExDist, 1) == Ok(None);
    assert ExDemands[1] == 6;
    assert Extend([2], ExDemands, 4, ExCoords, ExDist, 1) == Ok(([], [2]));
    assert [1] + [] == [1];
  }

  /** The second pass restarts at full capacity and takes 2. */
  lemma {:induction false} ExSecondPass()
    ensures Extend([2], ExDemands, 10, ExCoords, ExDist, 0) == Ok(([2], []))
  {
    assert ClosestOf([2], ExDemands, 10, ExCoords, ExDist, 0) == Some(2);
    assert Closest([2], ExDemands, 10, ExCoords, ExDist, 0) == Ok(Some(2));
    ExtendStep([2], ExDemands, 10, ExCoords, ExDist, 0, 2);
    assert RemoveFirst([2], 2) == [];
    assert ExDemands[2] == 6;
    assert Extend([], ExDemands, 4, ExCoords, ExDist, 2) == Ok(([], []));
    assert [2] + [] == [2];
  }

  /** Two sweeps put 1 and then 2 on the only route. */
  lemma {:induction false} ExRounds()
    ensures Rounds([[]], [1, 2], ExDemands, 10, ExCoords, ExDist) == Ok([[1, 2]])
  {
    ExFirstPass();
    var r1: Solution := [[]][0 := [] + [1]];
    assert |r1| == 1 && r1[0] == [1];
    assert r1 == [[1]];
    assert Sweep([[1]], 1, [2], ExDemands, 10, ExCoords, ExDist) == Ok(([[1]], [2]));
    assert Sweep([[]], 0, [1, 2], ExDemands, 10, ExCoords, ExDist) == Ok(([[1]], [2]));
    ExSecondPass();
    var r2: Solution := [[1]][0 := [1] + [2]];
    assert |r2| == 1 && r2[0] == [1, 2];
    assert r2 == [[1, 2]];
    assert Sweep([[1, 2]], 1, [], ExDemands, 10, ExCoords, ExDist) == Ok(([[1, 2]], []));
    assert Sweep([[1]], 0, [2], ExDemands, 10, ExCoords, ExDist) == Ok(([[1, 2]], []));
    assert Rounds([[1, 2]], [], ExDemands, 10, ExCoords, ExDist) == Ok([[1, 2]]);
  }

  /** Every leg of 0 -> 1 -> 2 -> 0 measures 0. */
  lemma {:induction false} ExCost()
    ensures CostSpec(ExCoords, ExDist, [[1, 2]]) == Ok(0.0)
  {
    var route := [1, 2];
    assert Located(route, ExCoords);
    assert AllLocated([route], ExCoords);
    assert ExDist(ExCoords[2], ExCoords[0]) == 0.0;
    assert PathCost(ExCoords, ExDist, 0, 2, []) == 0.0;
    assert route[1..][1..] == [];
    assert PathCost(ExCoords, ExDist, 0, 1, [2]) == 0.0;
    assert route[1..] == [2];
    assert PathCost(ExCoords, ExDist, 0, 0, route) == 0.0;
    var sol: Solution := [route];
    assert sol[..0] == [];
    assert SolutionCost(ExCoords, ExDist, 0, [route]) == 0.0;
  }

  /** Later sweeps restart at full capacity, so a route can carry more than
      the capacity: here the one route carries 12 against 10. (Customer 3
      is the largest id and is never placed.) */
  lemma {:induction false} GreedyOverloads()
    ensures Enumerates([1, 2, 3], ExDemands.Keys - {0}) &&
      GreedySpec(ExCoords, ExDemands, 10, 1, [1, 2, 3], ExDist) == Ok(([[1, 2]], 0.0)) &&
      Load([1, 2], ExDemands) == 12 > 10
  {
    ExOrder();
    var r0: Solution := seq(1, _ => []);
    assert r0 == [[]];
    ExRounds();
    ExCost();
  }

  /** The order [1, 2, 3] enumerates the example's customers, and dropping
      the largest id leaves [1, 2]. */
  lemma {:induction false} ExOrder()
    ensures ExDemands.Keys - {0} == {1, 2, 3}
    ensures Enumerates([1, 2, 3], ExDemands.Keys - {0}) && Start([1, 2, 3], ExDemands) == [1, 2]
  {
    var order := [1, 2, 3];
    assert ExDemands.Keys - {0} == {1, 2, 3};
    assert multiset(order) == multiset{1, 2, 3};
    assert SetMax({1, 2, 3}) == 3;
    assert RemoveFirst(order, 3) == [1, 2];
  }
}
