/** submissions/team2/functions.py: calculate_total_cost over a distance
    matrix, and create_initial_solution, the nearest-feasible-customer
    construction. Both work on a matrix indexed through `index`
    (node_index_map), in which the depot is the key -1. */
module Functions {
  import opened Wrappers
  import opened Routes

  type Matrix = seq<seq<real>>

  /** The shape local_search builds: a square matrix, and every value of the
      index map a row of it. */
  ghost predicate MatrixFor(matrix: Matrix, index: map<int, int>) {
    (forall i :: 0 <= i < |matrix| ==> |matrix[i]| == |matrix|) &&
    (forall k :: k in index ==> 0 <= index[k] < |matrix|)
  }

  predicate Indexed(route: seq<int>, index: map<int, int>) {
    forall i :: 0 <= i < |route| ==> route[i] in index
  }

  /** The matrix entries along consecutive stops of a tour. */
  function MatrixLegs(matrix: Matrix, index: map<int, int>, tour: seq<int>): real
    requires MatrixFor(matrix, index) && Indexed(tour, index)
    decreases |tour|
  {
    if |tour| < 2 then 0.0
    else
      var a, b := tour[0], tour[1];
      matrix[index[a]][index[b]] + MatrixLegs(matrix, index, tour[1..])
  }

  /** Depot, the route, depot: what calculate_total_cost adds for one route. */
  function RouteMatrixCost(matrix: Matrix, index: map<int, int>, route: seq<int>): real
    requires MatrixFor(matrix, index) && -1 in index && Indexed(route, index)
  {
    MatrixLegs(matrix, index, [-1] + route + [-1])
  }

  ghost predicate AllIndexed(routes: Solution, index: map<int, int>) {
    forall r :: 0 <= r < |routes| ==> Indexed(routes[r], index)
  }

  function MatrixCost(matrix: Matrix, index: map<int, int>, routes: Solution): real
    requires MatrixFor(matrix, index) && -1 in index && AllIndexed(routes, index)
  {
    if |routes| == 0 then 0.0
    else MatrixCost(matrix, index, routes[..|routes| - 1]) +
         RouteMatrixCost(matrix, index, routes[|routes| - 1])
  }

  /** calculate_total_cost with its exceptions: a KeyError when -1 or a node
      has no index, an IndexError at route[0] of an empty route; the first
      failing route decides. */
  ghost function TotalCostRoutes(matrix: Matrix, index: map<int, int>, routes: Solution): Result<real>
    requires MatrixFor(matrix, index) && -1 in index
  {
    if |routes| == 0 then Ok(0.0)
    else
      match TotalCostRoutes(matrix, index, routes[..|routes| - 1])
      case Err(e) => Err(e)
      case Ok(c) =>
        var route := routes[|routes| - 1];
        if |route| == 0 then Err(IndexError)
        else if !Indexed(route, index) then Err(KeyError)
        else Ok(c + RouteMatrixCost(matrix, index, route))
  }

  ghost function TotalCostSpec(matrix: Matrix, index: map<int, int>, routes: Solution): Result<real>
    requires MatrixFor(matrix, index)
  {
    if -1 !in index then Err(KeyError) else TotalCostRoutes(matrix, index, routes)
  }

  // ---------------------------------------------------------------------
  // Lemmas about the tour cost

  lemma {:induction false} MatrixLegsSnoc(matrix: Matrix, index: map<int, int>, tour: seq<int>, x: int)
    requires MatrixFor(matrix, index) && Indexed(tour, index) && |tour| > 0 && x in index
    ensures Indexed(tour + [x], index)
    ensures var last := tour[|tour| - 1];
      MatrixLegs(matrix, index, tour + [x]) == MatrixLegs(matrix, index, tour) + matrix[index[last]][index[x]]
    decreases |tour|
  {
    assert Indexed(tour + [x], index) by {
      forall i | 0 <= i < |tour| + 1 ensures (tour + [x])[i] in index {
        if i < |tour| {
          assert (tour + [x])[i] == tour[i];
        }
      }
    }
    if |tour| > 1 {
      assert (tour + [x])[1..] == tour[1..] + [x];
      MatrixLegsSnoc(matrix, index, tour[1..], x);
    }
  }

  lemma {:induction false} TotalCostPrefixErr(matrix: Matrix, index: map<int, int>, routes: Solution, k: nat, e: Error)
    requires MatrixFor(matrix, index) && -1 in index
    requires k <= |routes| && TotalCostRoutes(matrix, index, routes[..k]) == Err(e)
    ensures TotalCostRoutes(matrix, index, routes) == Err(e)
    decreases |routes| - k
  {
    if k < |routes| {
      assert routes[..k + 1][..k] == routes[..k];
      TotalCostPrefixErr(matrix, index, routes, k + 1, e);
    } else {
      assert routes[..k] == routes;
    }
  }

  /** calculate_total_cost succeeds exactly when -1 and every node have an
      index and no route is empty, and then it is the sum over the routes of
      depot -> first, the consecutive legs, and last -> depot. */
  lemma {:induction false} TotalCostOk(matrix: Matrix, index: map<int, int>, routes: Solution)
    requires MatrixFor(matrix, index)
    ensures TotalCostSpec(matrix, index, routes).Ok? <==>
      -1 in index && AllIndexed(routes, index) && forall r :: 0 <= r < |routes| ==> |routes[r]| > 0
    ensures TotalCostSpec(matrix, index, routes).Ok? ==>
      TotalCostSpec(matrix, index, routes).value == MatrixCost(matrix, index, routes)
    decreases |routes|
  {
    if -1 in index && |routes| > 0 {
      var init := routes[..|routes| - 1];
      TotalCostOk(matrix, index, init);
      assert forall r :: 0 <= r < |init| ==> init[r] == routes[r];
    }
  }

  /** calculate_total_cost: the accumulator loops over routes and legs. */
  method CalculateTotalCost(routes: Solution, matrix: Matrix, index: map<int, int>) returns (res: Result<real>)
    requires MatrixFor(matrix, index)
    ensures res == TotalCostSpec(matrix, index, routes)
  {
    if -1 !in index {
      return Err(KeyError);
    }
    var depot := index[-1];
    var cost := 0.0;
    var k := 0;
    while k < |routes|
      invariant 0 <= k <= |routes|
      invariant TotalCostRoutes(matrix, index, routes[..k]) == Ok(cost)
    {
      var route := routes[k];
      assert routes[..k + 1][..k] == routes[..k];
      if |route| == 0 {
        TotalCostPrefixErr(matrix, index, routes, k + 1, IndexError);
        return Err(IndexError);
      }
      if route[0] !in index {
        TotalCostPrefixErr(matrix, index, routes, k + 1, KeyError);
        return Err(KeyError);
      }
      ghost var before := cost;
      var first := route[0];
      cost := cost + matrix[depot][index[first]];
      var i := 0;
      while i < |route| - 1
        invariant 0 <= i <= |route| - 1
        invariant Indexed(route[..i + 1], index)
        invariant cost == before + MatrixLegs(matrix, index, [-1] + route[..i + 1])
      {
        if route[i] !in index || route[i + 1] !in index {
          TotalCostPrefixErr(matrix, index, routes, k + 1, KeyError);
          return Err(KeyError);
        }
        MatrixLegsSnoc(matrix, index, [-1] + route[..i + 1], route[i + 1]);
        assert [-1] + route[..i + 1] + [route[i + 1]] == [-1] + route[..i + 2];
        assert ([-1] + route[..i + 1])[i + 1] == route[i];
        cost := cost + matrix[index[route[i]]][index[route[i + 1]]];
        i := i + 1;
      }
      assert route[..i + 1] == route;
      MatrixLegsSnoc(matrix, index, [-1] + route, -1);
      cost := cost + matrix[index[route[|route| - 1]]][depot];
      k := k + 1;
    }
    assert routes[..k] == routes;
    return Ok(cost);
  }

  // ---------------------------------------------------------------------
  // The nearest-customer scan

  /** The demand of c still fits on a vehicle carrying `load`. */
  predicate Fits(demands: map<int, int>, capacity: int, load: int, c: int) {
    c in demands && load + demands[c] <= capacity
  }

  /** The matrix entry from the current row to c (0 where there is none). */
  function Far(row: seq<real>, index: map<int, int>, c: int): real {
    if c in index && 0 <= index[c] < |row| then row[index[c]] else 0.0
  }

  /** What the scan over `cands` keeps, in list order: a fitting candidate
      replaces the best so far when nothing was kept yet or when it is
      strictly nearer. */
  function NearestOf(cands: seq<int>, demands: map<int, int>, capacity: int, load: int,
                     row: seq<real>, index: map<int, int>): Option<int>
    decreases |cands|
  {
    if |cands| == 0 then None
    else
      var best := NearestOf(cands[..|cands| - 1], demands, capacity, load, row, index);
      var c := cands[|cands| - 1];
      if Fits(demands, capacity, load, c) && (best.None? || Far(row, index, c) < Far(row, index, best.value))
      then Some(c)
      else best
  }

  /** The scan's choice is a fitting candidate. */
  lemma {:induction false} NearestOfFits(cands: seq<int>, demands: map<int, int>, capacity: int, load: int,
                                         row: seq<real>, index: map<int, int>)
    ensures var r := NearestOf(cands, demands, capacity, load, row, index);
      r.Some? ==> r.value in cands && Fits(demands, capacity, load, r.value)
    decreases |cands|
  {
    if |cands| > 0 {
      NearestOfFits(cands[..|cands| - 1], demands, capacity, load, row, index);
    }
  }

  /** `choice` is the first fitting candidate in list order at strictly
      minimal distance, or None when no candidate fits. */
  ghost predicate IsFirstNearest(choice: Option<int>, cands: seq<int>, demands: map<int, int>, capacity: int,
                                 load: int, row: seq<real>, index: map<int, int>) {
    match choice
    case None => forall i :: 0 <= i < |cands| ==> !Fits(demands, capacity, load, cands[i])
    case Some(c) =>
      exists p :: 0 <= p < |cands| && cands[p] == c && Fits(demands, capacity, load, c) &&
        (forall i {:trigger Fits(demands, capacity, load, cands[i])} ::
           0 <= i < p && Fits(demands, capacity, load, cands[i]) ==>
           Far(row, index, cands[i]) > Far(row, index, c)) &&
        (forall i {:trigger Fits(demands, capacity, load, cands[i])} ::
           p < i < |cands| && Fits(demands, capacity, load, cands[i]) ==>
           Far(row, index, cands[i]) >= Far(row, index, c))
  }

  /** The scan returns the first nearest fitting candidate, and None exactly
      when nothing fits. */
  lemma {:induction false} NearestOfIsFirstNearest(cands: seq<int>, demands: map<int, int>, capacity: int,
                                                   load: int, row: seq<real>, index: map<int, int>)
    ensures IsFirstNearest(NearestOf(cands, demands, capacity, load, row, index),
                           cands, demands, capacity, load, row, index)
    decreases |cands|
  {
    if |cands| > 0 {
      var n := |cands| - 1;
      var init, c := cands[..n], cands[n];
      NearestOfIsFirstNearest(init, demands, capacity, load, row, index);
      var best := NearestOf(init, demands, capacity, load, row, index);
      var r := NearestOf(cands, demands, capacity, load, row, index);
      assert forall i :: 0 <= i < n ==> cands[i] == init[i];
      var taken := Fits(demands, capacity, load, c) &&
                   (best.None? || Far(row, index, c) < Far(row, index, best.value));
      if taken {
        assert r == Some(c) && Fits(demands, capacity, load, cands[n]);
        if best.Some? {
          NearestKeepsOrder(cands, demands, capacity, load, row, index, best.value);
        }
      } else if best.Some? {
        assert r == best;
        NearestKeepsBest(cands, demands, capacity, load, row, index, best.value);
      }
    }
  }

  /** A last candidate strictly nearer than the first nearest one before it
      becomes the first nearest. */
  lemma {:induction false} NearestKeepsOrder(cands: seq<int>, demands: map<int, int>, capacity: int,
                                             load: int, row: seq<real>, index: map<int, int>, b: int)
    requires |cands| > 0
    requires IsFirstNearest(Some(b), cands[..|cands| - 1], demands, capacity, load, row, index)
    requires Fits(demands, capacity, load, cands[|cands| - 1])
    requires Far(row, index, cands[|cands| - 1]) < Far(row, index, b)
    ensures IsFirstNearest(Some(cands[|cands| - 1]), cands, demands, capacity, load, row, index)
  {
    var n := |cands| - 1;
    var init, c := cands[..n], cands[n];
    var p :| 0 <= p < n && init[p] == b && Fits(demands, capacity, load, b) &&
      (forall i {:trigger Fits(demands, capacity, load, init[i])} ::
         0 <= i < p && Fits(demands, capacity, load, init[i]) ==> Far(row, index, init[i]) > Far(row, index, b)) &&
      (forall i {:trigger Fits(demands, capacity, load, init[i])} ::
         p < i < n && Fits(demands, capacity, load, init[i]) ==> Far(row, index, init[i]) >= Far(row, index, b));
    forall i | 0 <= i < n && Fits(demands, capacity, load, cands[i])
      ensures Far(row, index, cands[i]) > Far(row, index, c)
    {
      assert cands[i] == init[i];
    }
  }

  /** A last candidate that does not fit, or is not strictly nearer, leaves
      the first nearest one as it was. */
  lemma {:induction false} NearestKeepsBest(cands: seq<int>, demands: map<int, int>, capacity: int,
                                            load: int, row: seq<real>, index: map<int, int>, b: int)
    requires |cands| > 0
    requires IsFirstNearest(Some(b), cands[..|cands| - 1], demands, capacity, load, row, index)
    requires Fits(demands, capacity, load, cands[|cands| - 1]) ==>
             Far(row, index, cands[|cands| - 1]) >= Far(row, index, b)
    ensures IsFirstNearest(Some(b), cands, demands, capacity, load, row, index)
  {
    var n := |cands| - 1;
    var init := cands[..n];
    var p :| 0 <= p < n && init[p] == b && Fits(demands, capacity, load, b) &&
      (forall i {:trigger Fits(demands, capacity, load, init[i])} ::
         0 <= i < p && Fits(demands, capacity, load, init[i]) ==> Far(row, index, init[i]) > Far(row, index, b)) &&
      (forall i {:trigger Fits(demands, capacity, load, init[i])} ::
         p < i < n && Fits(demands, capacity, load, init[i]) ==> Far(row, index, init[i]) >= Far(row, index, b));
    forall i | 0 <= i < p && Fits(demands, capacity, load, cands[i])
      ensures Far(row, index, cands[i]) > Far(row, index, b)
    {
      assert cands[i] == init[i];
    }
    forall i | p < i < |cands| && Fits(demands, capacity, load, cands[i])
      ensures Far(row, index, cands[i]) >= Far(row, index, b)
    {
      if i < n {
        assert cands[i] == init[i];
      }
    }
    assert cands[p] == b;
  }

  /** The inner `for customer in unserved_customers` scan: every candidate is
      looked up in the index (KeyError), and among those whose demand fits
      the first strictly nearer one wins. */
  method ScanNearest(cands: seq<int>, demands: map<int, int>, capacity: int, load: int,
                     row: seq<real>, index: map<int, int>) returns (res: Result<Option<int>>)
    requires Demanded(cands, demands)
    requires forall k :: k in index ==> 0 <= index[k] < |row|
    ensures res.Err? <==> !Indexed(cands, index)
    ensures res.Err? ==> res.error == KeyError
    ensures res.Ok? ==> res.value == NearestOf(cands, demands, capacity, load, row, index)
  {
    var nearest: Option<int> := None;
    var minDistance := 0.0;
    var i := 0;
    while i < |cands|
      invariant 0 <= i <= |cands|
      invariant Indexed(cands[..i], index)
      invariant nearest == NearestOf(cands[..i], demands, capacity, load, row, index)
      invariant nearest.Some? ==> minDistance == Far(row, index, nearest.value)
    {
      var customer := cands[i];
      if customer !in index {
        return Err(KeyError);
      }
      var customerIndex := index[customer];
      if load + demands[customer] <= capacity {
        var d := row[customerIndex];
        if nearest.None? || d < minDistance {
          minDistance := d;
          nearest := Some(customer);
        }
      }
      assert cands[..i + 1][..i] == cands[..i];
      i := i + 1;
    }
    assert cands[..i] == cands;
    return Ok(nearest);
  }

  // ---------------------------------------------------------------------
  // create_initial_solution

  /** The row of the matrix for the node the vehicle stands at. */
  function RowOf(matrix: Matrix, index: map<int, int>, node: int): seq<real> {
    if node in index && 0 <= index[node] < |matrix| then matrix[index[node]] else []
  }

  /** Where the vehicle stands after `route`: its last stop, or the depot -1. */
  function Previous(route: seq<int>): int {
    if |route| == 0 then -1 else route[|route| - 1]
  }

  /** The scan's choice among `left` for a vehicle that has driven `route`. */
  function NextStop(left: seq<int>, demands: map<int, int>, capacity: int, matrix: Matrix,
                    index: map<int, int>, route: seq<int>): Option<int>
    requires Demanded(route, demands)
  {
    NearestOf(left, demands, capacity, Load(route, demands), RowOf(matrix, index, Previous(route)), index)
  }

  /** The inner `while unserved_customers` loop as a function: with the stops
      `route` driven and the customers `left` unserved, take the scan's
      choice and remove it from `left`, until nobody is left or nobody fits.
      The result is the finished route and the customers it leaves. */
  function GreedyFill(left: seq<int>, demands: map<int, int>, capacity: int, matrix: Matrix,
                      index: map<int, int>, route: seq<int>): (r: (seq<int>, seq<int>))
    requires Demanded(route, demands)
    ensures Demanded(r.0, demands)
    decreases |left|
  {
    if |left| == 0 then (route, left)
    else
      match NextStop(left, demands, capacity, matrix, index, route)
      case None => (route, left)
      case Some(c) =>
        NearestOfFits(left, demands, capacity, Load(route, demands), RowOf(matrix, index, Previous(route)), index);
        LoadAppend(route, [c], demands);
        GreedyFill(RemoveFirst(left, c), demands, capacity, matrix, index, route + [c])
  }

  /** One step of the inner loop: the scan's choice c is an unserved customer
      that fits, and taking it leads to the same finished route. */
  lemma {:induction false} FillStep(left: seq<int>, demands: map<int, int>, capacity: int, matrix: Matrix,
                                    index: map<int, int>, route: seq<int>, c: int)
    requires Demanded(route, demands)
    requires NextStop(left, demands, capacity, matrix, index, route) == Some(c)
    ensures c in left && Fits(demands, capacity, Load(route, demands), c)
    ensures Demanded(route + [c], demands) && Load(route + [c], demands) == Load(route, demands) + demands[c]
    ensures Previous(route + [c]) == c
    ensures GreedyFill(RemoveFirst(left, c), demands, capacity, matrix, index, route + [c]) ==
            GreedyFill(left, demands, capacity, matrix, index, route)
  {
    NearestOfFits(left, demands, capacity, Load(route, demands), RowOf(matrix, index, Previous(route)), index);
    LoadAppend(route, [c], demands);
    LoadSingle(c, demands);
  }

  lemma {:induction false} IndexedRemoveFirst(s: seq<int>, x: int, index: map<int, int>)
    requires Indexed(s, index)
    ensures Indexed(RemoveFirst(s, x), index)
    decreases |s|
  {
    if |s| > 0 && s[0] != x {
      IndexedRemoveFirst(s[1..], x, index);
      var t := RemoveFirst(s[1..], x);
      assert RemoveFirst(s, x) == [s[0]] + t;
      forall i | 0 <= i < |t| + 1 ensures ([s[0]] + t)[i] in index {
        if i > 0 {
          assert ([s[0]] + t)[i] == t[i - 1];
        }
      }
    }
  }

  /** The inner `while unserved_customers` loop of create_initial_solution:
      one vehicle leaves the depot and takes the first nearest fitting
      customer, removing it from the unserved list, until nobody fits or
      nobody is left. A customer without an index raises KeyError at the
      first scan, which sees every unserved customer. */
  method FillRoute(demands: map<int, int>, capacity: int, matrix: Matrix, index: map<int, int>,
                   unserved: seq<int>) returns (res: Result<(seq<int>, seq<int>)>)
    requires MatrixFor(matrix, index) && -1 in index && Demanded(unserved, demands)
    ensures res.Err? <==> !Indexed(unserved, index)
    ensures res.Err? ==> res.error == KeyError
    ensures res.Ok? ==> res.value == GreedyFill(unserved, demands, capacity, matrix, index, [])
  {
    var route: seq<int> := [];
    var load := 0;
    var currentNode := index[-1];
    var left := unserved;
    while |left| > 0
      invariant Demanded(route, demands) && load == Load(route, demands) && Demanded(left, demands)
      invariant GreedyFill(left, demands, capacity, matrix, index, route) ==
                GreedyFill(unserved, demands, capacity, matrix, index, [])
      invariant Previous(route) in index && currentNode == index[Previous(route)]
      invariant Indexed(unserved, index) ==> Indexed(left, index)
      invariant route != [] ==> Indexed(unserved, index)
      invariant route == [] ==> left == unserved
      decreases |left|
    {
      var nearest := ScanNearest(left, demands, capacity, load, matrix[currentNode], index);
      if nearest.Err? {
        return Err(KeyError);
      }
      assert RowOf(matrix, index, Previous(route)) == matrix[currentNode];
      if nearest.value.None? {
        break;
      }
      var c := nearest.value.value;
      FillStep(left, demands, capacity, matrix, index, route, c);
      RemoveFirstLoad(left, c, demands);
      IndexedRemoveFirst(left, c, index);
      route := route + [c];
      load := load + demands[c];
      left := RemoveFirst(left, c);
      currentNode := index[c];
    }
    return Ok((route, left));
  }

  /** The customers the finished route leaves are among those it started
      from. */
  lemma {:induction false} FillLeaves(left: seq<int>, demands: map<int, int>, capacity: int, matrix: Matrix,
                                      index: map<int, int>, route: seq<int>)
    requires Demanded(route, demands)
    ensures var r := GreedyFill(left, demands, capacity, matrix, index, route);
      (Demanded(left, demands) ==> Demanded(r.1, demands)) &&
      (Indexed(left, index) ==> Indexed(r.1, index))
    decreases |left|
  {
    var next := NextStop(left, demands, capacity, matrix, index, route);
    if |left| > 0 && next.Some? {
      var c := next.value;
      FillStep(left, demands, capacity, matrix, index, route, c);
      if Demanded(left, demands) {
        RemoveFirstLoad(left, c, demands);
      }
      if Indexed(left, index) {
        IndexedRemoveFirst(left, c, index);
      }
      FillLeaves(RemoveFirst(left, c), demands, capacity, matrix, index, route + [c]);
    }
  }

  /** Nobody is lost or duplicated: the finished route and the customers it
      leaves are, together, the stops and customers it started from. */
  lemma {:induction false} FillKeeps(left: seq<int>, demands: map<int, int>, capacity: int, matrix: Matrix,
                                     index: map<int, int>, route: seq<int>)
    requires Demanded(route, demands)
    ensures var r := GreedyFill(left, demands, capacity, matrix, index, route);
      multiset(r.0) + multiset(r.1) == multiset(route) + multiset(left)
    decreases |left|
  {
    var next := NextStop(left, demands, capacity, matrix, index, route);
    if |left| > 0 && next.Some? {
      var c := next.value;
      FillStep(left, demands, capacity, matrix, index, route, c);
      RemoveFirstMultiset(left, c);
      FillKeeps(RemoveFirst(left, c), demands, capacity, matrix, index, route + [c]);
    }
  }

  /** Every stop taken is one customer fewer left. */
  lemma {:induction false} FillCount(left: seq<int>, demands: map<int, int>, capacity: int, matrix: Matrix,
                                     index: map<int, int>, route: seq<int>)
    requires Demanded(route, demands)
    ensures var r := GreedyFill(left, demands, capacity, matrix, index, route);
      |r.0| + |r.1| == |route| + |left|
    decreases |left|
  {
    var next := NextStop(left, demands, capacity, matrix, index, route);
    if |left| > 0 && next.Some? {
      var c := next.value;
      FillStep(left, demands, capacity, matrix, index, route, c);
      FillCount(RemoveFirst(left, c), demands, capacity, matrix, index, route + [c]);
    }
  }

  /** A non-empty finished route stays within capacity, provided the stops
      already driven do. */
  lemma {:induction false} FillLoad(left: seq<int>, demands: map<int, int>, capacity: int, matrix: Matrix,
                                    index: map<int, int>, route: seq<int>)
    requires Demanded(route, demands)
    requires |route| == 0 || Load(route, demands) <= capacity
    ensures var r := GreedyFill(left, demands, capacity, matrix, index, route);
      |r.0| == 0 || Load(r.0, demands) <= capacity
    decreases |left|
  {
    var next := NextStop(left, demands, capacity, matrix, index, route);
    if |left| > 0 && next.Some? {
      var c := next.value;
      FillStep(left, demands, capacity, matrix, index, route, c);
      FillLoad(RemoveFirst(left, c), demands, capacity, matrix, index, route + [c]);
    }
  }

  /** `start` with the customers of `xs` removed one after the other, as
      unserved_customers.remove does. */
  function Without(start: seq<int>, xs: seq<int>): seq<int>
    decreases |xs|
  {
    if |xs| == 0 then start else RemoveFirst(Without(start, xs[..|xs| - 1]), xs[|xs| - 1])
  }

  lemma {:induction false} WithoutSnoc(start: seq<int>, xs: seq<int>, c: int)
    ensures Without(start, xs + [c]) == RemoveFirst(Without(start, xs), c)
  {
    assert (xs + [c])[..|xs|] == xs;
  }

  /** Removing a then b is removing a + b. */
  lemma {:induction false} WithoutAppend(start: seq<int>, a: seq<int>, b: seq<int>)
    ensures Without(Without(start, a), b) == Without(start, a + b)
    decreases |b|
  {
    if |b| == 0 {
      assert a + b == a;
    } else {
      var n := |b| - 1;
      WithoutAppend(start, a, b[..n]);
      assert (a + b)[..|a| + n] == a + b[..n];
    }
  }

  /** Every stop of `route` was the scan's choice when it was made: the first
      nearest fitting customer among `start` without the earlier stops, seen
      from the previous stop. */
  ghost predicate RouteChosen(start: seq<int>, demands: map<int, int>, capacity: int, matrix: Matrix,
                              index: map<int, int>, route: seq<int>)
    decreases |route|
  {
    |route| == 0 ||
    var init := route[..|route| - 1];
    RouteChosen(start, demands, capacity, matrix, index, init) && Demanded(init, demands) &&
    IsFirstNearest(Some(route[|route| - 1]), Without(start, init), demands, capacity,
                   Load(init, demands), RowOf(matrix, index, Previous(init)), index)
  }

  /** The route was closed because the scan found nobody more who fits. */
  ghost predicate RouteClosed(start: seq<int>, demands: map<int, int>, capacity: int, matrix: Matrix,
                              index: map<int, int>, route: seq<int>)
    requires Demanded(route, demands)
  {
    IsFirstNearest(None, Without(start, route), demands, capacity,
                   Load(route, demands), RowOf(matrix, index, Previous(route)), index)
  }

  lemma {:induction false} RouteChosenSnoc(start: seq<int>, demands: map<int, int>, capacity: int, matrix: Matrix,
                                           index: map<int, int>, route: seq<int>, c: int)
    requires RouteChosen(start, demands, capacity, matrix, index, route)
    requires Demanded(route, demands)
    requires IsFirstNearest(Some(c), Without(start, route), demands, capacity,
                            Load(route, demands), RowOf(matrix, index, Previous(route)), index)
    ensures RouteChosen(start, demands, capacity, matrix, index, route + [c])
  {
    var s := route + [c];
    assert s[..|s| - 1] == route;
    assert s[|s| - 1] == c;
  }

  /** The finished route is the scan's choice stop after stop, it was closed
      because nobody more fits, and it leaves `start` without its stops. */
  lemma {:induction false} FillChosen(start: seq<int>, left: seq<int>, demands: map<int, int>, capacity: int,
                                      matrix: Matrix, index: map<int, int>, route: seq<int>)
    requires Demanded(route, demands)
    requires left == Without(start, route)
    requires RouteChosen(start, demands, capacity, matrix, index, route)
    ensures var r := GreedyFill(left, demands, capacity, matrix, index, route);
      RouteChosen(start, demands, capacity, matrix, index, r.0) &&
      RouteClosed(start, demands, capacity, matrix, index, r.0) &&
      r.1 == Without(start, r.0)
    decreases |left|
  {
    var row := RowOf(matrix, index, Previous(route));
    var next := NextStop(left, demands, capacity, matrix, index, route);
    NearestOfIsFirstNearest(left, demands, capacity, Load(route, demands), row, index);
    if |left| > 0 && next.Some? {
      var c := next.value;
      FillStep(left, demands, capacity, matrix, index, route, c);
      RouteChosenSnoc(start, demands, capacity, matrix, index, route, c);
      WithoutSnoc(start, route, c);
      FillChosen(start, RemoveFirst(left, c), demands, capacity, matrix, index, route + [c]);
    }
  }

  /** The outer `while unserved_customers` loop as a function: while somebody
      is unserved, send a vehicle from the depot and close its route. When a
      fresh vehicle takes nobody the source loops forever; here that is
      Err(Diverges). */
  function GreedySolution(unserved: seq<int>, demands: map<int, int>, capacity: int, matrix: Matrix,
                          index: map<int, int>, routes: Solution): Result<Solution>
    decreases |unserved|
  {
    if |unserved| == 0 then Ok(routes)
    else
      var (route, left) := GreedyFill(unserved, demands, capacity, matrix, index, []);
      if |route| == 0 then Err(Diverges)
      else
        FillCount(unserved, demands, capacity, matrix, index, []);
        GreedySolution(left, demands, capacity, matrix, index, routes + [route])
  }

  /** create_initial_solution. Like the source it raises KeyError when -1 or
      any demand key has no index; otherwise it builds GreedySolution over
      all the demand keys. */
  method CreateInitialSolution(demands: map<int, int>, keys: seq<int>, capacity: int, matrix: Matrix,
                               index: map<int, int>) returns (res: Result<Solution>)
    requires Enumerates(keys, demands.Keys)
    requires MatrixFor(matrix, index)
    ensures res == if -1 in index && Indexed(keys, index)
                   then GreedySolution(keys, demands, capacity, matrix, index, [])
                   else Err(KeyError)
  {
    if -1 !in index {
      return Err(KeyError);
    }
    var routes: Solution := [];
    var unserved := keys;
    while |unserved| > 0
      invariant Demanded(unserved, demands)
      invariant (routes == [] && unserved == keys) || (Indexed(keys, index) && Indexed(unserved, index))
      invariant GreedySolution(unserved, demands, capacity, matrix, index, routes) ==
                GreedySolution(keys, demands, capacity, matrix, index, [])
      decreases |unserved|
    {
      var filled := FillRoute(demands, capacity, matrix, index, unserved);
      if filled.Err? {
        return Err(KeyError);
      }
      var (route, left) := filled.value;
      if |route| == 0 {
        return Err(Diverges);
      }
      FillCount(unserved, demands, capacity, matrix, index, []);
      FillLeaves(unserved, demands, capacity, matrix, index, []);
      routes := routes + [route];
      unserved := left;
    }
    return Ok(routes);
  }

  // ---------------------------------------------------------------------
  // What the construction guarantees

  /** Every route is non-empty, and its customers have demands that fit the
      capacity together. */
  ghost predicate WithinCapacity(routes: Solution, demands: map<int, int>, capacity: int) {
    forall r :: 0 <= r < |routes| ==>
      |routes[r]| > 0 && Demanded(routes[r], demands) && Load(routes[r], demands) <= capacity
  }

  /** Every route of the solution was built greedily in turn, from the keys
      the routes before it left unserved, and closed. */
  ghost predicate Greedy(keys: seq<int>, demands: map<int, int>, capacity: int, matrix: Matrix,
                         index: map<int, int>, routes: Solution)
    decreases |routes|
  {
    |routes| == 0 ||
    var init, route := routes[..|routes| - 1], routes[|routes| - 1];
    var start := Without(keys, Flatten(init));
    Greedy(keys, demands, capacity, matrix, index, init) && Demanded(route, demands) &&
    RouteChosen(start, demands, capacity, matrix, index, route) &&
    RouteClosed(start, demands, capacity, matrix, index, route)
  }

  lemma {:induction false} FlattenSnoc(routes: Solution, route: seq<int>)
    ensures Flatten(routes + [route]) == Flatten(routes) + route
  {
    FlattenAppend(routes, [route]);
    FlattenSingle(route);
  }

  /** One turn of the outer loop: a non-empty route is closed and the
      construction goes on from what it leaves. */
  lemma {:induction false} SolutionStep(unserved: seq<int>, demands: map<int, int>, capacity: int,
                                        matrix: Matrix, index: map<int, int>, routes: Solution)
    requires |unserved| > 0 && |GreedyFill(unserved, demands, capacity, matrix, index, []).0| > 0
    ensures var r := GreedyFill(unserved, demands, capacity, matrix, index, []);
      |r.1| < |unserved| &&
      GreedySolution(unserved, demands, capacity, matrix, index, routes) ==
      GreedySolution(r.1, demands, capacity, matrix, index, routes + [r.0])
  {
    FillCount(unserved, demands, capacity, matrix, index, []);
  }

  /** The routes and the unserved customers together stay the keys: a
      finished solution serves each key as often as it occurs. */
  lemma {:induction false} SolutionServes(keys: seq<int>, unserved: seq<int>, demands: map<int, int>, capacity: int,
                                          matrix: Matrix, index: map<int, int>, routes: Solution)
    requires multiset(Flatten(routes)) + multiset(unserved) == multiset(keys)
    ensures var res := GreedySolution(unserved, demands, capacity, matrix, index, routes);
      res.Ok? ==> multiset(Flatten(res.value)) == multiset(keys)
    decreases |unserved|
  {
    var r := GreedyFill(unserved, demands, capacity, matrix, index, []);
    if |unserved| > 0 && |r.0| > 0 {
      SolutionStep(unserved, demands, capacity, matrix, index, routes);
      assert multiset(Flatten(routes + [r.0])) + multiset(r.1) == multiset(keys) by {
        FillKeeps(unserved, demands, capacity, matrix, index, []);
        FlattenSnoc(routes, r.0);
        assert multiset(r.0) + multiset(r.1) == multiset(unserved);
        calc {
          multiset(Flatten(routes + [r.0])) + multiset(r.1);
          multiset(Flatten(routes)) + multiset(r.0) + multiset(r.1);
          multiset(Flatten(routes)) + multiset(unserved);
        }
      }
      SolutionServes(keys, r.1, demands, capacity, matrix, index, routes + [r.0]);
    } else if |unserved| == 0 {
      assert multiset(unserved) == multiset{};
    }
  }

  /** Every route the construction returns is non-empty and within capacity. */
  lemma {:induction false} SolutionFeasible(unserved: seq<int>, demands: map<int, int>, capacity: int,
                                            matrix: Matrix, index: map<int, int>, routes: Solution)
    requires WithinCapacity(routes, demands, capacity)
    ensures var res := GreedySolution(unserved, demands, capacity, matrix, index, routes);
      res.Ok? ==> WithinCapacity(res.value, demands, capacity)
    decreases |unserved|
  {
    var r := GreedyFill(unserved, demands, capacity, matrix, index, []);
    if |unserved| > 0 && |r.0| > 0 {
      SolutionStep(unserved, demands, capacity, matrix, index, routes);
      var s := routes + [r.0];
      assert WithinCapacity(s, demands, capacity) by {
        FillLoad(unserved, demands, capacity, matrix, index, []);
        forall k | 0 <= k < |s|
          ensures |s[k]| > 0 && Demanded(s[k], demands) && Load(s[k], demands) <= capacity
        {
          if k < |routes| {
            assert s[k] == routes[k];
          }
        }
      }
      SolutionFeasible(r.1, demands, capacity, matrix, index, s);
    }
  }

  /** Every route the construction returns was built greedily, stop by stop. */
  lemma {:induction false} SolutionGreedy(keys: seq<int>, unserved: seq<int>, demands: map<int, int>, capacity: int,
                                          matrix: Matrix, index: map<int, int>, routes: Solution)
    requires unserved == Without(keys, Flatten(routes))
    requires Greedy(keys, demands, capacity, matrix, index, routes)
    ensures var res := GreedySolution(unserved, demands, capacity, matrix, index, routes);
      res.Ok? ==> Greedy(keys, demands, capacity, matrix, index, res.value)
    decreases |unserved|
  {
    var r := GreedyFill(unserved, demands, capacity, matrix, index, []);
    if |unserved| > 0 && |r.0| > 0 {
      SolutionStep(unserved, demands, capacity, matrix, index, routes);
      var s := routes + [r.0];
      assert Greedy(keys, demands, capacity, matrix, index, s) && r.1 == Without(keys, Flatten(s)) by {
        FillChosen(unserved, unserved, demands, capacity, matrix, index, []);
        WithoutAppend(keys, Flatten(routes), r.0);
        FlattenSnoc(routes, r.0);
        assert s[..|routes|] == routes && s[|routes|] == r.0;
      }
      SolutionGreedy(keys, r.1, demands, capacity, matrix, index, s);
    }
  }

  /** The construction fails only where the source loops forever, and that
      happens only when some customer's demand alone exceeds the capacity. */
  lemma {:induction false} SolutionStuck(unserved: seq<int>, demands: map<int, int>, capacity: int,
                                         matrix: Matrix, index: map<int, int>, routes: Solution)
    requires Demanded(unserved, demands)
    ensures var res := GreedySolution(unserved, demands, capacity, matrix, index, routes);
      res.Err? ==> res.error == Diverges && exists c :: c in demands && demands[c] > capacity
    decreases |unserved|
  {
    var r := GreedyFill(unserved, demands, capacity, matrix, index, []);
    if |unserved| > 0 && |r.0| > 0 {
      SolutionStep(unserved, demands, capacity, matrix, index, routes);
      FillLeaves(unserved, demands, capacity, matrix, index, []);
      SolutionStuck(r.1, demands, capacity, matrix, index, routes + [r.0]);
    } else if |unserved| > 0 {
      FillChosen(unserved, unserved, demands, capacity, matrix, index, []);
      assert !Fits(demands, capacity, 0, unserved[0]);
    }
  }

  /** What create_initial_solution returns when the index is complete: every
      customer of the demand dictionary served exactly once, by non-empty
      routes within capacity, each built greedily; and when it cannot
      finish, some demand alone exceeds the capacity. */
  lemma {:induction false} InitialSolutionSound(keys: seq<int>, demands: map<int, int>, capacity: int,
                                                matrix: Matrix, index: map<int, int>)
    requires Enumerates(keys, demands.Keys)
    ensures var res := GreedySolution(keys, demands, capacity, matrix, index, []);
      (res.Ok? ==> NoDuplicates(Flatten(res.value)) && Elements(Flatten(res.value)) == demands.Keys &&
                   WithinCapacity(res.value, demands, capacity) &&
                   Greedy(keys, demands, capacity, matrix, index, res.value)) &&
      (res.Err? ==> res.error == Diverges && exists c :: c in demands && demands[c] > capacity)
  {
    var res := GreedySolution(keys, demands, capacity, matrix, index, []);
    if res.Ok? {
      assert multiset(Flatten(res.value)) == multiset(keys) by {
        SolutionServes(keys, keys, demands, capacity, matrix, index, []);
      }
      assert NoDuplicates(Flatten(res.value)) && Elements(Flatten(res.value)) == Elements(keys) by {
        EnumeratesDistinct(keys, demands.Keys);
        NoDuplicatesMultiset(keys, Flatten(res.value));
      }
      EnumeratesElements(keys, demands.Keys);
      SolutionFeasible(keys, demands, capacity, matrix, index, []);
      SolutionGreedy(keys, keys, demands, capacity, matrix, index, []);
    } else {
      SolutionStuck(keys, demands, capacity, matrix, index, []);
    }
  }
}
