/** greedy_cvrp and calculate_cost (submissions/team2/heuristiqueGloutonne.py;
    recuitSimuleImpl.py carries an identical calculate_cost).

    greedy_cvrp places every customer except 0 and the largest id on a fixed
    number of routes. Passes sweep the routes in order; each pass over a
    route restarts at full capacity from the depot and appends, one by one,
    the nearest unvisited customer that still fits. The set of unvisited
    customers is iterated in a given order (`order`), which removals do not
    disturb. A sweep that places nothing would repeat for ever: the model
    returns Diverges there. */
module Greedy {
  import opened Wrappers
  import opened Geometry
  import opened Routes

  // ---------------------------------------------------------------------
  // calculate_cost

  /** calculate_cost: the closed tour of every route out of depot 0, or the
      KeyError of a missing coordinate. */
  ghost function CostSpec(coords: map<int, Point>, dist: Distance, solution: Solution): Result<real> {
    if (|solution| > 0 ==> 0 in coords) && AllLocated(solution, coords)
    then Ok(SolutionCost(coords, dist, 0, solution))
    else Err(KeyError)
  }

  /** Appending a stop adds one leg. */
  lemma {:induction false} LegSumSnoc(coords: map<int, Point>, dist: Distance, tour: seq<int>, x: int)
    requires |tour| > 0 && Located(tour, coords) && x in coords
    ensures Located(tour + [x], coords)
    ensures LegSum(coords, dist, tour + [x]) ==
      LegSum(coords, dist, tour) + dist(coords[tour[|tour| - 1]], coords[x])
    decreases |tour|
  {
    assert Located(tour + [x], coords) by {
      forall i | 0 <= i < |tour| + 1 ensures (tour + [x])[i] in coords {
        if i < |tour| {
          assert (tour + [x])[i] == tour[i];
        }
      }
    }
    if |tour| > 1 {
      assert (tour + [x])[1..] == tour[1..] + [x];
      LegSumSnoc(coords, dist, tour[1..], x);
    }
  }

  /** The nested accumulator loops of calculate_cost. */
  method CalculateCost(solution: Solution, coords: map<int, Point>, dist: Distance) returns (res: Result<real>)
    ensures res == CostSpec(coords, dist, solution)
  {
    var cost := 0.0;
    var r := 0;
    while r < |solution|
      invariant 0 <= r <= |solution|
      invariant (r > 0 ==> 0 in coords) && AllLocated(solution[..r], coords)
      invariant cost == SolutionCost(coords, dist, 0, solution[..r])
    {
      if 0 !in coords {
        return Err(KeyError);
      }
      var route := solution[r];
      ghost var base := cost;
      var prev := 0;
      var j := 0;
      while j < |route|
        invariant 0 <= j <= |route|
        invariant Located([0] + route[..j], coords) && prev == ([0] + route[..j])[j]
        invariant cost == base + LegSum(coords, dist, [0] + route[..j])
      {
        var node := route[j];
        if node !in coords {
          assert !Located(solution[r], coords);
          return Err(KeyError);
        }
        LegSumSnoc(coords, dist, [0] + route[..j], node);
        assert [0] + route[..j + 1] == [0] + route[..j] + [node];
        cost := cost + dist(coords[prev], coords[node]);
        prev := node;
        j := j + 1;
      }
      assert route[..j] == route;
      LegSumSnoc(coords, dist, [0] + route, 0);
      PathCostIsLegSum(coords, dist, 0, 0, route);
      cost := cost + dist(coords[prev], coords[0]);
      assert solution[..r + 1][..r] == solution[..r];
      assert Located(route, coords) by {
        forall i | 0 <= i < |route| ensures route[i] in coords {
          assert route[i] == ([0] + route)[i + 1];
        }
      }
      assert solution[..r + 1] == solution[..r] + [route];
      r := r + 1;
    }
    assert solution[..r] == solution;
    return Ok(cost);
  }

  // ---------------------------------------------------------------------
  // The scan for the nearest fitting customer

  /** demands[node] <= current_capacity. */
  predicate FitsRoom(demands: map<int, int>, room: int, c: int) {
    c in demands && demands[c] <= room
  }

  /** The distance from the current node to c (0 where a point is missing). */
  function Gap(coords: map<int, Point>, dist: Distance, cur: int, c: int): real {
    if cur in coords && c in coords then dist(coords[cur], coords[c]) else 0.0
  }

  /** What `for node in unvisited` keeps, in iteration order: a fitting node
      replaces the best so far when nothing was kept yet or when it is
      strictly nearer. */
  function ClosestOf(cands: seq<int>, demands: map<int, int>, room: int, coords: map<int, Point>,
                     dist: Distance, cur: int): Option<int>
    decreases |cands|
  {
    if |cands| == 0 then None
    else
      var best := ClosestOf(cands[..|cands| - 1], demands, room, coords, dist, cur);
      var c := cands[|cands| - 1];
      if FitsRoom(demands, room, c) && (best.None? || Gap(coords, dist, cur, c) < Gap(coords, dist, cur, best.value))
      then Some(c)
      else best
  }

  /** Every distance the scan computes has both points: the current node and
      every fitting candidate have coordinates. */
  ghost predicate Measurable(cands: seq<int>, demands: map<int, int>, room: int, coords: map<int, Point>, cur: int) {
    forall i {:trigger FitsRoom(demands, room, cands[i])} ::
      0 <= i < |cands| && FitsRoom(demands, room, cands[i]) ==> cur in coords && cands[i] in coords
  }

  /** The scan's choice is a fitting candidate. */
  lemma {:induction false} ClosestOfFits(cands: seq<int>, demands: map<int, int>, room: int,
                                         coords: map<int, Point>, dist: Distance, cur: int)
    ensures var r := ClosestOf(cands, demands, room, coords, dist, cur);
      r.Some? ==> r.value in cands && FitsRoom(demands, room, r.value)
    decreases |cands|
  {
    if |cands| > 0 {
      ClosestOfFits(cands[..|cands| - 1], demands, room, coords, dist, cur);
    }
  }

  /** `choice` is the first fitting candidate in iteration order at strictly
      minimal distance, or None when no candidate fits. */
  ghost predicate IsFirstClosest(choice: Option<int>, cands: seq<int>, demands: map<int, int>, room: int,
                                 coords: map<int, Point>, dist: Distance, cur: int) {
    match choice
    case None => forall i :: 0 <= i < |cands| ==> !FitsRoom(demands, room, cands[i])
    case Some(c) =>
      exists p :: 0 <= p < |cands| && cands[p] == c && FitsRoom(demands, room, c) &&
        (forall i {:trigger FitsRoom(demands, room, cands[i])} ::
           0 <= i < p && FitsRoom(demands, room, cands[i]) ==>
           Gap(coords, dist, cur, cands[i]) > Gap(coords, dist, cur, c)) &&
        (forall i {:trigger FitsRoom(demands, room, cands[i])} ::
           p < i < |cands| && FitsRoom(demands, room, cands[i]) ==>
           Gap(coords, dist, cur, cands[i]) >= Gap(coords, dist, cur, c))
  }

  /** The scan returns the first closest fitting candidate, and None exactly
      when nothing fits. */
  lemma {:induction false} ClosestOfIsFirstClosest(cands: seq<int>, demands: map<int, int>, room: int,
                                                   coords: map<int, Point>, dist: Distance, cur: int)
    ensures IsFirstClosest(ClosestOf(cands, demands, room, coords, dist, cur), cands, demands, room, coords, dist, cur)
    decreases |cands|
  {
    if |cands| > 0 {
      var n := |cands| - 1;
      var init, c := cands[..n], cands[n];
      ClosestOfIsFirstClosest(init, demands, room, coords, dist, cur);
      var best := ClosestOf(init, demands, room, coords, dist, cur);
      var r := ClosestOf(cands, demands, room, coords, dist, cur);
      assert forall i :: 0 <= i < n ==> cands[i] == init[i];
      var taken := FitsRoom(demands, room, c) &&
                   (best.None? || Gap(coords, dist, cur, c) < Gap(coords, dist, cur, best.value));
      if taken {
        assert r == Some(c) && FitsRoom(demands, room, cands[n]);
        if best.Some? {
          ClosestKeepsOrder(cands, demands, room, coords, dist, cur, best.value);
        }
      } else if best.Some? {
        assert r == best;
        ClosestKeepsBest(cands, demands, room, coords, dist, cur, best.value);
      }
    }
  }

  /** A last candidate strictly nearer than the first closest one before it
      becomes the first closest. */
  lemma {:induction false} ClosestKeepsOrder(cands: seq<int>, demands: map<int, int>, room: int,
                                             coords: map<int, Point>, dist: Distance, cur: int, b: int)
    requires |cands| > 0
    requires IsFirstClosest(Some(b), cands[..|cands| - 1], demands, room, coords, dist, cur)
    requires FitsRoom(demands, room, cands[|cands| - 1])
    requires Gap(coords, dist, cur, cands[|cands| - 1]) < Gap(coords, dist, cur, b)
    ensures IsFirstClosest(Some(cands[|cands| - 1]), cands, demands, room, coords, dist, cur)
  {
    var n := |cands| - 1;
    var init, c := cands[..n], cands[n];
    var p :| 0 <= p < n && init[p] == b && FitsRoom(demands, room, b) &&
      (forall i {:trigger FitsRoom(demands, room, init[i])} ::
         0 <= i < p && FitsRoom(demands, room, init[i]) ==> Gap(coords, dist, cur, init[i]) > Gap(coords, dist, cur, b)) &&
      (forall i {:trigger FitsRoom(demands, room, init[i])} ::
         p < i < n && FitsRoom(demands, room, init[i]) ==> Gap(coords, dist, cur, init[i]) >= Gap(coords, dist, cur, b));
    forall i | 0 <= i < n && FitsRoom(demands, room, cands[i])
      ensures Gap(coords, dist, cur, cands[i]) > Gap(coords, dist, cur, c)
    {
      assert cands[i] == init[i];
    }
  }

  /** A last candidate that does not fit, or is not strictly nearer, leaves
      the first closest one as it was. */
  lemma {:induction false} ClosestKeepsBest(cands: seq<int>, demands: map<int, int>, room: int,
                                            coords: map<int, Point>, dist: Distance, cur: int, b: int)
    requires |cands| > 0
    requires IsFirstClosest(Some(b), cands[..|cands| - 1], demands, room, coords, dist, cur)
    requires FitsRoom(demands, room, cands[|cands| - 1]) ==>
             Gap(coords, dist, cur, cands[|cands| - 1]) >= Gap(coords, dist, cur, b)
    ensures IsFirstClosest(Some(b), cands, demands, room, coords, dist, cur)
  {
    var n := |cands| - 1;
    var init := cands[..n];
    var p :| 0 <= p < n && init[p] == b && FitsRoom(demands, room, b) &&
      (forall i {:trigger FitsRoom(demands, room, init[i])} ::
         0 <= i < p && FitsRoom(demands, room, init[i]) ==> Gap(coords, dist, cur, init[i]) > Gap(coords, dist, cur, b)) &&
      (forall i {:trigger FitsRoom(demands, room, init[i])} ::
         p < i < n && FitsRoom(demands, room, init[i]) ==> Gap(coords, dist, cur, init[i]) >= Gap(coords, dist, cur, b));
    forall i | 0 <= i < p && FitsRoom(demands, room, cands[i])
      ensures Gap(coords, dist, cur, cands[i]) > Gap(coords, dist, cur, b)
    {
      assert cands[i] == init[i];
    }
    forall i | p < i < |cands| && FitsRoom(demands, room, cands[i])
      ensures Gap(coords, dist, cur, cands[i]) >= Gap(coords, dist, cur, b)
    {
      if i < n {
        assert cands[i] == init[i];
      }
    }
    assert cands[p] == b;
  }

  /** The outcome of a scan: KeyError when a fitting node has no point, else
      the first nearest fitting node, if any. */
  ghost function Closest(cands: seq<int>, demands: map<int, int>, room: int, coords: map<int, Point>,
                         dist: Distance, cur: int): Result<Option<int>> {
    if Measurable(cands, demands, room, coords, cur) then Ok(ClosestOf(cands, demands, room, coords, dist, cur))
    else Err(KeyError)
  }

  /** The `for node in unvisited` scan: for a node whose demand fits,
      euclidean_distance looks up both points (KeyError); the first strictly
      nearer node wins. */
  method ScanClosest(cands: seq<int>, demands: map<int, int>, room: int, coords: map<int, Point>,
                     dist: Distance, cur: int) returns (res: Result<Option<int>>)
    requires Demanded(cands, demands)
    ensures res == Closest(cands, demands, room, coords, dist, cur)
  {
    var next: Option<int> := None;
    var minDistance := 0.0;
    var i := 0;
    while i < |cands|
      invariant 0 <= i <= |cands|
      invariant Measurable(cands[..i], demands, room, coords, cur)
      invariant next == ClosestOf(cands[..i], demands, room, coords, dist, cur)
      invariant next.Some? ==> minDistance == Gap(coords, dist, cur, next.value)
    {
      var node := cands[i];
      assert cands[..i + 1][..i] == cands[..i];
      if demands[node] <= room {
        if cur !in coords || node !in coords {
          assert FitsRoom(demands, room, cands[i]);
          return Err(KeyError);
        }
        var distance := dist(coords[cur], coords[node]);
        if next.None? || distance < minDistance {
          next := Some(node);
          minDistance := distance;
        }
      }
      i := i + 1;
    }
    assert cands[..i] == cands;
    return Ok(next);
  }

  // ---------------------------------------------------------------------
  // The specification of greedy_cvrp

  /** The innermost `while unvisited` loop: one pass entered at `cur` with
      `room` capacity left, giving the ids it appends to the route and the
      unvisited list after it. `if not next_node` also stops on a chosen
      id 0. */
  ghost function Extend(left: seq<int>, demands: map<int, int>, room: int, coords: map<int, Point>,
                        dist: Distance, cur: int): (r: Result<(seq<int>, seq<int>)>)
    ensures r.Err? ==> r.error == KeyError
    decreases |left|
  {
    if |left| == 0 then Ok(([], left))
    else match Closest(left, demands, room, coords, dist, cur)
      case Err(e) => Err(e)
      case Ok(None) => Ok(([], left))
      case Ok(Some(c)) =>
        if c == 0 then Ok(([], left))
        else
          ClosestFits(left, demands, room, coords, dist, cur);
          Prefixed([c], Extend(RemoveFirst(left, c), demands, room - demands[c], coords, dist, c))
  }

  /** A customer the scan picks is unvisited and fits. */
  lemma {:induction false} ClosestFits(cands: seq<int>, demands: map<int, int>, room: int,
                                       coords: map<int, Point>, dist: Distance, cur: int)
    ensures var r := Closest(cands, demands, room, coords, dist, cur);
      r.Ok? && r.value.Some? ==> r.value.value in cands && FitsRoom(demands, room, r.value.value)
  {
    ClosestOfFits(cands, demands, room, coords, dist, cur);
  }

  /** The ids `xs` appended before those of a pass. */
  function Prefixed(xs: seq<int>, r: Result<(seq<int>, seq<int>)>): Result<(seq<int>, seq<int>)> {
    match r
    case Err(e) => Err(e)
    case Ok(p) => Ok((xs + p.0, p.1))
  }

  /** One step of a pass: the chosen customer c is appended and leaves the
      unvisited list. */
  lemma {:induction false} ExtendStep(left: seq<int>, demands: map<int, int>, room: int, coords: map<int, Point>,
                                      dist: Distance, cur: int, c: int)
    requires |left| > 0 && Closest(left, demands, room, coords, dist, cur) == Ok(Some(c)) && c != 0
    ensures c in left && FitsRoom(demands, room, c)
    ensures multiset(RemoveFirst(left, c)) + multiset{c} == multiset(left)
    ensures Extend(left, demands, room, coords, dist, cur) ==
      Prefixed([c], Extend(RemoveFirst(left, c), demands, room - demands[c], coords, dist, c))
  {
    ClosestFits(left, demands, room, coords, dist, cur);
    RemoveFirstMultiset(left, c);
  }

  /** `for route in routes`, from position k: each route gets one pass from
      the depot at full capacity, until nothing is left. */
  ghost function Sweep(routes: Solution, k: nat, left: seq<int>, demands: map<int, int>, capacity: int,
                       coords: map<int, Point>, dist: Distance): Result<(Solution, seq<int>)>
    requires k <= |routes|
    decreases |routes| - k
  {
    if k == |routes| || |left| == 0 then Ok((routes, left))
    else match Extend(left, demands, capacity, coords, dist, 0)
      case Err(e) => Err(e)
      case Ok(p) =>
        Sweep(routes[k := routes[k] + p.0], k + 1, p.1, demands, capacity, coords, dist)
  }

  /** The outer `while unvisited` loop. A sweep that places nothing leaves
      the state as it was and would repeat for ever. */
  ghost function Rounds(routes: Solution, left: seq<int>, demands: map<int, int>, capacity: int,
                        coords: map<int, Point>, dist: Distance): Result<Solution>
    decreases |left|
  {
    if |left| == 0 then Ok(routes)
    else match Sweep(routes, 0, left, demands, capacity, coords, dist)
      case Err(e) => Err(e)
      case Ok(p) =>
        if |p.1| >= |left| then Err(Diverges)
        else Rounds(p.0, p.1, demands, capacity, coords, dist)
  }

  /** range(trucks) is empty for a negative count. */
  function TruckCount(trucks: int): nat {
    if trucks < 0 then 0 else trucks
  }

  /** The customers to place: every demand key but 0 and the largest. */
  ghost function Start(order: seq<int>, demands: map<int, int>): seq<int>
    requires demands.Keys - {0} != {}
  {
    RemoveFirst(order, SetMax(demands.Keys - {0}))
  }

  /** greedy_cvrp: max() of an empty set raises ValueError; otherwise the
      routes the loops build and their calculate_cost. */
  ghost function GreedySpec(coords: map<int, Point>, demands: map<int, int>, capacity: int, trucks: int,
                            order: seq<int>, dist: Distance): Result<(Solution, real)>
    requires Enumerates(order, demands.Keys - {0})
  {
    if demands.Keys - {0} == {} then Err(ValueError)
    else
      match Rounds(seq(TruckCount(trucks), _ => []), Start(order, demands), demands, capacity, coords, dist)
      case Err(e) => Err(e)
      case Ok(routes) =>
        match CostSpec(coords, dist, routes)
        case Err(e) => Err(e)
        case Ok(cost) => Ok((routes, cost))
  }

  lemma {:induction false} StartDemanded(order: seq<int>, demands: map<int, int>)
    requires Enumerates(order, demands.Keys - {0}) && demands.Keys - {0} != {}
    ensures Demanded(order, demands) && Demanded(Start(order, demands), demands)
  {
    assert Demanded(order, demands) by {
      forall i | 0 <= i < |order| ensures order[i] in demands {
        assert order[i] in demands.Keys - {0};
      }
    }
    var m := SetMax(demands.Keys - {0});
    if m in order {
      RemoveFirstLoad(order, m, demands);
    }
  }

  // ---------------------------------------------------------------------
  // What the loops keep

  /** The ids a pass appends and those it leaves are those it was given. */
  ghost predicate Moves(r: Result<(seq<int>, seq<int>)>, left: seq<int>) {
    r.Ok? ==> multiset(r.value.0) + multiset(r.value.1) == multiset(left)
  }

  /** A pass moves ids from the unvisited list to the route. */
  lemma {:induction false} ExtendMoves(left: seq<int>, demands: map<int, int>, room: int, coords: map<int, Point>,
                                       dist: Distance, cur: int)
    ensures Moves(Extend(left, demands, room, coords, dist, cur), left)
    decreases |left|, 1
  {
    var pick := Closest(left, demands, room, coords, dist, cur);
    if |left| > 0 && pick.Ok? && pick.value.Some? && pick.value.value != 0 {
      ExtendMovesStep(left, demands, room, coords, dist, cur, pick.value.value);
    }
  }

  lemma {:induction false} ExtendMovesStep(left: seq<int>, demands: map<int, int>, room: int, coords: map<int, Point>,
                                           dist: Distance, cur: int, c: int)
    requires |left| > 0 && Closest(left, demands, room, coords, dist, cur) == Ok(Some(c)) && c != 0
    ensures Moves(Extend(left, demands, room, coords, dist, cur), left)
    decreases |left|, 0
  {
    ExtendStep(left, demands, room, coords, dist, cur, c);
    var rest := RemoveFirst(left, c);
    var room2 := room - demands[c];
    var r := Extend(rest, demands, room2, coords, dist, c);
    assert Extend(left, demands, room, coords, dist, cur) == Prefixed([c], r);
    ExtendMoves(rest, demands, room2, coords, dist, c);
    PrependMoves(c, r, rest, left);
    assert Moves(Prefixed([c], r), left);
  }

  lemma {:induction false} PrependMoves(c: int, r: Result<(seq<int>, seq<int>)>, rest: seq<int>, left: seq<int>)
    requires Moves(r, rest)
    requires multiset(rest) + multiset{c} == multiset(left)
    ensures Moves(Prefixed([c], r), left)
  {
    if r.Ok? {
      var added, after := r.value.0, r.value.1;
      var a1, a2 := multiset(added) + multiset(after), multiset(rest);
      var b1, b2 := multiset(rest) + multiset{c}, multiset(left);
      assert a1 == a2 && b1 == b2;
      assert multiset([c] + added) == multiset{c} + multiset(added);
      forall z ensures (multiset([c] + added) + multiset(after))[z] == multiset(left)[z] {
        assert a1[z] == a2[z] && b1[z] == b2[z];
      }
    }
  }

  /** What a pass appends is known to `demands` and, when not empty, its
      demands sum to at most the room the pass started with. */
  ghost predicate Within(r: Result<(seq<int>, seq<int>)>, demands: map<int, int>, room: int) {
    r.Ok? ==> Demanded(r.value.0, demands) && (|r.value.0| == 0 || Load(r.value.0, demands) <= room)
  }

  /** A pass never overfills the room it starts with. */
  lemma {:induction false} ExtendWithin(left: seq<int>, demands: map<int, int>, room: int, coords: map<int, Point>,
                                        dist: Distance, cur: int)
    ensures Within(Extend(left, demands, room, coords, dist, cur), demands, room)
    decreases |left|, 1
  {
    var pick := Closest(left, demands, room, coords, dist, cur);
    if |left| > 0 && pick.Ok? && pick.value.Some? && pick.value.value != 0 {
      ExtendWithinStep(left, demands, room, coords, dist, cur, pick.value.value);
    }
  }

  lemma {:induction false} ExtendWithinStep(left: seq<int>, demands: map<int, int>, room: int, coords: map<int, Point>,
                                            dist: Distance, cur: int, c: int)
    requires |left| > 0 && Closest(left, demands, room, coords, dist, cur) == Ok(Some(c)) && c != 0
    ensures Within(Extend(left, demands, room, coords, dist, cur), demands, room)
    decreases |left|, 0
  {
    ExtendStep(left, demands, room, coords, dist, cur, c);
    var rest := RemoveFirst(left, c);
    var room2 := room - demands[c];
    var r := Extend(rest, demands, room2, coords, dist, c);
    assert Extend(left, demands, room, coords, dist, cur) == Prefixed([c], r);
    ExtendWithin(rest, demands, room2, coords, dist, c);
    PrependWithin(c, r, demands, room);
    assert Within(Prefixed([c], r), demands, room);
  }

  lemma {:induction false} PrependWithin(c: int, r: Result<(seq<int>, seq<int>)>, demands: map<int, int>, room: int)
    requires FitsRoom(demands, room, c) && Within(r, demands, room - demands[c])
    ensures Within(Prefixed([c], r), demands, room)
  {
    if r.Ok? {
      LoadSingle(c, demands);
      LoadAppend([c], r.value.0, demands);
      assert Demanded([c] + r.value.0, demands) by {
        forall i | 0 <= i < |[c] + r.value.0| ensures ([c] + r.value.0)[i] in demands {
          if i > 0 {
            assert ([c] + r.value.0)[i] == r.value.0[i - 1];
          }
        }
      }
    }
  }

  /** One route of a sweep: it gets the ids of its pass. */
  lemma {:induction false} SweepStep(routes: Solution, k: nat, left: seq<int>, demands: map<int, int>,
                                     capacity: int, coords: map<int, Point>, dist: Distance)
    requires k < |routes| && |left| > 0
    requires Extend(left, demands, capacity, coords, dist, 0).Ok?
    ensures var e := Extend(left, demands, capacity, coords, dist, 0).value;
      multiset(e.0) + multiset(e.1) == multiset(left) &&
      Sweep(routes, k, left, demands, capacity, coords, dist) ==
        Sweep(routes[k := routes[k] + e.0], k + 1, e.1, demands, capacity, coords, dist)
  {
    ExtendMoves(left, demands, capacity, coords, dist, 0);
  }

  /** The ids on the routes and in the unvisited list, together. */
  ghost function Placed(routes: Solution, left: seq<int>): multiset<int> {
    multiset(Flatten(routes)) + multiset(left)
  }

  /** Moving the ids of a pass onto route k keeps them all. */
  lemma {:induction false} PlacedMove(routes: Solution, k: nat, added: seq<int>, rest: seq<int>, left: seq<int>)
    requires k < |routes| && multiset(added) + multiset(rest) == multiset(left)
    ensures Placed(routes[k := routes[k] + added], rest) == Placed(routes, left)
    ensures multiset(rest) <= multiset(left)
  {
    var route := routes[k] + added;
    FlattenUpdate(routes, k, route);
    var b1, b2 := multiset(Flatten(routes[k := route])) + multiset(routes[k]), multiset(Flatten(routes)) + multiset(route);
    var c1, c2 := multiset(route), multiset(routes[k]) + multiset(added);
    var d1, d2 := multiset(added) + multiset(rest), multiset(left);
    assert b1 == b2 && c1 == c2 && d1 == d2;
    forall z ensures Placed(routes[k := route], rest)[z] == Placed(routes, left)[z] {
      assert b1[z] == b2[z] && c1[z] == c2[z] && d1[z] == d2[z];
    }
    forall z ensures multiset(rest)[z] <= multiset(left)[z] {
      assert d1[z] == d2[z];
    }
  }

  /** A sweep keeps the number of routes. */
  lemma {:induction false} SweepShape(routes: Solution, k: nat, left: seq<int>, demands: map<int, int>,
                                      capacity: int, coords: map<int, Point>, dist: Distance)
    requires k <= |routes|
    ensures var r := Sweep(routes, k, left, demands, capacity, coords, dist);
      r.Ok? ==> |r.value.0| == |routes|
    decreases |routes| - k
  {
    if k < |routes| && |left| > 0 && Extend(left, demands, capacity, coords, dist, 0).Ok? {
      var e := Extend(left, demands, capacity, coords, dist, 0).value;
      SweepShape(routes[k := routes[k] + e.0], k + 1, e.1, demands, capacity, coords, dist);
    }
  }

  /** A sweep moves ids from the unvisited list onto the routes. */
  lemma {:induction false} SweepPlaced(routes: Solution, k: nat, left: seq<int>, demands: map<int, int>,
                                       capacity: int, coords: map<int, Point>, dist: Distance)
    requires k <= |routes|
    ensures var r := Sweep(routes, k, left, demands, capacity, coords, dist);
      r.Ok? ==> Placed(r.value.0, r.value.1) == Placed(routes, left) && multiset(r.value.1) <= multiset(left)
    decreases |routes| - k
  {
    if k < |routes| && |left| > 0 && Extend(left, demands, capacity, coords, dist, 0).Ok? {
      var e := Extend(left, demands, capacity, coords, dist, 0).value;
      var moved := routes[k := routes[k] + e.0];
      SweepStep(routes, k, left, demands, capacity, coords, dist);
      SweepPlaced(moved, k + 1, e.1, demands, capacity, coords, dist);
      var r := Sweep(moved, k + 1, e.1, demands, capacity, coords, dist);
      assert Sweep(routes, k, left, demands, capacity, coords, dist) == r;
      PlacedStep(routes, k, left, e.0, e.1, r);
    }
  }

  /** A pass that moves its ids onto route k, followed by sweeps that keep
      every id, keeps every id. */
  lemma {:induction false} PlacedStep(routes: Solution, k: nat, left: seq<int>, added: seq<int>, rest: seq<int>,
                                      r: Result<(Solution, seq<int>)>)
    requires k < |routes| && multiset(added) + multiset(rest) == multiset(left)
    requires r.Ok? ==> Placed(r.value.0, r.value.1) == Placed(routes[k := routes[k] + added], rest) &&
                       multiset(r.value.1) <= multiset(rest)
    ensures r.Ok? ==> Placed(r.value.0, r.value.1) == Placed(routes, left) && multiset(r.value.1) <= multiset(left)
  {
    PlacedMove(routes, k, added, rest, left);
    if r.Ok? {
      PlacedChain(r.value.0, r.value.1, routes[k := routes[k] + added], rest, routes, left);
    }
  }

  /** Two sweeps' worth of keeping every id keep every id. */
  lemma {:induction false} PlacedChain(a: Solution, aLeft: seq<int>, b: Solution, bLeft: seq<int>,
                                       c: Solution, cLeft: seq<int>)
    requires Placed(a, aLeft) == Placed(b, bLeft) && multiset(aLeft) <= multiset(bLeft)
    requires Placed(b, bLeft) == Placed(c, cLeft) && multiset(bLeft) <= multiset(cLeft)
    ensures Placed(a, aLeft) == Placed(c, cLeft) && multiset(aLeft) <= multiset(cLeft)
  {
    MultisetLeTrans(multiset(aLeft), multiset(bLeft), multiset(cLeft));
  }

  lemma {:induction false} MultisetLeTrans(a: multiset<int>, b: multiset<int>, c: multiset<int>)
    requires a <= b && b <= c
    ensures a <= c
  {
  }

  /** The outer loop keeps the number of routes and, when it returns, has
      put every id of the unvisited list on the routes. */
  lemma {:induction false} RoundsKeeps(routes: Solution, left: seq<int>, demands: map<int, int>, capacity: int,
                                       coords: map<int, Point>, dist: Distance)
    ensures var r := Rounds(routes, left, demands, capacity, coords, dist);
      r.Ok? ==> |r.value| == |routes| && multiset(Flatten(r.value)) == Placed(routes, left)
    decreases |left|
  {
    if |left| > 0 {
      var s := Sweep(routes, 0, left, demands, capacity, coords, dist);
      SweepShape(routes, 0, left, demands, capacity, coords, dist);
      SweepPlaced(routes, 0, left, demands, capacity, coords, dist);
      if s.Ok? && |s.value.1| < |left| {
        RoundsKeeps(s.value.0, s.value.1, demands, capacity, coords, dist);
      }
    }
  }

  // ---------------------------------------------------------------------
  // greedy_cvrp, loop by loop

  lemma {:induction false} PrefixedAppend(xs: seq<int>, ys: seq<int>, r: Result<(seq<int>, seq<int>)>)
    ensures Prefixed(xs, Prefixed(ys, r)) == Prefixed(xs + ys, r)
  {
    if r.Ok? {
      assert xs + (ys + r.value.0) == (xs + ys) + r.value.0;
    }
  }

  lemma {:induction false} PrefixedNothing(r: Result<(seq<int>, seq<int>)>)
    ensures Prefixed([], r) == r
  {
    if r.Ok? {
      assert [] + r.value.0 == r.value.0;
    }
  }

  /** One turn of the innermost loop: c joins the route. */
  lemma {:induction false} PassStep(unvisited: seq<int>, demands: map<int, int>, capacity: int,
                                    coords: map<int, Point>, dist: Distance, added: seq<int>, left: seq<int>,
                                    room: int, current: int, c: int, rest: seq<int>, room2: int)
    requires Demanded(left, demands) && |left| > 0
    requires Closest(left, demands, room, coords, dist, current) == Ok(Some(c)) && c != 0
    requires Extend(unvisited, demands, capacity, coords, dist, 0) ==
      Prefixed(added, Extend(left, demands, room, coords, dist, current))
    requires c in demands ==> rest == RemoveFirst(left, c) && room2 == room - demands[c]
    ensures c in left && c in demands && Demanded(rest, demands) && |rest| < |left|
    ensures Extend(unvisited, demands, capacity, coords, dist, 0) ==
      Prefixed(added + [c], Extend(rest, demands, room2, coords, dist, c))
  {
    ExtendStep(left, demands, room, coords, dist, current, c);
    RemoveFirstLoad(left, c, demands);
    var r := Extend(rest, demands, room2, coords, dist, c);
    assert Extend(left, demands, room, coords, dist, current) == Prefixed([c], r);
    PrefixedAppend(added, [c], r);
    assert Prefixed(added, Prefixed([c], r)) == Prefixed(added + [c], r);
  }

  /** The innermost `while unvisited` loop, from the depot at full capacity:
      the ids appended to the route and the unvisited list left. */
  method ExtendRoute(unvisited: seq<int>, demands: map<int, int>, capacity: int, coords: map<int, Point>,
                     dist: Distance) returns (res: Result<(seq<int>, seq<int>)>)
    requires Demanded(unvisited, demands)
    ensures res == Extend(unvisited, demands, capacity, coords, dist, 0)
    ensures res.Ok? ==> Demanded(res.value.1, demands)
  {
    var left, added, room, current := unvisited, [], capacity, 0;
    PrefixedNothing(Extend(unvisited, demands, capacity, coords, dist, 0));
    while |left| > 0
      invariant Demanded(left, demands)
      invariant Extend(unvisited, demands, capacity, coords, dist, 0) ==
        Prefixed(added, Extend(left, demands, room, coords, dist, current))
      decreases |left|
    {
      var pick := ScanClosest(left, demands, room, coords, dist, current);
      if pick.Err? {
        PassFails(added, left, demands, room, coords, dist, current);
        return Err(pick.error);
      }
      if pick.value.None? || pick.value.value == 0 {
        break;
      }
      var c := pick.value.value;
      ClosestFits(left, demands, room, coords, dist, current);
      var rest, room2 := RemoveFirst(left, c), room - demands[c];
      PassStep(unvisited, demands, capacity, coords, dist, added, left, room, current, c, rest, room2);
      added, room, left, current := added + [c], room2, rest, c;
    }
    PassEnds(added, left, demands, room, coords, dist, current);
    return Ok((added, left));
  }

  /** A failed scan fails the whole pass. */
  lemma {:induction false} PassFails(added: seq<int>, left: seq<int>, demands: map<int, int>, room: int,
                                     coords: map<int, Point>, dist: Distance, current: int)
    requires |left| > 0 && Closest(left, demands, room, coords, dist, current).Err?
    ensures Prefixed(added, Extend(left, demands, room, coords, dist, current)) ==
      Err(Closest(left, demands, room, coords, dist, current).error)
  {
  }

  /** `if not next_node: break` and the end of `while unvisited`: the route
      gets nothing more. */
  lemma {:induction false} PassEnds(added: seq<int>, left: seq<int>, demands: map<int, int>, room: int,
                                    coords: map<int, Point>, dist: Distance, current: int)
    requires |left| == 0 || Closest(left, demands, room, coords, dist, current) in {Ok(None), Ok(Some(0))}
    ensures Prefixed(added, Extend(left, demands, room, coords, dist, current)) == Ok((added, left))
  {
    assert Extend(left, demands, room, coords, dist, current) == Ok(([], left));
    assert added + [] == added;
  }

  /** `for route in routes`: one pass per route until nothing is left. */
  method SweepRoutes(routes: Solution, unvisited: seq<int>, demands: map<int, int>, capacity: int,
                     coords: map<int, Point>, dist: Distance) returns (res: Result<(Solution, seq<int>)>)
    requires Demanded(unvisited, demands)
    ensures res == Sweep(routes, 0, unvisited, demands, capacity, coords, dist)
    ensures res.Ok? ==> Demanded(res.value.1, demands)
  {
    var rs, left, k := routes, unvisited, 0;
    while k < |rs|
      invariant 0 <= k <= |rs| == |routes|
      invariant Demanded(left, demands)
      invariant Sweep(routes, 0, unvisited, demands, capacity, coords, dist) ==
        Sweep(rs, k, left, demands, capacity, coords, dist)
      decreases |rs| - k
    {
      if |left| == 0 {
        return Ok((rs, left));
      }
      var pass := ExtendRoute(left, demands, capacity, coords, dist);
      if pass.Err? {
        return Err(pass.error);
      }
      rs, left, k := rs[k := rs[k] + pass.value.0], pass.value.1, k + 1;
    }
    return Ok((rs, left));
  }

  /** greedy_cvrp over `order`, the iteration order of the customer set. */
  method GreedyCvrp(coords: map<int, Point>, demands: map<int, int>, capacity: int, trucks: int,
                    order: seq<int>, dist: Distance) returns (res: Result<(Solution, real)>)
    requires Enumerates(order, demands.Keys - {0})
    ensures res == GreedySpec(coords, demands, capacity, trucks, order, dist)
  {
    EnumeratesElements(order, demands.Keys - {0});
    if |order| == 0 {
      return Err(ValueError);
    }
    assert order[0] in demands.Keys - {0};
    var maxId := MaxOf(demands.Keys - {0});
    var unvisited := RemoveFirst(order, maxId);
    var routes: Solution := seq(TruckCount(trucks), _ => []);
    StartDemanded(order, demands);
    while |unvisited| > 0
      invariant Demanded(unvisited, demands)
      invariant Rounds(seq(TruckCount(trucks), _ => []), Start(order, demands), demands, capacity, coords, dist) ==
        Rounds(routes, unvisited, demands, capacity, coords, dist)
      decreases |unvisited|
    {
      var sweep := SweepRoutes(routes, unvisited, demands, capacity, coords, dist);
      if sweep.Err? {
        return Err(sweep.error);
      }
      if |sweep.value.1| >= |unvisited| {
        return Err(Diverges);
      }
      routes, unvisited := sweep.value.0, sweep.value.1;
    }
    var cost := CalculateCost(routes, coords, dist);
    if cost.Err? {
      return Err(cost.error);
    }
    return Ok((routes, cost.value));
  }
}
