/** local_search (submissions/team2/rechercheLocaleImpl.py): a hill climb.
    It starts from create_initial_solution over the shared set-up. Then, for
    at most max_iterations rounds, it draws the neighbourhood of the current
    solution, takes its first cheapest member, and adopts it only when it is
    strictly cheaper; otherwise it stops.

    neighborhood_solution draws at random and lists a set; the search sees it
    as the parameter `neighbours`, the list (or the exception) it returns in
    a given round for a given solution. */
module LocalSearch {
  import opened Wrappers
  import opened Geometry
  import opened Routes
  import opened Functions
  import opened Neighborhood
  import opened SearchSetup

  /** How the climb ends: the solution and its cost, the number of rounds
      that adopted a neighbour, and whether it stopped early at a round
      without a cheaper neighbour. */
  datatype Outcome = Outcome(solution: Solution, cost: real, rounds: nat, stopped: bool)

  /** The `for candidate in neighbors` loop over cands: the first candidate
      of least cost with that cost, None for no candidates; the first
      calculate_total_cost that raises ends it. */
  ghost function BestOf(matrix: Matrix, index: map<int, int>, cands: seq<Solution>): Result<Option<(Solution, real)>>
    requires MatrixFor(matrix, index)
    decreases |cands|
  {
    if |cands| == 0 then Ok(None)
    else
      match BestOf(matrix, index, cands[..|cands| - 1])
      case Err(e) => Err(e)
      case Ok(b) =>
        var last := cands[|cands| - 1];
        match TotalCostSpec(matrix, index, last)
        case Err(e) => Err(e)
        case Ok(c) => if b.None? || c < b.value.1 then Ok(Some((last, c))) else Ok(b)
  }

  /** The rounds from `it` on, with (best, cost) the current solution. */
  ghost function Climb(s: Setup, neighbours: Oracle, maxIter: int, it: nat, best: Solution, cost: real): Result<Outcome>
    requires MatrixFor(s.matrix, s.index)
    decreases if it < maxIter then maxIter - it else 0
  {
    if it >= maxIter then Ok(Outcome(best, cost, it, false))
    else
      match neighbours(it, best)
      case Err(e) => Err(e)
      case Ok(cands) =>
        match BestOf(s.matrix, s.index, cands)
        case Err(e) => Err(e)
        case Ok(b) =>
          if b.Some? && b.value.1 < cost then Climb(s, neighbours, maxIter, it + 1, b.value.0, b.value.1)
          else Ok(Outcome(best, cost, it, true))
  }

  /** The whole of local_search: the set-up, the initial solution and its
      cost, then the climb. `keys` lists the coordinate keys and `dkeys` the
      demand keys, in dictionary order. */
  ghost function LocalSearchSpec(coords: map<int, Point>, keys: seq<int>, depot: Point, dist: Distance,
                                 demands: map<int, int>, dkeys: seq<int>, capacity: int, maxIter: int,
                                 neighbours: Oracle): Result<Outcome>
    requires Enumerates(keys, coords.Keys) && Enumerates(dkeys, demands.Keys)
  {
    var s := Prepare(coords, keys, depot, dist);
    SetupShape(coords, keys, depot, dist);
    var init := if Indexed(dkeys, s.index) then GreedySolution(dkeys, demands, capacity, s.matrix, s.index, [])
                else Err(KeyError);
    match init
    case Err(e) => Err(e)
    case Ok(start) =>
      match TotalCostSpec(s.matrix, s.index, start)
      case Err(e) => Err(e)
      case Ok(c) => Climb(s, neighbours, maxIter, 0, start, c)
  }

  /** The pair local_search returns. */
  function Returned(r: Result<Outcome>): Result<(Solution, real)> {
    match r
    case Err(e) => Err(e)
    case Ok(o) => Ok((o.solution, o.cost))
  }

  // ---------------------------------------------------------------------
  // The imperative search

  lemma {:induction false} BestOfPrefixErr(matrix: Matrix, index: map<int, int>, cands: seq<Solution>, k: nat, e: Error)
    requires MatrixFor(matrix, index)
    requires k <= |cands| && BestOf(matrix, index, cands[..k]) == Err(e)
    ensures BestOf(matrix, index, cands) == Err(e)
    decreases |cands| - k
  {
    if k < |cands| {
      assert cands[..k + 1][..k] == cands[..k];
      BestOfPrefixErr(matrix, index, cands, k + 1, e);
    } else {
      assert cands[..k] == cands;
    }
  }

  /** The inner loop: the first cheapest candidate. */
  method BestCandidate(matrix: Matrix, index: map<int, int>, cands: seq<Solution>)
    returns (res: Result<Option<(Solution, real)>>)
    requires MatrixFor(matrix, index)
    ensures res == BestOf(matrix, index, cands)
  {
    var best: Option<(Solution, real)> := None;
    var j := 0;
    while j < |cands|
      invariant 0 <= j <= |cands|
      invariant BestOf(matrix, index, cands[..j]) == Ok(best)
    {
      assert cands[..j + 1][..j] == cands[..j] && cands[..j + 1][j] == cands[j];
      var c := CalculateTotalCost(cands[j], matrix, index);
      if c.Err? {
        BestOfPrefixErr(matrix, index, cands, j + 1, c.error);
        return Err(c.error);
      }
      if best.None? || c.value < best.value.1 {
        best := Some((cands[j], c.value));
      }
      j := j + 1;
    }
    assert cands[..|cands|] == cands;
    return Ok(best);
  }

  /** local_search. The caller's coordinate dictionary comes back with -1
      mapped to the depot. */
  method Run(coords: map<int, Point>, keys: seq<int>, depot: Point, dist: Distance,
             demands: map<int, int>, dkeys: seq<int>, capacity: int, maxIter: int, neighbours: Oracle)
    returns (res: Result<(Solution, real)>, table: map<int, Point>)
    requires Enumerates(keys, coords.Keys) && Enumerates(dkeys, demands.Keys)
    ensures table == coords[-1 := depot]
    ensures res == Returned(LocalSearchSpec(coords, keys, depot, dist, demands, dkeys, capacity, maxIter, neighbours))
  {
    var s := Prepare(coords, keys, depot, dist);
    SetupShape(coords, keys, depot, dist);
    table := s.table;
    var init := CreateInitialSolution(demands, dkeys, capacity, s.matrix, s.index);
    if init.Err? {
      return Err(init.error), table;
    }
    var best := init.value;
    var c0 := CalculateTotalCost(best, s.matrix, s.index);
    if c0.Err? {
      return Err(c0.error), table;
    }
    res := ClimbFrom(s, neighbours, maxIter, best, c0.value);
  }

  /** The `for iteration in range(max_iterations)` loop with its break. */
  method ClimbFrom(s: Setup, neighbours: Oracle, maxIter: int, start: Solution, cost: real)
    returns (res: Result<(Solution, real)>)
    requires MatrixFor(s.matrix, s.index)
    ensures res == Returned(Climb(s, neighbours, maxIter, 0, start, cost))
  {
    var best, bestCost := start, cost;
    var it: nat := 0;
    while it < maxIter
      invariant Climb(s, neighbours, maxIter, 0, start, cost) == Climb(s, neighbours, maxIter, it, best, bestCost)
      decreases maxIter - it
    {
      var nb := neighbours(it, best);
      if nb.Err? {
        return Err(nb.error);
      }
      var cand := BestCandidate(s.matrix, s.index, nb.value);
      if cand.Err? {
        return Err(cand.error);
      }
      if cand.value.Some? && cand.value.value.1 < bestCost {
        best, bestCost := cand.value.value.0, cand.value.value.1;
      } else {
        break;
      }
      it := it + 1;
    }
    return Ok((best, bestCost));
  }

  // ---------------------------------------------------------------------
  // Lemmas

  /** The candidate chosen is at a position k: every candidate has a cost,
      none is cheaper, and every one before k is strictly dearer. */
  ghost predicate FirstLeast(matrix: Matrix, index: map<int, int>, cands: seq<Solution>, k: nat)
    requires MatrixFor(matrix, index)
  {
    k < |cands| &&
    (forall i :: 0 <= i < |cands| ==> TotalCostSpec(matrix, index, cands[i]).Ok?) &&
    (forall i :: 0 <= i < |cands| ==>
       TotalCostSpec(matrix, index, cands[i]).value >= TotalCostSpec(matrix, index, cands[k]).value) &&
    (forall i :: 0 <= i < k ==>
       TotalCostSpec(matrix, index, cands[i]).value > TotalCostSpec(matrix, index, cands[k]).value)
  }

  /** The inner loop fails exactly when some candidate's cost raises, finds
      nothing only among no candidates, and otherwise picks the first
      candidate of least cost. */
  lemma {:induction false} BestOfLeast(matrix: Matrix, index: map<int, int>, cands: seq<Solution>)
    requires MatrixFor(matrix, index)
    ensures var r := BestOf(matrix, index, cands);
      (r.Ok? <==> forall i :: 0 <= i < |cands| ==> TotalCostSpec(matrix, index, cands[i]).Ok?) &&
      (r.Ok? ==> (r.value.None? <==> |cands| == 0)) &&
      (r.Ok? && r.value.Some? ==>
         exists k: nat :: FirstLeast(matrix, index, cands, k) &&
                     r.value.value == (cands[k], TotalCostSpec(matrix, index, cands[k]).value))
  {
    BestOfOk(matrix, index, cands);
    BestOfFirst(matrix, index, cands);
  }

  /** The failure and the empty case of the inner loop. */
  lemma {:induction false} BestOfOk(matrix: Matrix, index: map<int, int>, cands: seq<Solution>)
    requires MatrixFor(matrix, index)
    ensures var r := BestOf(matrix, index, cands);
      (r.Ok? <==> forall i :: 0 <= i < |cands| ==> TotalCostSpec(matrix, index, cands[i]).Ok?) &&
      (r.Ok? ==> (r.value.None? <==> |cands| == 0))
    decreases |cands|
  {
    if |cands| > 0 {
      var init := cands[..|cands| - 1];
      BestOfOk(matrix, index, init);
      assert forall i :: 0 <= i < |init| ==> init[i] == cands[i];
    }
  }

  /** A found candidate is the first one of least cost. */
  lemma {:induction false} BestOfFirst(matrix: Matrix, index: map<int, int>, cands: seq<Solution>)
    requires MatrixFor(matrix, index)
    ensures var r := BestOf(matrix, index, cands);
      r.Ok? && r.value.Some? ==>
        exists k: nat :: FirstLeast(matrix, index, cands, k) &&
                    r.value.value == (cands[k], TotalCostSpec(matrix, index, cands[k]).value)
    decreases |cands|
  {
    if |cands| > 0 {
      var init, last := cands[..|cands| - 1], cands[|cands| - 1];
      BestOfFirst(matrix, index, init);
      BestOfOk(matrix, index, init);
      assert forall i :: 0 <= i < |init| ==> init[i] == cands[i];
      var r := BestOf(matrix, index, cands);
      var b := BestOf(matrix, index, init);
      if r.Ok? {
        var c := TotalCostSpec(matrix, index, last).value;
        if b.value.None? {
          assert FirstLeast(matrix, index, cands, 0);
        } else {
          var k: nat :| FirstLeast(matrix, index, init, k) &&
                   b.value.value == (init[k], TotalCostSpec(matrix, index, init[k]).value);
          FirstLeastGrow(matrix, index, cands, k);
        }
      }
    }
  }

  /** One more candidate either undercuts the least one so far and becomes
      it, or leaves it in place. */
  lemma FirstLeastGrow(matrix: Matrix, index: map<int, int>, cands: seq<Solution>, k: nat)
    requires MatrixFor(matrix, index) && |cands| > 0
    requires FirstLeast(matrix, index, cands[..|cands| - 1], k)
    requires TotalCostSpec(matrix, index, cands[|cands| - 1]).Ok?
    ensures var c := TotalCostSpec(matrix, index, cands[|cands| - 1]).value;
      var best := TotalCostSpec(matrix, index, cands[k]).value;
      (c < best ==> FirstLeast(matrix, index, cands, |cands| - 1)) &&
      (!(c < best) ==> FirstLeast(matrix, index, cands, k))
  {
    var init := cands[..|cands| - 1];
    assert forall i :: 0 <= i < |init| ==> init[i] == cands[i];
  }

  /** What the climb guarantees from a current solution whose cost is its
      calculate_total_cost: the returned cost is that of the returned
      solution; without an adoption both are the current ones, and with one
      the cost is strictly lower; the rounds stay within max_iterations; an
      early stop comes at a round whose every neighbour costs at least the
      returned cost, and without one every round adopted. */
  lemma {:induction false} ClimbSound(s: Setup, neighbours: Oracle, maxIter: int, it: nat, best: Solution, cost: real)
    requires MatrixFor(s.matrix, s.index)
    requires TotalCostSpec(s.matrix, s.index, best) == Ok(cost)
    ensures var r := Climb(s, neighbours, maxIter, it, best, cost);
      r.Ok? ==>
        var o := r.value;
        TotalCostSpec(s.matrix, s.index, o.solution) == Ok(o.cost) &&
        it <= o.rounds && (o.rounds == it || o.rounds <= maxIter) &&
        (o.rounds == it ==> o.solution == best && o.cost == cost) &&
        (o.rounds > it ==> o.cost < cost) &&
        (o.stopped ==>
           o.rounds < maxIter && neighbours(o.rounds, o.solution).Ok? &&
           forall i :: 0 <= i < |neighbours(o.rounds, o.solution).value| ==>
             var cand := neighbours(o.rounds, o.solution).value[i];
             TotalCostSpec(s.matrix, s.index, cand).Ok? && TotalCostSpec(s.matrix, s.index, cand).value >= o.cost) &&
        (!o.stopped ==> o.rounds >= maxIter)
    decreases if it < maxIter then maxIter - it else 0
  {
    if it < maxIter {
      var nb := neighbours(it, best);
      if nb.Ok? {
        var cands := nb.value;
        BestOfLeast(s.matrix, s.index, cands);
        var b := BestOf(s.matrix, s.index, cands);
        if b.Ok? {
          if b.value.Some? {
            var k: nat :| FirstLeast(s.matrix, s.index, cands, k) &&
                     b.value.value == (cands[k], TotalCostSpec(s.matrix, s.index, cands[k]).value);
            if b.value.value.1 < cost {
              ClimbSound(s, neighbours, maxIter, it + 1, b.value.value.0, b.value.value.1);
            }
          }
        }
      }
    }
  }

  /** The climb consults the neighbourhood only in rounds below
      max_iterations: two neighbourhoods that agree there give the same
      result. */
  lemma {:induction false} ClimbBounded(s: Setup, n1: Oracle, n2: Oracle, maxIter: int, it: nat, best: Solution, cost: real)
    requires MatrixFor(s.matrix, s.index)
    requires forall i: nat, x: Solution :: i < maxIter ==> n1(i, x) == n2(i, x)
    ensures Climb(s, n1, maxIter, it, best, cost) == Climb(s, n2, maxIter, it, best, cost)
    decreases if it < maxIter then maxIter - it else 0
  {
    if it < maxIter {
      assert n1(it, best) == n2(it, best);
      var nb := n1(it, best);
      if nb.Ok? {
        var b := BestOf(s.matrix, s.index, nb.value);
        if b.Ok? && b.value.Some? && b.value.value.1 < cost {
          ClimbBounded(s, n1, n2, maxIter, it + 1, b.value.value.0, b.value.value.1);
        }
      }
    }
  }

  /** The neighbourhood offers only capacity-checked moves of its solution,
      as neighborhood_solution does. */
  ghost predicate MovesOnly(neighbours: Oracle, demands: map<int, int>, capacity: int) {
    forall i: nat, x: Solution :: neighbours(i, x).Ok? ==>
      forall k :: 0 <= k < |neighbours(i, x).value| ==> IsMove(x, neighbours(i, x).value[k], demands, capacity)
  }

  lemma {:induction false} MoveKeepsCustomers(x: Solution, y: Solution, demands: map<int, int>, capacity: int)
    requires IsMove(x, y, demands, capacity)
    ensures multiset(Flatten(y)) == multiset(Flatten(x))
  {
    var a: nat, b: nat, p, q :| a < |x| && b < |x| && MoveWith(x, y, demands, capacity, a, b, p, q);
    MoveKeeps(x, y, demands, capacity, a, b, p, q);
  }

  /** Over such a neighbourhood every adoption is a move, so the climb keeps
      the multiset of customers of its start. */
  lemma {:induction false} ClimbKeepsCustomers(s: Setup, neighbours: Oracle, demands: map<int, int>, capacity: int,
                                              maxIter: int, it: nat, best: Solution, cost: real)
    requires MatrixFor(s.matrix, s.index) && MovesOnly(neighbours, demands, capacity)
    ensures var r := Climb(s, neighbours, maxIter, it, best, cost);
      r.Ok? ==> multiset(Flatten(r.value.solution)) == multiset(Flatten(best))
    decreases if it < maxIter then maxIter - it else 0
  {
    if it < maxIter {
      var nb := neighbours(it, best);
      if nb.Ok? {
        var cands := nb.value;
        BestOfLeast(s.matrix, s.index, cands);
        var b := BestOf(s.matrix, s.index, cands);
        if b.Ok? && b.value.Some? && b.value.value.1 < cost {
          var k: nat :| FirstLeast(s.matrix, s.index, cands, k) &&
                   b.value.value == (cands[k], TotalCostSpec(s.matrix, s.index, cands[k]).value);
          MoveKeepsCustomers(best, cands[k], demands, capacity);
          ClimbKeepsCustomers(s, neighbours, demands, capacity, maxIter, it + 1, b.value.value.0, b.value.value.1);
        }
      }
    }
  }

  /** What local_search returns: a solution whose cost is its
      calculate_total_cost, which is its closed-tour cost with the depot's
      point; over a neighbourhood of moves, a solution serving every
      customer of the demand dictionary exactly once. */
  lemma {:induction false} LocalSearchSound(coords: map<int, Point>, keys: seq<int>, depot: Point, dist: Distance,
                                            demands: map<int, int>, dkeys: seq<int>, capacity: int, maxIter: int,
                                            neighbours: Oracle)
    requires Enumerates(keys, coords.Keys) && Enumerates(dkeys, demands.Keys)
    ensures var r := LocalSearchSpec(coords, keys, depot, dist, demands, dkeys, capacity, maxIter, neighbours);
      var s := Prepare(coords, keys, depot, dist);
      r.Ok? ==>
        MatrixFor(s.matrix, s.index) &&
        TotalCostSpec(s.matrix, s.index, r.value.solution) == Ok(r.value.cost) &&
        AllLocated(r.value.solution, s.table) &&
        r.value.cost == SolutionCost(s.table, dist, -1, r.value.solution) &&
        (MovesOnly(neighbours, demands, capacity) ==>
           NoDuplicates(Flatten(r.value.solution)) && Elements(Flatten(r.value.solution)) == demands.Keys)
  {
    var s := Prepare(coords, keys, depot, dist);
    SetupShape(coords, keys, depot, dist);
    SetupConsistent(coords, keys, depot, dist);
    var r := LocalSearchSpec(coords, keys, depot, dist, demands, dkeys, capacity, maxIter, neighbours);
    if r.Ok? {
      var start := GreedySolution(dkeys, demands, capacity, s.matrix, s.index, []).value;
      var c := TotalCostSpec(s.matrix, s.index, start).value;
      assert r == Climb(s, neighbours, maxIter, 0, start, c);
      ClimbSound(s, neighbours, maxIter, 0, start, c);
      MatrixCostIsTourCost(s, dist, r.value.solution);
      if MovesOnly(neighbours, demands, capacity) {
        InitialSolutionSound(dkeys, demands, capacity, s.matrix, s.index);
        ClimbKeepsCustomers(s, neighbours, demands, capacity, maxIter, 0, start, c);
        NoDuplicatesMultiset(Flatten(start), Flatten(r.value.solution));
      }
    }
  }
}
