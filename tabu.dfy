/** tabu_search (submissions/team2/rechercheTabouImpl.py). After the shared
    set-up and create_initial_solution it runs exactly max_iterations
    iterations. Each one takes the first cheapest candidate among those that
    are not tabu, and adopts it only when it is strictly cheaper than the best
    so far. An adopted solution enters a first-in first-out tabu list bounded
    by the tenure, and the iteration of its adoption is recorded.

    Each iteration appends ten calls of neighborhood_solution to
    `neighborhood`. The source appends each returned list whole; the model
    takes their concatenation, one flat list of candidate solutions, given as
    the parameter `batches`. */
module TabuSearch {
  import opened Wrappers
  import opened Geometry
  import opened Routes
  import opened Functions
  import opened SearchSetup
  import Neighborhood

  /** The search's variables: tabu_list, tabu_iterations (keyed by the
      solution itself, as its tuple form is), best_solution and best_cost. */
  datatype Tabu = Tabu(list: seq<Solution>, recency: map<Solution, int>, best: Solution, cost: real)

  /** tabu_iterations.get(candidate, 0). */
  function Recorded(recency: map<Solution, int>, c: Solution): int {
    if c in recency then recency[c] else 0
  }

  /** The tabu test of the candidate loop. */
  predicate Eligible(t: Tabu, it: int, tenure: int, c: Solution) {
    c !in t.list || it - Recorded(t.recency, c) > tenure
  }

  /** The candidate loop over cands: every candidate's cost is computed, the
      first that raises ends it, and the first eligible candidate of least
      cost is kept; None when no candidate is eligible. */
  ghost function ChooseOf(matrix: Matrix, index: map<int, int>, t: Tabu, it: int, tenure: int,
                         cands: seq<Solution>): Result<Option<(Solution, real)>>
    requires MatrixFor(matrix, index)
    decreases |cands|
  {
    if |cands| == 0 then Ok(None)
    else
      match ChooseOf(matrix, index, t, it, tenure, cands[..|cands| - 1])
      case Err(e) => Err(e)
      case Ok(b) =>
        var last := cands[|cands| - 1];
        match TotalCostSpec(matrix, index, last)
        case Err(e) => Err(e)
        case Ok(c) =>
          if Eligible(t, it, tenure, last) && (b.None? || c < b.value.1) then Ok(Some((last, c))) else Ok(b)
  }

  /** The adoption rule: a strictly cheaper choice becomes the best, joins
      the tabu list and is recorded with the iteration; the oldest entry
      leaves when the list grows beyond the tenure. */
  function Adopt(t: Tabu, it: int, tenure: int, choice: Option<(Solution, real)>): Tabu {
    if choice.Some? && choice.value.1 < t.cost then
      var (c, cost) := choice.value;
      var list := t.list + [c];
      Tabu(if |list| > tenure then list[1..] else list, t.recency[c := it], c, cost)
    else t
  }

  /** The iterations from `it` on. */
  ghost function TabuFrom(s: Setup, batches: Oracle, maxIter: int, tenure: int, it: nat, t: Tabu): Result<Tabu>
    requires MatrixFor(s.matrix, s.index)
    decreases if it < maxIter then maxIter - it else 0
  {
    if it >= maxIter then Ok(t)
    else
      match batches(it, t.best)
      case Err(e) => Err(e)
      case Ok(cands) =>
        match ChooseOf(s.matrix, s.index, t, it, tenure, cands)
        case Err(e) => Err(e)
        case Ok(choice) => TabuFrom(s, batches, maxIter, tenure, it + 1, Adopt(t, it, tenure, choice))
  }

  /** The whole of tabu_search. */
  ghost function TabuSpec(coords: map<int, Point>, keys: seq<int>, depot: Point, dist: Distance,
                          demands: map<int, int>, dkeys: seq<int>, capacity: int, maxIter: int, tenure: int,
                          batches: Oracle): Result<Tabu>
    requires Enumerates(keys, coords.Keys) && Enumerates(dkeys, demands.Keys)
  {
    var s := Prepare(coords, keys, depot, dist);
    SetupShape(coords, keys, depot, dist);
    var init := if Indexed(dkeys, s.index) then GreedySolution(dkeys, demands, capacity, s.matrix, s.index, [])
                else Err(KeyError);
    match init
    case Err(e) => Err(e)
    case Ok(start) =>
      match TotalCostSpec(s.matrix, s.index, start)
      case Err(e) => Err(e)
      case Ok(c) => TabuFrom(s, batches, maxIter, tenure, 0, Tabu([], map[], start, c))
  }

  /** The pair tabu_search returns. */
  function Returned(r: Result<Tabu>): Result<(Solution, real)> {
    match r
    case Err(e) => Err(e)
    case Ok(t) => Ok((t.best, t.cost))
  }

  // ---------------------------------------------------------------------
  // The imperative search

  lemma {:induction false} ChooseOfPrefixErr(matrix: Matrix, index: map<int, int>, t: Tabu, it: int, tenure: int,
                                            cands: seq<Solution>, k: nat, e: Error)
    requires MatrixFor(matrix, index)
    requires k <= |cands| && ChooseOf(matrix, index, t, it, tenure, cands[..k]) == Err(e)
    ensures ChooseOf(matrix, index, t, it, tenure, cands) == Err(e)
    decreases |cands| - k
  {
    if k < |cands| {
      assert cands[..k + 1][..k] == cands[..k];
      ChooseOfPrefixErr(matrix, index, t, it, tenure, cands, k + 1, e);
    } else {
      assert cands[..k] == cands;
    }
  }

  /** The candidate loop. */
  method ChooseCandidate(matrix: Matrix, index: map<int, int>, t: Tabu, it: int, tenure: int, cands: seq<Solution>)
    returns (res: Result<Option<(Solution, real)>>)
    requires MatrixFor(matrix, index)
    ensures res == ChooseOf(matrix, index, t, it, tenure, cands)
  {
    var best: Option<(Solution, real)> := None;
    var j := 0;
    while j < |cands|
      invariant 0 <= j <= |cands|
      invariant ChooseOf(matrix, index, t, it, tenure, cands[..j]) == Ok(best)
    {
      assert cands[..j + 1][..j] == cands[..j] && cands[..j + 1][j] == cands[j];
      var c := CalculateTotalCost(cands[j], matrix, index);
      if c.Err? {
        ChooseOfPrefixErr(matrix, index, t, it, tenure, cands, j + 1, c.error);
        return Err(c.error);
      }
      var candidate := cands[j];
      if (candidate !in t.list || it - Recorded(t.recency, candidate) > tenure) &&
         (best.None? || c.value < best.value.1) {
        best := Some((candidate, c.value));
      }
      j := j + 1;
    }
    assert cands[..|cands|] == cands;
    return Ok(best);
  }

  /** The `for iteration in range(max_iterations)` loop: tabu_list grows by
      append and shrinks by pop(0), tabu_iterations gains an entry per
      adoption. */
  method Iterate(s: Setup, batches: Oracle, maxIter: int, tenure: int, start: Solution, cost: real)
    returns (res: Result<Tabu>)
    requires MatrixFor(s.matrix, s.index)
    ensures res == TabuFrom(s, batches, maxIter, tenure, 0, Tabu([], map[], start, cost))
  {
    var tabuList: seq<Solution> := [];
    var tabuIterations: map<Solution, int> := map[];
    var best, bestCost := start, cost;
    var it: nat := 0;
    while it < maxIter
      invariant TabuFrom(s, batches, maxIter, tenure, 0, Tabu([], map[], start, cost)) ==
                TabuFrom(s, batches, maxIter, tenure, it, Tabu(tabuList, tabuIterations, best, bestCost))
      decreases maxIter - it
    {
      var neighborhood := batches(it, best);
      if neighborhood.Err? {
        return Err(neighborhood.error);
      }
      var choice := ChooseCandidate(s.matrix, s.index, Tabu(tabuList, tabuIterations, best, bestCost), it, tenure,
                                    neighborhood.value);
      if choice.Err? {
        return Err(choice.error);
      }
      if choice.value.Some? && choice.value.value.1 < bestCost {
        best, bestCost := choice.value.value.0, choice.value.value.1;
        tabuList := tabuList + [best];
        tabuIterations := tabuIterations[best := it];
        if |tabuList| > tenure {
          tabuList := tabuList[1..];
        }
      }
      it := it + 1;
    }
    return Ok(Tabu(tabuList, tabuIterations, best, bestCost));
  }

  /** tabu_search. The caller's coordinate dictionary comes back with -1
      mapped to the depot, and nothing else of the inputs changes. */
  method Run(coords: map<int, Point>, keys: seq<int>, depot: Point, dist: Distance,
             demands: map<int, int>, dkeys: seq<int>, capacity: int, maxIter: int, tenure: int, batches: Oracle)
    returns (res: Result<(Solution, real)>, table: map<int, Point>)
    requires Enumerates(keys, coords.Keys) && Enumerates(dkeys, demands.Keys)
    ensures table == coords[-1 := depot]
    ensures res == Returned(TabuSpec(coords, keys, depot, dist, demands, dkeys, capacity, maxIter, tenure, batches))
  {
    var s := Prepare(coords, keys, depot, dist);
    SetupShape(coords, keys, depot, dist);
    table := s.table;
    var init := CreateInitialSolution(demands, dkeys, capacity, s.matrix, s.index);
    if init.Err? {
      return Err(init.error), table;
    }
    var c0 := CalculateTotalCost(init.value, s.matrix, s.index);
    if c0.Err? {
      return Err(c0.error), table;
    }
    var r := Iterate(s, batches, maxIter, tenure, init.value, c0.value);
    res := Returned(r);
  }

  // ---------------------------------------------------------------------
  // Lemmas

  /** Position k holds the choice: it is eligible, no eligible candidate is
      cheaper, and every eligible one before it is strictly dearer. */
  ghost predicate FirstEligibleLeast(matrix: Matrix, index: map<int, int>, t: Tabu, it: int, tenure: int,
                                     cands: seq<Solution>, k: nat)
    requires MatrixFor(matrix, index)
  {
    k < |cands| && Eligible(t, it, tenure, cands[k]) &&
    (forall i :: 0 <= i < |cands| ==> TotalCostSpec(matrix, index, cands[i]).Ok?) &&
    (forall i :: 0 <= i < |cands| && Eligible(t, it, tenure, cands[i]) ==>
       TotalCostSpec(matrix, index, cands[i]).value >= TotalCostSpec(matrix, index, cands[k]).value) &&
    (forall i :: 0 <= i < k && Eligible(t, it, tenure, cands[i]) ==>
       TotalCostSpec(matrix, index, cands[i]).value > TotalCostSpec(matrix, index, cands[k]).value)
  }

  /** The candidate loop fails exactly when some candidate's cost raises,
      tabu or not. */
  lemma {:induction false} ChooseOfFails(matrix: Matrix, index: map<int, int>, t: Tabu, it: int, tenure: int,
                                        cands: seq<Solution>)
    requires MatrixFor(matrix, index)
    ensures ChooseOf(matrix, index, t, it, tenure, cands).Ok? <==>
      forall i :: 0 <= i < |cands| ==> TotalCostSpec(matrix, index, cands[i]).Ok?
    decreases |cands|
  {
    if |cands| > 0 {
      var init := cands[..|cands| - 1];
      ChooseOfFails(matrix, index, t, it, tenure, init);
      assert forall i :: 0 <= i < |init| ==> init[i] == cands[i];
    }
  }

  /** When it succeeds it finds nothing exactly when no candidate is
      eligible, and otherwise keeps the first eligible candidate of least
      cost. */
  lemma {:induction false} ChooseOfLeast(matrix: Matrix, index: map<int, int>, t: Tabu, it: int, tenure: int,
                                        cands: seq<Solution>)
    requires MatrixFor(matrix, index)
    ensures var r := ChooseOf(matrix, index, t, it, tenure, cands);
      (r.Ok? ==> (r.value.None? <==> forall i :: 0 <= i < |cands| ==> !Eligible(t, it, tenure, cands[i]))) &&
      (r.Ok? && r.value.Some? ==>
         exists k: nat :: FirstEligibleLeast(matrix, index, t, it, tenure, cands, k) &&
                          r.value.value == (cands[k], TotalCostSpec(matrix, index, cands[k]).value))
    decreases |cands|
  {
    var r := ChooseOf(matrix, index, t, it, tenure, cands);
    if |cands| > 0 && r.Ok? {
      var init, last := cands[..|cands| - 1], cands[|cands| - 1];
      ChooseOfLeast(matrix, index, t, it, tenure, init);
      ChooseOfFails(matrix, index, t, it, tenure, cands);
      assert forall i :: 0 <= i < |init| ==> init[i] == cands[i];
      var b := ChooseOf(matrix, index, t, it, tenure, init);
      assert b.Ok?;
      var c := TotalCostSpec(matrix, index, last).value;
      if b.value.None? {
        if Eligible(t, it, tenure, last) {
          LeastIsLast(matrix, index, t, it, tenure, cands);
        }
      } else {
        var k: nat :| FirstEligibleLeast(matrix, index, t, it, tenure, init, k) &&
                      b.value.value == (init[k], TotalCostSpec(matrix, index, init[k]).value);
        if Eligible(t, it, tenure, last) && c < b.value.value.1 {
          LeastIsLast(matrix, index, t, it, tenure, cands);
        } else {
          LeastStays(matrix, index, t, it, tenure, cands, k);
        }
      }
    }
  }

  /** The last candidate is the choice when it is eligible and strictly
      cheaper than every eligible one before it. */
  lemma {:induction false} LeastIsLast(matrix: Matrix, index: map<int, int>, t: Tabu, it: int, tenure: int,
                                      cands: seq<Solution>)
    requires MatrixFor(matrix, index) && |cands| > 0
    requires forall i :: 0 <= i < |cands| ==> TotalCostSpec(matrix, index, cands[i]).Ok?
    requires Eligible(t, it, tenure, cands[|cands| - 1])
    requires forall i :: 0 <= i < |cands| - 1 && Eligible(t, it, tenure, cands[i]) ==>
      TotalCostSpec(matrix, index, cands[i]).value > TotalCostSpec(matrix, index, cands[|cands| - 1]).value
    ensures FirstEligibleLeast(matrix, index, t, it, tenure, cands, |cands| - 1)
  {
  }

  /** An earlier choice stays the choice when the last candidate is not
      both eligible and strictly cheaper. */
  lemma {:induction false} LeastStays(matrix: Matrix, index: map<int, int>, t: Tabu, it: int, tenure: int,
                                     cands: seq<Solution>, k: nat)
    requires MatrixFor(matrix, index) && |cands| > 0
    requires FirstEligibleLeast(matrix, index, t, it, tenure, cands[..|cands| - 1], k)
    requires TotalCostSpec(matrix, index, cands[|cands| - 1]).Ok?
    requires Eligible(t, it, tenure, cands[|cands| - 1]) ==>
      TotalCostSpec(matrix, index, cands[|cands| - 1]).value >= TotalCostSpec(matrix, index, cands[k]).value
    ensures FirstEligibleLeast(matrix, index, t, it, tenure, cands, k)
  {
    var init := cands[..|cands| - 1];
    assert forall i :: 0 <= i < |init| ==> init[i] == cands[i];
  }

  /** The state every iteration keeps: the tabu list holds at most
      max(tenure, 0) solutions, each recorded in tabu_iterations at an
      iteration already run, and best_cost is the cost of best_solution. */
  ghost predicate Kept(s: Setup, tenure: int, it: int, t: Tabu)
    requires MatrixFor(s.matrix, s.index)
  {
    |t.list| <= (if tenure > 0 then tenure else 0) &&
    (forall i :: 0 <= i < |t.list| ==> t.list[i] in t.recency && t.recency[t.list[i]] < it) &&
    TotalCostSpec(s.matrix, s.index, t.best) == Ok(t.cost)
  }

  /** One adoption, first in first out: the list gains the adopted solution
      at its end and loses at most its oldest entry; the adopted solution is
      recorded with the current iteration, is strictly cheaper, and no other
      record changes. Without an adoption nothing changes. */
  lemma {:induction false} AdoptFifo(s: Setup, tenure: int, it: int, t: Tabu, choice: Option<(Solution, real)>)
    requires MatrixFor(s.matrix, s.index) && Kept(s, tenure, it, t)
    requires choice.Some? ==> TotalCostSpec(s.matrix, s.index, choice.value.0) == Ok(choice.value.1)
    ensures var u := Adopt(t, it, tenure, choice);
      Kept(s, tenure, it + 1, u) && u.cost <= t.cost &&
      (if choice.Some? && choice.value.1 < t.cost then
         u.best == choice.value.0 && u.cost == choice.value.1 && u.cost < t.cost &&
         u.recency == t.recency[u.best := it] &&
         |t.list| <= |u.list| <= |t.list| + 1 &&
         u.list == (t.list + [u.best])[|t.list| + 1 - |u.list|..]
       else u == t)
  {
    var u := Adopt(t, it, tenure, choice);
    if choice.Some? && choice.value.1 < t.cost {
      var list := t.list + [choice.value.0];
      assert list[0..] == list;
      forall i | 0 <= i < |u.list| ensures u.list[i] in u.recency && u.recency[u.list[i]] < it + 1 {
        if |list| > tenure {
          assert u.list[i] == list[i + 1];
        } else {
          assert u.list[i] == list[i];
        }
      }
    }
  }

  /** What the run guarantees from a kept state: the state stays kept, so
      the tabu list never exceeds the tenure, and best_cost never increases
      and is the cost of the returned solution. */
  lemma {:induction false} TabuKeeps(s: Setup, batches: Oracle, maxIter: int, tenure: int, it: nat, t: Tabu)
    requires MatrixFor(s.matrix, s.index) && Kept(s, tenure, it, t)
    ensures var r := TabuFrom(s, batches, maxIter, tenure, it, t);
      r.Ok? ==> Kept(s, tenure, if it < maxIter then maxIter else it, r.value) && r.value.cost <= t.cost
    decreases if it < maxIter then maxIter - it else 0
  {
    if it < maxIter {
      var nb := batches(it, t.best);
      if nb.Ok? {
        var ch := ChooseOf(s.matrix, s.index, t, it, tenure, nb.value);
        if ch.Ok? {
          ChooseOfCost(s.matrix, s.index, t, it, tenure, nb.value);
          AdoptFifo(s, tenure, it, t, ch.value);
          var u := Adopt(t, it, tenure, ch.value);
          assert TabuFrom(s, batches, maxIter, tenure, it, t) == TabuFrom(s, batches, maxIter, tenure, it + 1, u);
          TabuKeeps(s, batches, maxIter, tenure, it + 1, u);
        }
      }
    }
  }

  /** The cost kept with the choice is the choice's calculate_total_cost. */
  lemma {:induction false} ChooseOfCost(matrix: Matrix, index: map<int, int>, t: Tabu, it: int, tenure: int,
                                       cands: seq<Solution>)
    requires MatrixFor(matrix, index)
    ensures var r := ChooseOf(matrix, index, t, it, tenure, cands);
      r.Ok? && r.value.Some? ==> TotalCostSpec(matrix, index, r.value.value.0) == Ok(r.value.value.1)
    decreases |cands|
  {
    if |cands| > 0 {
      ChooseOfCost(matrix, index, t, it, tenure, cands[..|cands| - 1]);
    }
  }

  /** Every one of the max_iterations iterations consults its batch, even
      one that adopts nothing; no other batch is consulted: two batch
      sources that agree below max_iterations give the same result. */
  lemma {:induction false} TabuBounded(s: Setup, b1: Oracle, b2: Oracle, maxIter: int, tenure: int, it: nat, t: Tabu)
    requires MatrixFor(s.matrix, s.index)
    requires forall i: nat, x: Solution :: i < maxIter ==> b1(i, x) == b2(i, x)
    ensures TabuFrom(s, b1, maxIter, tenure, it, t) == TabuFrom(s, b2, maxIter, tenure, it, t)
    decreases if it < maxIter then maxIter - it else 0
  {
    if it < maxIter {
      assert b1(it, t.best) == b2(it, t.best);
      var nb := b1(it, t.best);
      if nb.Ok? {
        var ch := ChooseOf(s.matrix, s.index, t, it, tenure, nb.value);
        if ch.Ok? {
          TabuBounded(s, b1, b2, maxIter, tenure, it + 1, Adopt(t, it, tenure, ch.value));
        }
      }
    }
  }

  /** An iteration without adoption does not stop the search, unlike the
      hill climb: the next iteration runs from the same state. */
  lemma {:induction false} TabuNoEarlyExit(s: Setup, batches: Oracle, maxIter: int, tenure: int, it: nat, t: Tabu)
    requires MatrixFor(s.matrix, s.index) && it < maxIter
    requires batches(it, t.best).Ok?
    requires var ch := ChooseOf(s.matrix, s.index, t, it, tenure, batches(it, t.best).value);
      ch.Ok? && (ch.value.None? || ch.value.value.1 >= t.cost)
    ensures TabuFrom(s, batches, maxIter, tenure, it, t) == TabuFrom(s, batches, maxIter, tenure, it + 1, t)
  {
  }

  /** What tabu_search returns: a solution whose cost is its
      calculate_total_cost and its closed-tour cost with the depot's point,
      no dearer than the initial solution, with a tabu list within the
      tenure. */
  lemma {:induction false} TabuSound(coords: map<int, Point>, keys: seq<int>, depot: Point, dist: Distance,
                                     demands: map<int, int>, dkeys: seq<int>, capacity: int, maxIter: int,
                                     tenure: int, batches: Oracle)
    requires Enumerates(keys, coords.Keys) && Enumerates(dkeys, demands.Keys)
    ensures var r := TabuSpec(coords, keys, depot, dist, demands, dkeys, capacity, maxIter, tenure, batches);
      var s := Prepare(coords, keys, depot, dist);
      r.Ok? ==>
        MatrixFor(s.matrix, s.index) && Indexed(dkeys, s.index) &&
        GreedySolution(dkeys, demands, capacity, s.matrix, s.index, []).Ok? &&
        var start := GreedySolution(dkeys, demands, capacity, s.matrix, s.index, []).value;
        TotalCostSpec(s.matrix, s.index, start).Ok? &&
        r.value.cost <= TotalCostSpec(s.matrix, s.index, start).value &&
        TotalCostSpec(s.matrix, s.index, r.value.best) == Ok(r.value.cost) &&
        AllLocated(r.value.best, s.table) && r.value.cost == SolutionCost(s.table, dist, -1, r.value.best) &&
        |r.value.list| <= (if tenure > 0 then tenure else 0)
  {
    var s := Prepare(coords, keys, depot, dist);
    SetupShape(coords, keys, depot, dist);
    SetupConsistent(coords, keys, depot, dist);
    var r := TabuSpec(coords, keys, depot, dist, demands, dkeys, capacity, maxIter, tenure, batches);
    if r.Ok? {
      var start := GreedySolution(dkeys, demands, capacity, s.matrix, s.index, []).value;
      var c := TotalCostSpec(s.matrix, s.index, start).value;
      var t := Tabu([], map[], start, c);
      assert r == TabuFrom(s, batches, maxIter, tenure, 0, t);
      assert Kept(s, tenure, 0, t);
      TabuKeeps(s, batches, maxIter, tenure, 0, t);
      MatrixCostIsTourCost(s, dist, r.value.best);
    }
  }

  // ---------------------------------------------------------------------
  // The candidate list as written

  /** calculate_total_cost applied, as line 37 does, to one element of
      `neighborhood` as the source builds it: a whole list returned by
      neighborhood_solution. Its "routes" are then solutions, so route[0] is
      a list and node_index_map[route[0]] raises TypeError; an empty
      solution raises IndexError first. */
  function AsWrittenCost(index: map<int, int>, candidate: seq<Solution>): Result<real> {
    if -1 !in index then Err(KeyError)
    else if |candidate| == 0 then Ok(0.0)
    else if |candidate[0]| == 0 then Err(IndexError)
    else Err(TypeError)
  }

  /** Every list neighborhood_solution returns for a solution of at least two
      routes holds 30 neighbours with as many routes, so costing it as a
      candidate raises TypeError: as written, the candidate loop fails on its
      first candidate and no iteration completes. */
  lemma {:induction false} AsWrittenCandidateFails(index: map<int, int>, routes: Solution, demands: map<int, int>,
                                                   capacity: int, draws: seq<Neighborhood.Draw>,
                                                   neighbours: seq<Solution>)
    requires -1 in index && |routes| >= 2
    requires Neighborhood.Gather(routes, demands, capacity, draws, {}).Ok?
    requires Neighborhood.Listing(neighbours, Neighborhood.Gather(routes, demands, capacity, draws, {}).value)
    ensures AsWrittenCost(index, neighbours) == Err(TypeError)
  {
    Neighborhood.NeighborhoodSound(routes, demands, capacity, draws, neighbours);
    var first := neighbours[0];
    assert Neighborhood.IsMove(routes, first, demands, capacity);
    var a: nat, b: nat, x, y :| a < |routes| && b < |routes| &&
      Neighborhood.MoveWith(routes, first, demands, capacity, a, b, x, y);
    Neighborhood.MoveKeeps(routes, first, demands, capacity, a, b, x, y);
  }
}
