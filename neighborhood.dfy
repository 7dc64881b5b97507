/** neighborhood_solution in submissions/team2/functions.py: random
    relocate-or-swap moves between two routes, repeated until 30 distinct
    neighbours have been found.

    The random calls become a sequence of draws. One draw decides
    random.sample(new_routes, 2), an ordered pair of distinct route
    positions, and the two random.choice calls, each a value reduced modulo
    the length it chooses from. Every outcome of the random calls is some
    draw (MoveReachable). */
module Neighborhood {
  import opened Wrappers
  import opened Routes

  /** The raw values behind one pass of the loop. */
  datatype Draw = Draw(first: nat, second: nat, pick1: nat, pick2: nat)

  /** Two route positions. */
  datatype Positions = Positions(a: nat, b: nat)

  /** random.sample(range(n), 2): an ordered pair of distinct positions. */
  function Pair(n: nat, first: nat, second: nat): (p: Positions)
    requires n >= 2
    ensures p.a < n && p.b < n && p.a != p.b
  {
    var i := first % n;
    var j := second % (n - 1);
    Positions(i, if j >= i then j + 1 else j)
  }

  /** Node x leaves route `from` (its first occurrence) and goes to the end
      of route `to`. */
  function Relocate(routes: Solution, from: nat, to: nat, x: int): Solution
    requires from < |routes| && to < |routes|
  {
    routes[from := RemoveFirst(routes[from], x)][to := routes[to] + [x]]
  }

  /** x of route a and y of route b trade places, each going to the end of the
      other route. */
  function Exchange(routes: Solution, a: nat, b: nat, x: int, y: int): Solution
    requires a < |routes| && b < |routes|
  {
    routes[a := RemoveFirst(routes[a], x) + [y]][b := RemoveFirst(routes[b], y) + [x]]
  }

  /** The move between routes a and b that uses node x of route a and node y
      of route b, tried in the source's order: x to route b if it fits there,
      else y to route a if it fits there, else the swap if both routes then
      fit, else nothing. The load sums raise KeyError for a node without
      demand. */
  function Moved(routes: Solution, demands: map<int, int>, capacity: int, a: nat, b: nat, x: int, y: int)
    : Result<Option<Solution>>
    requires a < |routes| && b < |routes|
  {
    if !Demanded(routes[a], demands) || !Demanded(routes[b], demands) || x !in demands || y !in demands then
      Err(KeyError)
    else
      var loadA, loadB := Load(routes[a], demands), Load(routes[b], demands);
      if loadB + demands[x] <= capacity then Ok(Some(Relocate(routes, a, b, x)))
      else if loadA + demands[y] <= capacity then Ok(Some(Relocate(routes, b, a, y)))
      else if loadA - demands[x] + demands[y] <= capacity && loadB - demands[y] + demands[x] <= capacity then
        Ok(Some(Exchange(routes, a, b, x, y)))
      else Ok(None)
  }

  /** One pass of the loop on fresh copies of the routes: Ok(None) when a
      chosen route is empty or no move fits, KeyError when a chosen route
      has a node without demand, otherwise the moved copy. */
  function Neighbour(routes: Solution, demands: map<int, int>, capacity: int, d: Draw): Result<Option<Solution>>
    requires |routes| >= 2
  {
    var p := Pair(|routes|, d.first, d.second);
    var route1, route2 := routes[p.a], routes[p.b];
    if |route1| == 0 || |route2| == 0 then Ok(None)
    else Moved(routes, demands, capacity, p.a, p.b, route1[d.pick1 % |route1|], route2[d.pick2 % |route2|])
  }

  // ---------------------------------------------------------------------
  // The neighbourhood, stated without draws

  /** s is routes after a capacity-checked move between distinct routes a
      and b that uses node x of route a and node y of route b. */
  ghost predicate MoveWith(routes: Solution, s: Solution, demands: map<int, int>, capacity: int,
                           a: nat, b: nat, x: int, y: int)
    requires a < |routes| && b < |routes|
  {
    a != b && x in routes[a] && y in routes[b] && Moved(routes, demands, capacity, a, b, x, y) == Ok(Some(s))
  }

  /** s is one capacity-checked move away from routes. */
  ghost predicate IsMove(routes: Solution, s: Solution, demands: map<int, int>, capacity: int) {
    exists a: nat, b: nat, x, y :: a < |routes| && b < |routes| && MoveWith(routes, s, demands, capacity, a, b, x, y)
  }

  // ---------------------------------------------------------------------
  // Lemmas

  /** Every ordered pair of distinct positions is a draw. */
  lemma {:induction false} PairReachable(n: nat, a: nat, b: nat)
    requires a < n && b < n && a != b
    ensures Pair(n, a, if b > a then b - 1 else b) == Positions(a, b)
  {
    var second := if b > a then b - 1 else b;
    ModSmall(a, n);
    ModSmall(second, n - 1);
  }

  lemma {:induction false} ModSmall(k: int, n: int)
    requires 0 <= k < n
    ensures k % n == k
  {
  }

  /** What a draw yields is a move of the neighbourhood. */
  lemma {:induction false} NeighbourIsMove(routes: Solution, demands: map<int, int>, capacity: int, d: Draw)
    requires |routes| >= 2
    requires Neighbour(routes, demands, capacity, d).Ok? && Neighbour(routes, demands, capacity, d).value.Some?
    ensures IsMove(routes, Neighbour(routes, demands, capacity, d).value.value, demands, capacity)
  {
    var s := Neighbour(routes, demands, capacity, d).value.value;
    var p := Pair(|routes|, d.first, d.second);
    var route1, route2 := routes[p.a], routes[p.b];
    var x := route1[d.pick1 % |route1|];
    var y := route2[d.pick2 % |route2|];
    assert MoveWith(routes, s, demands, capacity, p.a, p.b, x, y);
  }

  /** Every move of the neighbourhood is what some draw yields. */
  lemma {:induction false} MoveReachable(routes: Solution, s: Solution, demands: map<int, int>, capacity: int,
                      a: nat, b: nat, x: int, y: int)
    requires a < |routes| && b < |routes| && MoveWith(routes, s, demands, capacity, a, b, x, y)
    ensures |routes| >= 2 && exists d :: Neighbour(routes, demands, capacity, d) == Ok(Some(s))
  {
    PairReachable(|routes|, a, b);
    var route1, route2 := routes[a], routes[b];
    var i :| 0 <= i < |route1| && route1[i] == x;
    var j :| 0 <= j < |route2| && route2[j] == y;
    ModSmall(i, |route1|);
    ModSmall(j, |route2|);
    var d := Draw(a, if b > a then b - 1 else b, i, j);
    assert Pair(|routes|, d.first, d.second) == Positions(a, b);
    assert route1[d.pick1 % |route1|] == x && route2[d.pick2 % |route2|] == y;
    assert Neighbour(routes, demands, capacity, d) == Ok(Some(s));
  }

  /** Replacing routes a and b by routes with the same customers between
      them keeps the multiset of customers. */
  lemma {:induction false} TwoUpdatesKeep(routes: Solution, a: nat, b: nat, u: Route, w: Route)
    requires a < |routes| && b < |routes| && a != b
    requires multiset(u) + multiset(w) == multiset(routes[a]) + multiset(routes[b])
    ensures multiset(Flatten(routes[a := u][b := w])) == multiset(Flatten(routes))
  {
    var mid := routes[a := u];
    var t := mid[b := w];
    FlattenUpdate(routes, a, u);
    FlattenUpdate(mid, b, w);
    assert mid[b] == routes[b];
    var x1, x2 := multiset(Flatten(mid)) + multiset(routes[a]), multiset(Flatten(routes)) + multiset(u);
    var y1, y2 := multiset(Flatten(t)) + multiset(routes[b]), multiset(Flatten(mid)) + multiset(w);
    var z1, z2 := multiset(u) + multiset(w), multiset(routes[a]) + multiset(routes[b]);
    forall z ensures multiset(Flatten(t))[z] == multiset(Flatten(routes))[z] {
      assert x1[z] == x2[z] && y1[z] == y2[z] && z1[z] == z2[z];
    }
  }

  /** A relocation keeps the number of routes and the multiset of customers,
      and only the two routes involved change. */
  lemma {:induction false} RelocateKeeps(routes: Solution, from: nat, to: nat, x: int)
    requires from < |routes| && to < |routes| && from != to && x in routes[from]
    ensures var s := Relocate(routes, from, to, x);
      |s| == |routes| && multiset(Flatten(s)) == multiset(Flatten(routes)) &&
      s[from] == RemoveFirst(routes[from], x) && s[to] == routes[to] + [x] &&
      forall r :: 0 <= r < |s| && r != from && r != to ==> s[r] == routes[r]
  {
    var u, w := RemoveFirst(routes[from], x), routes[to] + [x];
    RemoveFirstMultiset(routes[from], x);
    assert multiset(w) == multiset(routes[to]) + multiset{x};
    TwoUpdatesKeep(routes, from, to, u, w);
  }

  /** A swap keeps the number of routes and the multiset of customers, and
      only the two routes involved change. */
  lemma {:induction false} ExchangeKeeps(routes: Solution, a: nat, b: nat, x: int, y: int)
    requires a < |routes| && b < |routes| && a != b && x in routes[a] && y in routes[b]
    ensures var s := Exchange(routes, a, b, x, y);
      |s| == |routes| && multiset(Flatten(s)) == multiset(Flatten(routes)) &&
      s[a] == RemoveFirst(routes[a], x) + [y] && s[b] == RemoveFirst(routes[b], y) + [x] &&
      forall r :: 0 <= r < |s| && r != a && r != b ==> s[r] == routes[r]
  {
    var u, w := RemoveFirst(routes[a], x) + [y], RemoveFirst(routes[b], y) + [x];
    RemoveFirstMultiset(routes[a], x);
    RemoveFirstMultiset(routes[b], y);
    assert multiset(u) == multiset(RemoveFirst(routes[a], x)) + multiset{y};
    assert multiset(w) == multiset(RemoveFirst(routes[b], y)) + multiset{x};
    TwoUpdatesKeep(routes, a, b, u, w);
  }

  /** A move keeps the number of routes and the multiset of customers,
      changes only routes a and b, and every route it changes without
      shrinking it ends within capacity. */
  lemma {:induction false} MoveKeeps(routes: Solution, s: Solution, demands: map<int, int>, capacity: int,
                  a: nat, b: nat, x: int, y: int)
    requires a < |routes| && b < |routes| && MoveWith(routes, s, demands, capacity, a, b, x, y)
    ensures |s| == |routes| && multiset(Flatten(s)) == multiset(Flatten(routes))
    ensures forall r :: 0 <= r < |s| && r != a && r != b ==> s[r] == routes[r]
    ensures forall r :: 0 <= r < |s| && s[r] != routes[r] && |s[r]| >= |routes[r]| ==>
      Demanded(s[r], demands) && Load(s[r], demands) <= capacity
  {
    var ra, rb := routes[a], routes[b];
    if Load(rb, demands) + demands[x] <= capacity {
      RelocateKeeps(routes, a, b, x);
      AppendLoad(rb, x, demands);
      assert |s[a]| < |ra| by {
        assert |RemoveFirst(ra, x)| == |ra| - 1;
      }
    } else if Load(ra, demands) + demands[y] <= capacity {
      RelocateKeeps(routes, b, a, y);
      AppendLoad(ra, y, demands);
      assert |s[b]| < |rb| by {
        assert |RemoveFirst(rb, y)| == |rb| - 1;
      }
    } else {
      ExchangeKeeps(routes, a, b, x, y);
      RemoveFirstLoad(ra, x, demands);
      RemoveFirstLoad(rb, y, demands);
      AppendLoad(RemoveFirst(ra, x), y, demands);
      AppendLoad(RemoveFirst(rb, y), x, demands);
    }
  }

  /** Appending one customer adds its demand to the load. */
  lemma {:induction false} AppendLoad(route: seq<int>, x: int, demands: map<int, int>)
    requires Demanded(route, demands) && x in demands
    ensures Demanded(route + [x], demands) && Load(route + [x], demands) == Load(route, demands) + demands[x]
  {
    LoadAppend(route, [x], demands);
    LoadSingle(x, demands);
  }

  /** What a draw yields has as many routes and the same customers, and every
      route it lengthens or rearranges is within capacity. */
  lemma {:induction false} NeighbourKeeps(routes: Solution, demands: map<int, int>, capacity: int, d: Draw)
    requires |routes| >= 2
    requires Neighbour(routes, demands, capacity, d).Ok? && Neighbour(routes, demands, capacity, d).value.Some?
    ensures var s := Neighbour(routes, demands, capacity, d).value.value;
      |s| == |routes| && multiset(Flatten(s)) == multiset(Flatten(routes)) &&
      forall r :: 0 <= r < |s| && s[r] != routes[r] && |s[r]| >= |routes[r]| ==>
        Demanded(s[r], demands) && Load(s[r], demands) <= capacity
  {
    var s := Neighbour(routes, demands, capacity, d).value.value;
    NeighbourIsMove(routes, demands, capacity, d);
    var a: nat, b: nat, x, y :| a < |routes| && b < |routes| && MoveWith(routes, s, demands, capacity, a, b, x, y);
    MoveKeeps(routes, s, demands, capacity, a, b, x, y);
  }

  /** A draw fails with KeyError exactly when both chosen routes are
      non-empty and one of them has a node without demand. */
  lemma {:induction false} NeighbourKeyError(routes: Solution, demands: map<int, int>, capacity: int, d: Draw)
    requires |routes| >= 2
    ensures var p := Pair(|routes|, d.first, d.second);
      (Neighbour(routes, demands, capacity, d).Err? <==>
        |routes[p.a]| > 0 && |routes[p.b]| > 0 &&
        !(Demanded(routes[p.a], demands) && Demanded(routes[p.b], demands))) &&
      (Neighbour(routes, demands, capacity, d).Err? ==> Neighbour(routes, demands, capacity, d).error == KeyError)
  {
    var p := Pair(|routes|, d.first, d.second);
    var route1, route2 := routes[p.a], routes[p.b];
    if |route1| > 0 && |route2| > 0 {
      var x, y := route1[d.pick1 % |route1|], route2[d.pick2 % |route2|];
      if Demanded(route1, demands) && Demanded(route2, demands) {
        assert x in demands && y in demands;
      }
    }
  }

  // ---------------------------------------------------------------------
  // The loop

  /** A set of solutions that is not empty has a member to pick. */
  lemma {:induction false} SolutionsHaveMember(s: set<Solution>)
    requires s != {}
    ensures exists x :: x in s
  {
    if forall x :: x !in s {
      assert false;
    }
  }

  /** The while loop of neighborhood_solution over the draws still to come:
      `found` grows by each new neighbour until it holds 30; a KeyError
      propagates; running out of draws first is Exhausted. */
  function Gather(routes: Solution, demands: map<int, int>, capacity: int, draws: seq<Draw>, found: set<Solution>)
    : Result<set<Solution>>
    requires |routes| >= 2
    decreases |draws|
  {
    if |found| >= 30 then Ok(found)
    else if |draws| == 0 then Err(Exhausted)
    else match Neighbour(routes, demands, capacity, draws[0])
      case Err(e) => Err(e)
      case Ok(None) => Gather(routes, demands, capacity, draws[1..], found)
      case Ok(Some(s)) => Gather(routes, demands, capacity, draws[1..], found + {s})
  }

  /** One draw of the loop. */
  lemma {:induction false} GatherStep(routes: Solution, demands: map<int, int>, capacity: int, draws: seq<Draw>,
                                      k: nat, found: set<Solution>)
    requires |routes| >= 2 && k < |draws| && |found| < 30
    ensures var outcome := Neighbour(routes, demands, capacity, draws[k]);
      Gather(routes, demands, capacity, draws[k..], found) ==
        if outcome.Err? then Err(outcome.error)
        else Gather(routes, demands, capacity, draws[k + 1..],
                    if outcome.value.Some? then found + {outcome.value.value} else found)
  {
    assert draws[k..][0] == draws[k];
    assert draws[k..][1..] == draws[k + 1..];
  }

  /** The loop stops with exactly 30 neighbours, each found earlier or the
      outcome of one of the draws; it fails only with the KeyError of some
      draw or with Exhausted. */
  lemma {:induction false} GatherSound(routes: Solution, demands: map<int, int>, capacity: int, draws: seq<Draw>,
                                       found: set<Solution>)
    requires |routes| >= 2 && |found| <= 30
    ensures var r := Gather(routes, demands, capacity, draws, found);
      r.Ok? ==>
        |r.value| == 30 && found <= r.value &&
        forall s :: s in r.value && s !in found ==>
          exists k :: 0 <= k < |draws| && Neighbour(routes, demands, capacity, draws[k]) == Ok(Some(s))
    ensures var r := Gather(routes, demands, capacity, draws, found);
      r.Err? ==>
        r == Err(Exhausted) ||
        (r == Err(KeyError) && exists k :: 0 <= k < |draws| && Neighbour(routes, demands, capacity, draws[k]) == Err(KeyError))
    decreases |draws|
  {
    if |found| < 30 && |draws| > 0 {
      var outcome := Neighbour(routes, demands, capacity, draws[0]);
      NeighbourKeyError(routes, demands, capacity, draws[0]);
      if outcome.Ok? {
        var next := if outcome.value.Some? then found + {outcome.value.value} else found;
        assert |next| <= 30 by {
          if outcome.value.Some? {
            assert |found + {outcome.value.value}| <= |found| + 1;
          }
        }
        GatherSound(routes, demands, capacity, draws[1..], next);
        var r := Gather(routes, demands, capacity, draws, found);
        assert r == Gather(routes, demands, capacity, draws[1..], next);
        if r.Ok? {
          forall s | s in r.value && s !in found
            ensures exists k :: 0 <= k < |draws| && Neighbour(routes, demands, capacity, draws[k]) == Ok(Some(s))
          {
            if s in next {
              assert Neighbour(routes, demands, capacity, draws[0]) == Ok(Some(s));
            } else {
              var k :| 0 <= k < |draws[1..]| && Neighbour(routes, demands, capacity, draws[1..][k]) == Ok(Some(s));
              assert draws[1..][k] == draws[k + 1];
            }
          }
        } else if r == Err(KeyError) {
          var k :| 0 <= k < |draws[1..]| && Neighbour(routes, demands, capacity, draws[1..][k]) == Err(KeyError);
          assert draws[1..][k] == draws[k + 1];
        }
      }
    }
  }

  /** neighborhood_solution. random.sample raises ValueError for fewer than
      two routes; otherwise the result is what the loop gathers, as a list of
      its distinct members in an unspecified order, as the source's set
      gives them. */
  method NeighborhoodSolution(routes: Solution, demands: map<int, int>, capacity: int, draws: seq<Draw>)
    returns (res: Result<seq<Solution>>)
    ensures |routes| < 2 ==> res == Err(ValueError)
    ensures |routes| >= 2 ==>
      var r := Gather(routes, demands, capacity, draws, {});
      (r.Err? ==> res == Err(r.error)) &&
      (r.Ok? ==> res.Ok? && Listing(res.value, r.value))
  {
    if |routes| < 2 {
      return Err(ValueError);
    }
    var solutions: set<Solution> := {};
    var k := 0;
    var failed: Option<Error> := None;
    while |solutions| < 30 && k < |draws|
      invariant 0 <= k <= |draws|
      invariant Gather(routes, demands, capacity, draws[k..], solutions) == Gather(routes, demands, capacity, draws, {})
      decreases |draws| - k
    {
      GatherStep(routes, demands, capacity, draws, k, solutions);
      var outcome := Neighbour(routes, demands, capacity, draws[k]);
      if outcome.Err? {
        return Err(outcome.error);
      }
      if outcome.value.Some? {
        solutions := solutions + {outcome.value.value};
      }
      k := k + 1;
    }
    if |solutions| < 30 {
      return Err(Exhausted);
    }
    var out := ListSolutions(solutions);
    return Ok(out);
  }

  /** out lists the members of a set, each once. */
  ghost predicate Listing(out: seq<Solution>, solutions: set<Solution>) {
    |out| == |solutions| && (forall s :: s in solutions <==> s in out) &&
    forall i, j :: 0 <= i < j < |out| ==> out[i] != out[j]
  }

  /** What neighborhood_solution returns: exactly 30 pairwise-distinct
      neighbours, each the outcome of some draw and so a capacity-checked
      move; a KeyError comes from some draw. */
  lemma {:induction false} NeighborhoodSound(routes: Solution, demands: map<int, int>, capacity: int,
                                             draws: seq<Draw>, out: seq<Solution>)
    requires |routes| >= 2
    ensures var r := Gather(routes, demands, capacity, draws, {});
      r.Ok? && Listing(out, r.value) ==>
        |out| == 30 && (forall i, j :: 0 <= i < j < |out| ==> out[i] != out[j]) &&
        forall i :: 0 <= i < |out| ==>
          IsMove(routes, out[i], demands, capacity) &&
          exists k :: 0 <= k < |draws| && Neighbour(routes, demands, capacity, draws[k]) == Ok(Some(out[i]))
    ensures var r := Gather(routes, demands, capacity, draws, {});
      r.Err? ==>
        r == Err(Exhausted) ||
        (r == Err(KeyError) && exists k :: 0 <= k < |draws| && Neighbour(routes, demands, capacity, draws[k]) == Err(KeyError))
  {
    GatherSound(routes, demands, capacity, draws, {});
    var r := Gather(routes, demands, capacity, draws, {});
    if r.Ok? && Listing(out, r.value) {
      forall i | 0 <= i < |out|
        ensures IsMove(routes, out[i], demands, capacity) &&
          exists k :: 0 <= k < |draws| && Neighbour(routes, demands, capacity, draws[k]) == Ok(Some(out[i]))
      {
        assert out[i] in r.value;
        var k :| 0 <= k < |draws| && Neighbour(routes, demands, capacity, draws[k]) == Ok(Some(out[i]));
        NeighbourIsMove(routes, demands, capacity, draws[k]);
      }
    }
  }

  /** list(solutions): the members of a set, each once, in an unspecified
      order. */
  method ListSolutions(solutions: set<Solution>) returns (out: seq<Solution>)
    ensures Listing(out, solutions)
  {
    out := [];
    var rest := solutions;
    while rest != {}
      invariant rest <= solutions
      invariant |out| + |rest| == |solutions|
      invariant forall s :: s in solutions <==> s in rest || s in out
      invariant forall i :: 0 <= i < |out| ==> out[i] !in rest
      invariant forall i, j :: 0 <= i < j < |out| ==> out[i] != out[j]
      decreases |rest|
    {
      SolutionsHaveMember(rest);
      var s :| s in rest;
      out := out + [s];
      rest := rest - {s};
    }
  }
}
