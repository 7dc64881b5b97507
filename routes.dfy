/** The plain data every routine of the repository shares: a route is a list
    of customer ids (the depot is implicit at both ends), a solution a list of
    routes, demands a dictionary from id to integer demand. */
module Routes {
  import opened Geometry

  type Route = seq<int>
  type Solution = seq<Route>

  /** All ids of a solution, route after route. */
  function Flatten(s: Solution): (r: seq<int>)
    ensures |s| == 0 ==> r == []
  {
    if |s| == 0 then [] else Flatten(s[..|s| - 1]) + s[|s| - 1]
  }

  ghost predicate NoDuplicates(s: seq<int>) {
    forall i, j :: 0 <= i < j < |s| ==> s[i] != s[j]
  }

  function Elements(s: seq<int>): set<int> {
    set x | x in s
  }

  ghost predicate InSolution(s: Solution, x: int) {
    exists r :: 0 <= r < |s| && x in s[r]
  }

  /** Every id of the route has a demand. */
  predicate Demanded(route: seq<int>, demands: map<int, int>) {
    forall i :: 0 <= i < |route| ==> route[i] in demands
  }

  /** Every id of the route has coordinates. */
  predicate Located(route: seq<int>, coords: map<int, Point>) {
    forall i :: 0 <= i < |route| ==> route[i] in coords
  }

  ghost predicate AllLocated(s: Solution, coords: map<int, Point>) {
    forall r :: 0 <= r < |s| ==> Located(s[r], coords)
  }

  ghost predicate AllDemanded(s: Solution, demands: map<int, int>) {
    forall r :: 0 <= r < |s| ==> Demanded(s[r], demands)
  }

  /** sum(demands[node] for node in route). */
  function Load(route: seq<int>, demands: map<int, int>): int
    requires Demanded(route, demands)
  {
    if |route| == 0 then 0
    else Load(route[..|route| - 1], demands) + demands[route[|route| - 1]]
  }

  /** list.remove(x): drop the first occurrence of x. For an x the list
      does not hold Python raises ValueError; this returns the list
      unchanged, a case no caller reaches because each removes a value it
      has just taken from the same list. */
  function RemoveFirst(s: seq<int>, x: int): (r: seq<int>)
    ensures x !in s ==> r == s
    ensures x in s ==> |r| == |s| - 1
  {
    if |s| == 0 then []
    else if s[0] == x then s[1..]
    else [s[0]] + RemoveFirst(s[1..], x)
  }

  /** The closed tour depot -> rest[0] -> ... -> last -> depot, entered from
      `prev`: the cost the verifier and calculate_cost accumulate. An empty
      route contributes dist(depot, depot). */
  function PathCost(coords: map<int, Point>, dist: Distance, depot: int, prev: int, rest: seq<int>): real
    requires prev in coords && depot in coords
    requires Located(rest, coords)
    decreases |rest|
  {
    if |rest| == 0 then dist(coords[prev], coords[depot])
    else dist(coords[prev], coords[rest[0]]) + PathCost(coords, dist, depot, rest[0], rest[1..])
  }

  /** The sum of the legs between consecutive stops of a tour. */
  function LegSum(coords: map<int, Point>, dist: Distance, tour: seq<int>): real
    requires Located(tour, coords)
    decreases |tour|
  {
    if |tour| < 2 then 0.0
    else dist(coords[tour[0]], coords[tour[1]]) + LegSum(coords, dist, tour[1..])
  }

  /** The cost of a closed tour of every route of `s` out of `depot`. */
  function SolutionCost(coords: map<int, Point>, dist: Distance, depot: int, s: Solution): real
    requires |s| > 0 ==> depot in coords
    requires AllLocated(s, coords)
  {
    if |s| == 0 then 0.0
    else SolutionCost(coords, dist, depot, s[..|s| - 1]) + PathCost(coords, dist, depot, depot, s[|s| - 1])
  }

  /** `order` lists the members of s, each once: list(demands.keys()), or
      the order in which a loop over a Python set visits it. */
  ghost predicate Enumerates(order: seq<int>, s: set<int>) {
    (forall x :: multiset(order)[x] <= 1) && (forall i :: 0 <= i < |order| ==> order[i] in s) &&
    forall x :: x in s ==> x in order
  }

  /** The largest element of a non-empty set (Python's max). */
  ghost function SetMax(s: set<int>): (m: int)
    requires s != {}
    ensures m in s && forall x :: x in s ==> x <= m
  {
    NonEmptyHasMember(s);
    var x :| x in s;
    var rest := s - {x};
    assert forall y :: y in s ==> y == x || y in rest;
    if rest == {} then x
    else
      var m := SetMax(rest);
      if x > m then x else m
  }

  /** max(s) by a scan of the set. */
  method MaxOf(s: set<int>) returns (m: int)
    requires s != {}
    ensures m == SetMax(s)
  {
    NonEmptyHasMember(s);
    m :| m in s;
    var rest := s - {m};
    while rest != {}
      invariant rest <= s && m in s
      invariant forall x :: x in s && x !in rest ==> x <= m
      decreases rest
    {
      NonEmptyHasMember(rest);
      var y :| y in rest;
      if y > m {
        m := y;
      }
      rest := rest - {y};
    }
    assert m == SetMax(s);
  }

  // ---------------------------------------------------------------------
  // Lemmas

  /** A non-empty set has a member to pick. */
  lemma {:induction false} NonEmptyHasMember(s: set<int>)
    requires s != {}
    ensures exists x :: x in s
  {
    if forall x :: x !in s {
      assert false;
    }
  }

  lemma {:induction false} FlattenAppend(a: Solution, b: Solution)
    ensures Flatten(a + b) == Flatten(a) + Flatten(b)
    decreases |b|
  {
    if |b| == 0 {
      assert a + b == a;
    } else {
      var c := a + b;
      assert c[..|c| - 1] == a + b[..|b| - 1];
      FlattenAppend(a, b[..|b| - 1]);
      assert Flatten(b) == Flatten(b[..|b| - 1]) + b[|b| - 1];
    }
  }

  lemma {:induction false} FlattenSingle(r: Route)
    ensures Flatten([r]) == r
  {
    assert [r][..0] == [];
  }

  /** Flatten seen from the front: the first route, then the rest. */
  lemma {:induction false} FlattenCons(s: Solution)
    requires |s| > 0
    ensures Flatten(s) == s[0] + Flatten(s[1..])
  {
    var t := s[1..];
    assert s == [s[0]] + t;
    FlattenAppend([s[0]], t);
    FlattenSingle(s[0]);
  }

  lemma {:induction false} ElementsAppend(a: seq<int>, b: seq<int>)
    ensures Elements(a + b) == Elements(a) + Elements(b)
  {
    assert forall x :: x in a + b <==> x in a || x in b;
  }

  /** A concatenation is free of duplicates iff both halves are and they share
      no id. */
  lemma {:induction false} NoDuplicatesAppend(a: seq<int>, b: seq<int>)
    ensures NoDuplicates(a + b) <==> NoDuplicates(a) && NoDuplicates(b) && Elements(a) !! Elements(b)
  {
    var c := a + b;
    if NoDuplicates(c) {
      forall i, j | 0 <= i < j < |a| ensures a[i] != a[j] {
        assert a[i] == c[i] && a[j] == c[j];
      }
      forall i, j | 0 <= i < j < |b| ensures b[i] != b[j] {
        assert b[i] == c[|a| + i] && b[j] == c[|a| + j];
      }
      forall i, j | 0 <= i < |a| && 0 <= j < |b| ensures a[i] != b[j] {
        assert a[i] == c[i] && b[j] == c[|a| + j];
      }
    }
    if NoDuplicates(a) && NoDuplicates(b) && Elements(a) !! Elements(b) {
      forall i, j | 0 <= i < j < |c| ensures c[i] != c[j] {
        if j < |a| {
          assert c[i] == a[i] && c[j] == a[j];
        } else if i >= |a| {
          assert c[i] == b[i - |a|] && c[j] == b[j - |a|];
        } else {
          assert c[i] in Elements(a) && c[j] in Elements(b);
        }
      }
    }
  }

  /** Replacing one route changes the multiset of ids by exactly that route. */
  lemma {:induction false} FlattenUpdate(s: Solution, k: nat, v: Route)
    requires k < |s|
    ensures multiset(Flatten(s[k := v])) + multiset(s[k]) == multiset(Flatten(s)) + multiset(v)
  {
    var pre, post := s[..k], s[k + 1..];
    assert s == pre + [s[k]] + post;
    assert s[k := v] == pre + [v] + post;
    FlattenAppend(pre + [s[k]], post);
    FlattenAppend(pre, [s[k]]);
    FlattenAppend(pre + [v], post);
    FlattenAppend(pre, [v]);
    FlattenSingle(s[k]);
    FlattenSingle(v);
  }

  lemma {:induction false} InFlatten(s: Solution, x: int)
    ensures x in Flatten(s) <==> InSolution(s, x)
    decreases |s|
  {
    if |s| > 0 {
      var init := s[..|s| - 1];
      InFlatten(init, x);
      if InSolution(init, x) {
        var r :| 0 <= r < |init| && x in init[r];
        assert x in s[r];
      }
      if InSolution(s, x) {
        var r :| 0 <= r < |s| && x in s[r];
        if r < |s| - 1 {
          assert x in init[r];
        }
      }
    }
  }

  lemma {:induction false} LoadAppend(a: seq<int>, b: seq<int>, demands: map<int, int>)
    requires Demanded(a, demands) && Demanded(b, demands)
    ensures Demanded(a + b, demands)
    ensures Load(a + b, demands) == Load(a, demands) + Load(b, demands)
    decreases |b|
  {
    if |b| == 0 {
      assert a + b == a;
    } else {
      var c := a + b;
      assert c[..|c| - 1] == a + b[..|b| - 1];
      LoadAppend(a, b[..|b| - 1], demands);
    }
  }

  lemma {:induction false} LoadSingle(x: int, demands: map<int, int>)
    requires x in demands
    ensures Load([x], demands) == demands[x]
  {
    assert [x][..0] == [];
  }

  lemma {:induction false} RemoveFirstSplit(s: seq<int>, x: int) returns (i: nat)
    requires x in s
    ensures i < |s| && s[i] == x && x !in s[..i]
    ensures RemoveFirst(s, x) == s[..i] + s[i + 1..]
    decreases |s|
  {
    if s[0] == x {
      i := 0;
      assert s[..i] == [];
    } else {
      var t := s[1..];
      var j := RemoveFirstSplit(t, x);
      i := j + 1;
      assert s[i] == t[j];
      assert s[..i] == [s[0]] + t[..j];
      assert s[i + 1..] == t[j + 1..];
      calc {
        RemoveFirst(s, x);
        [s[0]] + RemoveFirst(t, x);
        [s[0]] + (t[..j] + t[j + 1..]);
        ([s[0]] + t[..j]) + t[j + 1..];
      }
    }
  }

  lemma {:induction false} RemoveFirstMultiset(s: seq<int>, x: int)
    requires x in s
    ensures multiset(RemoveFirst(s, x)) + multiset{x} == multiset(s)
  {
    var i := RemoveFirstSplit(s, x);
    assert s == s[..i] + [x] + s[i + 1..];
    calc {
      multiset(s);
      multiset(s[..i] + [x] + s[i + 1..]);
      multiset(s[..i]) + multiset{x} + multiset(s[i + 1..]);
    }
    assert multiset(RemoveFirst(s, x)) == multiset(s[..i]) + multiset(s[i + 1..]);
  }

  lemma {:induction false} RemoveFirstLoad(s: seq<int>, x: int, demands: map<int, int>)
    requires x in s && Demanded(s, demands)
    ensures Demanded(RemoveFirst(s, x), demands)
    ensures Load(RemoveFirst(s, x), demands) == Load(s, demands) - demands[x]
  {
    var i := RemoveFirstSplit(s, x);
    assert s == s[..i] + [x] + s[i + 1..];
    LoadAppend(s[..i], [x], demands);
    LoadAppend(s[..i] + [x], s[i + 1..], demands);
    LoadAppend(s[..i], s[i + 1..], demands);
    LoadSingle(x, demands);
  }

  /** SolutionCost seen from the front: the first route's tour, then the rest. */
  lemma {:induction false} SolutionCostCons(coords: map<int, Point>, dist: Distance, depot: int, s: Solution)
    requires |s| > 0 && depot in coords && AllLocated(s, coords)
    ensures SolutionCost(coords, dist, depot, s) ==
      PathCost(coords, dist, depot, depot, s[0]) + SolutionCost(coords, dist, depot, s[1..])
    decreases |s|
  {
    if |s| > 1 {
      var init := s[..|s| - 1];
      SolutionCostCons(coords, dist, depot, init);
      assert init[1..] == s[1..][..|s| - 2];
      assert s[1..][|s| - 2] == s[|s| - 1];
    }
  }

  /** The recursive tour cost is the sum of the legs of [prev] + rest + [depot]. */
  lemma {:induction false} PathCostIsLegSum(coords: map<int, Point>, dist: Distance, depot: int, prev: int, rest: seq<int>)
    requires prev in coords && depot in coords
    requires Located(rest, coords)
    ensures PathCost(coords, dist, depot, prev, rest) == LegSum(coords, dist, [prev] + rest + [depot])
    decreases |rest|
  {
    var tour := [prev] + rest + [depot];
    if |rest| == 0 {
      assert tour[1..] == [depot];
    } else {
      PathCostIsLegSum(coords, dist, depot, rest[0], rest[1..]);
      assert tour[1..] == [rest[0]] + rest[1..] + [depot];
    }
  }

  /** Free of duplicates means every id occurs at most once. */
  lemma {:induction false} NoDuplicatesCount(s: seq<int>)
    ensures NoDuplicates(s) <==> forall x :: multiset(s)[x] <= 1
    decreases |s|
  {
    if |s| > 0 {
      var init, y := s[..|s| - 1], s[|s| - 1];
      assert s == init + [y];
      NoDuplicatesCount(init);
      NoDuplicatesAppend(init, [y]);
      assert Elements([y]) == {y};
      assert forall x :: multiset(s)[x] == multiset(init)[x] + (if x == y then 1 else 0);
      if !NoDuplicates(s) && NoDuplicates(init) {
        assert y in Elements(init);
        assert multiset(s)[y] == 2 - 1 + multiset(init)[y];
      }
    }
  }

  /** Two lists with the same multiset of ids agree on being free of
      duplicates and on their members. */
  lemma {:induction false} NoDuplicatesMultiset(a: seq<int>, b: seq<int>)
    requires multiset(a) == multiset(b)
    ensures NoDuplicates(a) <==> NoDuplicates(b)
    ensures Elements(a) == Elements(b)
  {
    NoDuplicatesCount(a);
    NoDuplicatesCount(b);
    assert forall x :: x in a <==> x in multiset(a);
    assert forall x :: x in b <==> x in multiset(b);
  }

  /** An enumeration has no repeated member. */
  lemma {:induction false} EnumeratesDistinct(keys: seq<int>, s: set<int>)
    requires Enumerates(keys, s)
    ensures NoDuplicates(keys)
  {
    NoDuplicatesCount(keys);
  }

  /** An enumeration lists exactly the members of its set. */
  lemma {:induction false} EnumeratesElements(keys: seq<int>, s: set<int>)
    requires Enumerates(keys, s)
    ensures Elements(keys) == s
  {
    forall x ensures x in Elements(keys) <==> x in s {
      if x in keys {
        var i :| 0 <= i < |keys| && keys[i] == x;
      }
    }
  }
}
