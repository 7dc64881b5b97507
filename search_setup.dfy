/** The set-up shared by local_search (submissions/team2/rechercheLocaleImpl.py)
    and tabu_search (submissions/team2/rechercheTabouImpl.py): the node
    list with the depot appended as -1, the coordinate table that gains the
    key -1, the node-to-index map and the distance matrix. */
module SearchSetup {
  import opened Wrappers
  import opened Geometry
  import opened Routes
  import opened Functions

  /** What the set-up produces: the coordinate dictionary after
      node_coords[-1] = depot_coords, the node list, the index map and the
      matrix. */
  datatype Setup = Setup(table: map<int, Point>, nodes: seq<int>, index: map<int, int>, matrix: Matrix)

  /** neighborhood_solution as a search sees it: drawn at random, so given as
      the list (or the exception) it yields in a given iteration for a given
      solution. */
  type Oracle = (nat, Solution) -> Result<seq<Solution>>

  /** The last position of k in nodes. */
  function LastIndex(nodes: seq<int>, k: int): (i: nat)
    requires k in nodes
    ensures i < |nodes| && nodes[i] == k
    ensures forall j :: i < j < |nodes| ==> nodes[j] != k
    decreases |nodes|
  {
    if nodes[|nodes| - 1] == k then |nodes| - 1
    else
      assert k in nodes[..|nodes| - 1] by {
        var j :| 0 <= j < |nodes| && nodes[j] == k;
        assert nodes[..|nodes| - 1][j] == k;
      }
      LastIndex(nodes[..|nodes| - 1], k)
  }

  /** {node: idx for idx, node in enumerate(nodes)}: a later position of a
      node overwrites an earlier one. */
  function IndexMap(nodes: seq<int>): (m: map<int, int>)
    ensures m.Keys == Elements(nodes)
    ensures forall k :: k in m ==> 0 <= m[k] < |nodes| && nodes[m[k]] == k
    ensures forall k, j :: k in m && m[k] < j < |nodes| ==> nodes[j] != k
  {
    map k | k in Elements(nodes) :: LastIndex(nodes, k)
  }

  /** One cell of the comprehension, with its three branches. */
  function Entry(table: map<int, Point>, depot: Point, dist: Distance, a: int, b: int): real
    requires a in table && b in table
  {
    if a != -1 && b != -1 then dist(table[a], table[b])
    else if a == -1 then dist(depot, table[b])
    else dist(table[a], depot)
  }

  /** The distance matrix over the node list. */
  function DistanceMatrix(nodes: seq<int>, table: map<int, Point>, depot: Point, dist: Distance): (m: Matrix)
    requires Located(nodes, table)
    ensures |m| == |nodes| && forall i :: 0 <= i < |m| ==> |m[i]| == |nodes|
  {
    seq(|nodes|, i requires 0 <= i < |nodes| =>
      seq(|nodes|, j requires 0 <= j < |nodes| => Entry(table, depot, dist, nodes[i], nodes[j])))
  }

  /** Lines 9-18 of local_search (5-16 of tabu_search); `keys` is
      list(node_coords.keys()). */
  function Prepare(coords: map<int, Point>, keys: seq<int>, depot: Point, dist: Distance): Setup
    requires Enumerates(keys, coords.Keys)
  {
    var nodes := keys + [-1];
    var table := coords[-1 := depot];
    assert Located(nodes, table);
    Setup(table, nodes, IndexMap(nodes), DistanceMatrix(nodes, table, depot, dist))
  }

  /** What the rest of the search relies on: the matrix is square, every
      index value is a row, -1 has an index, every indexed node has a point,
      and the entry for two indexed nodes is the distance of their points. */
  ghost predicate Consistent(s: Setup, dist: Distance) {
    MatrixFor(s.matrix, s.index) && -1 in s.index && s.index.Keys <= s.table.Keys &&
    forall a, b :: a in s.index && b in s.index ==>
      s.matrix[s.index[a]][s.index[b]] == dist(s.table[a], s.table[b])
  }

  // ---------------------------------------------------------------------
  // Lemmas

  /** The caller's dictionary gains -1, -1 takes the last index, and every
      node of the table has a row and a column of the square matrix. */
  lemma {:induction false} SetupShape(coords: map<int, Point>, keys: seq<int>, depot: Point, dist: Distance)
    requires Enumerates(keys, coords.Keys)
    ensures var s := Prepare(coords, keys, depot, dist);
      s.table == coords[-1 := depot] && s.table[-1] == depot &&
      MatrixFor(s.matrix, s.index) && -1 in s.index && s.index[-1] == |keys| &&
      s.index.Keys == s.table.Keys
  {
    var s := Prepare(coords, keys, depot, dist);
    assert s.nodes == keys + [-1];
    AppendedIndex(coords, keys);
  }

  /** The index map gains -1 at the last position. */
  lemma {:induction false} AppendedIndex(coords: map<int, Point>, keys: seq<int>)
    requires Enumerates(keys, coords.Keys)
    ensures var index := IndexMap(keys + [-1]);
      index.Keys == coords.Keys + {-1} && -1 in index && index[-1] == |keys|
  {
    var nodes := keys + [-1];
    assert nodes[|keys|] == -1;
    ElementsAppend(keys, [-1]);
    EnumeratesElements(keys, coords.Keys);
    assert Elements([-1]) == {-1};
    assert -1 in Elements(nodes);
    assert IndexMap(nodes)[-1] == LastIndex(nodes, -1);
  }

  /** All three branches agree with the distance between the two nodes'
      points in the new table, because the table maps -1 to the depot. */
  lemma {:induction false} MatrixEntries(coords: map<int, Point>, keys: seq<int>, depot: Point, dist: Distance)
    requires Enumerates(keys, coords.Keys)
    ensures var s := Prepare(coords, keys, depot, dist);
      forall i, j :: 0 <= i < |s.nodes| && 0 <= j < |s.nodes| ==>
        s.nodes[i] in s.table && s.nodes[j] in s.table &&
        s.matrix[i][j] == dist(s.table[s.nodes[i]], s.table[s.nodes[j]])
  {
  }

  /** Hence the set-up is consistent. */
  lemma {:induction false} SetupConsistent(coords: map<int, Point>, keys: seq<int>, depot: Point, dist: Distance)
    requires Enumerates(keys, coords.Keys)
    ensures Consistent(Prepare(coords, keys, depot, dist), dist)
  {
    var s := Prepare(coords, keys, depot, dist);
    SetupShape(coords, keys, depot, dist);
    MatrixEntries(coords, keys, depot, dist);
    forall a, b | a in s.index && b in s.index
      ensures s.matrix[s.index[a]][s.index[b]] == dist(s.table[a], s.table[b])
    {
      var i, j := s.index[a], s.index[b];
      assert s.nodes[i] == a && s.nodes[j] == b;
    }
  }

  /** The matrix legs of an indexed tour are its geometric legs. */
  lemma {:induction false} LegsAgree(s: Setup, dist: Distance, tour: seq<int>)
    requires Consistent(s, dist) && Indexed(tour, s.index)
    ensures Located(tour, s.table) && MatrixLegs(s.matrix, s.index, tour) == LegSum(s.table, dist, tour)
    decreases |tour|
  {
    if |tour| >= 2 {
      LegsAgree(s, dist, tour[1..]);
    }
  }

  /** The matrix cost of indexed routes is their closed-tour cost with the
      point of -1 at both ends of every route. */
  lemma {:induction false} CostsAgree(s: Setup, dist: Distance, routes: Solution)
    requires Consistent(s, dist) && AllIndexed(routes, s.index)
    ensures AllLocated(routes, s.table) && MatrixCost(s.matrix, s.index, routes) == SolutionCost(s.table, dist, -1, routes)
    decreases |routes|
  {
    if |routes| > 0 {
      var init, last := routes[..|routes| - 1], routes[|routes| - 1];
      assert AllIndexed(init, s.index) by {
        assert forall r :: 0 <= r < |init| ==> init[r] == routes[r];
      }
      CostsAgree(s, dist, init);
      var tour := [-1] + last + [-1];
      assert Indexed(tour, s.index);
      LegsAgree(s, dist, tour);
      PathCostIsLegSum(s.table, dist, -1, -1, last);
      assert forall r :: 0 <= r < |routes| ==> Located(routes[r], s.table) by {
        assert forall r :: 0 <= r < |init| ==> init[r] == routes[r];
      }
    }
  }

  /** calculate_total_cost over a consistent set-up is the closed-tour cost
      of the solution with the depot's point at both ends of every route. */
  lemma {:induction false} MatrixCostIsTourCost(s: Setup, dist: Distance, routes: Solution)
    requires Consistent(s, dist)
    ensures var r := TotalCostSpec(s.matrix, s.index, routes);
      r.Ok? ==> AllLocated(routes, s.table) && r.value == SolutionCost(s.table, dist, -1, routes)
  {
    TotalCostOk(s.matrix, s.index, routes);
    if TotalCostSpec(s.matrix, s.index, routes).Ok? {
      CostsAgree(s, dist, routes);
    }
  }
}
