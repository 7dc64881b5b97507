# CVRP routines: a verified model

This project models, in Dafny, the core of a small collection of
Capacitated Vehicle Routing Problem (CVRP) routines written in Python for a
soft-computing contest. A CVRP instance is a depot, a set of customers with
coordinates and integer demands, and a vehicle capacity. A solution is a
list of routes of customer ids; every route implicitly leaves the depot and
returns to it. The modelled code is:

- the solution verifier (`template_code/verify_solution.py`): truck count,
  no customer twice, running capacity, coverage of every customer except the
  depot 0 and the largest id, and the closed-tour cost;
- four constructors: the nearest-feasible-customer construction of
  `create_initial_solution`, the truck-by-truck `greedy_cvrp`, the
  shuffle-and-cut `generate_initial_solution` of the annealing code, and the
  array-based `nearest_neighbor` of team 1 with its distance matrix;
- the neighbourhood moves: `neighborhood_solution` (capacity-checked
  relocation or swap, repeated until 30 distinct neighbours exist) and the
  unchecked swap of `perturb_solution`;
- three searches: the hill climb `local_search`, `tabu_search` with its
  first-in first-out tabu list and recency map, and `simulated_annealing`,
  which adopts only solutions the verifier accepts and cools on acceptance;
- the line parsers and the serialiser: `read_instance`, `parse_vrp_file`,
  `parse_solution_file` with `format_solution`, and `calculate_proximity`.

Python exceptions are values of `Wrappers.Result` (KeyError, IndexError,
ValueError, TypeError, ZeroDivisionError). Where a Python loop would run for
ever, the model returns `Diverges`, and the lemmas say exactly when that
happens. Randomness is a parameter: a sequence of decoded draws (every
choice reachable, taken modulo the number of options) or an oracle function,
and a model that runs out of draws returns `Exhausted`. The Euclidean
distance is a function parameter `dist`; where a property needs it,
`Geometry.MetricLike` assumes it symmetric, zero on a point and
non-negative, and the quantity under the square root is proved symmetric
and non-negative (it is zero on a point by its definition). The iteration order of a Python set or dictionary is a given
sequence that enumerates it. The string operations follow Python's own
definitions: `strip()` and `split()` remove the characters `str.isspace`
accepts (the ASCII controls 9 to 13 and 28 to 31, the space and the Unicode
spaces), and a file read in text mode has its `\r\n` and lone `\r` line
ends translated to `\n` before `readlines` splits it.

Every loop of the source is a Dafny `method` with its loop invariants, and
is proved equal to a specification function (`ensures res == ...Spec(...)`).
The properties are lemmas about those functions. The two bodies of
`calculate_cost` (heuristiqueGloutonne.py:73-92 and recuitSimuleImpl.py:12-22)
are identical and are modelled once, by `Greedy.CalculateCost`, which the
annealing model reuses. `search_setup.dfy` holds the set-up that
`local_search` and `tabu_search` share: the node list with -1 appended, the
dictionary that gains -1, the index map and the distance matrix.

One file per module: `wrappers`, `geometry`, `routes` (solutions, loads,
tour costs), `text` (the Python string operations the parsers use),
`verifier`, `functions`, `neighborhood`, `greedy`, `greedy_props`,
`search_setup`, `local_search`, `tabu`, `annealing`, `nearest_neighbor`,
`vrp_file`, `instance_reader`, `solution_file`.

## Model

| member | source | states |
|---|---|---|
| Geometry.SquaredDistanceSymmetric | template_code/verify_solution.py:3-14 | the quantity under the square root of the Euclidean distance is the same both ways round |
| Geometry.SquaredDistanceNonNegative | template_code/verify_solution.py:14 | the quantity under the square root is never negative, so the root is always defined |
| Routes.SetMax | template_code/verify_solution.py:73 | `max` of a non-empty set is a member at least as large as every member |
| Routes.MaxOf | template_code/verify_solution.py:73 | scanning a non-empty set finds exactly its maximum |
| Routes.RemoveFirst | submissions/team2/functions.py:43 | `list.remove` of a value the list holds shortens it by one; for an absent value the model returns the list unchanged where Python raises ValueError, a case no call site reaches (see Left out) |
| Routes.RemoveFirstSplit | submissions/team2/functions.py:43 | `list.remove` cuts out the first occurrence, at a position before which the value does not occur |
| Routes.RemoveFirstMultiset | submissions/team2/functions.py:43 | `list.remove` takes exactly one copy of the value out of the multiset of ids |
| Routes.RemoveFirstLoad | submissions/team2/functions.py:43 | removing a customer lowers the list's total demand by that customer's demand |
| Routes.NoDuplicatesAppend | template_code/verify_solution.py:50-52 | two routes together repeat no customer iff neither does and they share none |
| Routes.InFlatten | template_code/verify_solution.py:43-50 | a customer is among the solution's ids iff some route holds it |
| Routes.PathCostIsLegSum | template_code/verify_solution.py:48-68 | the cost accumulated along a route is the sum of the legs of the closed tour depot, route, depot |
| Routes.FlattenUpdate | submissions/team2/functions.py:54-93 | replacing one route changes the multiset of the solution's ids by exactly the old and new route |
| Verifier.Customers | template_code/verify_solution.py:72-73 | with no customer key the `max` raises ValueError; otherwise the expected customers are exactly the non-depot keys that have a larger non-depot key |
| Verifier.CustomersMembers | template_code/verify_solution.py:72-73 | removing the maximum of the non-depot keys leaves exactly the keys that are smaller than another non-depot key |
| Verifier.WalkRoute | template_code/verify_solution.py:50-68 | the only error the inner loop raises is a KeyError, and while it runs it only adds to the visited set |
| Verifier.WalkRoutes | template_code/verify_solution.py:43-69 | the only error the route loop raises is a KeyError, and while it runs it only adds to the visited set |
| Verifier.VerifySpec | template_code/verify_solution.py:16-87 | every rejection carries cost 0, a truck count other than the required one is rejected before any route is read, and the only exceptions are KeyError and ValueError |
| Verifier.PrefixesFitCons | template_code/verify_solution.py:56-62 | the running load stays within capacity along a route iff it does after the first customer and along the rest from there |
| Verifier.RouteFitsCons | template_code/verify_solution.py:50-65 | a route passes the checks iff its first node does and the rest pass from the state after it |
| Verifier.WalkRouteRunning | template_code/verify_solution.py:50-68 | the inner loop reaches the return leg iff the route repeats no visited customer and never exceeds capacity, and then it has visited exactly the route's ids and added its closed-tour cost |
| Verifier.RoutesFitCons | template_code/verify_solution.py:43-69 | the routes pass iff the first one does from the current visited set and the rest do after it |
| Verifier.WalkRoutesRunning | template_code/verify_solution.py:43-69 | the route loop finishes iff every route passes, and then it has visited exactly the solution's ids and added the solution's closed-tour cost |
| Verifier.VerifyFeasibleIff | template_code/verify_solution.py:38-87 | the result is True exactly for feasible solutions (right truck count, no duplicate, every prefix load within capacity, exactly the expected customers), and then the cost is the closed-tour cost out of depot 0 |
| Verifier.VerifyRejectsDepotAndLargest | template_code/verify_solution.py:72-76 | an accepted solution never visits the depot 0 nor the largest node id |
| Verifier.WalkRouteNoKeyError | template_code/verify_solution.py:56-68 | a route whose ids all have a demand and a point raises no exception |
| Verifier.WalkRoutesNoKeyError | template_code/verify_solution.py:43-69 | a solution whose ids all have a demand and a point raises no exception in the route loop |
| Verifier.VerifyRejectsDuplicates | template_code/verify_solution.py:50-52 | with every id known, a customer that occurs twice, in one route or in two, makes the result (False, 0) |
| Verifier.VerifyRejectsOverload | template_code/verify_solution.py:56-62 | with every id known, a route with a prefix whose demand exceeds the capacity makes the result (False, 0) |
| Verifier.OptimalValueIgnored | template_code/verify_solution.py:79-87 | the optimal value changes only the message, never the verdict or the cost |
| Verifier.WalkRoutesIgnoresOptimal | template_code/verify_solution.py:43-69 | the route loop does not depend on the optimal value |
| Verifier.WalkRouteIgnoresOptimal | template_code/verify_solution.py:50-68 | the inner loop does not depend on the optimal value |
| Verifier.VerifySolution | template_code/verify_solution.py:16-87 | the nested loops with their early returns are proved equal to `VerifySpec`, the verdict `VerifyFeasibleIff` characterises |
| Text.StripLeftDrops | submissions/team2/functions.py:107 | the leading half of `strip` drops exactly the leading run of Python whitespace (`str.isspace` characters, the Unicode spaces included): everything dropped is whitespace and what remains is a suffix that does not start with whitespace |
| Text.StripRightDrops | submissions/team2/functions.py:107 | the trailing half of `strip` drops exactly the trailing run of Python whitespace: everything dropped is whitespace and what remains is a prefix that does not end with whitespace |
| Text.StripWord | submissions/team2/functions.py:107 | a word that neither starts nor ends with whitespace is its own strip, with or without a leading space |
| Text.SplitOn | submissions/team2/functions.py:109 | `split(':')` always yields at least one piece |
| Text.SplitOnNone | submissions/team2/functions.py:109 | `split(':')` of a text without a colon is that text alone |
| Text.SplitOnFirst | submissions/team2/functions.py:109 | `split(':')` of a text whose first colon follows `a` is `a` followed by the pieces of the rest |
| Text.StripTrailing | submissions/team2/functions.py:107 | a word followed by one whitespace character strips to the word |
| Text.LineEnd | submissions/team2/rechercheLocaleEvaluation.py:20 | `readlines` cuts a non-empty translated text after its first newline, or at its end |
| Text.Universal | submissions/team2/rechercheLocaleEvaluation.py:19-20 | a file opened with `open(path, 'r')` reads with no carriage return left, and never longer than written |
| Text.UniversalPlain | submissions/team2/rechercheLocaleEvaluation.py:19-20 | a text without carriage returns is read as it stands |
| Text.UniversalPrefix | submissions/team2/rechercheLocaleEvaluation.py:19-20 | a prefix without carriage returns is read unchanged in front of the rest |
| Text.UniversalEndings | submissions/team2/rechercheLocaleEvaluation.py:19-20 | `\r\n` and a lone `\r` are both read as the line end `\n` |
| Text.DigitChar | submissions/team2/heuristiqueGloutonne.py:106 | a digit value is written as the digit character that reads back as that value |
| Text.NatToString | submissions/team2/heuristiqueGloutonne.py:106 | `str` of a natural number is all digits |
| Text.NatToStringRoundTrip | submissions/team2/rechercheLocaleEvaluation.py:23 | reading the digits `str` wrote gives the number back |
| Text.IntToStringRoundTrip | submissions/team2/rechercheLocaleEvaluation.py:23 | `int(str(n)) == n` for every integer, negative ones included |
| Text.IntToStringNoSpace | submissions/team2/heuristiqueGloutonne.py:106 | `str` of an integer is a non-empty word without whitespace |
| Text.JoinAvoids | submissions/team2/heuristiqueGloutonne.py:107 | a character absent from every piece and from the separator is absent from their join |
| Text.SplitFromWord | submissions/team2/rechercheLocaleEvaluation.py:23 | a word without whitespace carries on the token `split` is reading |
| Text.SplitFromSpaces | submissions/team2/rechercheLocaleEvaluation.py:23 | whitespace alone yields only the pending token |
| Text.SplitJoin | submissions/team2/rechercheLocaleEvaluation.py:23 | `split()` undoes `' '.join(tokens)` followed by whitespace, when no token is empty or holds whitespace |
| Text.ReadLinesJoin | submissions/team2/rechercheLocaleEvaluation.py:19-20 | reading a file in text mode undoes `'\n'.join(lines)` for non-empty lines with neither `\n` nor `\r`, every line but the last keeping its newline |
| Text.SplitLinesJoin | submissions/team2/rechercheLocaleEvaluation.py:20 | the line split on its own undoes `'\n'.join(lines)` for non-empty lines without `\n` |
| Text.LineEndNoNewline | submissions/team2/rechercheLocaleEvaluation.py:20 | after the universal-newline translation, a text without `\n` is one line |
| Text.LineEndFirst | submissions/team2/rechercheLocaleEvaluation.py:20 | the first line ends just after the first newline |
| Functions.TotalCostPrefixErr | submissions/team2/functions.py:12-16 | an exception raised on one route aborts the whole sum |
| Functions.TotalCostOk | submissions/team2/functions.py:9-17 | the cost raises nothing iff -1 and every routed id are indexed and no route is empty, and then it is the sum over routes of depot to first, the consecutive legs and last to depot |
| Functions.CalculateTotalCost | submissions/team2/functions.py:9-17 | proved equal to `TotalCostSpec`: KeyError without -1, otherwise the sum over routes of depot-to-first, consecutive and last-to-depot matrix entries, with the first route that raises (IndexError when empty, KeyError for an unindexed node) ending it; `TotalCostOk` states when it succeeds and its value |
| Functions.NearestOfFits | submissions/team2/functions.py:33-39 | the scan's choice is an unserved customer whose demand fits the remaining room |
| Functions.NearestOfIsFirstNearest | submissions/team2/functions.py:31-39 | the scan returns the first fitting customer at the least distance, and None exactly when no customer fits |
| Functions.NearestKeepsOrder | submissions/team2/functions.py:37-39 | a later fitting customer strictly nearer than the best so far becomes the best |
| Functions.NearestKeepsBest | submissions/team2/functions.py:35-39 | a later customer that does not fit, or is not strictly nearer, leaves the best as it was, so ties go to the earlier one |
| Functions.ScanNearest | submissions/team2/functions.py:31-39 | the `for customer` loop raises KeyError iff some unserved customer has no index, and otherwise returns `NearestOf`, the first fitting customer of least distance (`NearestOfIsFirstNearest`) |
| Functions.GreedyFill | submissions/team2/functions.py:30-46 | every stop of the finished route has a demand |
| Functions.FillStep | submissions/team2/functions.py:40-44 | the chosen customer is unserved and fits, its demand is added to the load, it becomes the current node and it is removed from the unserved list |
| Functions.FillRoute | submissions/team2/functions.py:29-46 | the inner `while` raises KeyError iff some unserved customer has no index, and otherwise builds `GreedyFill`: stops chosen one at a time by `NearestOf` until none fits (`FillChosen`, `FillLoad`) |
| Functions.FillLeaves | submissions/team2/functions.py:30-46 | the customers a route leaves unserved were unserved before |
| Functions.FillKeeps | submissions/team2/functions.py:41-43 | no customer is lost or duplicated: the route plus the customers it leaves are the customers it started from |
| Functions.FillCount | submissions/team2/functions.py:41-43 | every stop taken is one unserved customer fewer |
| Functions.FillLoad | submissions/team2/functions.py:35-42 | a finished non-empty route stays within capacity |
| Functions.FillChosen | submissions/team2/functions.py:30-46 | each stop is the scan's choice from the customers still unserved, and the route closes only when no remaining customer fits |
| Functions.CreateInitialSolution | submissions/team2/functions.py:20-49 | the nested loops raise KeyError iff -1 or some customer has no index, and otherwise build `GreedySolution`: one `GreedyFill` route after another until every customer is served, Diverges when a fresh vehicle takes nobody (`InitialSolutionSound`) |
| Functions.SolutionStep | submissions/team2/functions.py:26-48 | a non-empty route is appended and the construction goes on from strictly fewer customers |
| Functions.SolutionServes | submissions/team2/functions.py:26-48 | a finished construction serves every customer as often as it occurs in the key list |
| Functions.SolutionFeasible | submissions/team2/functions.py:35-48 | every route returned is non-empty and within capacity |
| Functions.SolutionGreedy | submissions/team2/functions.py:26-48 | every route returned was built greedily, stop after stop |
| Functions.SolutionStuck | submissions/team2/functions.py:26-46 | the construction fails only where the loop never ends, and that happens only when some customer's demand alone exceeds the capacity |
| Functions.InitialSolutionSound | submissions/team2/functions.py:20-49 | a finished initial solution serves every demand key exactly once, keeps every route within capacity and is greedy; it fails only by looping forever, when some demand alone exceeds the capacity |
| Neighborhood.Pair | submissions/team2/functions.py:58 | `random.sample` of two routes yields two distinct positions among the routes |
| Neighborhood.PairReachable | submissions/team2/functions.py:58 | every ordered pair of distinct routes can be drawn |
| Neighborhood.NeighbourIsMove | submissions/team2/functions.py:57-88 | `Neighbour`, what one draw yields on copies of the routes, is a relocation from one route to another, or a swap between them, that keeps the lengthened routes within capacity |
| Neighborhood.MoveReachable | submissions/team2/functions.py:57-88 | conversely, every such move is what some draw yields |
| Neighborhood.TwoUpdatesKeep | submissions/team2/functions.py:57-88 | rewriting two routes whose customers together stay the same keeps the multiset of the solution's customers |
| Neighborhood.RelocateKeeps | submissions/team2/functions.py:67-70 | a relocation removes the first occurrence of the customer from its route, appends it to the other, keeps the number of routes and the multiset of customers, and changes no other route |
| Neighborhood.ExchangeKeeps | submissions/team2/functions.py:82-87 | a swap removes each customer from its route and appends it to the other, keeps the number of routes and the multiset of customers, and changes no other route |
| Neighborhood.MoveKeeps | submissions/team2/functions.py:64-88 | a move keeps the number of routes and the customers, changes only the two routes drawn, and every route it lengthens or rearranges is within capacity |
| Neighborhood.AppendLoad | submissions/team2/functions.py:64-67 | appending a customer adds its demand to the route's load |
| Neighborhood.NeighbourKeeps | submissions/team2/functions.py:57-88 | what a draw yields has as many routes and the same customers, and every route it lengthens or rearranges is within capacity |
| Neighborhood.NeighbourKeyError | submissions/team2/functions.py:60-65 | a draw raises KeyError exactly when both routes drawn are non-empty and one holds a node without a demand |
| Neighborhood.GatherStep | submissions/team2/functions.py:56-91 | one turn of the `while` either raises, or adds the move it found to the set, or adds nothing |
| Neighborhood.GatherSound | submissions/team2/functions.py:56-91 | `Gather`, the `while` loop, finishes holding exactly 30 solutions, the ones it started with and moves that some draw yielded; a failure is a draw's KeyError or running out of draws |
| Neighborhood.NeighborhoodSolution | submissions/team2/functions.py:52-93 | fewer than two routes make `random.sample` raise ValueError; otherwise the result lists the set the loop gathers, or carries the loop's error |
| Neighborhood.NeighborhoodSound | submissions/team2/functions.py:52-93 | the list holds 30 distinct neighbours, each a capacity-respecting move produced by some draw |
| Neighborhood.ListSolutions | submissions/team2/functions.py:93 | `list(solutions)` lists every member of the set exactly once |
| Greedy.LegSumSnoc | submissions/team2/heuristiqueGloutonne.py:88-90 | driving on to one more node adds exactly the leg to it |
| Greedy.CalculateCost | submissions/team2/heuristiqueGloutonne.py:73-92 | proved equal to `CostSpec`: the closed-tour cost out of depot 0, or KeyError for a node without coordinates |
| Greedy.ClosestOfFits | submissions/team2/heuristiqueGloutonne.py:49-54 | the scan's choice is an unvisited node whose demand fits the remaining room |
| Greedy.ClosestOfIsFirstClosest | submissions/team2/heuristiqueGloutonne.py:46-54 | the scan returns the first fitting node at the least distance, and None exactly when nothing fits |
| Greedy.ClosestKeepsOrder | submissions/team2/heuristiqueGloutonne.py:52-54 | a later fitting node strictly nearer than the best so far becomes the best |
| Greedy.ClosestKeepsBest | submissions/team2/heuristiqueGloutonne.py:50-54 | a later node that does not fit, or is not strictly nearer, leaves the best as it was, so ties go to the earlier one |
| Greedy.ScanClosest | submissions/team2/heuristiqueGloutonne.py:46-54 | proved equal to `Closest`: the first fitting unvisited node at the least distance from the current one, or None, or the KeyError of one without coordinates (`ClosestOfIsFirstClosest`) |
| Greedy.Extend | submissions/team2/heuristiqueGloutonne.py:44-63 | the only error one pass raises is a KeyError |
| Greedy.ClosestFits | submissions/team2/heuristiqueGloutonne.py:46-54 | a node the scan picks is unvisited and fits |
| Greedy.ExtendStep | submissions/team2/heuristiqueGloutonne.py:56-63 | a picked node other than 0 is appended, its demand comes off the room, it becomes the current node and one copy of it leaves the unvisited list |
| Greedy.StartDemanded | submissions/team2/heuristiqueGloutonne.py:28-30 | every customer, and in particular every one left after dropping the largest id, has a demand |
| Greedy.ExtendMoves | submissions/team2/heuristiqueGloutonne.py:44-63 | a pass only moves ids from the unvisited list onto the route |
| Greedy.ExtendMovesStep | submissions/team2/heuristiqueGloutonne.py:56-63 | so does one step of a pass together with the rest of it |
| Greedy.PrependMoves | submissions/team2/heuristiqueGloutonne.py:60-62 | appending a node that left the unvisited list keeps the move exact |
| Greedy.ExtendWithin | submissions/team2/heuristiqueGloutonne.py:44-63 | one pass never loads more than the room it starts with |
| Greedy.ExtendWithinStep | submissions/team2/heuristiqueGloutonne.py:50-61 | nor does one step of a pass together with the rest of it |
| Greedy.PrependWithin | submissions/team2/heuristiqueGloutonne.py:50-61 | a node that fits, followed by nodes within the room it leaves, stays within the room |
| Greedy.SweepStep | submissions/team2/heuristiqueGloutonne.py:37-63 | each route of the `for route in routes` loop gets the ids of its pass appended, and no id is lost |
| Greedy.PlacedMove | submissions/team2/heuristiqueGloutonne.py:60-62 | moving a pass's ids onto a route keeps every id either on a route or unvisited |
| Greedy.SweepShape | submissions/team2/heuristiqueGloutonne.py:37-63 | a sweep keeps the number of routes |
| Greedy.SweepPlaced | submissions/team2/heuristiqueGloutonne.py:37-63 | a sweep keeps every id on a route or unvisited, and the unvisited ones only decrease |
| Greedy.PlacedStep | submissions/team2/heuristiqueGloutonne.py:37-63 | a pass followed by the rest of the sweep keeps every id |
| Greedy.RoundsKeeps | submissions/team2/heuristiqueGloutonne.py:36-63 | `Rounds`, the outer loop, keeps the number of routes and, when it returns, has put every id of the unvisited list on the routes |
| Greedy.PassStep | submissions/team2/heuristiqueGloutonne.py:56-63 | one turn of the innermost loop appends the picked node and shrinks the unvisited list |
| Greedy.ExtendRoute | submissions/team2/heuristiqueGloutonne.py:41-63 | proved equal to `Extend`: one pass from the depot at full capacity appending `Closest` picks, each removed from unvisited, until nothing fits or node 0 is picked (`ExtendMoves`, `ExtendWithin`, `PassEnds`) |
| Greedy.PassFails | submissions/team2/heuristiqueGloutonne.py:49-51 | a KeyError in a scan ends the whole pass with it |
| Greedy.PassEnds | submissions/team2/heuristiqueGloutonne.py:44-57 | when nothing is left, nothing fits, or the pick is node 0 (falsy in `if not next_node`), the route gets nothing more |
| Greedy.SweepRoutes | submissions/team2/heuristiqueGloutonne.py:37-63 | proved equal to `Sweep`: each route in turn gets one `Extend` pass appended, until nothing is left (`SweepPlaced`) |
| Greedy.GreedyCvrp | submissions/team2/heuristiqueGloutonne.py:13-72 | proved equal to `GreedySpec`: ValueError when max() finds no customer; otherwise `Rounds`, sweeps repeated while customers remain (Diverges where a sweep places nobody and Python loops forever), then the cost; `GreedyPartition` and `GreedyDiverges` state the results |
| GreedyProperties.StartShape | submissions/team2/heuristiqueGloutonne.py:28-30 | the customers to place are the non-depot demand keys without the largest one, each once |
| GreedyProperties.GreedyPartition | submissions/team2/heuristiqueGloutonne.py:28-72 | a returned solution has one route per truck and places every customer except the largest id exactly once |
| GreedyProperties.SweepPlacesOne | submissions/team2/heuristiqueGloutonne.py:36-63 | with at least one route and every unvisited customer fitting an empty truck, a sweep places somebody |
| GreedyProperties.SweepFails | submissions/team2/heuristiqueGloutonne.py:37-63 | a sweep fails only on a missing coordinate, as a pass does |
| GreedyProperties.RoundsProgress | submissions/team2/heuristiqueGloutonne.py:36-63 | then the outer loop never spins without placing anybody |
| GreedyProperties.GreedyDiverges | submissions/team2/heuristiqueGloutonne.py:36-63 | greedy_cvrp loops forever only with no truck or with a customer other than the largest id whose demand exceeds the capacity |
| GreedyProperties.GreedyNoTrucks | submissions/team2/heuristiqueGloutonne.py:32-38 | with no truck and somebody to place, the loop spins forever |
| GreedyProperties.ExFirstPass | submissions/team2/heuristiqueGloutonne.py:44-63 | on the worked example the first pass takes customer 1 and leaves 2, which no longer fits |
| GreedyProperties.ExSecondPass | submissions/team2/heuristiqueGloutonne.py:41-63 | the next sweep restarts at full capacity and takes 2 |
| GreedyProperties.ExRounds | submissions/team2/heuristiqueGloutonne.py:36-63 | two sweeps put 1 and then 2 on the only route |
| GreedyProperties.ExCost | submissions/team2/heuristiqueGloutonne.py:84-92 | every leg of 0, 1, 2, 0 measures 0 with the example distance |
| GreedyProperties.GreedyOverloads | submissions/team2/heuristiqueGloutonne.py:36-72 | greedy_cvrp can return a route whose load (12) exceeds the capacity (10), because each sweep restarts a route at full capacity |
| GreedyProperties.ExOrder | submissions/team2/heuristiqueGloutonne.py:28-30 | the example's customers are 1, 2, 3, and dropping the largest leaves 1, 2 |
| SolutionFile.Tokens | submissions/team2/heuristiqueGloutonne.py:106 | `map(str, route)` gives one token per id |
| SolutionFile.FormatLines | submissions/team2/heuristiqueGloutonne.py:104-106 | one "Route #k:" line per route, in order |
| SolutionFile.FormatSolution | submissions/team2/heuristiqueGloutonne.py:94-107 | the append loop and the join produce the route lines joined by newlines |
| SolutionFile.ParseInts | submissions/team2/rechercheLocaleEvaluation.py:23 | `list(map(int, tokens))` that succeeds has one value per token |
| SolutionFile.ParseErrSticks | submissions/team2/rechercheLocaleEvaluation.py:21-26 | once a line raises, the whole parse raises the same error |
| SolutionFile.ParseSolutionFile | submissions/team2/rechercheLocaleEvaluation.py:12-28 | the loop over the lines is proved equal to `ParseSpec`: the ints of every "Route #" line in order and the last "Cost" value, the first failing line deciding (`ParseRoutesInOrder`, `ParseLastCost`) |
| SolutionFile.ParseRoutesInOrder | submissions/team2/rechercheLocaleEvaluation.py:22-24 | the routes read are those of the "Route #" lines, in file order, each the ints after the first two tokens |
| SolutionFile.ParseLastCost | submissions/team2/rechercheLocaleEvaluation.py:16-26 | the cost is that of the last "Cost" line, and None iff there is no such line |
| SolutionFile.ParseIgnores | submissions/team2/rechercheLocaleEvaluation.py:21-26 | a line that is neither a route line nor a cost line changes nothing |
| SolutionFile.ProximityMeaning | submissions/team2/rechercheLocaleEvaluation.py:38-45 | `Proximity` (calculate_proximity) gives 0 for an optimum of 0, a non-negative gap for a positive optimum, and for a non-zero optimum 0 exactly when the generated cost equals it |
| SolutionFile.ProximityOf | submissions/team2/rechercheLocaleEvaluation.py:42-44 | calculate_proximity of a missing optimal cost (None) raises TypeError, and of a present one gives `Proximity` |
| SolutionFile.ProximityNeedsCost | submissions/team2/rechercheLocaleEvaluation.py:69-102 | for a parsed .sol file, the proximity raises TypeError exactly when the file has no Cost line, and otherwise is measured against the last Cost line |
| SolutionFile.ProximitySymmetric | submissions/team2/rechercheLocaleEvaluation.py:44 | a cost the same amount above or below the optimum gives the same gap |
| SolutionFile.ParseIntsTokens | submissions/team2/rechercheLocaleEvaluation.py:23 | reading back the tokens `str` wrote for a route gives the route |
| SolutionFile.ParseIntsSnoc | submissions/team2/rechercheLocaleEvaluation.py:23 | one more token that parses extends the parsed list by its value |
| SolutionFile.RouteLineTokens | submissions/team2/heuristiqueGloutonne.py:106 | every token of a route line is non-empty and free of whitespace |
| SolutionFile.RouteLineJoin | submissions/team2/heuristiqueGloutonne.py:106 | a route line is its tokens joined by spaces, with a trailing space when the route is empty |
| SolutionFile.SplitRouteLine | submissions/team2/rechercheLocaleEvaluation.py:23 | `split()` of a route line gives "Route", "#k:" and the id tokens |
| SolutionFile.RouteLineParses | submissions/team2/rechercheLocaleEvaluation.py:22-24 | a route line, with or without its newline, parses to its route |
| SolutionFile.FormatParseRoundTrip | submissions/team2/rechercheLocaleEvaluation.py:12-28 | parse_solution_file reads back exactly the routes format_solution wrote, in order, and no cost |
| SolutionFile.NewlineFree | submissions/team2/heuristiqueGloutonne.py:106 | a route line holds neither `\n` nor `\r`, so reading it back keeps it one line |
| SolutionFile.ReadBackParses | submissions/team2/rechercheLocaleEvaluation.py:22-24 | each line `readlines` gives back from the formatted text parses to its route |
| SolutionFile.ParseSpecSnoc | submissions/team2/rechercheLocaleEvaluation.py:21-26 | the last line is parsed from what the earlier lines gave |
| SolutionFile.ParsePrefix | submissions/team2/rechercheLocaleEvaluation.py:21-26 | the first k read-back lines parse to the first k routes |
| VrpFile.ParseVrpFile | submissions/team2/functions.py:96-132 | the loop over the lines is proved equal to `VrpSpec`: each stripped line is handled by `ReadLine` in the source's branch order up to "EOF", then the depot check (`VrpDepot`) |
| VrpFile.VrpDepot | submissions/team2/functions.py:128-132 | without a depot line naming a node with coordinates the parse raises ValueError; otherwise it returns the coordinates read and the depot's point |
| VrpFile.VrpStopsAtEof | submissions/team2/functions.py:116-117 | nothing after the "EOF" line is read |
| VrpFile.VrpCapacityAnywhere | submissions/team2/functions.py:108-109 | the CAPACITY header is read in every section, fails exactly when its value is not an integer, and changes nothing else |
| VrpFile.VrpCoordinateLine | submissions/team2/functions.py:118-120 | a coordinate line sets that node's point, replacing an earlier one |
| VrpFile.VrpDepotKeepsDigits | submissions/team2/functions.py:124-126 | only a digit-only line sets the depot, so a terminating "-1" keeps the depot read before it |
| VrpFile.VrpCapacityNoBreakSpace | submissions/team2/functions.py:107-109 | a CAPACITY line ending in a no-break space is read as capacity 100, since `strip` removes the Unicode spaces too |
| VrpFile.VrpDepotNoBreakSpace | submissions/team2/functions.py:124-126 | a depot line "2" followed by a no-break space sets the depot to 2 |
| InstanceReader.ReadInstance | template_code/read_instances.py:1-57 | proved equal to `InstanceSpec`: each stripped line is handled by `ReadLine` (a header, a section marker, or a node, demand or depot line of the current section) up to the first line starting with EOF; the `Reader` lemmas state what each kind of line does |
| InstanceReader.ToInstance | template_code/verify_solution.py:27-32 | verify_solution raises KeyError iff the file had no CAPACITY line; the instance read has no "trucks" and no "optimal_value" |
| InstanceReader.ReaderHeaderAnywhere | template_code/read_instances.py:28-35 | a header line is read the same way in every section, changes only its own entry and keeps the section |
| InstanceReader.HeaderKeepsSections | template_code/read_instances.py:28-35 | a header line touches neither the nodes, the demands nor the depot |
| InstanceReader.ReaderStopsAtEof | template_code/read_instances.py:42-43 | nothing after a line starting with "EOF" is read |
| InstanceReader.ReaderSections | template_code/read_instances.py:36-53 | a section marker switches the section and nothing else, and a data line before any marker is ignored |
| InstanceReader.ReaderNodeLine | template_code/read_instances.py:44-47 | a node line sets that node's point, replacing an earlier one |
| InstanceReader.ReaderDemandLine | template_code/read_instances.py:48-51 | a demand line sets that node's demand, replacing an earlier one |
| InstanceReader.ReaderDepotLine | template_code/read_instances.py:52-53 | every depot-section line overwrites the depot with its integer, negative ones included |
| InstanceReader.ReaderDepotTerminator | template_code/read_instances.py:52-53 | so the usual "-1" terminator ends up as the depot, where parse_vrp_file keeps the 1 before it |
| InstanceReader.ReaderSkipsTruckCheck | template_code/verify_solution.py:31-41 | an instance read this way has no truck count, so verify_solution accepts a feasible solution with any number of routes |
| SearchSetup.LastIndex | submissions/team2/rechercheLocaleImpl.py:12 | the position a node gets is one where it occurs, and no later one holds it |
| SearchSetup.IndexMap | submissions/team2/rechercheLocaleImpl.py:12 | the index dictionary has a key per node, maps it to a position holding it, and a later position of a node overwrites an earlier one |
| SearchSetup.DistanceMatrix | submissions/team2/rechercheLocaleImpl.py:14-18 | the matrix is square, one row and one column per node |
| SearchSetup.SetupShape | submissions/team2/rechercheLocaleImpl.py:9-12 | `Prepare`, the set-up: the caller's dictionary gains -1 mapped to the depot, -1 takes the last index, and every node has a row and a column |
| SearchSetup.AppendedIndex | submissions/team2/rechercheLocaleImpl.py:9-12 | the index keys are the coordinate keys plus -1, and -1 is at the last position |
| SearchSetup.MatrixEntries | submissions/team2/rechercheLocaleImpl.py:14-18 | all three branches of the comprehension give the distance between the two nodes' points in the new dictionary |
| SearchSetup.SetupConsistent | submissions/team2/rechercheTabouImpl.py:5-16 | hence the matrix entry of any two indexed nodes is the distance of their points |
| SearchSetup.LegsAgree | submissions/team2/functions.py:13-16 | the matrix legs of an indexed tour are its geometric legs |
| SearchSetup.CostsAgree | submissions/team2/functions.py:9-17 | the matrix cost of indexed routes is their closed-tour cost with the depot's point at both ends |
| SearchSetup.MatrixCostIsTourCost | submissions/team2/functions.py:9-17 | calculate_total_cost over the set-up, when it raises nothing, is the closed-tour cost of the solution |
| LocalSearch.BestOfPrefixErr | submissions/team2/rechercheLocaleImpl.py:34-35 | a candidate whose cost raises ends the whole loop with that error |
| LocalSearch.BestCandidate | submissions/team2/rechercheLocaleImpl.py:31-38 | proved equal to `BestOf`: the first candidate of least cost with that cost, None without candidates, or the first cost that raises (`BestOfLeast`) |
| LocalSearch.BestOfLeast | submissions/team2/rechercheLocaleImpl.py:31-38 | the loop raises iff some candidate's cost raises, finds nothing iff there is no candidate, and otherwise finds the first candidate of least cost |
| LocalSearch.BestOfOk | submissions/team2/rechercheLocaleImpl.py:31-38 | the failure and the empty case of that loop |
| LocalSearch.BestOfFirst | submissions/team2/rechercheLocaleImpl.py:34-38 | a found candidate is the first one of least cost |
| LocalSearch.FirstLeastGrow | submissions/team2/rechercheLocaleImpl.py:36-38 | a later candidate strictly cheaper than the best so far becomes the best; one that is not leaves it |
| LocalSearch.Run | submissions/team2/rechercheLocaleImpl.py:8-52 | proved equal to `LocalSearchSpec`: the set-up `Prepare`, the initial solution and its cost, then `Climb`; the caller's dictionary comes back with -1 mapped to the depot; `LocalSearchSound` states the result |
| LocalSearch.ClimbFrom | submissions/team2/rechercheLocaleImpl.py:26-50 | the `for iteration` loop with its break is proved equal to `Climb`: each round takes `BestOf` the oracle's neighbours, adopts it when strictly cheaper and stops otherwise (`ClimbSound`) |
| LocalSearch.ClimbSound | submissions/team2/rechercheLocaleImpl.py:26-52 | the returned cost is the returned solution's cost; every adoption lowers it; an early stop happens only when no neighbour is strictly cheaper; otherwise all max_iterations rounds ran |
| LocalSearch.ClimbBounded | submissions/team2/rechercheLocaleImpl.py:26-28 | neighbour sources that agree below max_iterations give the same result |
| LocalSearch.MoveKeepsCustomers | submissions/team2/functions.py:57-88 | a neighbour has the same customers as its solution |
| LocalSearch.ClimbKeepsCustomers | submissions/team2/rechercheLocaleImpl.py:26-50 | over a neighbourhood of moves, the climb keeps its start's customers |
| LocalSearch.LocalSearchSound | submissions/team2/rechercheLocaleImpl.py:8-52 | the returned cost is calculate_total_cost of the returned solution, and its closed-tour cost; over a neighbourhood of moves every demand key is served exactly once |
| TabuSearch.ChooseOfPrefixErr | submissions/team2/rechercheTabouImpl.py:36-37 | a candidate whose cost raises ends the whole loop with that error |
| TabuSearch.ChooseCandidate | submissions/team2/rechercheTabouImpl.py:33-40 | proved equal to `ChooseOf`: every candidate is costed, and the first eligible one of least cost is kept (`ChooseOfLeast`), or the first cost that raises ends it (`ChooseOfFails`) |
| TabuSearch.Iterate | submissions/team2/rechercheTabouImpl.py:27-53 | the `for iteration` loop is proved equal to `TabuFrom`: in each iteration `ChooseOf` the oracle's candidates, then `Adopt` a strictly cheaper choice (`AdoptFifo`, `TabuKeeps`) |
| TabuSearch.Run | submissions/team2/rechercheTabouImpl.py:4-55 | proved equal to `TabuSpec`: the set-up `Prepare`, the initial solution and its cost, then `TabuFrom`; the caller's dictionary comes back with -1 mapped to the depot; `TabuSound` states the result |
| TabuSearch.ChooseOfFails | submissions/team2/rechercheTabouImpl.py:36-37 | the candidate loop raises exactly when some candidate's cost raises, tabu or not |
| TabuSearch.ChooseOfLeast | submissions/team2/rechercheTabouImpl.py:33-40 | the choice is None iff no candidate is eligible (off the tabu list, or recorded more than the tenure ago), and otherwise the first eligible candidate of least cost |
| TabuSearch.LeastIsLast | submissions/team2/rechercheTabouImpl.py:38-40 | the last candidate is chosen when it is eligible and strictly cheaper than every eligible one before it |
| TabuSearch.LeastStays | submissions/team2/rechercheTabouImpl.py:38-40 | an earlier choice stays when the last candidate is not both eligible and strictly cheaper |
| TabuSearch.AdoptFifo | submissions/team2/rechercheTabouImpl.py:43-53 | `Adopt` takes only a strictly cheaper choice: it becomes the best, is recorded with the iteration, and joins the first-in first-out tabu list, which drops its oldest entry beyond the tenure; otherwise nothing changes |
| TabuSearch.TabuKeeps | submissions/team2/rechercheTabouImpl.py:27-55 | the tabu list stays within the tenure, the best cost never rises and is the returned solution's cost |
| TabuSearch.ChooseOfCost | submissions/team2/rechercheTabouImpl.py:37-40 | the cost kept with the choice is the choice's calculate_total_cost |
| TabuSearch.TabuBounded | submissions/team2/rechercheTabouImpl.py:27-31 | neighbour sources that agree below max_iterations give the same result |
| TabuSearch.TabuNoEarlyExit | submissions/team2/rechercheTabouImpl.py:43 | an iteration without adoption does not stop the search: the next runs from the same state |
| TabuSearch.TabuSound | submissions/team2/rechercheTabouImpl.py:4-55 | the result is never costlier than the initial solution, its cost is its closed-tour cost, and the tabu list holds at most the tenure |
| TabuSearch.AsWrittenCandidateFails | submissions/team2/rechercheTabouImpl.py:28-37 | as written, each candidate is a whole list of 30 neighbours, and costing it raises TypeError |
| Annealing.CustomerIds | submissions/team2/recuitSimuleImpl.py:27 | `list(range(1, n + 1))` lists 1 to n in order |
| Annealing.FillFront | submissions/team2/recuitSimuleImpl.py:32-37 | the only error one vehicle's fill raises is the KeyError of a customer without a demand |
| Annealing.FillVehicles | submissions/team2/recuitSimuleImpl.py:31-38 | the only error the vehicle loop raises is a KeyError |
| Annealing.InitialSpec | submissions/team2/recuitSimuleImpl.py:25-43 | the only error generate_initial_solution raises is a KeyError |
| Annealing.FillRoute | submissions/team2/recuitSimuleImpl.py:34-37 | proved equal to `FillFront`: customers leave the front of the list while the running load stays within capacity, and a customer without a demand raises KeyError; `FillFrontLongest` shows this is the longest fitting prefix |
| Annealing.GenerateInitialSolution | submissions/team2/recuitSimuleImpl.py:29-43 | proved equal to `InitialSpec`: one `FillFront` per vehicle in turn, then whatever customers remain as one more route, raising only KeyError; `InitialRoutes` and `InitialCapacity` state the shape and the capacities |
| Annealing.FillFrontLongest | submissions/team2/recuitSimuleImpl.py:34-37 | a vehicle takes the longest prefix whose every running load fits, and the first customer left behind would overflow it |
| Annealing.VehiclesRoutes | submissions/team2/recuitSimuleImpl.py:31-38 | one route per vehicle, together with the customers left they are the list in order, and each is the fill of what the earlier vehicles left |
| Annealing.RoutesCons | submissions/team2/recuitSimuleImpl.py:31-38 | the property above carries over from the later vehicles to one more vehicle in front |
| Annealing.InitialRoutes | submissions/team2/recuitSimuleImpl.py:31-43 | the routes concatenate to the shuffled list, there is one per vehicle plus a non-empty leftover route only when customers remain, and each vehicle route is the longest fitting prefix of what is left |
| Annealing.LeftoverRoutes | submissions/team2/recuitSimuleImpl.py:40-41 | the leftover route does not change what each vehicle took |
| Annealing.NoLeftoverRoutes | submissions/team2/recuitSimuleImpl.py:40 | without leftover customers nothing is appended |
| Annealing.InitialCapacity | submissions/team2/recuitSimuleImpl.py:31-38 | each vehicle route passes the capacity check at every prefix; only the leftover route is unchecked |
| Annealing.InitialCustomers | submissions/team2/recuitSimuleImpl.py:25-43 | from a shuffle of 1 to n, the initial solution holds every customer 1 to n exactly once |
| Annealing.Perturb | submissions/team2/recuitSimuleImpl.py:46-61 | perturbing raises ValueError exactly when the solution has fewer than two routes |
| Annealing.PerturbSolution | submissions/team2/recuitSimuleImpl.py:48-61 | proved equal to `Perturb`: ValueError below two routes; otherwise the two drawn customers of the two drawn routes trade places, each moved to the end of the other route, and nothing changes when one of those routes is empty (`PerturbKeeps`) |
| Annealing.PerturbKeeps | submissions/team2/recuitSimuleImpl.py:48-61 | a perturbation keeps the number of routes, each route's length and the customers, changes only the two routes drawn, and changes nothing when one of them is empty |
| Annealing.PerturbReachable | submissions/team2/recuitSimuleImpl.py:51-59 | every swap of a customer of one route with one of another is the outcome of some draw, whatever the loads |
| Annealing.TryMove | submissions/team2/recuitSimuleImpl.py:82-99 | proved equal to `Pass`: perturb the current solution, skip a candidate `verify_solution` rejects, cost a feasible one and hand it to `Decide`; errors of any step propagate; `PassSound` states what a pass keeps |
| Annealing.DecideMove | submissions/team2/recuitSimuleImpl.py:90-99 | proved equal to `Decide`: a strictly cheaper candidate is accepted outright; otherwise a temperature of 0 raises ZeroDivisionError; an unchanged cost or a negative temperature makes the exponent non-negative, so `exp` is at least 1 and the candidate is accepted; only a costlier candidate at a positive temperature is left to the random test; acceptance cools once and replaces the best only on strict improvement (`DecideSound`) |
| Annealing.AnnealPass | submissions/team2/recuitSimuleImpl.py:80-102 | after a pass the loops stop iff the temperature fell below final_temp, and otherwise go on from the new state |
| Annealing.Round | submissions/team2/recuitSimuleImpl.py:81-102 | one run of the `for` loop makes at least one and at most max_iterations passes, one step each, and leaves the rest of `Anneal` (the nested loops as a function of the state and the steps) unchanged, or carries its error |
| Annealing.SimulatedAnnealing | submissions/team2/recuitSimuleImpl.py:64-104 | proved equal to `AnnealSpec`: KeyError without "trucks", then the initial solution, its cost, and `Anneal`, the nested loops, whose best pair is returned; `AnnealResult` states what that pair is |
| Annealing.PassSound | submissions/team2/recuitSimuleImpl.py:82-99 | a pass keeps both costs the closed-tour costs of their solutions, never raises the best cost, changes the best only to the current one at a strictly lower cost, and either changes nothing or accepts once and cools once |
| Annealing.DecideSound | submissions/team2/recuitSimuleImpl.py:91-99 | the same for the acceptance decision on a feasible candidate |
| Annealing.AcceptSound | submissions/team2/recuitSimuleImpl.py:92-99 | adopting a candidate keeps that invariant |
| Annealing.SoundState | submissions/team2/recuitSimuleImpl.py:76-99 | the invariant is its conjuncts: true costs, best no costlier than current and initial, route count and customers kept, temperature cooled once per acceptance |
| Annealing.AnnealSound | submissions/team2/recuitSimuleImpl.py:80-102 | `Anneal`, the nested loops, keeps the invariant, never raises the best cost, only adds acceptances and returns only once the temperature is at most final_temp |
| Annealing.AnnealResult | submissions/team2/recuitSimuleImpl.py:64-104 | the returned cost is the returned solution's, at most the initial cost; the solution is the initial one or one verify_solution accepted; the route count and customers are the initial ones |
| Annealing.PassConsultsTest | submissions/team2/recuitSimuleImpl.py:84-91 | the random test matters exactly for a feasible candidate strictly costlier than the current solution at a positive temperature |
| Annealing.ExponentNonNegative | submissions/team2/recuitSimuleImpl.py:91 | for a candidate that is not cheaper at a non-zero temperature, `-cost_diff / temperature` is non-negative exactly when the cost is unchanged or the temperature is negative |
| Annealing.AnnealStalls | submissions/team2/recuitSimuleImpl.py:80-102 | when the current solution has the wrong number of routes no candidate is ever feasible, so the loops never return |
| Annealing.AnnealNoProgress | submissions/team2/recuitSimuleImpl.py:80-81 | with max_iterations at most 0 the `while` spins forever, and with a leftover route it never returns either |
| Annealing.ReadInstanceLacksTrucks | submissions/team2/recuitSimuleImpl.py:69 | an instance read by read_instance has no "trucks" entry, so simulated_annealing raises KeyError before anything else |
| NearestHeuristic.Rows | submissions/team1/test.py:95-96 | `distance_matrix[current_node][i]` reads cell (current_node, i) of the matrix |
| NearestHeuristic.CalculateDistanceMatrix | submissions/team1/test.py:40-51 | a fresh n-by-n matrix whose diagonal is 0 and whose other cells are the distances between the nodes' points |
| NearestHeuristic.Scan | submissions/team1/test.py:93-97 | the only error the scan raises is an IndexError, and what it keeps is an unvisited node that fits, at its distance |
| NearestHeuristic.NextNode | submissions/team1/test.py:90-97 | the `for i` loop over the arrays is proved equal to `Scan`: the first unvisited node that fits the remaining capacity at the least distance from the current node, or None, or IndexError (`NextIsNearest`) |
| NearestHeuristic.Extend | submissions/team1/test.py:87-105 | a route grows by one node per node it visits, and the nodes already visited stay visited |
| NearestHeuristic.BuildRoute | submissions/team1/test.py:83-106 | one pass of the outer loop body on the visited array returns the route from the depot, closed by the depot, and leaves the array marked as the round specifies |
| NearestHeuristic.NearestNeighbor | submissions/team1/test.py:75-108 | proved equal to `NearestSpec`: IndexError for no nodes, otherwise `Rounds`, one depot-closed route per round until every node is visited, Diverges when a round visits nobody; `NearestRoutes` and `NearestTerminates` state the results |
| NearestHeuristic.UnvisitedMark | submissions/team1/test.py:89 | marking an unvisited node leaves one unvisited node fewer |
| NearestHeuristic.UnvisitedNone | submissions/team1/test.py:82 | `all(visited)` holds exactly when no node is unvisited |
| NearestHeuristic.ScanNearest | submissions/team1/test.py:93-97 | the scan keeps the first candidate at the least distance from the current node, or None exactly when no node is a candidate |
| NearestHeuristic.NearestSkip | submissions/team1/test.py:94-95 | passing over a node that is visited, does not fit or is no nearer keeps the kept node nearest |
| NearestHeuristic.NearestTake | submissions/team1/test.py:95-97 | taking a strictly nearer candidate keeps the kept node nearest |
| NearestHeuristic.NextIsNearest | submissions/team1/test.py:93-100 | the next node is None iff there is no unvisited node that fits; otherwise it fits, is at least as near as every such node and strictly nearer than every earlier one |
| NearestHeuristic.ScanTotal | submissions/team1/test.py:93-97 | with a demand per node and a square matrix the scan raises nothing |
| NearestHeuristic.ExtendStep | submissions/team1/test.py:88-103 | the kept node is a candidate, and the route goes on from it, marked visited, with its demand added to the load |
| NearestHeuristic.ExtendShape | submissions/team1/test.py:87-105 | the closed route starts with the route it was given and ends at the depot |
| NearestHeuristic.AddedStep | submissions/team1/test.py:88-102 | the first node a route adds is the kept one |
| NearestHeuristic.ExtendFits | submissions/team1/test.py:94-103 | the nodes a route adds all have a demand, and the running load stays within the capacity at every prefix |
| NearestHeuristic.ExtendFresh | submissions/team1/test.py:89-94 | the nodes a route adds were unvisited and are distinct |
| NearestHeuristic.FreshCons | submissions/team1/test.py:89-94 | a fresh node in front of fresh distinct nodes keeps them fresh and distinct |
| NearestHeuristic.ExtendMarks | submissions/team1/test.py:88-89 | the nodes a route marks visited are exactly the ones it adds |
| NearestHeuristic.RoundProgress | submissions/team1/test.py:82-106 | a round from the depot visits a new node exactly when some unvisited node fits an empty vehicle; otherwise its route is [0, 0] |
| NearestHeuristic.RoundServed | submissions/team1/test.py:83-106 | each round's interior is fresh, distinct, within capacity and exactly what it marks visited |
| NearestHeuristic.ServedCons | submissions/team1/test.py:105-106 | appending such a route extends the served nodes by exactly its interior |
| NearestHeuristic.VisitedGrow | submissions/team1/test.py:89 | marking the added nodes adds them to the visited ones |
| NearestHeuristic.RoundsSound | submissions/team1/test.py:82-108 | `Rounds`, the outer loop: the routes it finishes with serve every node other than the depot exactly once |
| NearestHeuristic.NearestRoutes | submissions/team1/test.py:75-108 | every returned route starts and ends at the depot and keeps every prefix of its interior within the capacity, and the interiors list every node other than the depot exactly once |
| NearestHeuristic.RoundsDiverge | submissions/team1/test.py:82-106 | the loop runs forever only on an unvisited node whose demand alone exceeds the capacity |
| NearestHeuristic.RoundsTerminate | submissions/team1/test.py:82-106 | with a demand per node, a square matrix and every demand within the capacity, the loop ends |
| NearestHeuristic.ExtendTotal | submissions/team1/test.py:87-103 | with a demand per node and a square matrix a round raises nothing |
| NearestHeuristic.NearestTerminates | submissions/team1/test.py:75-108 | nearest_neighbor diverges only when some node's demand exceeds the capacity, and returns routes when every node fits |
| NearestHeuristic.MatrixFeedsHeuristic | submissions/team1/test.py:40-51 | the matrix built from the nodes is symmetric, non-negative and the points' distance, and nearest_neighbor on it fails only by diverging |
| NearestHeuristic.RoundsOnlyDiverge | submissions/team1/test.py:82-108 | with a demand per node and a square matrix, divergence is the only failure left |

## Left out

- The square root of `euclidean_distance` and `calculate_distance`: the distance is the parameter `dist`; the radicand lemmas are proved, `sqrt` itself is not modelled.
- Floating point: costs are Dafny reals, so rounding, `float('inf')` and NaN are not modelled. The `float('inf')` start of every minimum search becomes "nothing kept yet" (`None`).
- math.exp and `random.random()` in the annealing acceptance test: a boolean per step (`Annealing.Step.accept`), as are every `random.sample`, `random.choice` and `random.shuffle` (decoded draws or given sequences).
- Printing, the diagnostic strings of `verify_solution` and the message it builds from the optimal value: only the verdict and the cost are modelled.
- File opening, `os.walk` and the evaluation and plotting scripts; the parsers work on the lines `readlines()` returns.
- `load_vrp_instance`, `plot_nodes`, `plot_routes` and the module-level example runs of `submissions/team1/test.py`, and the drivers at the end of `rechercheLocaleImpl.py` and `rechercheTabouImpl.py`.
- `print_solution` and `load_optimal_solution`.
- `float()` in `read_instance`: the parameter `toFloat`, `None` where Python raises ValueError.
- `int()`: decimal digits with an optional sign only. The underscores and surrounding whitespace Python also accepts are not modelled; the callers strip or split first.
- Text.IsDigit, Text.ParseInt: ASCII digits only. `str.isdigit()` also accepts the other Unicode decimal digits and digit-like characters such as superscripts, and `int()` the other decimal digits, so a line such as a depot id written in Arabic-Indic digits is read by Python and skipped or rejected here. Whitespace (`Text.IsSpace`) is Python's full `str.isspace` set.
- Text.ReadLines: the text is the decoded file; decoding and its errors are not modelled. Line ends follow text mode's universal newlines (`Text.Universal`).
- The ValueError at heuristiqueGloutonne.py:66-67: the outer loop leaves only with no customer unvisited, so that raise cannot happen and the model has no path to it.
- Termination: a loop that would spin for ever returns `Diverges`, and random draws are a finite sequence, so a run that needs more of them returns `Exhausted`.
- NearestHeuristic.CalculateDistanceMatrix: the Python list of lists is a fresh `array2`, so its contract mentions `fresh`. `NearestHeuristic.MatrixFeedsHeuristic` states its properties about the matrix instead.
- Neighborhood.NeighborhoodSolution: the draws are a finite parameter. The order of `list(solutions)` is whatever the set listing gives: each member appears once, in no stated order.
- LocalSearch.Run, TabuSearch.Run: `neighborhood_solution` is an oracle from the iteration and the current solution to the list it returns. `LocalSearch.LocalSearchSound` and `LocalSearch.ClimbKeepsCustomers` assume that oracle yields only moves (`MovesOnly`), which `Neighborhood.NeighborhoodSound` proves of every list the real function returns.
- Routes.RemoveFirst: for a value the list does not hold it returns the list unchanged, where `list.remove` raises ValueError. Every call site removes a value it has just taken from that list (functions.py:43, 68, 74, 83-84; heuristiqueGloutonne.py:30, 62; recuitSimuleImpl.py:56-57; verify_solution.py:73), so the case never arises and the ValueError is not modelled.
- TabuSearch.Run: the candidate list is the concatenation of the ten lists `neighborhood_solution` returns, not the ten lists themselves (see Findings).
- Annealing.SimulatedAnnealing: the shuffled customer list is a parameter that must be a permutation of 1 to n, and the model counts the accepted moves, which the source does not keep, so that the cooling can be stated.
- Annealing.DecideMove: the random test is the given boolean `accept`, consulted only for a costlier candidate at a positive temperature. An unchanged cost or a negative temperature is accepted, as `exp` of a non-negative exponent is at least 1; the OverflowError `math.exp` raises on a very large argument (possible only with a negative temperature) is not modelled, so those candidates are accepted. A temperature of 0 raises ZeroDivisionError as in the source.

## Findings

| source | as written | input that shows it | evidently intended | confidence | as-written member | corrected member |
|---|---|---|---|---|---|---|
| submissions/team2/rechercheTabouImpl.py:28-37 | each of the ten lists `neighborhood_solution` returns is appended whole to `neighborhood`, so a candidate is a list of 30 solutions and `calculate_total_cost` looks up a route (a list) as a dictionary key | any instance with at least two routes and `max_iterations >= 1`: the first candidate of the first iteration raises TypeError | the candidates are the solutions of the ten lists, one flat list, each costed and checked against the tabu list | high, not executed | TabuSearch.AsWrittenCandidateFails | TabuSearch.ChooseOfLeast |
