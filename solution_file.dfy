/** The solution text: format_solution (submissions/team2/heuristiqueGloutonne.py)
    writes one "Route #k: ids" line per route; parse_solution_file and
    calculate_proximity (submissions/team2/rechercheLocaleEvaluation.py)
    read such a file back, with an optional "Cost" line, and compare a cost
    with the optimum. The parser works on the lines readlines() returns. */
module SolutionFile {
  import opened Wrappers
  import opened Routes
  import opened Text

  // ---------------------------------------------------------------------
  // format_solution

  /** map(str, route). */
  function Tokens(route: Route): (t: seq<string>)
    ensures |t| == |route|
  {
    seq(|route|, j requires 0 <= j < |route| => IntToString(route[j]))
  }

  /** f"Route #{i + 1}: {' '.join(map(str, route))}". */
  function RouteLine(i: nat, route: Route): string {
    "Route #" + NatToString(i + 1) + ": " + Join(Tokens(route), " ")
  }

  /** The lines of format_solution, one per route in order. */
  function FormatLines(solution: Solution): (lines: seq<string>)
    ensures |lines| == |solution|
  {
    seq(|solution|, i requires 0 <= i < |solution| => RouteLine(i, solution[i]))
  }

  /** format_solution: the `formatted_routes.append` loop, then "\n".join. */
  method FormatSolution(solution: Solution) returns (text: string)
    ensures text == Join(FormatLines(solution), "\n")
  {
    var formatted: seq<string> := [];
    var i := 0;
    while i < |solution|
      invariant 0 <= i <= |solution|
      invariant |formatted| == i
      invariant forall k :: 0 <= k < i ==> formatted[k] == RouteLine(k, solution[k])
    {
      formatted := formatted + [RouteLine(i, solution[i])];
      i := i + 1;
    }
    assert formatted == FormatLines(solution);
    text := Join(formatted, "\n");
  }

  // ---------------------------------------------------------------------
  // parse_solution_file

  /** list(map(int, tokens)): the first malformed token raises ValueError. */
  function ParseInts(tokens: seq<string>): (r: Result<seq<int>>)
    ensures r.Ok? ==> |r.value| == |tokens|
    decreases |tokens|
  {
    if |tokens| == 0 then Ok([])
    else
      match ParseInts(tokens[..|tokens| - 1])
      case Err(e) => Err(e)
      case Ok(init) =>
        match ParseInt(tokens[|tokens| - 1])
        case Err(e) => Err(e)
        case Ok(v) => Ok(init + [v])
  }

  predicate IsRouteLine(line: string) {
    StartsWith(line, "Route #")
  }

  /** A line the `elif line.startswith("Cost")` branch reads. */
  predicate IsCostLine(line: string) {
    !IsRouteLine(line) && StartsWith(line, "Cost")
  }

  /** list(map(int, line.split()[2:])). */
  function RouteOf(line: string): Result<Route> {
    var t := Split(line);
    ParseInts(if |t| >= 2 then t[2..] else [])
  }

  /** int(line.split()[1]): IndexError without a second token. */
  function CostOf(line: string): Result<int> {
    var t := Split(line);
    if |t| < 2 then Err(IndexError) else ParseInt(t[1])
  }

  /** What the loop has gathered: the routes so far and the last cost. */
  datatype Parsed = Parsed(routes: Solution, cost: Option<int>)

  /** One pass of the loop. */
  function ParseLine(acc: Parsed, line: string): Result<Parsed> {
    if IsRouteLine(line) then
      match RouteOf(line)
      case Err(e) => Err(e)
      case Ok(route) => Ok(Parsed(acc.routes + [route], acc.cost))
    else if IsCostLine(line) then
      match CostOf(line)
      case Err(e) => Err(e)
      case Ok(c) => Ok(Parsed(acc.routes, Some(c)))
    else Ok(acc)
  }

  /** The loop over the lines, from the first: the first failing line
      decides. */
  function ParseSpec(lines: seq<string>): Result<Parsed>
    decreases |lines|
  {
    if |lines| == 0 then Ok(Parsed([], None))
    else
      match ParseSpec(lines[..|lines| - 1])
      case Err(e) => Err(e)
      case Ok(acc) => ParseLine(acc, lines[|lines| - 1])
  }

  /** Once a line fails, the whole file fails with its error. */
  lemma {:induction false} ParseErrSticks(lines: seq<string>, k: nat)
    requires k <= |lines| && ParseSpec(lines[..k]).Err?
    ensures ParseSpec(lines) == ParseSpec(lines[..k])
    decreases |lines|
  {
    if k == |lines| {
      assert lines[..k] == lines;
    } else {
      var init := lines[..|lines| - 1];
      assert init[..k] == lines[..k];
      ParseErrSticks(init, k);
    }
  }

  /** parse_solution_file over the lines of the file. */
  method ParseSolutionFile(lines: seq<string>) returns (res: Result<Parsed>)
    ensures res == ParseSpec(lines)
  {
    var routes: Solution := [];
    var cost: Option<int> := None;
    var i := 0;
    while i < |lines|
      invariant 0 <= i <= |lines|
      invariant ParseSpec(lines[..i]) == Ok(Parsed(routes, cost))
    {
      assert lines[..i + 1][..i] == lines[..i];
      var line := lines[i];
      if IsRouteLine(line) {
        var route := RouteOf(line);
        if route.Err? {
          ParseErrSticks(lines, i + 1);
          return Err(route.error);
        }
        routes := routes + [route.value];
      } else if IsCostLine(line) {
        var c := CostOf(line);
        if c.Err? {
          ParseErrSticks(lines, i + 1);
          return Err(c.error);
        }
        cost := Some(c.value);
      }
      i := i + 1;
    }
    assert lines[..i] == lines;
    return Ok(Parsed(routes, cost));
  }

  /** The "Route #" lines of a file, in order. */
  function RouteLinesOf(lines: seq<string>): seq<string>
    decreases |lines|
  {
    if |lines| == 0 then []
    else
      var init := RouteLinesOf(lines[..|lines| - 1]);
      if IsRouteLine(lines[|lines| - 1]) then init + [lines[|lines| - 1]] else init
  }

  /** The routes are those of the "Route #" lines, in file order. */
  lemma {:induction false} ParseRoutesInOrder(lines: seq<string>)
    ensures var r := ParseSpec(lines);
      r.Ok? ==>
        |r.value.routes| == |RouteLinesOf(lines)| &&
        forall i :: 0 <= i < |r.value.routes| ==> RouteOf(RouteLinesOf(lines)[i]) == Ok(r.value.routes[i])
    decreases |lines|
  {
    if |lines| > 0 {
      ParseRoutesInOrder(lines[..|lines| - 1]);
    }
  }

  /** The cost is that of the last "Cost" line, and None without one. */
  lemma {:induction false} ParseLastCost(lines: seq<string>)
    ensures var r := ParseSpec(lines);
      r.Ok? ==>
        (r.value.cost.None? <==> forall i :: 0 <= i < |lines| ==> !IsCostLine(lines[i])) &&
        (r.value.cost.Some? ==>
           exists k :: 0 <= k < |lines| && IsCostLine(lines[k]) && CostOf(lines[k]) == Ok(r.value.cost.value) &&
             forall j :: k < j < |lines| ==> !IsCostLine(lines[j]))
    decreases |lines|
  {
    if |lines| > 0 {
      var n := |lines|;
      var init := lines[..n - 1];
      ParseLastCost(init);
      var r := ParseSpec(lines);
      if r.Ok? {
        assert forall i :: 0 <= i < n - 1 ==> init[i] == lines[i];
        if IsCostLine(lines[n - 1]) {
          assert r.value.cost.Some?;
        } else if r.value.cost.Some? {
          var k :| 0 <= k < n - 1 && IsCostLine(init[k]) && CostOf(init[k]) == Ok(r.value.cost.value) &&
            forall j :: k < j < n - 1 ==> !IsCostLine(init[j]);
          assert IsCostLine(lines[k]);
        }
      }
    }
  }

  /** A line that is neither a route nor a cost line changes nothing. */
  lemma {:induction false} ParseIgnores(a: seq<string>, line: string, b: seq<string>)
    requires !IsRouteLine(line) && !IsCostLine(line)
    ensures ParseSpec(a + [line] + b) == ParseSpec(a + b)
    decreases |b|
  {
    if |b| == 0 {
      assert a + [line] + b == a + [line];
      assert (a + [line])[..|a|] == a;
      assert a + b == a;
    } else {
      var b0 := b[..|b| - 1];
      assert (a + [line] + b)[..|a + [line] + b| - 1] == a + [line] + b0;
      assert (a + b)[..|a + b| - 1] == a + b0;
      ParseIgnores(a, line, b0);
    }
  }

  // ---------------------------------------------------------------------
  // calculate_proximity

  function Abs(x: real): real {
    if x < 0.0 then -x else x
  }

  /** calculate_proximity: 0 for a zero optimum, else the gap to the optimum
      as a percentage of it. */
  function Proximity(optimal: real, generated: real): real {
    if optimal == 0.0 then 0.0 else Abs(optimal - generated) / optimal * 100.0
  }

  /** The zero guard, the sign and the zero of the gap. */
  lemma {:induction false} ProximityMeaning(optimal: real, generated: real)
    ensures optimal == 0.0 ==> Proximity(optimal, generated) == 0.0
    ensures optimal > 0.0 ==> Proximity(optimal, generated) >= 0.0
    ensures optimal != 0.0 ==> (Proximity(optimal, generated) == 0.0 <==> generated == optimal)
  {
    if optimal != 0.0 {
      var q := Abs(optimal - generated) / optimal;
      if generated != optimal {
        assert Abs(optimal - generated) != 0.0;
        assert q * optimal == Abs(optimal - generated);
        assert q != 0.0;
      }
      if optimal > 0.0 {
        assert q >= 0.0;
      }
    }
  }

  /** calculate_proximity on the cost parse_solution_file returns: with no
      optimal cost (None) the test None == 0 fails and None - generated
      raises TypeError; otherwise Proximity of the integer cost. */
  function ProximityOf(optimal: Option<int>, generated: real): (r: Result<real>)
    ensures r.Err? <==> optimal.None?
    ensures r.Err? ==> r.error == TypeError
  {
    match optimal
    case None => Err(TypeError)
    case Some(o) => Ok(Proximity(o as real, generated))
  }

  /** For a parsed .sol file, calculate_proximity raises exactly when the
      file has no Cost line, and otherwise measures against its last one. */
  lemma {:induction false} ProximityNeedsCost(lines: seq<string>, generated: real)
    requires ParseSpec(lines).Ok?
    ensures ProximityOf(ParseSpec(lines).value.cost, generated).Err? <==>
      forall i :: 0 <= i < |lines| ==> !IsCostLine(lines[i])
    ensures ProximityOf(ParseSpec(lines).value.cost, generated).Ok? ==>
      exists k :: 0 <= k < |lines| && IsCostLine(lines[k]) && CostOf(lines[k]).Ok? &&
        ProximityOf(ParseSpec(lines).value.cost, generated) ==
          Ok(Proximity(CostOf(lines[k]).value as real, generated)) &&
        forall j :: k < j < |lines| ==> !IsCostLine(lines[j])
  {
    ParseLastCost(lines);
  }

  /** The gap is the same above and below the optimum. */
  lemma {:induction false} ProximitySymmetric(optimal: real, d: real)
    ensures Proximity(optimal, optimal + d) == Proximity(optimal, optimal - d)
  {
    assert Abs(optimal - (optimal + d)) == Abs(optimal - (optimal - d));
  }

  // ---------------------------------------------------------------------
  // Reading back what format_solution writes

  lemma {:induction false} ParseIntsTokens(route: Route)
    ensures ParseInts(Tokens(route)) == Ok(route)
    decreases |route|
  {
    if |route| > 0 {
      var n := |route|;
      var t := Tokens(route);
      TokensInit(route);
      ParseIntsTokens(route[..n - 1]);
      IntToStringRoundTrip(route[n - 1]);
      ParseIntsSnoc(t, route[..n - 1], route[n - 1]);
      assert route[..n - 1] + [route[n - 1]] == route;
    }
  }

  /** The tokens of a route without its last node, and the last token. */
  lemma {:induction false} TokensInit(route: Route)
    requires |route| > 0
    ensures Tokens(route)[..|route| - 1] == Tokens(route[..|route| - 1])
    ensures Tokens(route)[|route| - 1] == IntToString(route[|route| - 1])
  {
    var n := |route|;
    var init, shorter := Tokens(route)[..n - 1], Tokens(route[..n - 1]);
    forall j | 0 <= j < n - 1 ensures init[j] == shorter[j] {
      assert route[..n - 1][j] == route[j];
    }
    assert init == shorter;
  }

  /** One more token that parses extends the parsed list by its value. */
  lemma ParseIntsSnoc(tokens: seq<string>, init: seq<int>, x: int)
    requires |tokens| > 0 && ParseInts(tokens[..|tokens| - 1]) == Ok(init)
    requires ParseInt(tokens[|tokens| - 1]) == Ok(x)
    ensures ParseInts(tokens) == Ok(init + [x])
  {
  }

  lemma {:induction false} JoinTwo(a: string, b: string, rest: seq<string>, sep: string)
    ensures Join([a, b] + rest, sep) == a + sep + (b + (if |rest| == 0 then "" else sep + Join(rest, sep)))
  {
    var p := [a, b] + rest;
    assert p[1..] == [b] + rest;
    if |rest| > 0 {
      assert ([b] + rest)[1..] == rest;
    }
  }

  /** The whitespace-free, non-empty tokens of a route line. */
  lemma {:induction false} RouteLineTokens(i: nat, route: Route)
    ensures var tokens := ["Route", "#" + NatToString(i + 1) + ":"] + Tokens(route);
      forall j :: 0 <= j < |tokens| ==> |tokens[j]| > 0 && NoSpace(tokens[j])
  {
    var k := NatToString(i + 1);
    var head := "#" + k + ":";
    var t := Tokens(route);
    assert NoSpace("Route");
    assert NoSpace(head) by {
      assert AllDigits(k);
      forall j | 0 <= j < |head| ensures !IsSpace(head[j]) {
        if 0 < j < |head| - 1 {
          assert head[j] == k[j - 1];
        }
      }
    }
    forall j | 0 <= j < |t| ensures |t[j]| > 0 && NoSpace(t[j]) {
      IntToStringNoSpace(route[j]);
    }
    var tokens := ["Route", head] + t;
    forall j | 0 <= j < |tokens| ensures |tokens[j]| > 0 && NoSpace(tokens[j]) {
      if j >= 2 {
        assert tokens[j] == t[j - 2];
      }
    }
  }

  /** A route line is its tokens joined by spaces, plus a space when the
      route is empty. */
  lemma {:induction false} RouteLineJoin(i: nat, route: Route)
    ensures var tokens := ["Route", "#" + NatToString(i + 1) + ":"] + Tokens(route);
      RouteLine(i, route) == Join(tokens, " ") + (if |route| == 0 then " " else "")
  {
    var n := NatToString(i + 1);
    var head := "#" + n + ":";
    var t := Tokens(route);
    JoinTwo("Route", head, t, " ");
    var j := Join(t, " ");
    RouteLineRegroup(n, j);
    if |t| == 0 {
      assert j == "";
    }
  }

  lemma {:induction false} RouteLineRegroup(n: string, j: string)
    ensures "Route #" + n + ": " + j == "Route" + " " + ("#" + n + ":" + (" " + j))
  {
    assert "Route #" + n + ": " + j == "Route" + " " + "#" + n + ":" + " " + j;
  }

  /** A route line splits into "Route", "#k:" and the ids. */
  lemma {:induction false} SplitRouteLine(i: nat, route: Route, tail: string)
    requires AllSpace(tail)
    ensures Split(RouteLine(i, route) + tail) == ["Route", "#" + NatToString(i + 1) + ":"] + Tokens(route)
  {
    var tokens := ["Route", "#" + NatToString(i + 1) + ":"] + Tokens(route);
    RouteLineTokens(i, route);
    RouteLineJoin(i, route);
    var pad := (if |route| == 0 then " " else "") + tail;
    assert AllSpace(pad);
    assert RouteLine(i, route) + tail == Join(tokens, " ") + pad;
    SplitJoin(tokens, pad);
  }

  /** A route line, with or without its newline, parses to its route. */
  lemma {:induction false} RouteLineParses(acc: Parsed, i: nat, route: Route, tail: string)
    requires AllSpace(tail)
    ensures ParseLine(acc, RouteLine(i, route) + tail) == Ok(Parsed(acc.routes + [route], acc.cost))
  {
    var line := RouteLine(i, route) + tail;
    assert line[..7] == "Route #";
    SplitRouteLine(i, route, tail);
    assert Split(line)[2..] == Tokens(route);
    ParseIntsTokens(route);
  }

  /** parse_solution_file reads back exactly the routes format_solution
      wrote, and no cost. */
  lemma {:induction false} FormatParseRoundTrip(solution: Solution)
    ensures ParseSpec(ReadLines(Join(FormatLines(solution), "\n"))) == Ok(Parsed(solution, None))
  {
    var lines := FormatLines(solution);
    forall i | 0 <= i < |lines| ensures |lines[i]| > 0 && '\n' !in lines[i] && '\r' !in lines[i] {
      assert lines[i] == RouteLine(i, solution[i]);
      assert lines[i][0] == 'R';
      NewlineFree(i, solution[i], '\n');
      NewlineFree(i, solution[i], '\r');
    }
    ReadLinesJoin(lines);
    var read := ReadLines(Join(lines, "\n"));
    assert forall i :: 0 <= i < |solution| ==> read[i] == ReadBack(solution, i);
    ParsePrefix(solution, read, |solution|);
    assert read[..|solution|] == read;
    assert solution[..|solution|] == solution;
  }

  /** A route line holds neither line end. */
  lemma {:induction false} NewlineFree(i: nat, route: Route, c: char)
    requires c == '\n' || c == '\r'
    ensures c !in RouteLine(i, route)
  {
    var k := NatToString(i + 1);
    assert AllDigits(k);
    forall j | 0 <= j < |k| ensures k[j] != c {
      assert IsDigit(k[j]);
    }
    var t := Tokens(route);
    forall j | 0 <= j < |t| ensures c !in t[j] {
      IntToStringNoSpace(route[j]);
      forall m | 0 <= m < |t[j]| ensures t[j][m] != c {
        assert !IsSpace(t[j][m]);
      }
    }
    JoinAvoids(t, " ", c);
  }

  /** Line i as splitlines(keepends=True) hands it back: the route line
      and, on all lines but the last, its newline. */
  function ReadBack(solution: Solution, i: nat): string
    requires i < |solution|
  {
    RouteLine(i, solution[i]) + (if i < |solution| - 1 then "\n" else "")
  }

  /** A read-back line parses as its route. */
  lemma {:induction false} ReadBackParses(acc: Parsed, solution: Solution, i: nat)
    requires i < |solution|
    ensures ParseLine(acc, ReadBack(solution, i)) == Ok(Parsed(acc.routes + [solution[i]], acc.cost))
  {
    var tail := if i < |solution| - 1 then "\n" else "";
    assert AllSpace(tail);
    RouteLineParses(acc, i, solution[i], tail);
  }

  /** The last line is parsed from what the earlier ones gave. */
  lemma {:induction false} ParseSpecSnoc(lines: seq<string>, acc: Parsed)
    requires |lines| > 0 && ParseSpec(lines[..|lines| - 1]) == Ok(acc)
    ensures ParseSpec(lines) == ParseLine(acc, lines[|lines| - 1])
  {
  }

  lemma {:induction false} ParsePrefix(solution: Solution, read: seq<string>, k: nat)
    requires |read| == |solution| && k <= |solution|
    requires forall i :: 0 <= i < |solution| ==> read[i] == ReadBack(solution, i)
    ensures ParseSpec(read[..k]) == Ok(Parsed(solution[..k], None))
    decreases k
  {
    if k > 0 {
      var lines := read[..k];
      var acc := Parsed(solution[..k - 1], None);
      assert lines[..k - 1] == read[..k - 1];
      assert lines[k - 1] == ReadBack(solution, k - 1);
      ParsePrefix(solution, read, k - 1);
      ReadBackParses(acc, solution, k - 1);
      ParseSpecSnoc(lines, acc);
      assert solution[..k - 1] + [solution[k - 1]] == solution[..k];
    }
  }
}
