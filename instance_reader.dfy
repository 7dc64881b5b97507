/** read_instance (template_code/read_instances.py): the reader of the
    template code. The same TSPLIB-style file as parse_vrp_file, read by a
    different state machine: the NAME, COMMENT, DIMENSION and CAPACITY
    headers are checked before anything else, so they are recognised in every
    section; a line starting with "EOF" ends the scan; the depot section keeps
    the integer of its last line. float() on a coordinate token is the
    parameter `toFloat` (None where float() raises ValueError). */
module InstanceReader {
  import opened Wrappers
  import opened Geometry
  import opened Routes
  import opened Text
  import opened Verifier

  /** The `section` variable: None, "nodes", "demands" or "depot". */
  datatype Section = Outside | Nodes | Demands | Depot

  /** The four header keys of `data`. */
  datatype Header = Name | Comment | Dimension | Capacity

  /** The returned dictionary: the optional header and depot entries, and the
      nodes and demands entries that are always present. */
  datatype Data = Data(name: Option<string>, comment: Option<string>, dimension: Option<int>,
                       capacity: Option<int>, depot: Option<int>,
                       nodes: map<int, Point>, demands: map<int, int>)

  /** The loop's variables. */
  datatype Reader = Reader(data: Data, section: Section)

  const Empty := Data(None, None, None, None, None, map[], map[])

  /** The `if/elif` chain on a stripped line, in the source's order. */
  datatype Kind = HeaderLine(header: Header) | MarkerLine(section: Section) | EofLine | DataLine

  function KindOf(line: string): Kind {
    if StartsWith(line, "NAME") then HeaderLine(Name)
    else if StartsWith(line, "COMMENT") then HeaderLine(Comment)
    else if StartsWith(line, "DIMENSION") then HeaderLine(Dimension)
    else if StartsWith(line, "CAPACITY") then HeaderLine(Capacity)
    else if StartsWith(line, "NODE_COORD_SECTION") then MarkerLine(Nodes)
    else if StartsWith(line, "DEMAND_SECTION") then MarkerLine(Demands)
    else if StartsWith(line, "DEPOT_SECTION") then MarkerLine(Depot)
    else if StartsWith(line, "EOF") then EofLine
    else DataLine
  }

  /** line.split(":")[1].strip(). */
  function HeaderText(line: string): Result<string> {
    var pieces := SplitOn(line, ':');
    if |pieces| < 2 then Err(IndexError) else Ok(Strip(pieces[1]))
  }

  /** One header line: the text entries are stored as read, the numeric ones
      through int(). */
  function ReadHeader(data: Data, header: Header, line: string): Result<Data> {
    match HeaderText(line)
    case Err(e) => Err(e)
    case Ok(text) =>
      match header
      case Name => Ok(data.(name := Some(text)))
      case Comment => Ok(data.(comment := Some(text)))
      case Dimension =>
        (match ParseInt(text)
         case Err(e) => Err(e)
         case Ok(n) => Ok(data.(dimension := Some(n))))
      case Capacity =>
        match ParseInt(text)
        case Err(e) => Err(e)
        case Ok(n) => Ok(data.(capacity := Some(n)))
  }

  /** node_id, x, y = int(parts[0]), float(parts[1]), float(parts[2]): the
      tuple is evaluated from left to right. */
  function NodeLine(data: Data, line: string, toFloat: string -> Option<real>): Result<Data> {
    var parts := Split(line);
    if |parts| < 1 then Err(IndexError)
    else match ParseInt(parts[0])
      case Err(e) => Err(e)
      case Ok(id) =>
        if |parts| < 2 then Err(IndexError)
        else match toFloat(parts[1])
          case None => Err(ValueError)
          case Some(x) =>
            if |parts| < 3 then Err(IndexError)
            else match toFloat(parts[2])
              case None => Err(ValueError)
              case Some(y) => Ok(data.(nodes := data.nodes[id := Point(x, y)]))
  }

  /** node_id, demand = int(parts[0]), int(parts[1]). */
  function DemandLine(data: Data, line: string): Result<Data> {
    var parts := Split(line);
    if |parts| < 1 then Err(IndexError)
    else match ParseInt(parts[0])
      case Err(e) => Err(e)
      case Ok(id) =>
        if |parts| < 2 then Err(IndexError)
        else match ParseInt(parts[1])
          case Err(e) => Err(e)
          case Ok(d) => Ok(data.(demands := data.demands[id := d]))
  }

  /** One pass of the loop on a line that does not end the scan. */
  function ReadLine(rd: Reader, raw: string, toFloat: string -> Option<real>): Result<Reader> {
    var line := Strip(raw);
    match KindOf(line)
    case HeaderLine(h) =>
      (match ReadHeader(rd.data, h, line)
       case Err(e) => Err(e)
       case Ok(d) => Ok(rd.(data := d)))
    case MarkerLine(s) => Ok(rd.(section := s))
    case EofLine => Ok(rd)
    case DataLine =>
      var r := match rd.section
        case Outside => Ok(rd.data)
        case Nodes => NodeLine(rd.data, line, toFloat)
        case Demands => DemandLine(rd.data, line)
        case Depot =>
          match ParseInt(line)
          case Err(e) => Err(e)
          case Ok(n) => Ok(rd.data.(depot := Some(n)));
      match r
      case Err(e) => Err(e)
      case Ok(d) => Ok(rd.(data := d))
  }

  predicate IsEof(raw: string) {
    KindOf(Strip(raw)) == EofLine
  }

  /** The `for line in lines` loop from the state rd, up to the first line
      starting with "EOF". */
  function ReadFrom(lines: seq<string>, rd: Reader, toFloat: string -> Option<real>): Result<Reader>
    decreases |lines|
  {
    if |lines| == 0 || IsEof(lines[0]) then Ok(rd)
    else
      match ReadLine(rd, lines[0], toFloat)
      case Err(e) => Err(e)
      case Ok(next) => ReadFrom(lines[1..], next, toFloat)
  }

  function InstanceSpec(lines: seq<string>, toFloat: string -> Option<real>): Result<Data> {
    match ReadFrom(lines, Reader(Empty, Outside), toFloat)
    case Err(e) => Err(e)
    case Ok(rd) => Ok(rd.data)
  }

  /** read_instance over the lines of the file. */
  method ReadInstance(lines: seq<string>, toFloat: string -> Option<real>) returns (res: Result<Data>)
    ensures res == InstanceSpec(lines, toFloat)
  {
    var rd := Reader(Empty, Outside);
    var i := 0;
    while i < |lines|
      invariant 0 <= i <= |lines|
      invariant ReadFrom(lines, Reader(Empty, Outside), toFloat) == ReadFrom(lines[i..], rd, toFloat)
    {
      assert lines[i..][0] == lines[i] && lines[i..][1..] == lines[i + 1..];
      if IsEof(lines[i]) {
        break;
      }
      var next := ReadLine(rd, lines[i], toFloat);
      if next.Err? {
        return Err(next.error);
      }
      rd := next.value;
      i := i + 1;
    }
    return Ok(rd.data);
  }

  /** The dictionary as verify_solution reads it: "capacity" is looked up
      with [] (KeyError when absent), "trucks" and "optimal_value" with
      get(), and read_instance never stores either of them. */
  function ToInstance(data: Data): (r: Result<Instance>)
    ensures r.Err? <==> data.capacity.None?
    ensures r.Err? ==> r.error == KeyError
    ensures r.Ok? ==> r.value.trucks.None? && r.value.optimalValue.None? &&
                      r.value.nodes == data.nodes && r.value.demands == data.demands &&
                      r.value.capacity == data.capacity.value
  {
    if data.capacity.None? then Err(KeyError)
    else Ok(Instance(data.nodes, data.demands, data.capacity.value, None, None))
  }

  // ---------------------------------------------------------------------
  // Lemmas

  /** A header line is read the same way in every section: it changes only
      its own entry and leaves the section as it was. */
  lemma {:induction false} ReaderHeaderAnywhere(rd: Reader, raw: string, s: Section, toFloat: string -> Option<real>)
    requires KindOf(Strip(raw)).HeaderLine?
    ensures var r := ReadLine(rd, raw, toFloat);
      var r2 := ReadLine(rd.(section := s), raw, toFloat);
      (r.Ok? <==> r2.Ok?) &&
      (r.Ok? ==> r2.value == r.value.(section := s) && r.value.section == rd.section &&
                 r.value.data.nodes == rd.data.nodes && r.value.data.demands == rd.data.demands &&
                 r.value.data.depot == rd.data.depot)
  {
    var line := Strip(raw);
    var h := KindOf(line).header;
    var d := ReadHeader(rd.data, h, line);
    HeaderKeepsSections(rd.data, h, line);
    assert ReadLine(rd, raw, toFloat) == (if d.Ok? then Ok(rd.(data := d.value)) else Err(d.error));
    assert ReadLine(rd.(section := s), raw, toFloat) ==
      (if d.Ok? then Ok(rd.(section := s).(data := d.value)) else Err(d.error));
  }

  /** A header line touches none of the fields the sections fill. */
  lemma HeaderKeepsSections(data: Data, h: Header, line: string)
    ensures var d := ReadHeader(data, h, line);
      d.Ok? ==> d.value.nodes == data.nodes && d.value.demands == data.demands && d.value.depot == data.depot
  {
  }

  /** Nothing after a line starting with "EOF" is read. */
  lemma {:induction false} ReaderStopsAtEof(a: seq<string>, eof: string, b: seq<string>, rd: Reader,
                                           toFloat: string -> Option<real>)
    requires IsEof(eof)
    ensures ReadFrom(a + [eof] + b, rd, toFloat) == ReadFrom(a + [eof], rd, toFloat)
    decreases |a|
  {
    if |a| == 0 {
      assert (a + [eof] + b)[0] == eof && (a + [eof])[0] == eof;
    } else {
      assert (a + [eof] + b)[0] == a[0] && (a + [eof])[0] == a[0];
      assert (a + [eof] + b)[1..] == a[1..] + [eof] + b;
      assert (a + [eof])[1..] == a[1..] + [eof];
      var r := ReadLine(rd, a[0], toFloat);
      if r.Ok? {
        ReaderStopsAtEof(a[1..], eof, b, r.value, toFloat);
      }
    }
  }

  /** A marker switches the section and nothing else; a data line before any
      marker is ignored. */
  lemma {:induction false} ReaderSections(rd: Reader, raw: string, toFloat: string -> Option<real>)
    ensures KindOf(Strip(raw)).MarkerLine? ==>
      ReadLine(rd, raw, toFloat) == Ok(rd.(section := KindOf(Strip(raw)).section))
    ensures KindOf(Strip(raw)) == DataLine && rd.section == Outside ==> ReadLine(rd, raw, toFloat) == Ok(rd)
  {
  }

  /** A line of the coordinate section sets that node's point, replacing an
      earlier one: the last line for a node wins. */
  lemma {:induction false} ReaderNodeLine(rd: Reader, raw: string, id: int, a: string, b: string,
                                         x: real, y: real, toFloat: string -> Option<real>)
    requires rd.section == Nodes && KindOf(Strip(raw)) == DataLine
    requires Split(Strip(raw)) == [IntToString(id), a, b] && toFloat(a) == Some(x) && toFloat(b) == Some(y)
    ensures ReadLine(rd, raw, toFloat) == Ok(rd.(data := rd.data.(nodes := rd.data.nodes[id := Point(x, y)])))
    ensures ReadLine(rd, raw, toFloat).value.data.nodes[id] == Point(x, y)
  {
    IntToStringRoundTrip(id);
  }

  /** A line of the demand section sets that node's demand, replacing an
      earlier one. */
  lemma {:induction false} ReaderDemandLine(rd: Reader, raw: string, id: int, d: int, toFloat: string -> Option<real>)
    requires rd.section == Demands && KindOf(Strip(raw)) == DataLine
    requires Split(Strip(raw)) == [IntToString(id), IntToString(d)]
    ensures ReadLine(rd, raw, toFloat) == Ok(rd.(data := rd.data.(demands := rd.data.demands[id := d])))
  {
    IntToStringRoundTrip(id);
    IntToStringRoundTrip(d);
  }

  /** Every line of the depot section overwrites the depot with its integer,
      including a negative one. */
  lemma {:induction false} ReaderDepotLine(rd: Reader, raw: string, n: int, toFloat: string -> Option<real>)
    requires rd.section == Depot && KindOf(Strip(raw)) == DataLine && ParseInt(Strip(raw)) == Ok(n)
    ensures ReadLine(rd, raw, toFloat) == Ok(rd.(data := rd.data.(depot := Some(n))))
  {
  }

  /** So the usual "-1" terminator of the depot section ends up as the depot,
      where parse_vrp_file keeps the 1 read before it. */
  lemma {:induction false} ReaderDepotTerminator(rd: Reader, toFloat: string -> Option<real>)
    requires rd.section == Depot
    ensures ReadFrom([" 1", " -1", "EOF"], rd, toFloat) == Ok(rd.(data := rd.data.(depot := Some(-1))))
  {
    var r1 := rd.(data := rd.data.(depot := Some(1)));
    DepotSetsPlain(rd, toFloat);
    DepotSetsSigned(r1, toFloat);
    StripWord("EOF");
    var lines := [" 1", " -1", "EOF"];
    assert lines[1..] == [" -1", "EOF"];
    assert lines[1..][1..] == ["EOF"];
  }

  /** The line " 1" of the depot section sets the depot to 1. */
  lemma {:induction false} DepotSetsPlain(rd: Reader, toFloat: string -> Option<real>)
    requires rd.section == Depot
    ensures ReadLine(rd, " 1", toFloat) == Ok(rd.(data := rd.data.(depot := Some(1))))
  {
    StripWord("1");
    assert ParseInt("1") == Ok(1);
  }

  /** The line " -1" of the depot section sets the depot to -1. */
  lemma {:induction false} DepotSetsSigned(rd: Reader, toFloat: string -> Option<real>)
    requires rd.section == Depot
    ensures ReadLine(rd, " -1", toFloat) == Ok(rd.(data := rd.data.(depot := Some(-1))))
  {
    StripWord("-1");
    assert "-1"[1..] == "1";
    assert ParseInt("-1") == Ok(-1);
  }

  /** An instance read this way has no "trucks" entry, so verify_solution
      accepts a feasible solution with any number of routes. */
  lemma {:induction false} ReaderSkipsTruckCheck(data: Data, dist: Distance, solution: Solution)
    requires data.capacity.Some?
    ensures var inst := ToInstance(data).value;
      Feasible(inst, solution) <==>
        RoutesFit(inst, {}, solution) && Customers(inst.nodes) == Ok(Elements(Flatten(solution)))
    ensures var inst := ToInstance(data).value;
      VerifySpec(inst, dist, solution).Ok? && VerifySpec(inst, dist, solution).value.feasible <==>
        RoutesFit(inst, {}, solution) && Customers(inst.nodes) == Ok(Elements(Flatten(solution)))
  {
    VerifyFeasibleIff(ToInstance(data).value, dist, solution);
  }
}
