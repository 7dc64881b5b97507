/** parse_vrp_file (submissions/team2/functions.py): the CAPACITY header,
    the NODE_COORD, DEMAND and DEPOT sections of a TSPLIB-style .vrp file,
    read line by line until a line "EOF". Coordinates are integers here. */
module VrpFile {
  import opened Wrappers
  import opened Geometry
  import opened Text

  /** The `section` variable: None or one of the three section names. */
  datatype Section = NoSection | CoordSection | DemandSection | DepotSection

  /** The loop's variables. */
  datatype Scan = Scan(coords: map<int, Point>, demands: map<int, int>, capacity: int,
                       depot: Option<int>, section: Section)

  /** What parse_vrp_file returns. */
  datatype Vrp = Vrp(coords: map<int, Point>, demands: map<int, int>, capacity: int, depotCoords: Point)

  const Initial := Scan(map[], map[], 0, None, NoSection)

  /** The `if/elif` chain, in the source's order, on a stripped line. */
  datatype Kind = CapacityLine | CoordMarker | DemandMarker | DepotMarker | EofLine | DataLine

  function KindOf(line: string): Kind {
    if StartsWith(line, "CAPACITY") then CapacityLine
    else if StartsWith(line, "NODE_COORD_SECTION") then CoordMarker
    else if StartsWith(line, "DEMAND_SECTION") then DemandMarker
    else if StartsWith(line, "DEPOT_SECTION") then DepotMarker
    else if line == "EOF" then EofLine
    else DataLine
  }

  /** int(line.split(':')[1].strip()). */
  function HeaderInt(line: string): Result<int> {
    var pieces := SplitOn(line, ':');
    if |pieces| < 2 then Err(IndexError) else ParseInt(Strip(pieces[1]))
  }

  /** node_coords[int(parts[0])] = (int(parts[1]), int(parts[2])): Python
      evaluates the right-hand side before the key. */
  function CoordLine(st: Scan, line: string): Result<Scan> {
    var parts := Split(line);
    if |parts| < 2 then Err(IndexError)
    else match ParseInt(parts[1])
      case Err(e) => Err(e)
      case Ok(x) =>
        if |parts| < 3 then Err(IndexError)
        else match ParseInt(parts[2])
          case Err(e) => Err(e)
          case Ok(y) =>
            match ParseInt(parts[0])
            case Err(e) => Err(e)
            case Ok(id) => Ok(st.(coords := st.coords[id := Point(x as real, y as real)]))
  }

  /** demands[int(parts[0])] = int(parts[1]). */
  function DemandLine(st: Scan, line: string): Result<Scan> {
    var parts := Split(line);
    if |parts| < 2 then Err(IndexError)
    else match ParseInt(parts[1])
      case Err(e) => Err(e)
      case Ok(d) =>
        match ParseInt(parts[0])
        case Err(e) => Err(e)
        case Ok(id) => Ok(st.(demands := st.demands[id := d]))
  }

  /** One pass of the loop on a line other than "EOF". */
  function ReadLine(st: Scan, raw: string): Result<Scan> {
    var line := Strip(raw);
    match KindOf(line)
    case CapacityLine =>
      (match HeaderInt(line)
       case Err(e) => Err(e)
       case Ok(c) => Ok(st.(capacity := c)))
    case CoordMarker => Ok(st.(section := CoordSection))
    case DemandMarker => Ok(st.(section := DemandSection))
    case DepotMarker => Ok(st.(section := DepotSection))
    case EofLine => Ok(st)
    case DataLine =>
      match st.section
      case NoSection => Ok(st)
      case CoordSection => CoordLine(st, line)
      case DemandSection => DemandLine(st, line)
      case DepotSection =>
        if IsDigitString(line) then Ok(st.(depot := Some(ParseNat(line)))) else Ok(st)
  }

  predicate IsEof(raw: string) {
    KindOf(Strip(raw)) == EofLine
  }

  /** The `for line in lines` loop from the state st, stopping at "EOF". */
  function ScanFrom(lines: seq<string>, st: Scan): Result<Scan>
    decreases |lines|
  {
    if |lines| == 0 || IsEof(lines[0]) then Ok(st)
    else
      match ReadLine(st, lines[0])
      case Err(e) => Err(e)
      case Ok(next) => ScanFrom(lines[1..], next)
  }

  /** The check after the loop: ValueError without a depot that has
      coordinates. */
  function Finish(st: Scan): Result<Vrp> {
    if st.depot.None? || st.depot.value !in st.coords then Err(ValueError)
    else Ok(Vrp(st.coords, st.demands, st.capacity, st.coords[st.depot.value]))
  }

  function VrpSpec(lines: seq<string>): Result<Vrp> {
    match ScanFrom(lines, Initial)
    case Err(e) => Err(e)
    case Ok(st) => Finish(st)
  }

  /** parse_vrp_file over the lines of the file. */
  method ParseVrpFile(lines: seq<string>) returns (res: Result<Vrp>)
    ensures res == VrpSpec(lines)
  {
    var st := Initial;
    var i := 0;
    while i < |lines|
      invariant 0 <= i <= |lines|
      invariant ScanFrom(lines, Initial) == ScanFrom(lines[i..], st)
    {
      assert lines[i..][0] == lines[i] && lines[i..][1..] == lines[i + 1..];
      if IsEof(lines[i]) {
        break;
      }
      var next := ReadLine(st, lines[i]);
      if next.Err? {
        return Err(next.error);
      }
      st := next.value;
      i := i + 1;
    }
    assert ScanFrom(lines, Initial) == Ok(st);
    if st.depot.None? || st.depot.value !in st.coords {
      return Err(ValueError);
    }
    return Ok(Vrp(st.coords, st.demands, st.capacity, st.coords[st.depot.value]));
  }

  // ---------------------------------------------------------------------
  // Lemmas

  /** Without a depot line giving a node with coordinates the parse fails
      with ValueError; otherwise it returns the depot's coordinates. */
  lemma {:induction false} VrpDepot(lines: seq<string>)
    ensures var s := ScanFrom(lines, Initial);
      s.Ok? ==>
        (VrpSpec(lines) == Err(ValueError) <==> s.value.depot.None? || s.value.depot.value !in s.value.coords) &&
        (VrpSpec(lines).Ok? ==> VrpSpec(lines).value.depotCoords == s.value.coords[s.value.depot.value] &&
                                VrpSpec(lines).value.coords == s.value.coords)
  {
  }

  /** Nothing after the "EOF" line is read. */
  lemma {:induction false} VrpStopsAtEof(a: seq<string>, eof: string, b: seq<string>, st: Scan)
    requires IsEof(eof)
    ensures ScanFrom(a + [eof] + b, st) == ScanFrom(a + [eof], st)
    decreases |a|
  {
    if |a| == 0 {
      assert (a + [eof] + b)[0] == eof && (a + [eof])[0] == eof;
    } else {
      assert (a + [eof] + b)[0] == a[0] && (a + [eof])[0] == a[0];
      assert (a + [eof] + b)[1..] == a[1..] + [eof] + b;
      assert (a + [eof])[1..] == a[1..] + [eof];
      var r := ReadLine(st, a[0]);
      if r.Ok? {
        VrpStopsAtEof(a[1..], eof, b, r.value);
      }
    }
  }

  /** The CAPACITY header is read in every section and changes nothing else. */
  lemma {:induction false} VrpCapacityAnywhere(st: Scan, raw: string)
    requires StartsWith(Strip(raw), "CAPACITY")
    ensures var r := ReadLine(st, raw);
      r.Ok? ==> r.value == st.(capacity := r.value.capacity) && HeaderInt(Strip(raw)) == Ok(r.value.capacity)
    ensures ReadLine(st, raw).Err? <==> HeaderInt(Strip(raw)).Err?
  {
  }

  /** A line of the coordinate section sets that node's point, replacing an
      earlier one: the last line for a node wins. */
  lemma {:induction false} VrpCoordinateLine(st: Scan, raw: string, id: int, x: int, y: int)
    requires st.section == CoordSection && KindOf(Strip(raw)) == DataLine
    requires Split(Strip(raw)) == [IntToString(id), IntToString(x), IntToString(y)]
    ensures ReadLine(st, raw) == Ok(st.(coords := st.coords[id := Point(x as real, y as real)]))
    ensures ReadLine(st, raw).value.coords[id] == Point(x as real, y as real)
  {
    IntToStringRoundTrip(id);
    IntToStringRoundTrip(x);
    IntToStringRoundTrip(y);
  }

  /** Only a digit-only line of the depot section sets the depot, so a
      terminating "-1" leaves the depot read before it. */
  lemma {:induction false} VrpDepotKeepsDigits(st: Scan)
    requires st.section == DepotSection
    ensures ScanFrom([" 1", " -1", "EOF"], st) == Ok(st.(depot := Some(1)))
  {
    var s2 := st.(depot := Some(1));
    DepotDigits(st);
    DepotSigned(s2);
    StripWord("EOF");
    var lines := [" 1", " -1", "EOF"];
    assert lines[1..] == [" -1", "EOF"];
    assert lines[1..][1..] == ["EOF"];
  }

  /** The line " 1" of the depot section sets the depot to 1. */
  lemma {:induction false} DepotDigits(st: Scan)
    requires st.section == DepotSection
    ensures ReadLine(st, " 1") == Ok(st.(depot := Some(1)))
  {
    StripWord("1");
    assert ParseNat("1") == 1;
  }

  /** The line " -1" of the depot section changes nothing. */
  lemma {:induction false} DepotSigned(st: Scan)
    requires st.section == DepotSection
    ensures ReadLine(st, " -1") == Ok(st)
  {
    StripWord("-1");
    assert !IsDigitString("-1");
  }

  /** str.strip() also removes the Unicode spaces: a CAPACITY line ending in
      a no-break space is read as the number before it. */
  lemma {:induction false} VrpCapacityNoBreakSpace(st: Scan)
    ensures ReadLine(st, "CAPACITY : 100\U{00A0}") == Ok(st.(capacity := 100))
  {
    var line := "CAPACITY : 100";
    assert "CAPACITY : 100\U{00A0}" == line + ['\U{00A0}'];
    StripTrailing(line, '\U{00A0}');
    CapacityHundred();
  }

  /** The stripped line is a CAPACITY header of value 100. */
  lemma {:induction false} CapacityHundred()
    ensures KindOf("CAPACITY : 100") == CapacityLine && HeaderInt("CAPACITY : 100") == Ok(100)
  {
    var line := "CAPACITY : 100";
    assert StartsWith(line, "CAPACITY");
    assert line == "CAPACITY " + [':'] + " 100";
    SplitOnFirst("CAPACITY ", " 100", ':');
    SplitOnNone(" 100", ':');
    StripWord("100");
    Hundred();
  }

  /** Likewise a depot line "2" followed by a no-break space sets the depot. */
  lemma {:induction false} VrpDepotNoBreakSpace(st: Scan)
    requires st.section == DepotSection
    ensures ReadLine(st, "2\U{00A0}") == Ok(st.(depot := Some(2)))
  {
    assert "2\U{00A0}" == "2" + ['\U{00A0}'];
    StripTrailing("2", '\U{00A0}');
    assert ParseNat("2") == 2;
  }

  /** The digits "100" read as 100, one digit at a time. */
  lemma {:induction false} Hundred()
    ensures ParseInt("100") == Ok(100)
  {
    assert "100"[..2] == "10" && "10"[..1] == "1" && "1"[..0] == "";
    assert ParseNat("1") == 1;
    assert ParseNat("10") == 10;
    assert ParseNat("100") == 100;
  }
}
