/** The earlier, single-path revision of the field: a square grid with a
    set of filled cells, and a path read line by line from the solver's
    text with a regular expression, converting its 1-based coordinates to
    0-based cells. */
module LegacyGrid {
  import opened Cells
  import opened Errors
  import opened Decimal
  import opened Links
  import opened Raster
  import opened Text
  import opened PathPattern

  // ---------------------------------------------------------------------
  // Reading one row.

  /** `usize::MAX` on a 64-bit target. */
  const UsizeMax: nat := 0xffff_ffff_ffff_ffff

  /** `str::parse::<usize>`: an optional '+', then at least one ASCII
      digit, and a value that fits. */
  function ParseUsize(s: string): (r: Option<nat>)
    ensures r.Some? ==> r.value <= UsizeMax
    ensures s == [] || s == "+" ==> r.None?
  {
    var d := if |s| > 0 && s[0] == '+' then s[1..] else s;
    if |d| >= 1 && AllDigits(d) && Value(d) <= UsizeMax then Some(Value(d)) else None
  }

  /** A digit string is read as its value exactly when that value fits. */
  lemma ParseUsizeDigits(d: string)
    requires |d| >= 1 && AllDigits(d)
    ensures ParseUsize(d).Some? <==> Value(d) <= UsizeMax
    ensures ParseUsize(d).Some? ==> ParseUsize(d).value == Value(d)
  {
  }

  /** Printing a number that fits and parsing it back gives the number. */
  lemma ParseUsizeFormat(n: nat)
    requires n <= UsizeMax
    ensures ParseUsize(FormatNat(n)) == Some(n)
    ensures ParseUsize("+" + FormatNat(n)) == Some(n)
  {
    assert ("+" + FormatNat(n))[1..] == FormatNat(n);
  }

  /** The four group names, in the order the row's coordinates are read. */
  const CoordNames: seq<string> := ["first_x", "first_y", "second_x", "second_y"]

  /** `parse_coord`: the named group as a `usize`. A name the pattern does
      not have is reported as a missing field, a number that does not fit
      by the name alone. */
  function ParseCoord(name: string, caps: Captures): (r: Result<nat>)
    ensures name !in CoordNames ==> r == Err(ParseStringError("Missing field: " + name))
    ensures r.Ok? ==> r.value <= UsizeMax
    ensures name in CoordNames && r.Err? ==> r.error == ParseStringError(name)
  {
    match Capture(caps, name)
    case None => Err(ParseStringError("Missing field: " + name))
    case Some(m) =>
      match ParseUsize(m)
      case None => Err(ParseStringError(name))
      case Some(v) => Ok(v)
  }

  /** The decimal values of the four groups, in reading order. */
  function GroupValues(caps: Captures): (vs: seq<nat>)
    requires ValidCaptures(caps)
    ensures |vs| == 4
  {
    [Value(caps.firstX), Value(caps.firstY), Value(caps.secondX), Value(caps.secondY)]
  }

  /** On the captures of a match, each coordinate is read as its decimal
      value, and fails exactly when that value exceeds `usize::MAX`. */
  lemma ParseCoordValue(caps: Captures, k: nat)
    requires ValidCaptures(caps) && k < 4
    ensures ParseCoord(CoordNames[k], caps).Ok? <==> GroupValues(caps)[k] <= UsizeMax
    ensures ParseCoord(CoordNames[k], caps).Ok? ==> ParseCoord(CoordNames[k], caps).value == GroupValues(caps)[k]
  {
  }

  /** `parse_coord` applied to the names in order, stopping at the first
      error. */
  function ReadCoords(names: seq<string>, caps: Captures): (r: Result<seq<nat>>)
    ensures r.Ok? ==> |r.value| == |names|
    ensures r.Ok? ==> forall i :: 0 <= i < |names| ==> ParseCoord(names[i], caps) == Ok(r.value[i])
    ensures r.Err? ==> exists k :: (0 <= k < |names| && ParseCoord(names[k], caps) == Err(r.error)
      && forall j :: 0 <= j < k ==> ParseCoord(names[j], caps).Ok?)
  {
    if |names| == 0 then Ok([])
    else
      match ParseCoord(names[0], caps)
      case Err(e) => Err(e)
      case Ok(v) =>
        match ReadCoords(names[1..], caps)
        case Err(e) =>
          ghost var k :| 0 <= k < |names[1..]| && ParseCoord(names[1..][k], caps) == Err(e)
            && forall j :: 0 <= j < k ==> ParseCoord(names[1..][j], caps).Ok?;
          assert ParseCoord(names[k + 1], caps) == Err(e);
          assert forall j :: 0 <= j < k + 1 ==> ParseCoord(names[j], caps).Ok? by {
            forall j | 0 < j < k + 1 ensures ParseCoord(names[j], caps).Ok? {
              assert names[j] == names[1..][j - 1];
            }
          }
          Err(e)
        case Ok(vs) =>
          assert forall i :: 1 <= i < |names| ==> names[i] == names[1..][i - 1];
          Ok([v] + vs)
  }

  /** No `- 1` of `parse_cells` is applied to a zero: each coordinate is
      made 0-based right after it is read and the first error stops the
      reading, so a zero only matters when every coordinate before it was
      read. */
  predicate NoUnderflow(names: seq<string>, caps: Captures) {
    |names| == 0 ||
      match ParseCoord(names[0], caps)
      case Err(_) => true
      case Ok(v) => v != 0 && NoUnderflow(names[1..], caps)
  }

  /** Without underflow, every coordinate read is at least 1. */
  lemma {:induction false} NoUnderflowReadsPositive(names: seq<string>, caps: Captures)
    requires NoUnderflow(names, caps) && ReadCoords(names, caps).Ok?
    ensures forall i :: 0 <= i < |names| ==> ReadCoords(names, caps).value[i] >= 1
  {
    if |names| > 0 {
      var vs := ReadCoords(names, caps).value;
      NoUnderflowReadsPositive(names[1..], caps);
      assert forall i :: 1 <= i < |names| ==> vs[i] == ReadCoords(names[1..], caps).value[i - 1];
    }
  }

  /** A row on which `parse_cells` does not underflow. */
  predicate RowSafe(row: string) {
    FindMatch(row).Some? ==> NoUnderflow(CoordNames, FindMatch(row).value.1)
  }

  /** `parse_cells`: the first match in the row, its four coordinates read
      in order and each made 0-based. A row without a match is an error
      carrying the row itself; a coordinate that does not fit is an error
      carrying its name. */
  function ParseCells(row: string): (r: Result<Link>)
    requires RowSafe(row)
    ensures FindMatch(row).None? ==> r == Err(ParseStringError(row))
  {
    match FindMatch(row)
    case None => Err(ParseStringError(row))
    case Some((_, caps)) =>
      match ReadCoords(CoordNames, caps)
      case Err(e) => Err(e)
      case Ok(vs) =>
        NoUnderflowReadsPositive(CoordNames, caps);
        Ok((New(vs[0] - 1, vs[1] - 1), New(vs[2] - 1, vs[3] - 1)))
  }

  /** Reading the four groups of a match: it succeeds exactly when every
      value fits, giving the values; otherwise it fails with the name of
      the first group that does not fit. */
  lemma ReadCoordsValues(caps: Captures)
    requires ValidCaptures(caps)
    ensures ReadCoords(CoordNames, caps).Ok? <==> forall k :: 0 <= k < 4 ==> GroupValues(caps)[k] <= UsizeMax
    ensures ReadCoords(CoordNames, caps).Ok? ==> ReadCoords(CoordNames, caps).value == GroupValues(caps)
    ensures ReadCoords(CoordNames, caps).Err? ==>
      exists k :: 0 <= k < 4 && GroupValues(caps)[k] > UsizeMax
        && ReadCoords(CoordNames, caps).error == ParseStringError(CoordNames[k])
        && (forall j :: 0 <= j < k ==> GroupValues(caps)[j] <= UsizeMax)
  {
    var vs := GroupValues(caps);
    forall k | 0 <= k < 4
      ensures ParseCoord(CoordNames[k], caps).Ok? <==> vs[k] <= UsizeMax
      ensures ParseCoord(CoordNames[k], caps).Ok? ==> ParseCoord(CoordNames[k], caps).value == vs[k]
    {
      ParseCoordValue(caps, k);
    }
    var r := ReadCoords(CoordNames, caps);
    if r.Ok? {
      assert r.value == vs;
    } else {
      var k :| 0 <= k < 4 && ParseCoord(CoordNames[k], caps) == Err(r.error)
        && forall j :: 0 <= j < k ==> ParseCoord(CoordNames[j], caps).Ok?;
      assert CoordNames[k] in CoordNames;
    }
  }

  /** On a matched row the four cells' coordinates are the decimal values
      of the groups, one less; the row fails exactly when a value exceeds
      `usize::MAX`, and then with the name of the first such group. */
  lemma ParseCellsValues(row: string)
    requires RowSafe(row) && FindMatch(row).Some?
    ensures var vs := GroupValues(FindMatch(row).value.1);
      && (ParseCells(row).Ok? <==> forall k :: 0 <= k < 4 ==> vs[k] <= UsizeMax)
      && (ParseCells(row).Ok? ==> var l := ParseCells(row).value;
            l.0.x + 1 == vs[0] && l.0.y + 1 == vs[1] && l.1.x + 1 == vs[2] && l.1.y + 1 == vs[3])
      && (ParseCells(row).Err? ==> exists k :: (0 <= k < 4 && vs[k] > UsizeMax
            && ParseCells(row) == Err(ParseStringError(CoordNames[k]))
            && forall j :: 0 <= j < k ==> vs[j] <= UsizeMax))
  {
    ReadCoordsValues(FindMatch(row).value.1);
  }

  // ---------------------------------------------------------------------
  // Writing one row, as the solver does.

  /** A link whose 1-based coordinates fit in a `usize`. */
  predicate Printable(l: Link) {
    l.0.x < UsizeMax && l.0.y < UsizeMax && l.1.x < UsizeMax && l.1.y < UsizeMax
  }

  /** The captures of a link written 1-based. */
  function RowCaptures(l: Link): (c: Captures)
    ensures ValidCaptures(c)
  {
    Captures(FormatNat(l.0.x + 1), FormatNat(l.0.y + 1), FormatNat(l.1.x + 1), FormatNat(l.1.y + 1))
  }

  /** The solver's spacing: "(x,y) -> (x,y)". */
  const SolverGaps: Gaps := Gaps("", " ", " ", "")

  function FormatRow(l: Link): string {
    Render(RowCaptures(l), SolverGaps)
  }

  lemma SolverGapsValid()
    ensures ValidGaps(SolverGaps)
  {
  }

  /** Reading names that all parse gives their values. */
  lemma {:induction false} ReadCoordsAllOk(names: seq<string>, caps: Captures, vs: seq<nat>)
    requires |vs| == |names|
    requires forall i :: 0 <= i < |names| ==> ParseCoord(names[i], caps) == Ok(vs[i])
    ensures ReadCoords(names, caps) == Ok(vs)
  {
    if |names| > 0 {
      ReadCoordsAllOk(names[1..], caps, vs[1..]);
      assert vs == [vs[0]] + vs[1..];
    }
  }

  /** Names that all parse to positive values cause no underflow. */
  lemma {:induction false} PositiveNoUnderflow(names: seq<string>, caps: Captures, vs: seq<nat>)
    requires |vs| == |names|
    requires forall i :: 0 <= i < |names| ==> ParseCoord(names[i], caps) == Ok(vs[i]) && vs[i] >= 1
    ensures NoUnderflow(names, caps)
  {
    if |names| > 0 {
      PositiveNoUnderflow(names[1..], caps, vs[1..]);
    }
  }

  /** The groups of a row written 1-based read as the link's coordinates
      plus one, with no underflow. */
  lemma RowCapturesRead(l: Link)
    requires Printable(l)
    ensures ReadCoords(CoordNames, RowCaptures(l)) == Ok(GroupValues(RowCaptures(l)))
    ensures NoUnderflow(CoordNames, RowCaptures(l))
    ensures GroupValues(RowCaptures(l)) == [l.0.x + 1, l.0.y + 1, l.1.x + 1, l.1.y + 1]
  {
    var caps := RowCaptures(l);
    var vs := GroupValues(caps);
    assert vs == [l.0.x + 1, l.0.y + 1, l.1.x + 1, l.1.y + 1];
    ReadCoordsValues(caps);
    forall k | 0 <= k < 4 ensures ParseCoord(CoordNames[k], caps) == Ok(vs[k]) && vs[k] >= 1 {
      ParseCoordValue(caps, k);
    }
    PositiveNoUnderflow(CoordNames, caps, vs);
  }

  /** Reading a row written 1-based gives back the 0-based link, whatever
      follows it on the line. */
  lemma ParseCellsReadsRow(l: Link, t: string)
    requires Printable(l)
    ensures RowSafe(FormatRow(l) + t)
    ensures ParseCells(FormatRow(l) + t) == Ok(l)
  {
    var row := FormatRow(l) + t;
    SolverGapsValid();
    FindMatchAtStart(RowCaptures(l), SolverGaps, t);
    RowCapturesRead(l);
    assert RowSafe(row);
    ParseCellsValues(row);
    var r := ParseCells(row);
    assert r.Ok? && r.value.0 == l.0 && r.value.1 == l.1;
  }

  /** A row already written 0-based, with a 0 in its first coordinate,
      would make `parse_cells` subtract 1 from 0. */
  lemma ZeroBasedRowUnderflows(l: Link, t: string)
    ensures var caps := RowCaptures(l).(firstX := FormatNat(0));
      !RowSafe(Render(caps, SolverGaps) + t)
  {
    var caps := RowCaptures(l).(firstX := FormatNat(0));
    SolverGapsValid();
    FindMatchAtStart(caps, SolverGaps, t);
    ParseCoordValue(caps, 0);
  }

  /** A first coordinate past `usize::MAX` is reported by its name. */
  lemma OverflowIsReportedByName(l: Link, t: string)
    ensures var caps := RowCaptures(l).(firstX := FormatNat(UsizeMax + 1));
      && RowSafe(Render(caps, SolverGaps) + t)
      && ParseCells(Render(caps, SolverGaps) + t) == Err(ParseStringError("first_x"))
  {
    var caps := RowCaptures(l).(firstX := FormatNat(UsizeMax + 1));
    SolverGapsValid();
    FindMatchAtStart(caps, SolverGaps, t);
    ParseCoordValue(caps, 0);
  }

  // ---------------------------------------------------------------------
  // Reading the whole text.

  /** The rows of the text: split on '\n', empty rows dropped. */
  function Rows(text: string): seq<string> {
    NonEmpty(Split(text, '\n'))
  }

  predicate AllRowsSafe(rows: seq<string>) {
    forall i :: 0 <= i < |rows| ==> RowSafe(rows[i])
  }

  /** `parse_cells` on every row. */
  function Parsed(rows: seq<string>): (r: seq<Result<Link>>)
    requires AllRowsSafe(rows)
    ensures |r| == |rows| && forall i :: 0 <= i < |rows| ==> r[i] == ParseCells(rows[i])
  {
    seq(|rows|, i requires 0 <= i < |rows| && AllRowsSafe(rows) => ParseCells(rows[i]))
  }

  /** The values of the successful results, in order
      (`filter(|x| x.is_ok())` followed by `collect`, which then never
      fails). */
  function OkValues<T>(rs: seq<Result<T>>): (r: seq<T>)
    ensures |r| <= |rs|
    ensures forall i :: 0 <= i < |rs| && rs[i].Ok? ==> rs[i].value in r
    ensures forall v :: v in r ==> exists i :: 0 <= i < |rs| && rs[i] == Ok(v)
  {
    if |rs| == 0 then []
    else
      var rest := OkValues(rs[1..]);
      assert forall i :: 1 <= i < |rs| ==> rs[i] == rs[1..][i - 1];
      match rs[0]
      case Err(_) => rest
      case Ok(v) => [v] + rest
  }

  /** An error, wherever it stands, contributes nothing. */
  lemma {:induction false} OkValuesSkipsErr<T>(before: seq<Result<T>>, e: Result<T>, after: seq<Result<T>>)
    requires e.Err?
    ensures OkValues(before + [e] + after) == OkValues(before + after)
  {
    var all := before + [e] + after;
    if |before| == 0 {
      assert all[1..] == after;
      assert before + after == after;
    } else {
      OkValuesSkipsErr(before[1..], e, after);
      assert all[1..] == before[1..] + [e] + after;
      assert (before + after)[1..] == before[1..] + after;
    }
  }

  /** When every result is a success, all values are kept, in order. */
  lemma {:induction false} OkValuesAllOk<T>(rs: seq<Result<T>>, vs: seq<T>)
    requires |rs| == |vs| && forall i :: 0 <= i < |rs| ==> rs[i] == Ok(vs[i])
    ensures OkValues(rs) == vs
  {
    if |rs| > 0 {
      OkValuesAllOk(rs[1..], vs[1..]);
      assert vs == [vs[0]] + vs[1..];
    }
  }

  /** The links of the rows that parse, in order. */
  function RowLinks(rows: seq<string>): (r: seq<Link>)
    requires AllRowsSafe(rows)
    ensures |r| <= |rows|
    ensures forall i :: 0 <= i < |rows| && ParseCells(rows[i]).Ok? ==> ParseCells(rows[i]).value in r
    ensures forall l :: l in r ==> exists i :: 0 <= i < |rows| && ParseCells(rows[i]) == Ok(l)
  {
    OkValues(Parsed(rows))
  }

  lemma SafeConcat(a: seq<string>, b: seq<string>)
    requires AllRowsSafe(a) && AllRowsSafe(b)
    ensures AllRowsSafe(a + b)
  {
    forall i | 0 <= i < |a + b| ensures RowSafe((a + b)[i]) {
      if i < |a| { assert (a + b)[i] == a[i]; } else { assert (a + b)[i] == b[i - |a|]; }
    }
  }

  /** Parsing rows one by one commutes with putting lists of rows together. */
  lemma ParsedConcat(a: seq<string>, b: seq<string>)
    requires AllRowsSafe(a) && AllRowsSafe(b)
    ensures AllRowsSafe(a + b) && Parsed(a + b) == Parsed(a) + Parsed(b)
  {
    SafeConcat(a, b);
    var l, r := Parsed(a + b), Parsed(a) + Parsed(b);
    forall i | 0 <= i < |a + b| ensures l[i] == r[i] {
      if i < |a| { assert (a + b)[i] == a[i]; } else { assert (a + b)[i] == b[i - |a|]; }
    }
  }

  /** A row that does not parse, wherever it stands, contributes nothing. */
  lemma RowLinksSkipsNoise(before: seq<string>, noise: string, after: seq<string>)
    requires AllRowsSafe(before) && RowSafe(noise) && AllRowsSafe(after)
    requires ParseCells(noise).Err?
    ensures AllRowsSafe(before + [noise] + after) && AllRowsSafe(before + after)
    ensures RowLinks(before + [noise] + after) == RowLinks(before + after)
  {
    assert AllRowsSafe([noise]);
    ParsedConcat(before, [noise]);
    ParsedConcat(before + [noise], after);
    ParsedConcat(before, after);
    assert Parsed([noise]) == [ParseCells(noise)];
    OkValuesSkipsErr(Parsed(before), ParseCells(noise), Parsed(after));
  }

  /** The solver's rows for a list of links. */
  function FormatRows(links: seq<Link>): (rows: seq<string>)
    ensures |rows| == |links|
    ensures forall i :: 0 <= i < |links| ==> rows[i] == FormatRow(links[i])
  {
    seq(|links|, i requires 0 <= i < |links| => FormatRow(links[i]))
  }

  /** Rows written from printable links are read back as those links. */
  lemma RowLinksReadsRows(links: seq<Link>)
    requires forall i :: 0 <= i < |links| ==> Printable(links[i])
    ensures AllRowsSafe(FormatRows(links))
    ensures RowLinks(FormatRows(links)) == links
  {
    var rows := FormatRows(links);
    forall i | 0 <= i < |links| ensures RowSafe(rows[i]) && ParseCells(rows[i]) == Ok(links[i]) {
      ParseCellsReadsRow(links[i], "");
      assert FormatRow(links[i]) + "" == FormatRow(links[i]);
    }
    OkValuesAllOk(Parsed(rows), links);
  }

  // ---------------------------------------------------------------------
  // The field.

  /** The grid's model data; the cell size, the cursor position of a
      drag and the drawing handles are presentation state. */
  datatype LegacyField = LegacyField(
    fieldSize: nat,
    filled: set<Cell>,
    start: Option<Cell>,
    end: Option<Cell>,
    path: Option<seq<Cell>>)

  /** `Field::default`: a 30 by 30 grid with nothing on it. */
  function NewLegacyField(): (f: LegacyField)
    ensures f.fieldSize == 30 && f.filled == {}
    ensures f.start.None? && f.end.None? && f.path.None?
  {
    LegacyField(30, {}, None, None, None)
  }

  /** `parse_path`: the start is checked before the end; the rows that
      parse become an ordered successor map (a later row with the same
      source wins), and the walk from start to end over it is the path.
      The source's loop has no bound and runs forever on a cycle; here it
      stops after |links| + 1 steps, which loses no path. */
  function ParsePath(f: LegacyField, text: string): (r: Result<LegacyField>)
    requires f.start.Some? && f.end.Some? ==> AllRowsSafe(Rows(text))
    ensures f.start.None? ==> r == Err(StartNotSet)
    ensures f.start.Some? && f.end.None? ==> r == Err(EndNotSet)
    ensures r.Ok? ==> (f.start.Some? && f.end.Some? && r.value == f.(path := r.value.path)
      && r.value.path.Some?
      && IsWalk(LinkMap(RowLinks(Rows(text))), f.start.value, f.end.value, r.value.path.value))
    ensures r.Err? && f.start.Some? && f.end.Some? ==> r.error == InvalidPath
  {
    match f.start
    case None => Err(StartNotSet)
    case Some(s) =>
      match f.end
      case None => Err(EndNotSet)
      case Some(e) =>
        var links := RowLinks(Rows(text));
        match Walk(LinkMap(links), s, e, |links| + 1)
        case Err(err) => Err(err)
        case Ok(cells) => Ok(f.(path := Some(cells)))
  }

  /** The path is found exactly when the rows hold a walk from start to
      end, and it visits no cell twice. */
  lemma ParsePathDecides(f: LegacyField, text: string)
    requires f.start.Some? && f.end.Some? && AllRowsSafe(Rows(text))
    ensures ParsePath(f, text).Ok?
        <==> exists p :: IsWalk(LinkMap(RowLinks(Rows(text))), f.start.value, f.end.value, p)
    ensures ParsePath(f, text).Ok? ==> Distinct(ParsePath(f, text).value.path.value)
  {
    var links := RowLinks(Rows(text));
    BoundedWalkDecides(links, f.start.value, f.end.value);
    if ParsePath(f, text).Ok? {
      WalkIsDistinct(LinkMap(links), f.start.value, f.end.value, ParsePath(f, text).value.path.value);
    }
  }

  lemma DigitsHoldNoNewline(d: string)
    requires AllDigits(d)
    ensures '\n' !in d
  {
    forall i | 0 <= i < |d| ensures d[i] != '\n' {
      assert IsDigit(d[i]);
    }
  }

  /** A written row is a single non-empty line. */
  lemma FormatRowIsOneLine(l: Link)
    ensures |FormatRow(l)| > 0 && '\n' !in FormatRow(l)
  {
    var c := RowCaptures(l);
    DigitsHoldNoNewline(c.firstX);
    DigitsHoldNoNewline(c.firstY);
    DigitsHoldNoNewline(c.secondX);
    DigitsHoldNoNewline(c.secondY);
  }

  /** Round trip: the solver's text for a list of links, one row per
      line, gives back the path that walking those links gives. */
  lemma ParsePathReadsRows(f: LegacyField, links: seq<Link>)
    requires |links| >= 1
    requires forall i :: 0 <= i < |links| ==> Printable(links[i])
    requires f.start.Some? && f.end.Some?
    ensures AllRowsSafe(Rows(Join(FormatRows(links), '\n')))
    ensures ParsePath(f, Join(FormatRows(links), '\n'))
      == match Walk(LinkMap(links), f.start.value, f.end.value, |links| + 1)
         case Err(e) => Err(e)
         case Ok(p) => Ok(f.(path := Some(p)))
  {
    var text := Join(FormatRows(links), '\n');
    RowsOfJoinedRows(links);
    RowLinksReadsRows(links);
    ParsePathOfLinks(f, text, links);
  }

  /** `parse_path` depends on the text only through the links it reads. */
  lemma ParsePathOfLinks(f: LegacyField, text: string, links: seq<Link>)
    requires f.start.Some? && f.end.Some?
    requires AllRowsSafe(Rows(text)) && RowLinks(Rows(text)) == links
    ensures ParsePath(f, text)
      == match Walk(LinkMap(links), f.start.value, f.end.value, |links| + 1)
         case Err(e) => Err(e)
         case Ok(p) => Ok(f.(path := Some(p)))
  {
  }

  /** Joining written rows with line breaks and splitting the text again
      gives back the rows. */
  lemma RowsOfJoinedRows(links: seq<Link>)
    requires |links| >= 1
    ensures Rows(Join(FormatRows(links), '\n')) == FormatRows(links)
  {
    var rows := FormatRows(links);
    forall i | 0 <= i < |rows| ensures '\n' !in rows[i] && |rows[i]| > 0 {
      FormatRowIsOneLine(links[i]);
    }
    SplitJoin(rows, '\n');
    NonEmptyKeepsFull(rows);
  }

  /** `is_endpoint`: in this revision only the start cell counts. */
  predicate IsEndpoint(f: LegacyField, c: Cell) {
    f.start == Some(c)
  }

  /** `handle_adding_cells`: when the drag has a previous and a current
      cell, every cell of the segment between them but the start cell
      becomes filled; nothing else changes. */
  method HandleAddingCells(f: LegacyField, prev: Option<Cell>, cur: Option<Cell>)
    returns (r: LegacyField, ghost trace: seq<Cell>)
    ensures r == f.(filled := r.filled)
    ensures prev.None? || cur.None? ==> r == f
    ensures prev.Some? && cur.Some? ==>
      && Segment(trace, prev.value, cur.value)
      && (forall c :: c in r.filled <==> c in f.filled || (c in trace && !IsEndpoint(f, c)))
    ensures f.start.Some? && f.start.value !in f.filled ==> f.start.value !in r.filled
  {
    trace := [];
    r := f;
    if prev.Some? && cur.Some? {
      var touched;
      touched, trace := BresenhamCells(prev.value, cur.value, f.start);
      r := f.(filled := f.filled + touched);
    }
  }

  /** `handle_removing_cells`: every cell of the segment but the start
      cell is cleared; nothing else changes. */
  method HandleRemovingCells(f: LegacyField, prev: Option<Cell>, cur: Option<Cell>)
    returns (r: LegacyField, ghost trace: seq<Cell>)
    ensures r == f.(filled := r.filled)
    ensures prev.None? || cur.None? ==> r == f
    ensures prev.Some? && cur.Some? ==>
      && Segment(trace, prev.value, cur.value)
      && (forall c :: c in r.filled <==> c in f.filled && (c !in trace || IsEndpoint(f, c)))
    ensures r.filled <= f.filled
  {
    trace := [];
    r := f;
    if prev.Some? && cur.Some? {
      var touched;
      touched, trace := BresenhamCells(prev.value, cur.value, f.start);
      r := f.(filled := f.filled - touched);
    }
  }

  /** Erasing along a segment undoes drawing along it on every cell the
      field did not already hold: after both, a cell is filled exactly
      when it was filled before and lies off the segment, or is the start
      cell and was filled before. */
  lemma EraseUndoesDraw(f: LegacyField, trace: seq<Cell>, drawn: LegacyField, erased: LegacyField)
    requires forall c :: c in drawn.filled <==> c in f.filled || (c in trace && !IsEndpoint(f, c))
    requires drawn.start == f.start
    requires forall c :: c in erased.filled <==> c in drawn.filled && (c !in trace || IsEndpoint(drawn, c))
    ensures forall c :: c in erased.filled <==> c in f.filled && (c !in trace || IsEndpoint(f, c))
    ensures forall c :: c !in trace ==> (c in erased.filled <==> c in f.filled)
  {
  }

  /** `handle_start_cell_selection`: a click on an unfilled cell moves the
      start there; any other click changes nothing. */
  function HandleStartCellSelection(f: LegacyField, clicked: Option<Cell>): (r: LegacyField)
    ensures r == f.(start := r.start)
    ensures r.start == f.start || (clicked.Some? && r.start == clicked && clicked.value !in f.filled)
    ensures clicked.Some? && clicked.value !in f.filled ==> r.start == clicked
  {
    match clicked
    case Some(c) => if c !in f.filled then f.(start := Some(c)) else f
    case None => f
  }

  /** `handle_end_cell_selection`, the same for the end cell. */
  function HandleEndCellSelection(f: LegacyField, clicked: Option<Cell>): (r: LegacyField)
    ensures r == f.(end := r.end)
    ensures r.end == f.end || (clicked.Some? && r.end == clicked && clicked.value !in f.filled)
    ensures clicked.Some? && clicked.value !in f.filled ==> r.end == clicked
  {
    match clicked
    case Some(c) => if c !in f.filled then f.(end := Some(c)) else f
    case None => f
  }

  /** The start cell is never filled. */
  predicate StartFree(f: LegacyField) {
    f.start.Some? ==> f.start.value !in f.filled
  }

  /** Selecting either endpoint keeps the start cell unfilled (drawing
      keeps it so by the contract of `HandleAddingCells`, erasing only
      removes cells). */
  lemma SelectionKeepsStartFree(f: LegacyField, clicked: Option<Cell>)
    requires StartFree(f)
    ensures StartFree(HandleStartCellSelection(f, clicked))
    ensures StartFree(HandleEndCellSelection(f, clicked))
  {
  }

  /** `clear_path`: forgets the path and nothing else. */
  function ClearPath(f: LegacyField): (r: LegacyField)
    ensures r.path.None? && r == f.(path := None)
  {
    f.(path := None)
  }
}
