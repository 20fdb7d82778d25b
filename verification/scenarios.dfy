/** Worked examples of the whole reconstruction: solver text in, paths
    (or an error) out, on concrete fields. */
module GridScenarios {
  import opened Cells
  import opened Decimal
  import opened Errors
  import opened Links
  import opened Paths
  import opened NeosParser
  import opened Grid

  /** Text holding no '-' holds no section header. */
  lemma NoDashNoHeader(t: string)
    requires forall j :: 0 <= j < |t| ==> t[j] != '-'
    ensures SkipUntilPath(t).Error?
  {
    forall j | 0 <= j <= |t|
      ensures !(PathStartPattern <= t[j..])
    {
      if j < |t| {
        assert t[j..][0] == t[j];
      }
    }
  }

  function Example(): seq<Link> {
    [(Cell(2, 2), Cell(3, 2)), (Cell(3, 2), Cell(3, 3))]
  }

  /** The solver text of the example: a line of noise, the section
      header "--- Path 1 ---", the lines "(2,2) -> (3,2)" and
      "(3,2) -> (3,3)", and a last line of noise. */
  function ExampleText(): string {
    "noise\n" + FormatOutput([Example()], 1) + "noise"
  }

  function Endpoints(s: Cell, e: Cell): Field {
    NewField().(start := Some(s), end := Some(e))
  }

  lemma SmallNumbers()
    ensures FormatNat(1) == "1" && FormatNat(2) == "2" && FormatNat(3) == "3"
  {
  }

  /** The example's links render as the solver writes them. */
  lemma ExampleLinkText()
    ensures FormatLink(Example()[0]) == "(2,2) -> (3,2)"
    ensures FormatLink(Example()[1]) == "(3,2) -> (3,3)"
  {
    SmallNumbers();
  }

  /** Every rendered section starts with a header. */
  lemma SectionStartsWithHeader(n: nat, links: seq<Link>, t: string)
    ensures PathStartPattern <= FormatSection(n, links) + t
  {
    var rest := FormatNat(n) + PathEndPattern + "\n" + FormatLinkLines(links);
    assert FormatSection(n, links) + t == PathStartPattern + (rest + t);
  }

  /** The example text is one section, numbered 1, between two lines of
      noise; it parses to that section's two links. */
  lemma ExampleTextParses()
    ensures ParseNeosOutput(ExampleText()) == Done("noise", [Example()])
  {
    var body := FormatOutput([Example()], 1);
    assert ExampleText() == "noise\n" + (body + "noise");
    NoDashNoHeader("noise");
    ParseReadsFormatOutput([Example()], 1, "noise");
    assert body == FormatSection(1, Example()) + FormatOutput([Example()][1..], 2);
    SectionStartsWithHeader(1, Example(), "noise");
    DashFreeNoiseIgnored("noise\n", body + "noise");
  }

  /** Output holding one section stitches that section alone, as id 0. */
  lemma OneSection(f: Field, output: string, links: seq<Link>)
    requires ParseNeosOutput(output).Done? && ParseNeosOutput(output).value == [links]
    ensures ParseAllPaths(f, output) == match PathFromLinks(f, links, 0)
      case Err(e) => Err(e)
      case Ok(p) => Ok(f.(paths := Some([p])))
  {
    var r := ParseAllPaths(f, output);
    if r.Ok? {
      assert PathFromLinks(f, links, 0) == Ok(r.value.paths.value[0]);
      assert r.value.paths.value == [r.value.paths.value[0]];
    } else {
      assert PathFromLinks(f, links, 0).Err?;
    }
  }

  lemma ExampleMap()
    ensures LinkMap(Example()) == map[Cell(2, 2) := Cell(3, 2), Cell(3, 2) := Cell(3, 3)]
  {
  }

  lemma ExampleSectionStitches()
    ensures PathFromLinks(Endpoints(Cell(2, 2), Cell(3, 3)), Example(), 0)
      == Ok(Path([Cell(2, 2), Cell(3, 2), Cell(3, 3)], 0))
  {
    ExampleMap();
    var m := LinkMap(Example());
    var p := [Cell(2, 2), Cell(3, 2), Cell(3, 3)];
    assert IsWalk(m, Cell(2, 2), Cell(3, 3), p);
    WalkFindsWalk(m, Cell(2, 2), Cell(3, 3), p, 3);
  }

  lemma ExampleSectionMisses()
    ensures PathFromLinks(Endpoints(Cell(2, 2), Cell(4, 4)), Example(), 0) == Err(InvalidPath)
  {
    ExampleMap();
    var m := LinkMap(Example());
    assert Walk(m, Cell(3, 3), Cell(4, 4), 1) == Err(InvalidPath);
    assert Walk(m, Cell(3, 2), Cell(4, 4), 2) == Err(InvalidPath);
  }

  /** With start (2,2) and end (3,3) the section stitches to the path
      (2,2), (3,2), (3,3), tagged with its position 0. */
  lemma ExampleStitches()
    ensures ParseAllPaths(Endpoints(Cell(2, 2), Cell(3, 3)), ExampleText())
      == Ok(Endpoints(Cell(2, 2), Cell(3, 3)).(paths := Some([Path([Cell(2, 2), Cell(3, 2), Cell(3, 3)], 0)])))
  {
    ExampleTextParses();
    ExampleSectionStitches();
    OneSection(Endpoints(Cell(2, 2), Cell(3, 3)), ExampleText(), Example());
  }

  /** With end (4,4) the walk runs out of successors at (3,3): invalid. */
  lemma ExampleMissesOtherEnd()
    ensures ParseAllPaths(Endpoints(Cell(2, 2), Cell(4, 4)), ExampleText()) == Err(InvalidPath)
  {
    ExampleTextParses();
    ExampleSectionMisses();
    OneSection(Endpoints(Cell(2, 2), Cell(4, 4)), ExampleText(), Example());
  }

  /** A two-cell cycle that never reaches the end is reported invalid
      once the step bound is spent, instead of looping. */
  lemma CycleIsInvalid()
    ensures PathFromLinks(Endpoints(Cell(2, 2), Cell(5, 5)),
      [(Cell(2, 2), Cell(3, 2)), (Cell(3, 2), Cell(2, 2))], 0) == Err(InvalidPath)
  {
    var links := [(Cell(2, 2), Cell(3, 2)), (Cell(3, 2), Cell(2, 2))];
    PathFromLinksDecides(Endpoints(Cell(2, 2), Cell(5, 5)), links, 0);
    var m := LinkMap(links);
    assert m == map[Cell(2, 2) := Cell(3, 2), Cell(3, 2) := Cell(2, 2)];
    forall p
      ensures !IsWalk(m, Cell(2, 2), Cell(5, 5), p)
    {
      if |p| >= 1 && p[0] == Cell(2, 2) && forall i :: 0 <= i < |p| - 1 ==> p[i] in m && m[p[i]] == p[i + 1] {
        CycleStays(m, p);
      }
    }
  }

  /** Following the two-cell cycle from (2,2) only ever visits (2,2) and
      (3,2). */
  lemma CycleStays(m: map<Cell, Cell>, p: seq<Cell>)
    requires m == map[Cell(2, 2) := Cell(3, 2), Cell(3, 2) := Cell(2, 2)]
    requires |p| >= 1 && p[0] == Cell(2, 2)
    requires forall i :: 0 <= i < |p| - 1 ==> p[i] in m && m[p[i]] == p[i + 1]
    ensures p[|p| - 1] == Cell(2, 2) || p[|p| - 1] == Cell(3, 2)
  {
    var i := 0;
    while i < |p| - 1
      invariant 0 <= i < |p|
      invariant p[i] == Cell(2, 2) || p[i] == Cell(3, 2)
    {
      i := i + 1;
    }
  }

  function TwoSections(): seq<seq<Link>> {
    [Example(), [(Cell(2, 2), Cell(3, 3))]]
  }

  lemma TwoSectionsParse()
    ensures ParseNeosOutput(FormatOutput(TwoSections(), 1)) == Done("", TwoSections())
  {
    NoDashNoHeader("");
    ParseReadsFormatOutput(TwoSections(), 1, "");
    assert FormatOutput(TwoSections(), 1) + "" == FormatOutput(TwoSections(), 1);
  }

  lemma ShortcutStitches()
    ensures PathFromLinks(Endpoints(Cell(2, 2), Cell(3, 3)), [(Cell(2, 2), Cell(3, 3))], 1)
      == Ok(Path([Cell(2, 2), Cell(3, 3)], 1))
  {
    var m := LinkMap([(Cell(2, 2), Cell(3, 3))]);
    assert m == map[Cell(2, 2) := Cell(3, 3)];
    var p := [Cell(2, 2), Cell(3, 3)];
    assert IsWalk(m, Cell(2, 2), Cell(3, 3), p);
    WalkFindsWalk(m, Cell(2, 2), Cell(3, 3), p, 2);
  }

  /** Two valid sections give two paths, tagged 0 and 1, in section
      order. */
  lemma TwoSectionsTwoPaths()
    ensures ParseAllPaths(Endpoints(Cell(2, 2), Cell(3, 3)), FormatOutput(TwoSections(), 1))
      == Ok(Endpoints(Cell(2, 2), Cell(3, 3)).(paths := Some([
           Path([Cell(2, 2), Cell(3, 2), Cell(3, 3)], 0),
           Path([Cell(2, 2), Cell(3, 3)], 1)])))
  {
    TwoSectionsParse();
    ExampleSectionStitches();
    ShortcutStitches();
    TwoStitchedSections(Endpoints(Cell(2, 2), Cell(3, 3)), FormatOutput(TwoSections(), 1),
      Example(), [(Cell(2, 2), Cell(3, 3))],
      Path([Cell(2, 2), Cell(3, 2), Cell(3, 3)], 0), Path([Cell(2, 2), Cell(3, 3)], 1));
  }

  /** Output holding two sections that both stitch yields both paths, in
      section order. */
  lemma TwoStitchedSections(f: Field, output: string, l0: seq<Link>, l1: seq<Link>, p0: Path, p1: Path)
    requires ParseNeosOutput(output).Done? && ParseNeosOutput(output).value == [l0, l1]
    requires PathFromLinks(f, l0, 0) == Ok(p0) && PathFromLinks(f, l1, 1) == Ok(p1)
    ensures ParseAllPaths(f, output) == Ok(f.(paths := Some([p0, p1])))
  {
    var sections := ParseNeosOutput(output).value;
    forall i | 0 <= i < |sections| ensures PathFromLinks(f, sections[i], i).Ok? {
      assert i == 0 || i == 1;
    }
    var r := ParseAllPaths(f, output);
    var ps := r.value.paths.value;
    assert PathFromLinks(f, sections[0], 0) == Ok(ps[0]);
    assert PathFromLinks(f, sections[1], 1) == Ok(ps[1]);
    assert ps == [p0, p1];
  }
}
