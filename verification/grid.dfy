/** The 1-based field of the current revision: filled cells with their
    category, the pink pair map, the two endpoints and the reconstructed
    paths, with the handlers that change them. Cursor positions arrive
    already resolved to cells (or to nothing, outside the grid). */
module Grid {
  import opened Cells
  import opened Errors
  import opened Links
  import opened PairMap
  import opened Paths
  import opened Raster
  import opened NeosParser

  datatype Field = Field(
    width: nat,
    height: nat,
    filled: map<Cell, CellType>,
    pinkPairs: map<Cell, Cell>,
    start: Option<Cell>,
    end: Option<Cell>,
    paths: Option<seq<Path>>)

  /** `Field::default`: a 40 by 20 grid with nothing on it. */
  function NewField(): Field {
    Field(40, 20, map[], map[], None, None, None)
  }

  /** `contains`: the 1-based bounds check. */
  predicate Contains(f: Field, c: Cell) {
    1 <= c.x <= f.width && 1 <= c.y <= f.height
  }

  /** `is_endpoint` looks at the start cell only. */
  predicate IsEndpoint(f: Field, c: Cell) {
    f.start == Some(c)
  }

  predicate IsCellOccupied(f: Field, c: Cell) {
    c in f.filled
  }

  predicate IsGreenCell(f: Field, c: Cell) {
    c in f.filled && f.filled[c] == Green
  }

  predicate IsPinkCell(f: Field, c: Cell) {
    c in f.filled && f.filled[c] == Pink
  }

  /** Cells a cursor position resolves to have both coordinates at least
      one (`floor(..) as usize + 1`); the matcher relies on this. */
  predicate Resolved(c: Cell) {
    c.x >= 1 && c.y >= 1
  }

  /** `a` and `b` are opposite corners of a 2 by 2 block. */
  predicate Diagonal(a: Cell, b: Cell) {
    (a.x == b.x + 1 || b.x == a.x + 1) && (a.y == b.y + 1 || b.y == a.y + 1)
  }

  /** What the pair operations are meant to keep: the pair map is
      symmetric, links diagonal neighbours, and its keys are exactly the
      Pink cells. */
  ghost predicate PairsConsistent(f: Field) {
    && Symmetric(f.pinkPairs)
    && (forall c :: c in f.pinkPairs ==> Diagonal(c, f.pinkPairs[c]))
    && (forall c :: c in f.pinkPairs <==> IsPinkCell(f, c))
  }

  lemma DiagonalIsNoSelfLink(f: Field)
    requires PairsConsistent(f)
    ensures NoSelfLinks(f.pinkPairs)
  {
  }

  lemma NewFieldIsConsistent()
    ensures PairsConsistent(NewField())
  {
  }

  // ---------------------------------------------------------------------
  // The diagonal pink pair matcher.

  /** The four L-shapes in the order the source tries them, as the
      direction from the clicked cell to the opposite corner: towards the
      bottom right, the top left, the bottom left and the top right. */
  const Corners: seq<(int, int)> := [(1, 1), (-1, -1), (-1, 1), (1, -1)]

  predicate UnitDiagonal(d: (int, int)) {
    (d.0 == 1 || d.0 == -1) && (d.1 == 1 || d.1 == -1)
  }

  /** The cell `d` away from `c`. */
  function Shift(c: Cell, dx: int, dy: int): Cell
    requires c.x + dx >= 0 && c.y + dy >= 0
  {
    Cell(c.x + dx, c.y + dy)
  }

  /** The L-shape towards `d` holds at `c`: the horizontal and the vertical
      neighbour on that side are on the grid and Green, and the opposite
      corner is on the grid and free. */
  predicate LShape(f: Field, c: Cell, d: (int, int))
    requires Resolved(c) && UnitDiagonal(d)
  {
    var h := Shift(c, d.0, 0);
    var v := Shift(c, 0, d.1);
    var o := Shift(c, d.0, d.1);
    && Contains(f, h) && IsGreenCell(f, h)
    && Contains(f, v) && IsGreenCell(f, v)
    && Contains(f, o) && !IsCellOccupied(f, o)
  }

  /** The opposite corner of the L-shape towards `d`. */
  function Opposite(c: Cell, d: (int, int)): Cell
    requires Resolved(c) && UnitDiagonal(d)
  {
    Shift(c, d.0, d.1)
  }

  /** Reference search: the first of the four L-shapes, from the `k`-th
      on, that holds at `c`. */
  function FirstShape(f: Field, c: Cell, k: nat): (r: Option<nat>)
    requires Resolved(c)
    ensures r.Some? ==> (k <= r.value < 4 && LShape(f, c, Corners[r.value])
      && forall j :: k <= j < r.value ==> !LShape(f, c, Corners[j]))
    ensures r.None? ==> forall j :: k <= j < 4 ==> !LShape(f, c, Corners[j])
    decreases 4 - k
  {
    if k >= 4 then None
    else if LShape(f, c, Corners[k]) then Some(k)
    else FirstShape(f, c, k + 1)
  }

  /** `find_pink_diagonal_match`: the source's four cases written out in
      its order. Nothing for an occupied cell; a match pairs the clicked
      cell with a free, in-grid diagonal neighbour. */
  function FindPinkDiagonalMatch(f: Field, c: Cell): (r: Option<(Cell, Cell)>)
    requires Resolved(c)
    ensures IsCellOccupied(f, c) ==> r.None?
    ensures r.Some? ==> (r.value.0 == c && Diagonal(c, r.value.1)
      && Contains(f, r.value.1) && !IsCellOccupied(f, r.value.1)
      && IsGreenCell(f, Cell(r.value.1.x, c.y)) && IsGreenCell(f, Cell(c.x, r.value.1.y)))
  {
    if IsCellOccupied(f, c) then None
    else
      // Case 1: bottom-right opposite, Green right and down.
      var right := Cell(c.x + 1, c.y);
      var down := Cell(c.x, c.y + 1);
      var opposite1 := Cell(c.x + 1, c.y + 1);
      if Contains(f, right) && IsGreenCell(f, right) && Contains(f, down) && IsGreenCell(f, down)
        && Contains(f, opposite1) && !IsCellOccupied(f, opposite1)
      then
        Some((c, opposite1))
      else
        // Case 2: top-left opposite, Green left and up.
        var left := Cell(c.x - 1, c.y);
        var up := Cell(c.x, c.y - 1);
        var opposite2 := Cell(c.x - 1, c.y - 1);
        if Contains(f, left) && IsGreenCell(f, left) && Contains(f, up) && IsGreenCell(f, up)
          && Contains(f, opposite2) && !IsCellOccupied(f, opposite2)
        then
          Some((c, opposite2))
        else
          // Case 3: bottom-left opposite, Green left and down.
          var opposite3 := Cell(c.x - 1, c.y + 1);
          if Contains(f, left) && IsGreenCell(f, left) && Contains(f, down) && IsGreenCell(f, down)
            && Contains(f, opposite3) && !IsCellOccupied(f, opposite3)
          then
            Some((c, opposite3))
          else
            // Case 4: top-right opposite, Green up and right.
            var opposite4 := Cell(c.x + 1, c.y - 1);
            if Contains(f, up) && IsGreenCell(f, up) && Contains(f, right) && IsGreenCell(f, right)
              && Contains(f, opposite4) && !IsCellOccupied(f, opposite4)
            then
              Some((c, opposite4))
            else
              None
  }

  /** The matcher agrees with the reference: on a free cell it proposes
      the opposite corner of the first L-shape that holds, in the order
      bottom right, top left, bottom left, top right, and nothing when no
      L-shape holds. */
  lemma MatchIsFirstShape(f: Field, c: Cell)
    requires Resolved(c)
    ensures FindPinkDiagonalMatch(f, c) ==
      if IsCellOccupied(f, c) then None
      else match FirstShape(f, c, 0)
        case None => None
        case Some(k) => Some((c, Opposite(c, Corners[k])))
  {
    if !IsCellOccupied(f, c) {
      assert FirstShape(f, c, 0) == if LShape(f, c, Corners[0]) then Some(0) else FirstShape(f, c, 1);
      assert FirstShape(f, c, 1) == if LShape(f, c, Corners[1]) then Some(1) else FirstShape(f, c, 2);
      assert FirstShape(f, c, 2) == if LShape(f, c, Corners[2]) then Some(2) else FirstShape(f, c, 3);
      assert FirstShape(f, c, 3) == if LShape(f, c, Corners[3]) then Some(3) else None;
    }
  }

  /** Hence a match exists exactly when the cell is free and one of the
      four L-shapes holds. */
  lemma MatchExistsIffShape(f: Field, c: Cell)
    requires Resolved(c)
    ensures FindPinkDiagonalMatch(f, c).Some? <==>
      !IsCellOccupied(f, c) && exists k :: 0 <= k < 4 && LShape(f, c, Corners[k])
  {
    MatchIsFirstShape(f, c);
  }

  // ---------------------------------------------------------------------
  // Adding and removing pink pairs.

  /** `handle_add_pink_pair_constraint`: on a match, both cells become
      Pink and are linked to each other in both directions. */
  function HandleAddPinkPair(f: Field, clicked: Option<Cell>): (r: Field)
    requires clicked.Some? ==> Resolved(clicked.value)
    ensures r == f.(filled := r.filled, pinkPairs := r.pinkPairs)
    ensures clicked.None? || FindPinkDiagonalMatch(f, clicked.value).None? ==> r == f
    ensures clicked.Some? && FindPinkDiagonalMatch(f, clicked.value).Some? ==>
      var (a, b) := FindPinkDiagonalMatch(f, clicked.value).value;
      && r.filled.Keys == f.filled.Keys + {a, b}
      && IsPinkCell(r, a) && IsPinkCell(r, b)
      && r.pinkPairs.Keys == f.pinkPairs.Keys + {a, b}
      && r.pinkPairs[a] == b && r.pinkPairs[b] == a
      && (forall c :: c in f.filled && c != a && c != b ==> r.filled[c] == f.filled[c])
      && (forall c :: c in f.pinkPairs && c != a && c != b ==> r.pinkPairs[c] == f.pinkPairs[c])
  {
    match clicked
    case None => f
    case Some(c) =>
      match FindPinkDiagonalMatch(f, c)
      case None => f
      case Some((a, b)) =>
        f.(filled := f.filled[a := Pink][b := Pink], pinkPairs := AddPair(f.pinkPairs, a, b))
  }

  /** `handle_remove_pink_pair_constraint`: a Pink cell with a partner
      loses its link, its partner's link and both filled entries; any
      other click changes nothing. */
  function HandleRemovePinkPair(f: Field, clicked: Option<Cell>): (r: Field)
    ensures r == f.(filled := r.filled, pinkPairs := r.pinkPairs)
    ensures clicked.None? || !IsPinkCell(f, clicked.value) || clicked.value !in f.pinkPairs ==> r == f
    ensures clicked.Some? && IsPinkCell(f, clicked.value) && clicked.value in f.pinkPairs ==>
      var a := clicked.value;
      var b := f.pinkPairs[a];
      && r.filled.Keys == f.filled.Keys - {a, b}
      && r.pinkPairs.Keys == f.pinkPairs.Keys - {a, b}
      && (forall c :: c in r.filled ==> r.filled[c] == f.filled[c])
      && (forall c :: c in r.pinkPairs ==> r.pinkPairs[c] == f.pinkPairs[c])
  {
    match clicked
    case None => f
    case Some(c) =>
      if IsPinkCell(f, c) && c in f.pinkPairs then
        var partner := f.pinkPairs[c];
        f.(pinkPairs := RemovePair(f.pinkPairs, c), filled := f.filled - {c} - {partner})
      else f
  }

  /** Linking two free diagonal neighbours as a Pink pair keeps the pair
      invariant. */
  lemma LinkFreePairKeepsConsistent(f: Field, a: Cell, b: Cell)
    requires PairsConsistent(f)
    requires a !in f.filled && b !in f.filled && Diagonal(a, b)
    ensures PairsConsistent(f.(filled := f.filled[a := Pink][b := Pink], pinkPairs := AddPair(f.pinkPairs, a, b)))
  {
    DiagonalIsNoSelfLink(f);
    AddPairKeepsSymmetric(f.pinkPairs, a, b);
    AddPairKeepsDiagonal(f.pinkPairs, a, b);
    PaintPairKeepsKeys(f.filled, f.pinkPairs, a, b);
  }

  /** A diagonal link added to a map of diagonal links. */
  lemma AddPairKeepsDiagonal(m: map<Cell, Cell>, a: Cell, b: Cell)
    requires forall c :: c in m ==> Diagonal(c, m[c])
    requires Diagonal(a, b)
    ensures forall c :: c in AddPair(m, a, b) ==> Diagonal(c, AddPair(m, a, b)[c])
  {
  }

  /** Painting both cells Pink while linking them keeps the keys equal to
      the Pink cells. */
  lemma PaintPairKeepsKeys(filled: map<Cell, CellType>, m: map<Cell, Cell>, a: Cell, b: Cell)
    requires forall c :: c in m <==> c in filled && filled[c] == Pink
    ensures forall c :: c in AddPair(m, a, b) <==> c in filled[a := Pink][b := Pink] && filled[a := Pink][b := Pink][c] == Pink
  {
  }

  /** Adding a pair keeps the pair invariant. */
  lemma AddPinkPairKeepsConsistent(f: Field, clicked: Option<Cell>)
    requires clicked.Some? ==> Resolved(clicked.value)
    requires PairsConsistent(f)
    ensures PairsConsistent(HandleAddPinkPair(f, clicked))
  {
    if clicked.Some? && FindPinkDiagonalMatch(f, clicked.value).Some? {
      var (a, b) := FindPinkDiagonalMatch(f, clicked.value).value;
      LinkFreePairKeepsConsistent(f, a, b);
    }
  }

  /** Removing a pair keeps the pair invariant. */
  lemma RemovePinkPairKeepsConsistent(f: Field, clicked: Option<Cell>)
    requires PairsConsistent(f)
    ensures PairsConsistent(HandleRemovePinkPair(f, clicked))
  {
    if clicked.Some? && IsPinkCell(f, clicked.value) && clicked.value in f.pinkPairs {
      DiagonalIsNoSelfLink(f);
      RemovePairKeepsSymmetric(f.pinkPairs, clicked.value);
    }
  }

  /** Pair round trip: adding the pair the matcher proposes for `c` and
      then removing it again, through either of its two cells, restores
      the filled cells and the pair map exactly. */
  lemma PinkPairRoundTrip(f: Field, c: Cell)
    requires PairsConsistent(f) && Resolved(c)
    requires FindPinkDiagonalMatch(f, c).Some?
    ensures var g := HandleAddPinkPair(f, Some(c));
      && HandleRemovePinkPair(g, Some(c)) == f
      && HandleRemovePinkPair(g, Some(FindPinkDiagonalMatch(f, c).value.1)) == f
  {
    var (a, b) := FindPinkDiagonalMatch(f, c).value;
    var g := HandleAddPinkPair(f, Some(c));
    AddThenRemovePair(f.pinkPairs, a, b);
    assert g.filled - {a} - {b} == f.filled;
    assert g.filled - {b} - {a} == f.filled;
  }

  /** `unique_pink_pairs`. */
  function UniquePinkPairs(f: Field): set<(Cell, Cell)> {
    UniquePairs(f.pinkPairs)
  }

  /** Under the pair invariant the enumeration lists each physical pair
      once: half as many pairs as map entries. */
  lemma UniquePinkPairsCount(f: Field)
    requires PairsConsistent(f)
    ensures 2 * |UniquePinkPairs(f)| == |f.pinkPairs|
    ensures forall p :: p in UniquePinkPairs(f) <==>
      Le(p.0, p.1) && p.0 in f.pinkPairs && f.pinkPairs[p.0] == p.1
  {
    DiagonalIsNoSelfLink(f);
    UniquePairsCount(f.pinkPairs);
    SymmetricPairs(f.pinkPairs);
  }

  // ---------------------------------------------------------------------
  // Drawing and erasing with the rasteriser.

  /** The cells a drag from `a` to `b` touches: the rasterised segment
      less the start cell (`is_endpoint`). */
  method Touched(f: Field, a: Cell, b: Cell) returns (touched: set<Cell>, ghost trace: seq<Cell>)
    ensures Segment(trace, a, b)
    ensures forall c :: c in touched <==> c in trace && !IsEndpoint(f, c)
  {
    touched, trace := BresenhamCells(a, b, f.start);
  }

  /** `extend` with every touched cell mapped to Green: touched cells are
      Green afterwards, whatever they were; the rest keep their entry. */
  function PaintGreen(filled: map<Cell, CellType>, touched: set<Cell>): (r: map<Cell, CellType>)
    ensures r.Keys == filled.Keys + touched
    ensures forall c :: c in touched ==> r[c] == Green
    ensures forall c :: c in filled && c !in touched ==> r[c] == filled[c]
  {
    map c | c in filled.Keys + touched :: if c in touched then Green else filled[c]
  }

  /** `handle_adding_cells` as written: rasterise the segment between the
      previous and the current cursor cell and paint every touched cell
      Green. A drag that starts on a Pink cell repaints it and leaves its
      link behind, which breaks the pair invariant. */
  method HandleAddingCells(f: Field, prev: Option<Cell>, cur: Option<Cell>)
    returns (r: Field, ghost trace: seq<Cell>)
    ensures r == f.(filled := r.filled)
    ensures prev.None? || cur.None? ==> r == f
    ensures prev.Some? && cur.Some? ==>
      && Segment(trace, prev.value, cur.value)
      && (forall c :: c in r.filled <==> c in f.filled || (c in trace && !IsEndpoint(f, c)))
      && (forall c :: c in trace && !IsEndpoint(f, c) ==> r.filled[c] == Green)
      && (forall c :: c in f.filled && (c !in trace || IsEndpoint(f, c)) ==> r.filled[c] == f.filled[c])
    ensures (prev.Some? && cur.Some? && PairsConsistent(f)
      && IsPinkCell(f, prev.value) && !IsEndpoint(f, prev.value)) ==> !PairsConsistent(r)
  {
    trace := [];
    r := f;
    if prev.Some? && cur.Some? {
      var touched;
      touched, trace := Touched(f, prev.value, cur.value);
      r := f.(filled := PaintGreen(f.filled, touched));
      if PairsConsistent(f) && IsPinkCell(f, prev.value) && !IsEndpoint(f, prev.value) {
        PaintGreenBreaksPairs(f, touched, prev.value);
      }
    }
  }

  /** Painting a Pink cell Green under a consistent pair map leaves a link
      on a cell that is no longer Pink. */
  lemma PaintGreenBreaksPairs(f: Field, touched: set<Cell>, c: Cell)
    requires PairsConsistent(f) && c in touched && IsPinkCell(f, c)
    ensures !PairsConsistent(f.(filled := PaintGreen(f.filled, touched)))
  {
    var g := f.(filled := PaintGreen(f.filled, touched));
    assert c in g.pinkPairs && !IsPinkCell(g, c);
  }

  /** A consistent field holding one pink pair, on which a drag starting
      at (2,2) repaints a Pink cell. */
  function PinkExample(): Field {
    var a := Cell(2, 2);
    var b := Cell(3, 3);
    Field(40, 20, map[a := Pink, b := Pink, Cell(3, 2) := Green, Cell(2, 3) := Green],
      map[a := b, b := a], None, None, None)
  }

  lemma PinkExampleIsConsistent()
    ensures PairsConsistent(PinkExample()) && IsPinkCell(PinkExample(), Cell(2, 2))
    ensures !IsEndpoint(PinkExample(), Cell(2, 2))
  {
    var f := PinkExample();
    var a, b := Cell(2, 2), Cell(3, 3);
    assert f.pinkPairs.Keys == {a, b};
    forall c
      ensures c in f.pinkPairs <==> IsPinkCell(f, c)
    {
    }
  }

  /** The pair invariant depends on the filled cells only through which
      of them are Pink. */
  lemma SamePinkKeepsConsistent(f: Field, g: Field)
    requires PairsConsistent(f) && g == f.(filled := g.filled)
    requires forall c :: IsPinkCell(g, c) <==> IsPinkCell(f, c)
    ensures PairsConsistent(g)
  {
  }

  /** `extend` as evidently intended: touched cells become Green except
      Pink ones, which keep their category (pairs change only through the
      pair operations). */
  function PaintGreenSparingPink(filled: map<Cell, CellType>, touched: set<Cell>): (r: map<Cell, CellType>)
    ensures r.Keys == filled.Keys + touched
    ensures forall c :: c in touched && !(c in filled && filled[c] == Pink) ==> r[c] == Green
    ensures forall c :: c in filled && (c !in touched || filled[c] == Pink) ==> r[c] == filled[c]
    ensures forall c :: c in r && r[c] == Pink <==> c in filled && filled[c] == Pink
  {
    map c | c in filled.Keys + touched ::
      if c in touched && !(c in filled && filled[c] == Pink) then Green else filled[c]
  }

  /** Painting that spares Pink cells leaves the Pink cells, and so the
      pair invariant, as they were. */
  lemma SparingPinkKeepsPairs(f: Field, touched: set<Cell>)
    ensures var g := f.(filled := PaintGreenSparingPink(f.filled, touched));
      && (forall c :: IsPinkCell(g, c) <==> IsPinkCell(f, c))
      && (PairsConsistent(f) ==> PairsConsistent(g))
  {
    var g := f.(filled := PaintGreenSparingPink(f.filled, touched));
    assert forall c :: IsPinkCell(g, c) <==> IsPinkCell(f, c);
    if PairsConsistent(f) {
      SamePinkKeepsConsistent(f, g);
    }
  }

  /** Adding cells without overwriting Pink ones keeps the pair invariant. */
  method HandleAddingCellsSparingPink(f: Field, prev: Option<Cell>, cur: Option<Cell>)
    returns (r: Field, ghost trace: seq<Cell>)
    ensures r == f.(filled := r.filled)
    ensures prev.None? || cur.None? ==> r == f
    ensures prev.Some? && cur.Some? ==>
      && Segment(trace, prev.value, cur.value)
      && (forall c :: c in r.filled <==> c in f.filled || (c in trace && !IsEndpoint(f, c)))
      && (forall c :: IsPinkCell(r, c) <==> IsPinkCell(f, c))
      && (forall c :: c in trace && !IsEndpoint(f, c) && !IsPinkCell(f, c) ==> r.filled[c] == Green)
    ensures PairsConsistent(f) ==> PairsConsistent(r)
  {
    trace := [];
    r := f;
    if prev.Some? && cur.Some? {
      var touched;
      touched, trace := Touched(f, prev.value, cur.value);
      r := f.(filled := PaintGreenSparingPink(f.filled, touched));
      SparingPinkKeepsPairs(f, touched);
    }
  }

  /** `handle_removing_cells`: erase every touched cell except Pink ones. */
  method HandleRemovingCells(f: Field, prev: Option<Cell>, cur: Option<Cell>)
    returns (r: Field, ghost trace: seq<Cell>)
    ensures r == f.(filled := r.filled)
    ensures prev.None? || cur.None? ==> r == f
    ensures prev.Some? && cur.Some? ==>
      && Segment(trace, prev.value, cur.value)
      && (forall c :: c in r.filled <==>
            c in f.filled && (c !in trace || IsEndpoint(f, c) || f.filled[c] == Pink))
    ensures forall c :: c in r.filled ==> c in f.filled && r.filled[c] == f.filled[c]
    ensures forall c :: IsPinkCell(f, c) ==> IsPinkCell(r, c)
    ensures PairsConsistent(f) ==> PairsConsistent(r)
  {
    trace := [];
    r := f;
    if prev.Some? && cur.Some? {
      var touched;
      touched, trace := Touched(f, prev.value, cur.value);
      var kept := map c | c in f.filled && (c !in touched || f.filled[c] == Pink) :: f.filled[c];
      r := f.(filled := kept);
      assert forall c :: IsPinkCell(r, c) <==> IsPinkCell(f, c);
      if PairsConsistent(f) {
        SamePinkKeepsConsistent(f, r);
      }
    }
  }

  // ---------------------------------------------------------------------
  // Endpoints and paths.

  /** Endpoints sit on free cells. */
  predicate EndpointsFree(f: Field) {
    && (f.start.Some? ==> !IsCellOccupied(f, f.start.value))
    && (f.end.Some? ==> !IsCellOccupied(f, f.end.value))
  }

  /** `handle_start_cell_selection`: a click on a free cell moves the
      start there; any other click changes nothing. */
  function HandleStartCellSelection(f: Field, clicked: Option<Cell>): (r: Field)
    ensures r == f.(start := r.start)
    ensures r.start == f.start || (clicked.Some? && r.start == clicked && !IsCellOccupied(f, clicked.value))
    ensures clicked.Some? && !IsCellOccupied(f, clicked.value) ==> r.start == clicked
    ensures EndpointsFree(f) ==> EndpointsFree(r)
  {
    match clicked
    case Some(c) => if !IsCellOccupied(f, c) then f.(start := Some(c)) else f
    case None => f
  }

  /** `handle_end_cell_selection`, the same for the end cell. */
  function HandleEndCellSelection(f: Field, clicked: Option<Cell>): (r: Field)
    ensures r == f.(end := r.end)
    ensures r.end == f.end || (clicked.Some? && r.end == clicked && !IsCellOccupied(f, clicked.value))
    ensures clicked.Some? && !IsCellOccupied(f, clicked.value) ==> r.end == clicked
    ensures EndpointsFree(f) ==> EndpointsFree(r)
  {
    match clicked
    case Some(c) => if !IsCellOccupied(f, c) then f.(end := Some(c)) else f
    case None => f
  }

  /** `clear_paths`: forgets the reconstructed paths and nothing else. */
  function ClearPaths(f: Field): (r: Field)
    ensures r.paths.None? && r == f.(paths := None)
  {
    f.(paths := None)
  }

  /** `path_from_links`: the start is checked before the end; then the
      walk from start to end over the section's link map, bounded by the
      number of links plus one, becomes a path tagged `id`. */
  function PathFromLinks(f: Field, links: seq<Link>, id: nat): (r: Result<Path>)
    ensures f.start.None? ==> r == Err(StartNotSet)
    ensures f.start.Some? && f.end.None? ==> r == Err(EndNotSet)
    ensures r.Ok? ==> (f.start.Some? && f.end.Some? && r.value.id == id
      && IsWalk(LinkMap(links), f.start.value, f.end.value, r.value.cells))
    ensures r.Err? && f.start.Some? && f.end.Some? ==> r.error == InvalidPath
  {
    match f.start
    case None => Err(StartNotSet)
    case Some(s) =>
      match f.end
      case None => Err(EndNotSet)
      case Some(e) =>
        match Walk(LinkMap(links), s, e, |links| + 1)
        case Err(err) => Err(err)
        case Ok(cells) => Ok(NewPath(cells, id))
  }

  /** Stitching succeeds exactly when the links hold a walk from start to
      end; the path found is that walk, visits no cell twice, and is at
      most one cell longer than the link map. */
  lemma PathFromLinksDecides(f: Field, links: seq<Link>, id: nat)
    requires f.start.Some? && f.end.Some?
    ensures PathFromLinks(f, links, id).Ok?
        <==> exists p :: IsWalk(LinkMap(links), f.start.value, f.end.value, p)
    ensures PathFromLinks(f, links, id).Ok? ==>
      var p := PathFromLinks(f, links, id).value.cells;
      Distinct(p) && |p| <= |LinkMap(links)| + 1
  {
    BoundedWalkDecides(links, f.start.value, f.end.value);
    if PathFromLinks(f, links, id).Ok? {
      var p := PathFromLinks(f, links, id).value.cells;
      WalkIsDistinct(LinkMap(links), f.start.value, f.end.value, p);
      WalkLength(LinkMap(links), f.start.value, f.end.value, p);
    }
  }

  /** `collect` into a `Result<Vec<_>, _>`: all the values when every
      result is `Ok`, otherwise the first error. */
  function Collect<T>(rs: seq<Result<T>>): (r: Result<seq<T>>)
    ensures r.Ok? ==> |r.value| == |rs|
  {
    if |rs| == 0 then Ok([])
    else
      match rs[0]
      case Err(e) => Err(e)
      case Ok(v) =>
        match Collect(rs[1..])
        case Err(e) => Err(e)
        case Ok(vs) => Ok([v] + vs)
  }

  /** A collected success holds every value in order. */
  lemma {:induction false} CollectOk<T>(rs: seq<Result<T>>)
    requires Collect(rs).Ok?
    ensures forall i :: 0 <= i < |rs| ==> rs[i] == Ok(Collect(rs).value[i])
  {
    if |rs| > 0 {
      CollectOk(rs[1..]);
      assert forall i :: 1 <= i < |rs| ==> rs[i] == rs[1..][i - 1];
    }
  }

  /** A collected failure is the error of the first failing result. */
  lemma {:induction false} CollectFirstError<T>(rs: seq<Result<T>>)
    requires Collect(rs).Err?
    ensures exists i :: 0 <= i < |rs| && rs[i] == Err(Collect(rs).error) && forall j :: 0 <= j < i ==> rs[j].Ok?
  {
    if rs[0].Ok? {
      CollectFirstError(rs[1..]);
      var i :| 0 <= i < |rs| - 1 && rs[1..][i] == Err(Collect(rs).error)
        && forall j :: 0 <= j < i ==> rs[1..][j].Ok?;
      assert forall j :: 1 <= j < i + 1 ==> rs[j] == rs[1..][j - 1];
      assert rs[i + 1] == Err(Collect(rs).error);
    } else {
      assert rs[0] == Err(Collect(rs).error);
    }
  }

  /** Every result collected is `Ok` exactly when the collection is. */
  lemma CollectOkIffAllOk<T>(rs: seq<Result<T>>)
    ensures Collect(rs).Ok? <==> forall i :: 0 <= i < |rs| ==> rs[i].Ok?
  {
    if Collect(rs).Ok? {
      CollectOk(rs);
    } else {
      CollectFirstError(rs);
    }
  }

  /** Each section stitched with its position as id. */
  function Stitched(f: Field, sections: seq<seq<Link>>): (rs: seq<Result<Path>>)
    ensures |rs| == |sections|
    ensures forall i :: 0 <= i < |sections| ==> rs[i] == PathFromLinks(f, sections[i], i)
  {
    seq(|sections|, i requires 0 <= i < |sections| => PathFromLinks(f, sections[i], i))
  }

  /** `parse_all_paths`: a grammar failure is an invalid path; otherwise
      every section is stitched, with its 0-based position as id, and the
      paths replace the old ones only when all sections succeed. On an
      error the field stays as it was. */
  function ParseAllPaths(f: Field, output: string): (r: Result<Field>)
    ensures ParseNeosOutput(output).Error? ==> r == Err(InvalidPath)
    ensures r.Ok? ==> ParseNeosOutput(output).Done? && r.value == f.(paths := r.value.paths)
    ensures r.Ok? ==>
      var sections := ParseNeosOutput(output).value;
      && r.value.paths.Some? && |r.value.paths.value| == |sections|
      && forall i :: 0 <= i < |sections| ==>
        && r.value.paths.value[i].id == i
        && PathFromLinks(f, sections[i], i) == Ok(r.value.paths.value[i])
    ensures r.Err? && ParseNeosOutput(output).Done? ==>
      var sections := ParseNeosOutput(output).value;
      exists i :: 0 <= i < |sections| && PathFromLinks(f, sections[i], i) == Err(r.error)
    ensures ParseNeosOutput(output).Done? ==>
      var sections := ParseNeosOutput(output).value;
      r.Ok? <==> forall i :: 0 <= i < |sections| ==> PathFromLinks(f, sections[i], i).Ok?
  {
    match ParseNeosOutput(output)
    case Error => Err(InvalidPath)
    case Done(_, sections) =>
      var rs := Stitched(f, sections);
      CollectOkIffAllOk(rs);
      match Collect(rs)
      case Err(e) =>
        CollectFirstError(rs);
        Err(e)
      case Ok(ps) =>
        CollectOk(rs);
        Ok(f.(paths := Some(ps)))
  }

  /** Output without any section replaces the paths with an empty list,
      even when no endpoint is set: no section is ever stitched. */
  lemma NoSectionsNoStitching(f: Field, output: string)
    requires SkipUntilPath(output).Error?
    ensures ParseAllPaths(f, output) == Ok(f.(paths := Some([])))
  {
  }
}
