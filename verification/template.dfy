/** The values computed from the field before the solver's problem text is
    rendered: the endpoint guards, the raw sizes and coordinates, the pink
    pair range and parameters, the optional turn cost and the list of
    disabled nodes. The renderer itself is a parameter. */
module TemplateContext {
  import opened Cells
  import opened Decimal
  import opened Errors
  import opened Text
  import opened NeosParser
  import opened Grid
  import opened PinkParams

  newtype U32 = x: int | 0 <= x < 0x1_0000_0000

  /** The problem templates; only the turn-cost one carries a value. */
  datatype Template =
    | Default
    | Eight
    | Disabled
    | Multiple
    | MultipleSections
    | MultipleSeparated
    | CornerCutting
    | TurnCost(cost: U32)
    | Pink

  /** `Template::variants`: every kind once, the turn-cost one with 0. */
  const Variants: seq<Template> := [Default, Eight, Disabled, Multiple, MultipleSections,
    MultipleSeparated, CornerCutting, TurnCost(0), Template.Pink]

  /** Which of the nine kinds a template is. */
  function Kind(t: Template): (k: nat)
    ensures k < 9
  {
    match t
    case Default => 0
    case Eight => 1
    case Disabled => 2
    case Multiple => 3
    case MultipleSections => 4
    case MultipleSeparated => 5
    case CornerCutting => 6
    case TurnCost(_) => 7
    case Pink => 8
  }

  /** The list of variants holds every kind of template exactly once. */
  lemma VariantsListEachKindOnce(t: Template)
    ensures |Variants| == 9
    ensures exists i :: 0 <= i < |Variants| && Kind(Variants[i]) == Kind(t)
    ensures forall i, j :: 0 <= i < j < |Variants| ==> Kind(Variants[i]) != Kind(Variants[j])
  {
    assert Kind(Variants[Kind(t)]) == Kind(t);
  }

  /** What the templates are rendered from. Sizes and coordinates are
      passed as stored, without any shift. */
  datatype Context = Context(
    width: nat, height: nat,
    startX: nat, startY: nat, endX: nat, endY: nat,
    pinkPairRange: seq<nat>,
    pinkPairs: seq<PinkPairParam>,
    turnCost: Option<U32>,
    disabledNodes: string)

  /** `(1..=pink_pair_map.len() / 2).collect()`. */
  function PinkPairRange(f: Field): (r: seq<nat>)
    ensures |r| == |f.pinkPairs| / 2
    ensures forall i :: 0 <= i < |r| ==> r[i] == i + 1
  {
    seq(|f.pinkPairs| / 2, i => i + 1)
  }

  /** Under the pair invariant the range counts exactly the pairs that
      `unique_pink_pairs` lists. */
  lemma PinkPairRangeCountsPairs(f: Field)
    requires PairsConsistent(f)
    ensures |PinkPairRange(f)| == |UniquePinkPairs(f)|
  {
    UniquePinkPairsCount(f);
  }

  /** The filled cells that are not Pink, in the given iteration order of
      the filled map. */
  function DisabledCells(f: Field, order: seq<Cell>): (r: seq<Cell>)
    requires forall i :: 0 <= i < |order| ==> order[i] in f.filled
    ensures forall c :: c in r <==> c in order && f.filled[c] != CellType.Pink
    ensures |r| <= |order|
  {
    if |order| == 0 then []
    else
      var rest := DisabledCells(f, order[1..]);
      if f.filled[order[0]] != CellType.Pink then [order[0]] + rest else rest
  }

  /** A subsequence of a list without repeats has none. */
  lemma {:induction false} DisabledCellsDistinct(f: Field, order: seq<Cell>)
    requires forall i :: 0 <= i < |order| ==> order[i] in f.filled
    requires Distinct(order)
    ensures Distinct(DisabledCells(f, order))
  {
    if |order| > 0 {
      DisabledCellsDistinct(f, order[1..]);
      assert order[0] !in order[1..];
    }
  }

  /** Each node as "(x,y)", in the order given. */
  function Tokens(cells: seq<Cell>): (r: seq<string>)
    ensures |r| == |cells|
    ensures forall i :: 0 <= i < |cells| ==> r[i] == FormatCell(cells[i])
  {
    seq(|cells|, i requires 0 <= i < |cells| => FormatCell(cells[i]))
  }

  /** `join(" ")`: the empty list gives the empty text. */
  function JoinWithSpaces(parts: seq<string>): string {
    if |parts| == 0 then "" else Join(parts, ' ')
  }

  /** `disabled_nodes`: the non-Pink filled cells as "(x,y)", separated by
      single spaces. */
  function DisabledNodes(f: Field, order: seq<Cell>): string
    requires forall i :: 0 <= i < |order| ==> order[i] in f.filled
  {
    JoinWithSpaces(Tokens(DisabledCells(f, order)))
  }

  lemma DigitsHoldNoSpace(d: string)
    requires AllDigits(d)
    ensures ' ' !in d
  {
    forall i | 0 <= i < |d| ensures d[i] != ' ' {
      assert IsDigit(d[i]);
    }
  }

  /** A node token is one non-empty word. */
  lemma FormatCellIsOneWord(c: Cell)
    ensures |FormatCell(c)| > 0 && ' ' !in FormatCell(c)
  {
    DigitsHoldNoSpace(FormatNat(c.x));
    DigitsHoldNoSpace(FormatNat(c.y));
  }

  /** A digit run followed by a non-digit splits only one way. */
  lemma DigitsThenRest(d1: string, t1: string, d2: string, t2: string)
    requires AllDigits(d1) && AllDigits(d2)
    requires |t1| > 0 && !IsDigit(t1[0]) && |t2| > 0 && !IsDigit(t2[0])
    requires d1 + t1 == d2 + t2
    ensures d1 == d2 && t1 == t2
  {
    DigitRunStopsAtNonDigit(d1, t1);
    DigitRunStopsAtNonDigit(d2, t2);
  }

  /** Different cells give different tokens. */
  lemma FormatCellInjective(a: Cell, b: Cell)
    ensures FormatCell(a) == FormatCell(b) <==> a == b
  {
    if FormatCell(a) == FormatCell(b) {
      var ax, ay, cx, cy := FormatNat(a.x), FormatNat(a.y), FormatNat(b.x), FormatNat(b.y);
      var u1, u2 := "," + (ay + ")"), "," + (cy + ")");
      assert FormatCell(a) == "(" + (ax + u1);
      assert FormatCell(b) == "(" + (cx + u2);
      assert ax + u1 == cx + u2 by {
        assert ax + u1 == FormatCell(a)[1..];
        assert cx + u2 == FormatCell(b)[1..];
      }
      DigitsThenRest(ax, u1, cx, u2);
      assert ay + ")" == u1[1..] && cy + ")" == u2[1..];
      DigitsThenRest(ay, ")", cy, ")");
      FormatNatInjective(a.x, b.x);
      FormatNatInjective(a.y, b.y);
    }
  }

  /** Splitting the list on spaces gives back one token per non-Pink
      filled cell, each such cell exactly once, and no token of a Pink
      cell. */
  lemma DisabledNodesListsGreenCells(f: Field, order: seq<Cell>)
    requires Enumerates(order, f.filled.Keys)
    ensures var cells := DisabledCells(f, order);
      && Distinct(cells)
      && (forall c :: c in cells <==> c in f.filled && f.filled[c] == Green)
      && (|cells| == 0 ==> DisabledNodes(f, order) == "")
      && (|cells| > 0 ==> Split(DisabledNodes(f, order), ' ') == Tokens(cells))
    ensures forall c :: c in f.filled && f.filled[c] == CellType.Pink ==>
      FormatCell(c) !in Tokens(DisabledCells(f, order))
  {
    var cells := DisabledCells(f, order);
    assert Distinct(order);
    DisabledCellsDistinct(f, order);
    var tokens := Tokens(cells);
    if |cells| > 0 {
      forall i | 0 <= i < |tokens| ensures ' ' !in tokens[i] {
        FormatCellIsOneWord(cells[i]);
      }
      SplitJoin(tokens, ' ');
    }
    forall c | c in f.filled && f.filled[c] == CellType.Pink
      ensures FormatCell(c) !in tokens
    {
      forall i | 0 <= i < |tokens| ensures tokens[i] != FormatCell(c) {
        FormatCellInjective(cells[i], c);
      }
    }
  }

  /** The context of `generate_neos_input_string`, up to the render: the
      start is checked before the end. The pair set and the filled map are
      hash containers, so their iteration orders are parameters. */
  function BuildContext(t: Template, f: Field, pairOrder: seq<(Cell, Cell)>, cellOrder: seq<Cell>): (r: Result<Context>)
    requires Enumerates(pairOrder, UniquePinkPairs(f)) && Enumerates(cellOrder, f.filled.Keys)
    ensures f.start.None? ==> r == Err(StartNotSet)
    ensures f.start.Some? && f.end.None? ==> r == Err(EndNotSet)
    ensures f.start.Some? && f.end.Some? ==> r.Ok?
    ensures r.Ok? ==> var c := r.value;
      && c.width == f.width && c.height == f.height
      && Cell(c.startX, c.startY) == f.start.value && Cell(c.endX, c.endY) == f.end.value
      && (c.turnCost.Some? <==> t.TurnCost?)
      && (t.TurnCost? ==> c.turnCost == Some(t.cost))
      && |c.pinkPairs| == |UniquePinkPairs(f)|
      && |c.pinkPairRange| == |f.pinkPairs| / 2
      && c.pinkPairRange == PinkPairRange(f)
      && c.pinkPairs == NewParams(pairOrder)
      && c.disabledNodes == DisabledNodes(f, cellOrder)
  {
    EnumerationSize(pairOrder, UniquePinkPairs(f));
    match f.start
    case None => Err(StartNotSet)
    case Some(s) =>
      match f.end
      case None => Err(EndNotSet)
      case Some(e) =>
        Ok(Context(f.width, f.height, s.x, s.y, e.x, e.y,
          PinkPairRange(f), NewParams(pairOrder),
          if t.TurnCost? then Some(t.cost) else None,
          DisabledNodes(f, cellOrder)))
  }

  /** `generate_neos_input_string` up to the problem text: the context,
      then the render (a parameter; a failure becomes FailedRenderFile). */
  function GenerateInput(t: Template, f: Field, pairOrder: seq<(Cell, Cell)>, cellOrder: seq<Cell>,
                         render: (Template, Context) -> Option<string>): (r: Result<string>)
    requires Enumerates(pairOrder, UniquePinkPairs(f)) && Enumerates(cellOrder, f.filled.Keys)
    ensures f.start.None? ==> r == Err(StartNotSet)
    ensures f.start.Some? && f.end.None? ==> r == Err(EndNotSet)
    ensures f.start.Some? && f.end.Some? ==>
      && (r.Ok? <==> render(t, BuildContext(t, f, pairOrder, cellOrder).value).Some?)
      && (r.Err? ==> r.error == FailedRenderFile)
  {
    match BuildContext(t, f, pairOrder, cellOrder)
    case Err(e) => Err(e)
    case Ok(ctx) =>
      match render(t, ctx)
      case None => Err(FailedRenderFile)
      case Some(code) => Ok(code)
  }

  /** Under the pair invariant, the range and the parameters describe the
      same pairs: one range entry and one named parameter per pair, each
      pair of the field decoded from some parameter, and parameter `i`
      named after range entry `i`. */
  lemma RangeMatchesParams(f: Field, pairOrder: seq<(Cell, Cell)>)
    requires Enumerates(pairOrder, UniquePinkPairs(f)) && PairsConsistent(f)
    ensures |PinkPairRange(f)| == |NewParams(pairOrder)|
    ensures forall p :: p in UniquePinkPairs(f) ==>
      exists i :: 0 <= i < |NewParams(pairOrder)| && DecodeValues(NewParams(pairOrder)[i].values) == Some(p)
    ensures forall i :: 0 <= i < |NewParams(pairOrder)| ==>
      NewParams(pairOrder)[i].name == ParamName(PinkPairRange(f)[i])
  {
    PinkPairRangeCountsPairs(f);
    NewParamsDescribesSet(UniquePinkPairs(f), pairOrder);
  }

  /** What a built context tells the template about the field, under the
      pair invariant: the range is 1..=pairs and parameter `i` is named
      after range entry `i`; every pair of the field is decoded from some
      parameter; the disabled nodes are exactly the Green cells, one token
      each, and no Pink cell. */
  lemma ContextDescribesField(t: Template, f: Field, pairOrder: seq<(Cell, Cell)>, cellOrder: seq<Cell>)
    requires Enumerates(pairOrder, UniquePinkPairs(f)) && Enumerates(cellOrder, f.filled.Keys)
    requires PairsConsistent(f)
    requires BuildContext(t, f, pairOrder, cellOrder).Ok?
    ensures var c := BuildContext(t, f, pairOrder, cellOrder).value;
      && |c.pinkPairs| == |c.pinkPairRange| == |UniquePinkPairs(f)|
      && (forall i :: 0 <= i < |c.pinkPairRange| ==> c.pinkPairRange[i] == i + 1)
      && (forall i :: 0 <= i < |c.pinkPairs| ==> c.pinkPairs[i].name == ParamName(c.pinkPairRange[i]))
      && (forall p :: p in UniquePinkPairs(f) ==>
            exists i :: 0 <= i < |c.pinkPairs| && DecodeValues(c.pinkPairs[i].values) == Some(p))
    ensures var c := BuildContext(t, f, pairOrder, cellOrder).value;
      var cells := DisabledCells(f, cellOrder);
      && (forall x :: x in cells <==> x in f.filled && f.filled[x] == Green)
      && (|cells| == 0 ==> c.disabledNodes == "")
      && (|cells| > 0 ==> Split(c.disabledNodes, ' ') == Tokens(cells))
      && (forall x :: x in f.filled && f.filled[x] == CellType.Pink ==> FormatCell(x) !in Tokens(cells))
  {
    PinkPairRangeCountsPairs(f);
    RangeMatchesParams(f, pairOrder);
    DisabledNodesListsGreenCells(f, cellOrder);
  }
}
