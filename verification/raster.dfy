/** Integer Bresenham rasterisation of a drag segment between two grid
    cells, shared verbatim by both revisions of the field. */
module Raster {
  import opened Cells
  import opened Errors

  function Abs(v: int): nat {
    if v < 0 then -v else v
  }

  /** `c` lies in the axis-aligned box spanned by `a` and `b`. */
  predicate InBox(c: Cell, a: Cell, b: Cell) {
    && (a.x <= c.x <= b.x || b.x <= c.x <= a.x)
    && (a.y <= c.y <= b.y || b.y <= c.y <= a.y)
  }

  /** `q` is one of the eight neighbours of `p`: x and/or y moved by one. */
  predicate KingStep(p: Cell, q: Cell) {
    p != q && Abs(q.x - p.x) <= 1 && Abs(q.y - p.y) <= 1
  }

  /** Number of axis steps `c` lies away from `origin`. */
  function Progress(c: Cell, origin: Cell): nat {
    Abs(c.x - origin.x) + Abs(c.y - origin.y)
  }

  /** `k` copies of `a` added up: the product `a * k`, written so that the
      error-term bookkeeping stays linear. */
  function Times(a: int, k: nat): int {
    if k == 0 then 0 else Times(a, k - 1) + a
  }

  lemma {:induction false} TimesSuccLeft(a: int, k: nat)
    ensures Times(a + 1, k) == Times(a, k) + k
  {
    if k > 0 {
      TimesSuccLeft(a, k - 1);
    }
  }

  lemma {:induction false} TimesZeroLeft(k: nat)
    ensures Times(0, k) == 0
  {
    if k > 0 {
      TimesZeroLeft(k - 1);
    }
  }

  lemma {:induction false} TimesCommutes(a: nat, k: nat)
    ensures Times(a, k) == Times(k, a)
  {
    if k > 0 {
      TimesCommutes(a, k - 1);
      TimesSuccLeft(k - 1, a);
    } else {
      TimesZeroLeft(a);
    }
  }

  lemma {:induction false} TimesMonotone(a: nat, p: nat, q: nat)
    requires p <= q
    ensures Times(a, p) <= Times(a, q)
  {
    if p < q {
      TimesMonotone(a, p, q - 1);
    }
  }

  /** Once x has reached its target (and y has not), the error term is at
      most `dy`, so the x branch cannot fire. */
  lemma ErrorOnceXDone(a: nat, b: nat, ky: nat)
    requires ky < b
    ensures a - b + Times(a, ky) - Times(b, a) <= -(b as int)
  {
    TimesMonotone(a, ky, b - 1);
    TimesCommutes(a, b);
  }

  /** Once y has reached its target (and x has not), the error term is at
      least `dx`, so the y branch cannot fire. */
  lemma ErrorOnceYDone(a: nat, b: nat, kx: nat)
    requires kx < a
    ensures a - b + Times(a, b) - Times(b, kx) >= a
  {
    TimesMonotone(b, kx, a - 1);
    TimesCommutes(a, b);
  }

  /** One round of the error-term update: with the error term tied to the
      step counts, a round moves along at least one axis and never past the
      target on either. */
  lemma RoundStaysInRange(a: nat, b: nat, kx: nat, ky: nat, err: int)
    requires kx <= a && ky <= b && (kx != a || ky != b)
    requires err == a - b + Times(a, ky) - Times(b, kx)
    ensures 2 * err + b >= 0 || 2 * err <= a
    ensures 2 * err + b >= 0 ==> kx < a
    ensures 2 * err <= a ==> ky < b
  {
    if kx == a {
      ErrorOnceXDone(a, b, ky);
    }
    if ky == b {
      ErrorOnceYDone(a, b, kx);
    }
  }

  /** A trace whose distance from the origin grows at every step never
      revisits a cell. */
  lemma IncreasingIsDistinct(trace: seq<Cell>, origin: Cell)
    requires forall i :: 0 < i < |trace| ==> Progress(trace[i - 1], origin) < Progress(trace[i], origin)
    ensures Distinct(trace)
  {
    forall i, j | 0 <= i < j < |trace|
      ensures Progress(trace[i], origin) < Progress(trace[j], origin)
    {
      IncreasingBetween(trace, origin, i, j);
    }
  }

  lemma {:induction false} IncreasingBetween(trace: seq<Cell>, origin: Cell, i: nat, j: nat)
    requires forall k :: 0 < k < |trace| ==> Progress(trace[k - 1], origin) < Progress(trace[k], origin)
    requires i < j < |trace|
    ensures Progress(trace[i], origin) < Progress(trace[j], origin)
    decreases j - i
  {
    if i + 1 < j {
      IncreasingBetween(trace, origin, i + 1, j);
    }
  }

  /** Position on one axis after `k` steps from `f` towards `t`. */
  function AxisAt(f: nat, t: nat, k: nat): int {
    if f < t then f + k else f - k
  }

  /** An axis has arrived exactly when all its steps are taken. */
  lemma AxisAtEnd(f: nat, t: nat, k: nat)
    requires k <= Abs(t - f)
    ensures AxisAt(f, t, k) == t <==> k == Abs(t - f)
  {
  }

  /** Stepping one axis by the source's sign (`sx` or `sy`) when `step`
      holds: the new position counts the step and stays between `f` and `t`. */
  lemma AxisStep(f: nat, t: nat, k: nat, step: bool)
    requires k <= Abs(t - f) && (step ==> k < Abs(t - f))
    ensures var k' := if step then k + 1 else k;
      && AxisAt(f, t, k) + (if step then (if f < t then 1 else -1) else 0) == AxisAt(f, t, k')
      && (f <= AxisAt(f, t, k') <= t || t <= AxisAt(f, t, k') <= f)
      && Abs(AxisAt(f, t, k') - f) == k'
  {
  }

  /** Where one round moves the walker: a neighbouring cell inside the box,
      one step farther from `from` per stepped axis. */
  lemma RoundGeometry(from: Cell, to: Cell, kx: nat, ky: nat, stepX: bool, stepY: bool)
    requires kx <= Abs(to.x - from.x) && (stepX ==> kx < Abs(to.x - from.x))
    requires ky <= Abs(to.y - from.y) && (stepY ==> ky < Abs(to.y - from.y))
    requires stepX || stepY
    ensures var kx', ky' := (if stepX then kx + 1 else kx), (if stepY then ky + 1 else ky);
      var p := Cell(AxisAt(from.x, to.x, kx), AxisAt(from.y, to.y, ky));
      var q := Cell(AxisAt(from.x, to.x, kx'), AxisAt(from.y, to.y, ky'));
      && InBox(q, from, to) && KingStep(p, q) && Progress(q, from) == kx' + ky'
  {
    AxisStep(from.x, to.x, kx, stepX);
    AxisStep(from.y, to.y, ky, stepY);
    AxisStep(from.x, to.x, kx, false);
    AxisStep(from.y, to.y, ky, false);
  }

  /** The walker's position and error term as functions of the number of
      x steps `kx` and y steps `ky` taken so far. */
  ghost predicate Tracks(from: Cell, to: Cell, x: int, y: int, err: int, kx: nat, ky: nat) {
    var a := Abs(to.x - from.x);
    var b := Abs(to.y - from.y);
    && kx <= a && ky <= b
    && x == AxisAt(from.x, to.x, kx)
    && y == AxisAt(from.y, to.y, ky)
    && err == a - b + Times(a, ky) - Times(b, kx)
  }

  /** The error term keeps the longer axis stepping every round: with
      `a >= b` the x test always passes, with `a <= b` the y test does. */
  predicate Dominant(a: nat, b: nat, err: int) {
    (a >= b ==> 2 * err + b >= 0) && (a <= b ==> 2 * err <= a)
  }

  /** One round keeps the error term `Dominant` and steps the longer axis. */
  lemma DominantKept(a: nat, b: nat, err: int)
    requires Dominant(a, b, err)
    ensures var e2 := 2 * err;
      && (a >= b ==> e2 >= -(b as int))
      && (a <= b ==> e2 <= a)
      && Dominant(a, b, err - (if e2 >= -(b as int) then b else 0) + (if e2 <= a then a else 0))
  {
  }

  /** The error-term update of one round, in terms of the step counts. */
  lemma ErrorStep(a: nat, b: nat, err: int, kx: nat, ky: nat, stepX: bool, stepY: bool)
    requires err == a - b + Times(a, ky) - Times(b, kx)
    ensures var kx', ky' := (if stepX then kx + 1 else kx), (if stepY then ky + 1 else ky);
      err - (if stepX then b else 0) + (if stepY then a else 0) == a - b + Times(a, ky') - Times(b, kx')
  {
  }

  /** One round of the loop body of `bresenham_cells`: compare twice the
      error term with `dy` and with `dx` independently and step each axis
      whose test passes. */
  method Round(from: Cell, to: Cell, x: int, y: int, err: int, ghost kx: nat, ghost ky: nat)
    returns (x': nat, y': nat, err': int, ghost kx': nat, ghost ky': nat)
    requires Tracks(from, to, x, y, err, kx, ky)
    requires Dominant(Abs(to.x - from.x), Abs(to.y - from.y), err)
    requires x != to.x || y != to.y
    ensures Tracks(from, to, x', y', err', kx', ky')
    ensures Dominant(Abs(to.x - from.x), Abs(to.y - from.y), err')
    ensures Abs(to.x - from.x) >= Abs(to.y - from.y) ==> kx' == kx + 1
    ensures Abs(to.x - from.x) <= Abs(to.y - from.y) ==> ky' == ky + 1
    ensures kx + ky < kx' + ky'
    ensures InBox(Cell(x', y'), from, to)
    ensures x >= 0 && y >= 0 && KingStep(Cell(x, y), Cell(x', y'))
    ensures Progress(Cell(x', y'), from) == kx' + ky'
  {
    var a := Abs(to.x - from.x);
    var b := Abs(to.y - from.y);
    var dx: int := a;
    var dy: int := -(b as int);
    var sx: int := if from.x < to.x then 1 else -1;
    var sy: int := if from.y < to.y then 1 else -1;
    RoundStaysInRange(a, b, kx, ky, err);
    DominantKept(a, b, err);
    var e2 := 2 * err;
    var stepX := e2 >= dy;
    var stepY := e2 <= dx;
    kx' := if stepX then kx + 1 else kx;
    ky' := if stepY then ky + 1 else ky;
    ErrorStep(a, b, err, kx, ky, stepX, stepY);
    AxisStep(from.x, to.x, kx, stepX);
    AxisStep(from.y, to.y, ky, stepY);
    RoundGeometry(from, to, kx, ky, stepX, stepY);
    // `err += dy; x += sx` when the first test passes, `err += dx; y += sy`
    // when the second does.
    err' := err + (if stepX then dy else 0) + (if stepY then dx else 0);
    x' := x + (if stepX then sx else 0);
    y' := y + (if stepY then sy else 0);
  }

  /** The visited cells so far: they start at `from`, stay in the box,
      move to a neighbour each round and get farther from `from` each time. */
  ghost predicate GoodTrace(trace: seq<Cell>, from: Cell, to: Cell) {
    && |trace| >= 1 && trace[0] == from
    && (forall i :: 0 <= i < |trace| ==> InBox(trace[i], from, to))
    && (forall i :: 0 < i < |trace| ==> KingStep(trace[i - 1], trace[i]))
    && (forall i :: 0 < i < |trace| ==> Progress(trace[i - 1], from) < Progress(trace[i], from))
  }

  lemma ExtendTrace(trace: seq<Cell>, from: Cell, to: Cell, cur: Cell)
    requires GoodTrace(trace, from, to)
    requires InBox(cur, from, to) && KingStep(trace[|trace| - 1], cur)
    requires Progress(trace[|trace| - 1], from) < Progress(cur, from)
    ensures GoodTrace(trace + [cur], from, to)
  {
  }

  /** The collected set is the visited cells less the marker. */
  lemma RemoveMarkerCardinality(trace: seq<Cell>, cells: set<Cell>, marker: Option<Cell>)
    requires forall c :: c in cells <==> c in trace && marker != Some(c)
    ensures var visited := set i | 0 <= i < |trace| :: trace[i];
      |cells| == |visited| - (if marker.Some? && marker.value in trace then 1 else 0)
  {
    var visited := set i | 0 <= i < |trace| :: trace[i];
    if marker.Some? && marker.value in trace {
      assert cells == visited - {marker.value};
    } else {
      assert cells == visited;
    }
  }

  /** A finished trace visits no cell twice, so the collected set has one
      element per visited cell, less the marker. */
  lemma FinishedTrace(trace: seq<Cell>, from: Cell, to: Cell, cells: set<Cell>, marker: Option<Cell>)
    requires GoodTrace(trace, from, to)
    requires forall c :: c in cells <==> c in trace && marker != Some(c)
    ensures Distinct(trace)
    ensures |cells| == |trace| - (if marker.Some? && marker.value in trace then 1 else 0)
  {
    IncreasingIsDistinct(trace, from);
    DistinctCardinality(trace);
    RemoveMarkerCardinality(trace, cells, marker);
  }

  /** What holds at the top of each round of `bresenham_cells`: the walker
      stands at the trace's last cell, `kx`/`ky` steps from `from`, with the
      collected set equal to the visited cells less the marker. */
  ghost predicate Walking(from: Cell, to: Cell, marker: Option<Cell>, x: int, y: int, err: int,
                          kx: nat, ky: nat, cells: set<Cell>, trace: seq<Cell>) {
    var a, b := Abs(to.x - from.x), Abs(to.y - from.y);
    && Tracks(from, to, x, y, err, kx, ky)
    && GoodTrace(trace, from, to) && trace[|trace| - 1] == Cell(x, y)
    && Progress(Cell(x, y), from) == kx + ky
    && Dominant(a, b, err)
    && (a >= b ==> kx == |trace| - 1)
    && (a <= b ==> ky == |trace| - 1)
    && (forall c :: c in cells <==> c in trace && marker != Some(c))
  }

  /** One round together with the bookkeeping of the visited cells. */
  method Step(from: Cell, to: Cell, marker: Option<Cell>, x: int, y: int, err: int,
              ghost kx: nat, ghost ky: nat, cells: set<Cell>, ghost trace: seq<Cell>)
    returns (x': nat, y': nat, err': int, ghost kx': nat, ghost ky': nat, cells': set<Cell>, ghost trace': seq<Cell>)
    requires Walking(from, to, marker, x, y, err, kx, ky, cells, trace)
    requires x != to.x || y != to.y
    ensures Walking(from, to, marker, x', y', err', kx', ky', cells', trace')
    ensures kx + ky < kx' + ky'
  {
    x', y', err', kx', ky' := Round(from, to, x, y, err, kx, ky);
    var cur := Cell(x', y');
    ExtendTrace(trace, from, to, cur);
    cells' := if marker != Some(cur) then cells + {cur} else cells;
    trace' := trace + [cur];
  }

  /** The loop of `bresenham_cells`: rounds until the walker stands on
      `to`, starting from `from` with error term `dx - dy` and with `from`
      collected unless it is the marker. */
  method RunToEnd(from: Cell, to: Cell, marker: Option<Cell>)
    returns (x: nat, y: nat, err: int, ghost kx: nat, ghost ky: nat, cells: set<Cell>, ghost trace: seq<Cell>)
    ensures Walking(from, to, marker, x, y, err, kx, ky, cells, trace)
    ensures x == to.x && y == to.y
  {
    var a := Abs(to.x - from.x);
    var b := Abs(to.y - from.y);
    err := a as int - b;
    x, y := from.x, from.y;
    cells := if marker == Some(from) then {} else {from};
    trace := [from];
    kx, ky := 0, 0;
    while x != to.x || y != to.y
      invariant Walking(from, to, marker, x, y, err, kx, ky, cells, trace)
      decreases Abs(to.x - from.x) - kx + Abs(to.y - from.y) - ky
    {
      x, y, err, kx, ky, cells, trace := Step(from, to, marker, x, y, err, kx, ky, cells, trace);
    }
  }

  /** `bresenham_cells`: walks from `from` to `to`, stepping x and/or y by
      one each round, and collects every visited cell except the one equal
      to `marker` (the field's start cell). `trace` is the visited sequence. */
  method BresenhamCells(from: Cell, to: Cell, marker: Option<Cell>)
    returns (cells: set<Cell>, ghost trace: seq<Cell>)
    ensures |trace| >= 1 && trace[0] == from && trace[|trace| - 1] == to
    ensures forall i :: 0 <= i < |trace| ==> InBox(trace[i], from, to)
    ensures forall i :: 0 < i < |trace| ==> KingStep(trace[i - 1], trace[i])
    ensures Distinct(trace)
    ensures var a, b := Abs(to.x - from.x), Abs(to.y - from.y);
      |trace| == (if a >= b then a else b) + 1
    ensures forall c :: c in cells <==> c in trace && marker != Some(c)
    ensures |cells| == |trace| - (if marker.Some? && marker.value in trace then 1 else 0)
    ensures marker != Some(from) ==> from in cells
    ensures marker != Some(to) ==> to in cells
    ensures marker.Some? ==> marker.value !in cells
    ensures forall c :: c in cells ==> InBox(c, from, to)
    ensures var a, b := Abs(to.x - from.x), Abs(to.y - from.y);
      && (if a >= b then a else b) <= |cells| <= (if a >= b then a else b) + 1
      && (marker.None? ==> |cells| == (if a >= b then a else b) + 1)
  {
    var x, y, err;
    ghost var kx, ky;
    x, y, err, kx, ky, cells, trace := RunToEnd(from, to, marker);
    FinishBresenham(from, to, marker, x, y, err, kx, ky, cells, trace);
    CollectedCells(from, to, marker, cells, trace);
  }

  /** What the visited cells say about the collected set alone: both ends
      are in it unless they are the marker, the marker never is, and it has
      one element per round give or take the marker. */
  lemma CollectedCells(from: Cell, to: Cell, marker: Option<Cell>, cells: set<Cell>, trace: seq<Cell>)
    requires |trace| >= 1 && trace[0] == from && trace[|trace| - 1] == to
    requires forall i :: 0 <= i < |trace| ==> InBox(trace[i], from, to)
    requires var a, b := Abs(to.x - from.x), Abs(to.y - from.y);
      |trace| == (if a >= b then a else b) + 1
    requires forall c :: c in cells <==> c in trace && marker != Some(c)
    requires |cells| == |trace| - (if marker.Some? && marker.value in trace then 1 else 0)
    ensures marker != Some(from) ==> from in cells
    ensures marker != Some(to) ==> to in cells
    ensures marker.Some? ==> marker.value !in cells
    ensures forall c :: c in cells ==> InBox(c, from, to)
    ensures var a, b := Abs(to.x - from.x), Abs(to.y - from.y);
      && (if a >= b then a else b) <= |cells| <= (if a >= b then a else b) + 1
      && (marker.None? ==> |cells| == (if a >= b then a else b) + 1)
  {
    forall c | c in cells ensures InBox(c, from, to) {
      var i :| 0 <= i < |trace| && trace[i] == c;
    }
  }

  /** The loop's facts once the walker stands on `to`, turned into the
      method's promises. */
  lemma FinishBresenham(from: Cell, to: Cell, marker: Option<Cell>, x: int, y: int, err: int,
                        kx: nat, ky: nat, cells: set<Cell>, trace: seq<Cell>)
    requires Walking(from, to, marker, x, y, err, kx, ky, cells, trace)
    requires x == to.x && y == to.y
    ensures |trace| >= 1 && trace[0] == from && trace[|trace| - 1] == to
    ensures forall i :: 0 <= i < |trace| ==> InBox(trace[i], from, to)
    ensures forall i :: 0 < i < |trace| ==> KingStep(trace[i - 1], trace[i])
    ensures Distinct(trace)
    ensures var a, b := Abs(to.x - from.x), Abs(to.y - from.y);
      |trace| == (if a >= b then a else b) + 1
    ensures |cells| == |trace| - (if marker.Some? && marker.value in trace then 1 else 0)
  {
    AxisAtEnd(from.x, to.x, kx);
    AxisAtEnd(from.y, to.y, ky);
    FinishedTrace(trace, from, to, cells, marker);
  }

  /** `trace` is a rasterised segment from `a` to `b`. */
  ghost predicate Segment(trace: seq<Cell>, a: Cell, b: Cell) {
    && |trace| >= 1 && trace[0] == a && trace[|trace| - 1] == b
    && (forall i :: 0 <= i < |trace| ==> InBox(trace[i], a, b))
    && (forall i :: 0 < i < |trace| ==> KingStep(trace[i - 1], trace[i]))
  }
}
