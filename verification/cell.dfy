/** Grid cells: an unsigned coordinate pair with the derived, field-order
    (x first, then y) comparison, and the two categories of filled cells. */
module Cells {

  /** `usize` coordinates become natural numbers; a grid never gets close
      to the machine bound. */
  datatype Cell = Cell(x: nat, y: nat)

  /** Green cells are plain obstacles; Pink cells belong to a diagonal pair. */
  datatype CellType = Green | Pink

  /** `Cell::new` stores exactly the two given coordinates. */
  function New(x: nat, y: nat): (c: Cell)
    ensures c.x == x && c.y == y
    ensures forall d: Cell :: d.x == x && d.y == y ==> d == c
  {
    Cell(x, y)
  }

  /** The derived `Ord`: lexicographic on the fields in declaration order. */
  predicate Le(a: Cell, b: Cell) {
    a.x < b.x || (a.x == b.x && a.y <= b.y)
  }

  predicate Lt(a: Cell, b: Cell) {
    Le(a, b) && a != b
  }

  /** The derived order is a total order whose equality is componentwise. */
  lemma LeIsTotalOrder(a: Cell, b: Cell, c: Cell)
    ensures Le(a, a)
    ensures Le(a, b) && Le(b, a) ==> a == b
    ensures Le(a, b) && Le(b, c) ==> Le(a, c)
    ensures Le(a, b) || Le(b, a)
    ensures a == b <==> a.x == b.x && a.y == b.y
    ensures Lt(a, b) <==> a.x < b.x || (a.x == b.x && a.y < b.y)
  {
  }

  /** No cell occurs twice in `s`. */
  predicate Distinct(s: seq<Cell>) {
    forall i, j :: 0 <= i < j < |s| ==> s[i] != s[j]
  }

  /** A sequence without repeats has as many distinct cells as entries. */
  lemma {:induction false} DistinctCardinality(s: seq<Cell>)
    requires Distinct(s)
    ensures |set i | 0 <= i < |s| :: s[i]| == |s|
  {
    if |s| > 0 {
      var init := s[..|s| - 1];
      DistinctCardinality(init);
      var a := set i | 0 <= i < |init| :: init[i];
      var b := set i | 0 <= i < |s| :: s[i];
      assert b == a + {s[|s| - 1]};
      assert s[|s| - 1] !in a;
    }
  }

  lemma {:induction false} SubsetCardinality<T>(a: set<T>, b: set<T>)
    requires a <= b
    ensures |a| <= |b|
    decreases |b|
  {
    if a != {} {
      var x :| x in a;
      SubsetCardinality(a - {x}, b - {x});
    }
  }

  /** Smaller and larger of two cells under the derived order, used to
      put an unordered pair into canonical form. */
  function Min(a: Cell, b: Cell): (r: Cell)
    ensures r == a || r == b
    ensures Le(r, a) && Le(r, b)
  {
    if Le(a, b) then a else b
  }

  function Max(a: Cell, b: Cell): (r: Cell)
    ensures r == a || r == b
    ensures Le(a, r) && Le(b, r)
  {
    if Le(a, b) then b else a
  }

  /** `to_zero_indexed` takes one off each coordinate; the source's
      unsigned subtraction would underflow at 0, hence the precondition. */
  function ToZeroIndexed(c: Cell): (r: Cell)
    requires c.x >= 1 && c.y >= 1
    ensures r.x + 1 == c.x && r.y + 1 == c.y
  {
    Cell(c.x - 1, c.y - 1)
  }

  /** Shifting both coordinates down is an order embedding, so a map
      ordered by cells keeps its order after normalisation. */
  lemma ToZeroIndexedKeepsOrder(a: Cell, b: Cell)
    requires a.x >= 1 && a.y >= 1 && b.x >= 1 && b.y >= 1
    ensures Le(a, b) <==> Le(ToZeroIndexed(a), ToZeroIndexed(b))
    ensures a == b <==> ToZeroIndexed(a) == ToZeroIndexed(b)
  {
  }
}
