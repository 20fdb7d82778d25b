/** The pink pair map: a cell-to-partner map that stores each diagonal
    pair in both directions, and its enumeration as unordered pairs. */
module PairMap {
  import opened Cells

  /** Every entry is mirrored: the partner of `a`'s partner is `a`. */
  predicate Symmetric(m: map<Cell, Cell>) {
    forall a :: a in m ==> m[a] in m && m[m[a]] == a
  }

  /** No cell is paired with itself. */
  predicate NoSelfLinks(m: map<Cell, Cell>) {
    forall a :: a in m ==> m[a] != a
  }

  /** The pair `{a, b}` written smaller cell first, as `unique_pink_pairs`
      writes it (`if a <= b { (a, b) } else { (b, a) }`). */
  function Canonical(a: Cell, b: Cell): (p: (Cell, Cell))
    ensures Le(p.0, p.1)
    ensures (p.0 == a && p.1 == b) || (p.0 == b && p.1 == a)
  {
    if Le(a, b) then (a, b) else (b, a)
  }

  /** `unique_pink_pairs`: every entry of the map, canonicalised. A pair
      `(p, q)` with `p <= q` is listed exactly when the map links `p` to
      `q` or `q` to `p`. */
  function UniquePairs(m: map<Cell, Cell>): (r: set<(Cell, Cell)>)
    ensures forall p :: p in r <==>
      Le(p.0, p.1) && ((p.0 in m && m[p.0] == p.1) || (p.1 in m && m[p.1] == p.0))
  {
    var r := set a | a in m :: Canonical(a, m[a]);
    assert forall p: (Cell, Cell) | Le(p.0, p.1) && p.1 in m && m[p.1] == p.0 :: p == Canonical(p.1, m[p.1]);
    r
  }

  /** On a symmetric map each listed pair is an entry read forwards. */
  lemma SymmetricPairs(m: map<Cell, Cell>)
    requires Symmetric(m)
    ensures forall p :: p in UniquePairs(m) <==> Le(p.0, p.1) && p.0 in m && m[p.0] == p.1
  {
  }

  /** The two map writes of `handle_add_pink_pair_constraint`. */
  function AddPair(m: map<Cell, Cell>, a: Cell, b: Cell): (r: map<Cell, Cell>)
    ensures r.Keys == m.Keys + {a, b}
    ensures r[a] == b && r[b] == a
    ensures forall c :: c in m && c != a && c != b ==> r[c] == m[c]
  {
    m[a := b][b := a]
  }

  /** The two map removals of `handle_remove_pink_pair_constraint`: the
      clicked cell's entry and, if there was one, its partner's. */
  function RemovePair(m: map<Cell, Cell>, a: Cell): (r: map<Cell, Cell>)
    ensures a in m ==> r.Keys == m.Keys - {a, m[a]}
    ensures a !in m ==> r == m
    ensures forall c :: c in r ==> r[c] == m[c]
  {
    if a in m then m - {a} - {m[a]} else m
  }

  /** Linking two fresh, distinct cells keeps the map symmetric and free
      of self links. */
  lemma AddPairKeepsSymmetric(m: map<Cell, Cell>, a: Cell, b: Cell)
    requires Symmetric(m) && NoSelfLinks(m)
    requires a !in m && b !in m && a != b
    ensures Symmetric(AddPair(m, a, b)) && NoSelfLinks(AddPair(m, a, b))
  {
    var r := AddPair(m, a, b);
    forall c | c in r
      ensures r[c] in r && r[r[c]] == c && r[c] != c
    {
      if c != a && c != b {
        assert m[c] != a && m[c] != b;
      }
    }
  }

  /** Unlinking a cell together with its partner keeps the map symmetric
      and free of self links. */
  lemma RemovePairKeepsSymmetric(m: map<Cell, Cell>, a: Cell)
    requires Symmetric(m) && NoSelfLinks(m)
    ensures Symmetric(RemovePair(m, a)) && NoSelfLinks(RemovePair(m, a))
  {
    var r := RemovePair(m, a);
    if a in m {
      forall c | c in r
        ensures r[c] in r && r[r[c]] == c
      {
        assert m[m[c]] == c && m[m[a]] == a;
      }
    }
  }

  /** Pair round trip: linking two fresh cells and unlinking either of
      them gives back the map unchanged. */
  lemma AddThenRemovePair(m: map<Cell, Cell>, a: Cell, b: Cell)
    requires a !in m && b !in m && a != b
    ensures RemovePair(AddPair(m, a, b), a) == m
    ensures RemovePair(AddPair(m, a, b), b) == m
  {
    assert RemovePair(AddPair(m, a, b), a).Keys == m.Keys;
    assert RemovePair(AddPair(m, a, b), b).Keys == m.Keys;
  }

  /** Taking one pair out of a symmetric map drops exactly that pair from
      the enumeration. */
  lemma RemovePairDropsOnePair(m: map<Cell, Cell>, a: Cell)
    requires Symmetric(m) && NoSelfLinks(m) && a in m
    ensures UniquePairs(m) == UniquePairs(RemovePair(m, a)) + {Canonical(a, m[a])}
    ensures Canonical(a, m[a]) !in UniquePairs(RemovePair(m, a))
  {
    var r := RemovePair(m, a);
    RemovePairKeepsSymmetric(m, a);
    SymmetricPairs(m);
    SymmetricPairs(r);
    var b := m[a];
    forall p
      ensures p in UniquePairs(m) <==> p in UniquePairs(r) || p == Canonical(a, b)
    {
      if p == Canonical(a, b) {
        LeIsTotalOrder(a, b, a);
      }
    }
  }

  /** A symmetric map without self links stores every pair twice, so it
      enumerates to half as many pairs as it has entries. */
  lemma {:induction false} UniquePairsCount(m: map<Cell, Cell>)
    requires Symmetric(m) && NoSelfLinks(m)
    ensures 2 * |UniquePairs(m)| == |m|
    decreases |m|
  {
    if m != map[] {
      var a :| a in m;
      var r := RemovePair(m, a);
      RemovePairKeepsSymmetric(m, a);
      RemovePairDropsOnePair(m, a);
      assert |r.Keys| == |m.Keys| - 2;
      UniquePairsCount(r);
    } else {
      assert UniquePairs(m) == {};
    }
  }

  /** Linking two fresh cells adds exactly their pair to the enumeration. */
  lemma AddPairAddsOnePair(m: map<Cell, Cell>, a: Cell, b: Cell)
    requires Symmetric(m) && NoSelfLinks(m)
    requires a !in m && b !in m && a != b
    ensures UniquePairs(AddPair(m, a, b)) == UniquePairs(m) + {Canonical(a, b)}
    ensures |UniquePairs(AddPair(m, a, b))| == |UniquePairs(m)| + 1
  {
    AddPairKeepsSymmetric(m, a, b);
    AddThenRemovePair(m, a, b);
    RemovePairDropsOnePair(AddPair(m, a, b), a);
  }
}
