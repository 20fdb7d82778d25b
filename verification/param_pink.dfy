/** The template parameters describing pink pairs: one named entry per
    pair, numbered in the order the pairs are enumerated. */
module PinkParams {
  import opened Cells
  import opened Decimal
  import opened Errors

  /** One pair's parameter: its name and the AMPL index/value list. */
  datatype PinkPairParam = PinkPairParam(name: string, values: seq<nat>)

  /** `format!("pink_pair{}", counter)`. */
  function ParamName(counter: nat): string {
    "pink_pair" + FormatNat(counter)
  }

  /** Coordinates are copied as they are, each behind its position tag:
      `[1, a.x, 2, a.y, 3, b.x, 4, b.y]`. */
  function PairValues(p: (Cell, Cell)): (v: seq<nat>)
    ensures |v| == 8
  {
    [1, p.0.x, 2, p.0.y, 3, p.1.x, 4, p.1.y]
  }

  /** Reading a value list back: the tags must be 1, 2, 3, 4 in place. */
  function DecodeValues(v: seq<nat>): (r: Option<(Cell, Cell)>)
    ensures r.Some? ==> PairValues(r.value) == v
  {
    if |v| == 8 && v[0] == 1 && v[2] == 2 && v[4] == 3 && v[6] == 4 then
      Some((Cell(v[1], v[3]), Cell(v[5], v[7])))
    else None
  }

  /** The value list determines the pair. */
  lemma DecodePairValues(p: (Cell, Cell))
    ensures DecodeValues(PairValues(p)) == Some(p)
  {
  }

  /** The loop from counter `counter` on. */
  function ParamsFrom(order: seq<(Cell, Cell)>, counter: nat): (r: seq<PinkPairParam>)
    ensures |r| == |order|
    ensures forall i :: 0 <= i < |order| ==>
      r[i].name == ParamName(counter + i) && DecodeValues(r[i].values) == Some(order[i])
    decreases |order|
  {
    if |order| == 0 then []
    else
      var head := PinkPairParam(ParamName(counter), PairValues(order[0]));
      var rest := ParamsFrom(order[1..], counter + 1);
      DecodePairValues(order[0]);
      ParamsCons(order, counter, head, rest);
      [head] + rest
  }

  /** The step of `ParamsFrom`: one more entry in front keeps the numbering. */
  lemma ParamsCons(order: seq<(Cell, Cell)>, counter: nat, head: PinkPairParam, rest: seq<PinkPairParam>)
    requires |order| > 0 && |rest| == |order| - 1
    requires head.name == ParamName(counter) && DecodeValues(head.values) == Some(order[0])
    requires forall i :: 0 <= i < |rest| ==>
      rest[i].name == ParamName(counter + 1 + i) && DecodeValues(rest[i].values) == Some(order[1..][i])
    ensures forall i :: 0 <= i < |order| ==>
      ([head] + rest)[i].name == ParamName(counter + i) && DecodeValues(([head] + rest)[i].values) == Some(order[i])
  {
    var r := [head] + rest;
    forall i | 0 <= i < |order|
      ensures r[i].name == ParamName(counter + i) && DecodeValues(r[i].values) == Some(order[i])
    {
      if i > 0 {
        assert r[i] == rest[i - 1];
        assert order[i] == order[1..][i - 1];
      }
    }
  }

  /** `PinkPairParam::new`, with the set's iteration order as a parameter:
      the counter starts at 1 and goes up by one per pair. */
  function NewParams(order: seq<(Cell, Cell)>): (r: seq<PinkPairParam>)
    ensures |r| == |order|
    ensures forall i :: 0 <= i < |order| ==>
      r[i].name == ParamName(i + 1) && DecodeValues(r[i].values) == Some(order[i])
  {
    ParamsFrom(order, 1)
  }

  /** Different counters give different names. */
  lemma ParamNameInjective(m: nat, n: nat)
    ensures ParamName(m) == ParamName(n) <==> m == n
  {
    if ParamName(m) == ParamName(n) {
      var k := |"pink_pair"|;
      assert FormatNat(m) == ParamName(m)[k..];
      assert FormatNat(n) == ParamName(n)[k..];
      FormatNatInjective(m, n);
    }
  }

  /** `order` lists every pair of `pairs` exactly once, as iterating a hash
      set does, in some unspecified order. */
  predicate Enumerates<T>(order: seq<T>, pairs: set<T>) {
    && (forall i, j :: 0 <= i < j < |order| ==> order[i] != order[j])
    && (forall i :: 0 <= i < |order| ==> order[i] in pairs)
    && (forall p :: p in pairs ==> p in order)
  }

  /** A list without repeats has as many elements as it has entries. */
  lemma {:induction false} EnumerationSize<T>(order: seq<T>, pairs: set<T>)
    requires Enumerates(order, pairs)
    ensures |order| == |pairs|
  {
    if |order| > 0 {
      var last := order[|order| - 1];
      var init := order[..|order| - 1];
      assert last !in init;
      assert Enumerates(init, pairs - {last}) by {
        forall p | p in pairs - {last} ensures p in init {
          var i :| 0 <= i < |order| && order[i] == p;
          assert i < |order| - 1;
          assert init[i] == p;
        }
      }
      EnumerationSize(init, pairs - {last});
    } else {
      assert forall p :: p !in pairs;
      assert pairs == {};
    }
  }

  /** Whatever the iteration order: one entry per pair, every pair's
      entry decodes to that pair and every entry decodes to some pair. */
  lemma NewParamsDescribesSet(pairs: set<(Cell, Cell)>, order: seq<(Cell, Cell)>)
    requires Enumerates(order, pairs)
    ensures |NewParams(order)| == |pairs|
    ensures forall p :: p in pairs ==>
      exists i :: 0 <= i < |pairs| && DecodeValues(NewParams(order)[i].values) == Some(p)
    ensures forall i :: 0 <= i < |pairs| ==>
      DecodeValues(NewParams(order)[i].values).Some? && DecodeValues(NewParams(order)[i].values).value in pairs
  {
    EnumerationSize(order, pairs);
    var r := NewParams(order);
    forall p | p in pairs
      ensures exists i :: 0 <= i < |pairs| && DecodeValues(r[i].values) == Some(p)
    {
      var i :| 0 <= i < |order| && order[i] == p;
      assert DecodeValues(r[i].values) == Some(p);
    }
  }

  /** The names are "pink_pair1" up to "pink_pairN", all distinct. */
  lemma NewParamsNames(order: seq<(Cell, Cell)>)
    ensures forall i, j :: 0 <= i < j < |order| ==> NewParams(order)[i].name != NewParams(order)[j].name
    ensures forall n :: 1 <= n <= |order| ==> exists i :: 0 <= i < |order| && NewParams(order)[i].name == ParamName(n)
  {
    var r := NewParams(order);
    forall i, j | 0 <= i < j < |order|
      ensures r[i].name != r[j].name
    {
      ParamNameInjective(i + 1, j + 1);
    }
    forall n | 1 <= n <= |order|
      ensures exists i :: 0 <= i < |order| && r[i].name == ParamName(n)
    {
      assert r[n - 1].name == ParamName(n);
    }
  }
}
