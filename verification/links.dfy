/** The successor map built from a section's links and the walk from the
    start cell to the end cell over it, shared by both revisions of the
    field (`path_from_links` and `parse_path` run the same loop). */
module Links {
  import opened Cells
  import opened Errors

  /** A directed edge: the path visits `.1` right after `.0`. */
  type Link = (Cell, Cell)

  /** Collecting links into an ordered map: a later link with the same
      source replaces the earlier one. */
  function LinkMap(links: seq<Link>): (m: map<Cell, Cell>)
    ensures m.Keys == set i | 0 <= i < |links| :: links[i].0
    ensures |m| <= |links|
  {
    if |links| == 0 then map[]
    else
      var prev := LinkMap(links[..|links| - 1]);
      var last := links[|links| - 1];
      assert links[..|links| - 1] + [last] == links;
      prev[last.0 := last.1]
  }

  /** The map sends each source to the target of its LAST link. */
  lemma {:induction false} LinkMapLastWins(links: seq<Link>, i: nat)
    requires i < |links|
    requires forall j :: i < j < |links| ==> links[j].0 != links[i].0
    ensures links[i].0 in LinkMap(links) && LinkMap(links)[links[i].0] == links[i].1
  {
    if i < |links| - 1 {
      var prefix := links[..|links| - 1];
      assert prefix[i] == links[i];
      forall j | i < j < |prefix|
        ensures prefix[j].0 != prefix[i].0
      {
        assert prefix[j] == links[j];
      }
      LinkMapLastWins(prefix, i);
    }
  }

  /** `p` is the walk from `s` to `e` over `m`: it starts at `s`, ends at
      `e`, every cell but the last is followed by its successor, and `e`
      is met only at the end (the loop stops there). */
  predicate IsWalk(m: map<Cell, Cell>, s: Cell, e: Cell, p: seq<Cell>) {
    && |p| >= 1 && p[0] == s && p[|p| - 1] == e
    && (forall i :: 0 <= i < |p| - 1 ==> p[i] in m && m[p[i]] == p[i + 1])
    && (forall i :: 0 <= i < |p| - 1 ==> p[i] != e)
  }

  /** The walk loop, cut off after `fuel` successor steps. A missing
      successor, like running out of fuel, is an invalid path. */
  function Walk(m: map<Cell, Cell>, cur: Cell, end: Cell, fuel: nat): (r: Result<seq<Cell>>)
    ensures r.Ok? ==> IsWalk(m, cur, end, r.value) && |r.value| <= fuel + 1
    ensures r.Err? ==> r.error == InvalidPath
    decreases fuel
  {
    if cur == end then Ok([end])
    else if fuel == 0 || cur !in m then Err(InvalidPath)
    else
      match Walk(m, m[cur], end, fuel - 1)
      case Ok(rest) => Ok([cur] + rest)
      case Err(e) => Err(e)
  }

  /** Two positions holding the same cell are followed by the same cells. */
  lemma {:induction false} SameCellSameFuture(m: map<Cell, Cell>, s: Cell, e: Cell, p: seq<Cell>, i: nat, j: nat, k: nat)
    requires IsWalk(m, s, e, p)
    requires i < j && j + k < |p|
    ensures p[i] == p[j] ==> p[i + k] == p[j + k]
  {
    if k > 0 {
      SameCellSameFuture(m, s, e, p, i, j, k - 1);
    }
  }

  /** A walk never visits a cell twice: a repeat would be a cycle, and the
      deterministic walk could then never reach `e`. */
  lemma WalkIsDistinct(m: map<Cell, Cell>, s: Cell, e: Cell, p: seq<Cell>)
    requires IsWalk(m, s, e, p)
    ensures Distinct(p)
  {
    forall i, j | 0 <= i < j < |p|
      ensures p[i] != p[j]
    {
      var k := |p| - 1 - j;
      SameCellSameFuture(m, s, e, p, i, j, k);
    }
  }

  /** Every cell of a walk but the last is a key of the map, all distinct,
      so a walk has at most |m| + 1 cells. */
  lemma WalkLength(m: map<Cell, Cell>, s: Cell, e: Cell, p: seq<Cell>)
    requires IsWalk(m, s, e, p)
    ensures |p| <= |m| + 1
  {
    WalkIsDistinct(m, s, e, p);
    var init := p[..|p| - 1];
    DistinctCardinality(init);
    var cells := set i | 0 <= i < |init| :: init[i];
    SubsetCardinality(cells, m.Keys);
  }

  /** With enough fuel the bounded walk finds every walk there is. */
  lemma {:induction false} WalkFindsWalk(m: map<Cell, Cell>, s: Cell, e: Cell, p: seq<Cell>, fuel: nat)
    requires IsWalk(m, s, e, p)
    requires |p| <= fuel + 1
    ensures Walk(m, s, e, fuel) == Ok(p)
    decreases |p|
  {
    if |p| > 1 {
      assert p[0] != e;
      assert IsWalk(m, p[1], e, p[1..]);
      WalkFindsWalk(m, p[1], e, p[1..], fuel - 1);
      assert [s] + p[1..] == p;
    } else {
      assert p == [e];
    }
  }

  /** The walk from `s` to `e`, when one exists, is unique. */
  lemma WalkIsUnique(m: map<Cell, Cell>, s: Cell, e: Cell, p: seq<Cell>, q: seq<Cell>)
    requires IsWalk(m, s, e, p) && IsWalk(m, s, e, q)
    ensures p == q
  {
    WalkLength(m, s, e, p);
    WalkLength(m, s, e, q);
    WalkFindsWalk(m, s, e, p, |m|);
    WalkFindsWalk(m, s, e, q, |m|);
  }

  /** The step bound of |links| + 1 loses nothing: the bounded walk
      succeeds exactly when some walk from `s` to `e` exists, that is,
      exactly when the unbounded loop of the source terminates with a path. */
  lemma BoundedWalkDecides(links: seq<Link>, s: Cell, e: Cell)
    ensures Walk(LinkMap(links), s, e, |links| + 1).Ok?
        <==> exists p :: IsWalk(LinkMap(links), s, e, p)
  {
    var m := LinkMap(links);
    if p :| IsWalk(m, s, e, p) {
      WalkLength(m, s, e, p);
      WalkFindsWalk(m, s, e, p, |links| + 1);
    }
  }
}
