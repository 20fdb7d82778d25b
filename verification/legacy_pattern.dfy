/** The link-line regular expression of the earlier revision,
    `\((?P<first_x>\d+),\s*(?P<first_y>\d+)\)\s*->\s*\((?P<second_x>\d+),\s*(?P<second_y>\d+)\)`,
    as a recogniser. Every `\d+` in it is followed by ',' or ')' and every
    `\s*` by a digit, '-' or '(', none of which the repeated class
    matches, so at a given start the greedy runs are the only ones that
    can complete a match: the recogniser reads them left to right without
    backtracking. */
module PathPattern {
  import opened Errors
  import opened Decimal

  /** `\s` with Unicode enabled: the White_Space property. */
  predicate IsSpace(c: char) {
    || ('\t' <= c <= '\r') || c == ' ' || c == '\U{85}' || c == '\U{A0}' || c == '\U{1680}'
    || ('\U{2000}' <= c <= '\U{200A}') || c == '\U{2028}' || c == '\U{2029}'
    || c == '\U{202F}' || c == '\U{205F}' || c == '\U{3000}'
  }

  predicate AllSpace(s: string) {
    forall i :: 0 <= i < |s| ==> IsSpace(s[i])
  }

  /** Length of the run of whitespace at the front of `s`. */
  function SpaceRun(s: string): (n: nat)
    ensures n <= |s| && AllSpace(s[..n])
    ensures n < |s| ==> !IsSpace(s[n])
  {
    if |s| > 0 && IsSpace(s[0]) then 1 + SpaceRun(s[1..]) else 0
  }

  /** `\s*`: the whitespace stepped over and what is left after it. */
  function Skipped(s: string): (w: string)
    ensures AllSpace(w)
  {
    s[..SpaceRun(s)]
  }

  function SkipSpaces(s: string): (r: string)
    ensures s == Skipped(s) + r
    ensures r == [] || !IsSpace(r[0])
  {
    s[SpaceRun(s)..]
  }

  /** A literal character. */
  function Char(s: string, c: char): (r: Option<string>)
    ensures r.Some? <==> |s| > 0 && s[0] == c
    ensures r.Some? ==> r.value == s[1..]
  {
    if |s| > 0 && s[0] == c then Some(s[1..]) else None
  }

  /** `\d+` (ASCII digits): the maximal run, and what follows it. */
  function Digits(s: string): (r: Option<(string, string)>)
    ensures r.None? <==> s == [] || !IsDigit(s[0])
    ensures r.Some? ==> |r.value.0| >= 1 && AllDigits(r.value.0) && s == r.value.0 + r.value.1
    ensures r.Some? ==> r.value.1 == [] || !IsDigit(r.value.1[0])
  {
    var n := DigitRun(s);
    if n == 0 then None
    else
      assert s == s[..n] + s[n..];
      Some((s[..n], s[n..]))
  }

  /** The four named groups of one match. */
  datatype Captures = Captures(firstX: string, firstY: string, secondX: string, secondY: string)

  /** A literal character read is that character in front of the rest. */
  lemma CharShape(s: string, c: char, r: string)
    requires Char(s, c) == Some(r)
    ensures s == [c] + r
  {
    assert s == [s[0]] + s[1..];
  }

  lemma Glue(s: string, s1: string, x: string, s2: string, s3: string, w: string, y: string, s4: string, s5: string)
    requires s == "(" + s1 && s1 == x + s2 && s2 == "," + s3
    requires s3 == w + (y + s4) && s4 == ")" + s5
    ensures s == "(" + x + "," + w + y + ")" + s5
  {
  }

  /** Step facts of `Coords` put back together. */
  lemma CoordsShape(s: string, s1: string, x: string, s2: string, s3: string, y: string, s4: string, s5: string)
    requires Char(s, '(') == Some(s1) && Digits(s1) == Some((x, s2))
    requires Char(s2, ',') == Some(s3) && Digits(SkipSpaces(s3)) == Some((y, s4))
    requires Char(s4, ')') == Some(s5)
    ensures s == "(" + x + "," + Skipped(s3) + y + ")" + s5
  {
    CharShape(s, '(', s1);
    CharShape(s2, ',', s3);
    CharShape(s4, ')', s5);
    Glue(s, s1, x, s2, s3, Skipped(s3), y, s4, s5);
  }

  /** `\(\d+,\s*\d+\)`: the two numbers, the whitespace between them and
      what follows. */
  function Coords(s: string): (r: Option<(string, string, string, string)>)
    ensures r.Some? ==> var (x, w, y, rest) := r.value;
      && |x| >= 1 && AllDigits(x) && AllSpace(w) && |y| >= 1 && AllDigits(y)
      && s == "(" + x + "," + w + y + ")" + rest
  {
    match Char(s, '(')
    case None => None
    case Some(s1) =>
      match Digits(s1)
      case None => None
      case Some((x, s2)) =>
        match Char(s2, ',')
        case None => None
        case Some(s3) =>
          match Digits(SkipSpaces(s3))
          case None => None
          case Some((y, s4)) =>
            match Char(s4, ')')
            case None => None
            case Some(s5) =>
              CoordsShape(s, s1, x, s2, s3, y, s4, s5);
              Some((x, Skipped(s3), y, s5))
  }

  /** `\s*->\s*`: the whitespace on both sides and what follows. */
  function Arrow(s: string): (r: Option<(string, string, string)>)
    ensures r.Some? ==> var (w1, w2, rest) := r.value;
      AllSpace(w1) && AllSpace(w2) && s == w1 + "->" + w2 + rest
  {
    var s1 := SkipSpaces(s);
    if |s1| >= 2 && s1[0] == '-' && s1[1] == '>' then
      var s2 := s1[2..];
      assert s1 == "->" + s2;
      ArrowShape(s, Skipped(s), s1, s2, Skipped(s2), SkipSpaces(s2));
      Some((Skipped(s), Skipped(s2), SkipSpaces(s2)))
    else None
  }

  /** Step facts of `Arrow` put back together. */
  lemma ArrowShape(s: string, w1: string, s1: string, s2: string, w2: string, rest: string)
    requires s == w1 + s1 && s1 == "->" + s2 && s2 == w2 + rest
    ensures s == w1 + "->" + w2 + rest
  {
  }

  /** The pattern matched at the very start of `s`: the captures and the
      text after the match. */
  function MatchAt(s: string): Option<(Captures, string)> {
    match Coords(s)
    case None => None
    case Some((a, _, b, s1)) =>
      match Arrow(s1)
      case None => None
      case Some((_, _, s2)) =>
        match Coords(s2)
        case None => None
        case Some((c, _, d, s3)) => Some((Captures(a, b, c, d), s3))
  }

  // ---------------------------------------------------------------------
  // What a match looks like, independently of how it is found.

  /** The whitespace the four `\s*` consumed. */
  datatype Gaps = Gaps(afterFirstComma: string, beforeArrow: string, afterArrow: string, afterSecondComma: string)

  predicate ValidCaptures(c: Captures) {
    && |c.firstX| >= 1 && AllDigits(c.firstX) && |c.firstY| >= 1 && AllDigits(c.firstY)
    && |c.secondX| >= 1 && AllDigits(c.secondX) && |c.secondY| >= 1 && AllDigits(c.secondY)
  }

  predicate ValidGaps(g: Gaps) {
    AllSpace(g.afterFirstComma) && AllSpace(g.beforeArrow)
    && AllSpace(g.afterArrow) && AllSpace(g.afterSecondComma)
  }

  /** The text of a match with captures `c` and gaps `g`. */
  function Render(c: Captures, g: Gaps): string {
    "(" + c.firstX + "," + g.afterFirstComma + c.firstY + ")"
      + g.beforeArrow + "->" + g.afterArrow
      + "(" + c.secondX + "," + g.afterSecondComma + c.secondY + ")"
  }

  // ---------------------------------------------------------------------
  // The recogniser reads exactly the rendered matches.

  lemma {:induction false} SkipSpacesReads(w: string, t: string)
    requires AllSpace(w) && (t == [] || !IsSpace(t[0]))
    ensures SkipSpaces(w + t) == t && Skipped(w + t) == w
  {
    if |w| > 0 {
      assert (w + t)[1..] == w[1..] + t;
      SkipSpacesReads(w[1..], t);
    } else {
      assert w + t == t;
    }
  }

  lemma DigitsReads(d: string, t: string)
    requires |d| >= 1 && AllDigits(d) && (t == [] || !IsDigit(t[0]))
    ensures Digits(d + t) == Some((d, t))
  {
    DigitRunStopsAtNonDigit(d, t);
  }

  /** A `\s*` in front of a digit, '-' or '(' stops right there. */
  lemma NotSpace(c: char)
    requires IsDigit(c) || c == '(' || c == '-'
    ensures !IsSpace(c)
  {
  }

  lemma CoordsPieces(s: string, s1: string, x: string, s2: string, s3: string, y: string, s4: string, s5: string)
    requires Char(s, '(') == Some(s1) && Digits(s1) == Some((x, s2))
    requires Char(s2, ',') == Some(s3) && Digits(SkipSpaces(s3)) == Some((y, s4))
    requires Char(s4, ')') == Some(s5)
    ensures Coords(s) == Some((x, Skipped(s3), y, s5))
  {
  }

  lemma CoordsReads(x: string, w: string, y: string, t: string)
    requires |x| >= 1 && AllDigits(x) && |y| >= 1 && AllDigits(y) && AllSpace(w)
    ensures Coords("(" + x + "," + w + y + ")" + t) == Some((x, w, y, t))
  {
    var s := "(" + x + "," + w + y + ")" + t;
    var s1 := x + ("," + (w + (y + (")" + t))));
    var s3 := w + (y + (")" + t));
    var s4 := ")" + t;
    assert s == "(" + s1;
    assert Char(s, '(') == Some(s1);
    DigitsReads(x, "," + s3);
    assert Char("," + s3, ',') == Some(s3);
    NotSpace(y[0]);
    SkipSpacesReads(w, y + s4);
    DigitsReads(y, s4);
    CoordsPieces(s, s1, x, "," + s3, s3, y, s4, t);
  }

  lemma ArrowReads(w1: string, w2: string, t: string)
    requires AllSpace(w1) && AllSpace(w2) && |t| >= 1 && t[0] == '('
    ensures Arrow(w1 + "->" + w2 + t) == Some((w1, w2, t))
  {
    NotSpace('-');
    NotSpace('(');
    var u := "->" + (w2 + t);
    assert w1 + "->" + w2 + t == w1 + u;
    SkipSpacesReads(w1, u);
    assert u[2..] == w2 + t;
    SkipSpacesReads(w2, t);
  }

  lemma MatchAtPieces(s: string, a: string, w1: string, b: string, s1: string,
                      w2: string, w3: string, s2: string, c: string, w4: string, d: string, s3: string)
    requires Coords(s) == Some((a, w1, b, s1)) && Arrow(s1) == Some((w2, w3, s2))
    requires Coords(s2) == Some((c, w4, d, s3))
    ensures MatchAt(s) == Some((Captures(a, b, c, d), s3))
  {
  }

  /** Completeness: a rendered match, followed by anything, is recognised
      with exactly its captures and the rest left over. In particular the
      captures and the extent of a match at a given start are unique. */
  lemma MatchAtReads(c: Captures, g: Gaps, t: string)
    requires ValidCaptures(c) && ValidGaps(g)
    ensures MatchAt(Render(c, g) + t) == Some((c, t))
  {
    var second := "(" + c.secondX + "," + g.afterSecondComma + c.secondY + ")" + t;
    var middle := g.beforeArrow + "->" + g.afterArrow + second;
    var s := Render(c, g) + t;
    assert s == "(" + c.firstX + "," + g.afterFirstComma + c.firstY + ")" + middle;
    CoordsReads(c.firstX, g.afterFirstComma, c.firstY, middle);
    ArrowReads(g.beforeArrow, g.afterArrow, second);
    CoordsReads(c.secondX, g.afterSecondComma, c.secondY, t);
    MatchAtPieces(s, c.firstX, g.afterFirstComma, c.firstY, middle,
      g.beforeArrow, g.afterArrow, second, c.secondX, g.afterSecondComma, c.secondY, t);
  }

  lemma RenderShape(s: string, a: string, w1: string, b: string, s1: string,
                    w2: string, w3: string, s2: string, c: string, w4: string, d: string, s3: string)
    requires s == "(" + a + "," + w1 + b + ")" + s1 && s1 == w2 + "->" + w3 + s2
    requires s2 == "(" + c + "," + w4 + d + ")" + s3
    ensures s == Render(Captures(a, b, c, d), Gaps(w1, w2, w3, w4)) + s3
  {
  }

  /** Soundness: whatever is recognised is a rendered match followed by
      the rest. */
  lemma MatchAtSound(s: string)
    requires MatchAt(s).Some?
    ensures ValidCaptures(MatchAt(s).value.0)
    ensures exists g :: ValidGaps(g) && s == Render(MatchAt(s).value.0, g) + MatchAt(s).value.1
  {
    var (a, w1, b, s1) := Coords(s).value;
    var (w2, w3, s2) := Arrow(s1).value;
    var (c, w4, d, s3) := Coords(s2).value;
    var g := Gaps(w1, w2, w3, w4);
    MatchAtPieces(s, a, w1, b, s1, w2, w3, s2, c, w4, d, s3);
    RenderShape(s, a, w1, b, s1, w2, w3, s2, c, w4, d, s3);
    assert ValidGaps(g) && s == Render(MatchAt(s).value.0, g) + MatchAt(s).value.1;
  }

  /** The recogniser's outcome at a start position, in declarative terms:
      it succeeds exactly when the text there is a rendered match. */
  lemma MatchAtIffRendered(s: string)
    ensures MatchAt(s).Some? <==>
      exists c, g, t :: ValidCaptures(c) && ValidGaps(g) && s == Render(c, g) + t
  {
    if MatchAt(s).Some? {
      MatchAtSound(s);
    }
    if c, g, t :| ValidCaptures(c) && ValidGaps(g) && s == Render(c, g) + t {
      MatchAtReads(c, g, t);
    }
  }

  // ---------------------------------------------------------------------
  // Searching a line.

  /** The match attempt at every start position. */
  function Attempts(s: string): (r: seq<Option<(Captures, string)>>)
    ensures |r| == |s| + 1
    ensures forall j :: 0 <= j <= |s| ==> r[j] == MatchAt(s[j..])
  {
    seq(|s| + 1, j requires 0 <= j <= |s| => MatchAt(s[j..]))
  }

  /** The first position, from `i` on, holding a value. */
  function FirstSome<T>(xs: seq<Option<T>>, i: nat): (r: Option<nat>)
    requires i <= |xs|
    ensures r.Some? ==> i <= r.value < |xs| && xs[r.value].Some?
    ensures r.Some? ==> forall j :: i <= j < r.value ==> xs[j].None?
    ensures r.None? ==> forall j :: i <= j < |xs| ==> xs[j].None?
    decreases |xs| - i
  {
    if i == |xs| then None
    else if xs[i].Some? then Some(i)
    else FirstSome(xs, i + 1)
  }

  /** `Regex::captures`: the match that starts leftmost, with its start
      position. */
  function FindMatch(s: string): (r: Option<(nat, Captures)>)
    ensures r.Some? ==> (r.value.0 <= |s| && MatchAt(s[r.value.0..]).Some?
      && MatchAt(s[r.value.0..]).value.0 == r.value.1)
    ensures r.Some? ==> forall j :: 0 <= j < r.value.0 ==> MatchAt(s[j..]).None?
    ensures r.None? ==> forall j :: 0 <= j <= |s| ==> MatchAt(s[j..]).None?
    ensures r.Some? ==> ValidCaptures(r.value.1)
  {
    var attempts := Attempts(s);
    match FirstSome(attempts, 0)
    case None => None
    case Some(j) =>
      MatchAtSound(s[j..]);
      Some((j, attempts[j].value.0))
  }

  /** `Captures::name`: the text of a named group. Every group of this
      pattern takes part in every match, so only an unknown name misses. */
  function Capture(c: Captures, name: string): (r: Option<string>)
    ensures r.Some? <==> name in {"first_x", "first_y", "second_x", "second_y"}
  {
    if name == "first_x" then Some(c.firstX)
    else if name == "first_y" then Some(c.firstY)
    else if name == "second_x" then Some(c.secondX)
    else if name == "second_y" then Some(c.secondY)
    else None
  }

  /** A line that starts with a rendered match is captured there. */
  lemma FindMatchAtStart(c: Captures, g: Gaps, t: string)
    requires ValidCaptures(c) && ValidGaps(g)
    ensures FindMatch(Render(c, g) + t) == Some((0, c))
  {
    var s := Render(c, g) + t;
    assert s[0..] == s;
    MatchAtReads(c, g, t);
  }

  /** Every match holds a '>'. */
  lemma RenderHasArrow(c: Captures, g: Gaps)
    ensures '>' in Render(c, g)
  {
    var head := "(" + c.firstX + "," + g.afterFirstComma + c.firstY + ")" + g.beforeArrow;
    var tail := g.afterArrow + "(" + c.secondX + "," + g.afterSecondComma + c.secondY + ")";
    assert Render(c, g) == head + "->" + tail;
    assert ("->")[1] == '>';
  }

  /** Text where a match starts holds a '>'. */
  lemma MatchHasArrow(s: string)
    ensures MatchAt(s).Some? ==> '>' in s
  {
    if MatchAt(s).Some? {
      MatchAtSound(s);
      var (c, t) := MatchAt(s).value;
      var g :| ValidGaps(g) && s == Render(c, g) + t;
      RenderHasArrow(c, g);
    }
  }

  /** A line holding no '>' holds no match. */
  lemma NoArrowNoMatch(s: string)
    requires '>' !in s
    ensures FindMatch(s).None?
  {
    forall j | 0 <= j <= |s|
      ensures MatchAt(s[j..]).None?
    {
      assert '>' !in s[j..] by {
        forall k | 0 <= k < |s[j..]| ensures s[j..][k] != '>' {
          assert s[j..][k] == s[j + k];
        }
      }
      MatchHasArrow(s[j..]);
    }
  }
}
