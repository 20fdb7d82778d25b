/** The solver-output grammar: nom-style combinators over the response
    text that find every `--- Path N ---` section and read the
    `(x,y) -> (x,y)` link lines under it. Coordinates come out raw. */
module NeosParser {
  import opened Cells
  import opened Decimal
  import opened Errors
  import opened Links

  /** nom's `IResult` on complete input: the unconsumed rest and a value,
      or an error (the error payload is never inspected). */
  datatype IResult<+T> = Done(rest: string, value: T) | Error

  const PathStartPattern: string := "--- Path "
  const PathEndPattern: string := " ---"

  /** Largest value `str::parse::<i32>` accepts. */
  const I32Max: nat := 0x7fff_ffff

  /** `r` is what is left of `s` after consuming a prefix. */
  predicate IsSuffix(r: string, s: string) {
    |r| <= |s| && r == s[|s| - |r|..]
  }

  /** `number`: `digit1` mapped through `str::parse::<i32>`. */
  function Number(s: string): IResult<nat> {
    var n := DigitRun(s);
    if n == 0 then Error
    else
      var v := Value(s[..n]);
      if v > I32Max then Error else Done(s[n..], v)
  }

  /** `number` consumes the maximal run of leading digits and yields its
      value; it fails when there is no leading digit or when the value
      does not fit in an `i32`. */
  lemma NumberMeaning(s: string)
    ensures var r := Number(s);
      r.Done? ==>
        var n := |s| - |r.rest|;
        && 0 < n && IsSuffix(r.rest, s)
        && AllDigits(s[..n]) && (r.rest == [] || !IsDigit(r.rest[0]))
        && r.value == Value(s[..n]) && r.value <= I32Max
    ensures Number(s).Error? <==> s == [] || !IsDigit(s[0]) || Value(s[..DigitRun(s)]) > I32Max
  {
  }

  /** `cell`: `(` number `,` number `)`, no blanks anywhere inside. */
  function ParseCell(s: string): (r: IResult<Cell>)
    ensures r.Done? ==>
      var n := |s| - |r.rest|;
      && 5 <= n && IsSuffix(r.rest, s)
      && s[0] == '(' && IsDigit(s[1]) && IsDigit(s[n - 2]) && s[n - 1] == ')'
  {
    if !("(" <= s) then Error
    else
      match Number(s[1..])
      case Error => Error
      case Done(s1, x) =>
        if !("," <= s1) then Error
        else
          match Number(s1[1..])
          case Error => Error
          case Done(s2, y) =>
            if !(")" <= s2) then Error else Done(s2[1..], Cell(x, y))
  }

  /** `link`: two cells around the exact separator " -> ". */
  function ParseLink(s: string): (r: IResult<Link>)
    ensures r.Done? ==> |r.rest| + 14 <= |s| && s[0] == '('
  {
    match ParseCell(s)
    case Error => Error
    case Done(s1, a) =>
      if !(" -> " <= s1) then Error
      else
        match ParseCell(s1[4..])
        case Error => Error
        case Done(s2, b) => Done(s2, (a, b))
  }

  predicate IsBlank(c: char) {
    c == ' ' || c == '\t'
  }

  /** `space0`: drops leading spaces and tabs. */
  function Space0(s: string): (r: string)
    ensures IsSuffix(r, s)
    ensures r == [] || !IsBlank(r[0])
    ensures forall i :: 0 <= i < |s| - |r| ==> IsBlank(s[i])
  {
    if |s| > 0 && IsBlank(s[0]) then Space0(s[1..]) else s
  }

  /** `line_ending`: "\n" or "\r\n". */
  function LineEnding(s: string): (r: IResult<()>)
    ensures r.Done? <==> "\n" <= s || "\r\n" <= s
    ensures r.Done? ==> IsSuffix(r.rest, s) && |r.rest| < |s|
  {
    if "\n" <= s then Done(s[1..], ())
    else if "\r\n" <= s then Done(s[2..], ())
    else Error
  }

  /** `link_line`: optional blanks, a link, then a line ending or the end
      of the input. */
  function LinkLine(s: string): (r: IResult<Link>)
    ensures r.Done? ==> |r.rest| < |s|
    ensures r.Done? ==> Space0(s) != [] && Space0(s)[0] == '('
  {
    var s0 := Space0(s);
    match ParseLink(s0)
    case Error => Error
    case Done(s1, l) =>
      if s1 == [] then Done(s1, l)
      else
        match LineEnding(s1)
        case Error => Error
        case Done(s2, _) => Done(s2, l)
  }

  /** `many0(link_line)`: link lines in input order, up to the first line
      that is not one; never fails. */
  function LinkLines(s: string): (r: (string, seq<Link>))
    ensures |r.0| <= |s|
    ensures LinkLine(r.0).Error?
    decreases |s|
  {
    match LinkLine(s)
    case Error => (s, [])
    case Done(s1, l) =>
      var (rest, ls) := LinkLines(s1);
      (rest, [l] + ls)
  }

  /** `path_header`: optional line ending, optional blanks, "--- Path ",
      one or more digits (value discarded), " ---", a line ending. */
  function PathHeader(s: string): (r: IResult<()>)
    ensures r.Done? ==> |r.rest| + |PathStartPattern| + |PathEndPattern| + 2 <= |s|
  {
    var s1 := match LineEnding(s) case Done(rest, _) => rest case Error => s;
    var s2 := Space0(s1);
    if !(PathStartPattern <= s2) then Error
    else
      var s3 := s2[|PathStartPattern|..];
      var n := DigitRun(s3);
      if n == 0 then Error
      else
        var s4 := s3[n..];
        if !(PathEndPattern <= s4) then Error
        else LineEnding(s4[|PathEndPattern|..])
  }

  /** `path_block`: a header followed by its link lines. */
  function PathBlock(s: string): (r: IResult<seq<Link>>)
    ensures r.Done? ==> |r.rest| < |s|
    ensures r.Done? ==> LinkLine(r.rest).Error?
  {
    match PathHeader(s)
    case Error => Error
    case Done(s1, _) =>
      var (rest, links) := LinkLines(s1);
      Done(rest, links)
  }

  /** First position at or after `i` where `pat` occurs in `s`. */
  function FindFrom(s: string, pat: string, i: nat): (r: Option<nat>)
    requires i <= |s|
    ensures r.Some? ==> i <= r.value && r.value + |pat| <= |s| && pat <= s[r.value..]
    ensures r.Some? ==> forall j :: i <= j < r.value ==> !(pat <= s[j..])
    ensures r.None? ==> forall j :: i <= j <= |s| ==> !(pat <= s[j..])
    decreases |s| - i
  {
    if pat <= s[i..] then Some(i)
    else if i == |s| then None
    else FindFrom(s, pat, i + 1)
  }

  /** `skip_until_path` (`take_until`): the input from the first
      occurrence of "--- Path " on, or an error when there is none. */
  function SkipUntilPath(s: string): (r: IResult<string>)
    ensures r.Done? ==> IsSuffix(r.rest, s) && PathStartPattern <= r.rest
    ensures r.Done? ==> forall j :: 0 <= j < |s| - |r.rest| ==> !(PathStartPattern <= s[j..])
    ensures r.Error? ==> forall j :: 0 <= j <= |s| ==> !(PathStartPattern <= s[j..])
  {
    match FindFrom(s, PathStartPattern, 0)
    case None => Error
    case Some(k) => Done(s[k..], s[..k])
  }

  /** `parse_neos_output`: repeatedly skip to the next "--- Path " and
      read a block there; a malformed block fails the whole parse; stop
      with the remaining input once no "--- Path " is left. */
  function ParseNeosOutput(s: string): (r: IResult<seq<seq<Link>>>)
    ensures SkipUntilPath(s).Error? ==> r == Done(s, [])
    ensures r.Done? ==> |r.rest| <= |s| && SkipUntilPath(r.rest).Error?
    decreases |s|
  {
    match SkipUntilPath(s)
    case Error => Done(s, [])
    case Done(i, _) =>
      match PathBlock(i)
      case Error => Error
      case Done(s1, block) =>
        match ParseNeosOutput(s1)
        case Error => Error
        case Done(rest, blocks) => Done(rest, [block] + blocks)
  }

  // ---------------------------------------------------------------------
  // The solver's output format, written out, and the grammar read back.

  /** Coordinates that `number` can read back (it parses into `i32`). */
  predicate Readable(c: Cell) {
    c.x <= I32Max && c.y <= I32Max
  }

  function FormatCell(c: Cell): string {
    "(" + FormatNat(c.x) + "," + FormatNat(c.y) + ")"
  }

  function FormatLink(l: Link): string {
    FormatCell(l.0) + " -> " + FormatCell(l.1)
  }

  function FormatLinkLines(links: seq<Link>): string {
    if |links| == 0 then "" else FormatLink(links[0]) + "\n" + FormatLinkLines(links[1..])
  }

  function FormatSection(n: nat, links: seq<Link>): string {
    PathStartPattern + FormatNat(n) + PathEndPattern + "\n" + FormatLinkLines(links)
  }

  /** Sections numbered from `n` on, one after the other. */
  function FormatOutput(sections: seq<seq<Link>>, n: nat): string {
    if |sections| == 0 then "" else FormatSection(n, sections[0]) + FormatOutput(sections[1..], n + 1)
  }

  /** `number` reads back exactly the rendered value and stops at the
      first non-digit. */
  lemma NumberReadsDigits(d: string, t: string)
    requires 1 <= |d| && AllDigits(d) && Value(d) <= I32Max
    requires t == [] || !IsDigit(t[0])
    ensures Number(d + t) == Done(t, Value(d))
  {
    DigitRunStopsAtNonDigit(d, t);
  }

  /** `cell` succeeds once its five pieces do. */
  lemma ParseCellPieces(s: string, s1: string, x: nat, s2: string, y: nat)
    requires "(" <= s && Number(s[1..]) == Done(s1, x)
    requires "," <= s1 && Number(s1[1..]) == Done(s2, y)
    requires ")" <= s2
    ensures ParseCell(s) == Done(s2[1..], Cell(x, y))
  {
  }

  /** Dropping the one-character tag in front of `x` leaves `x`. */
  lemma DropHead(x: string)
    ensures "(" <= "(" + x && ("(" + x)[1..] == x
    ensures "," <= "," + x && ("," + x)[1..] == x
    ensures ")" <= ")" + x && (")" + x)[1..] == x
  {
  }

  /** `cell` on a right-nested rendering of two digit strings. */
  lemma ParseCellReadsNested(dx: string, dy: string, t: string)
    requires 1 <= |dx| && AllDigits(dx) && Value(dx) <= I32Max
    requires 1 <= |dy| && AllDigits(dy) && Value(dy) <= I32Max
    ensures ParseCell("(" + (dx + ("," + (dy + (")" + t))))) == Done(t, Cell(Value(dx), Value(dy)))
  {
    var tail2 := ")" + t;
    var tail1 := "," + (dy + tail2);
    var s := "(" + (dx + tail1);
    DropHead(dx + tail1);
    DropHead(dy + tail2);
    DropHead(t);
    NumberReadsDigits(dx, tail1);
    NumberReadsDigits(dy, tail2);
    ParseCellPieces(s, tail1, Value(dx), tail2, Value(dy));
  }

  /** `cell` reads back two digit strings in parentheses. */
  lemma ParseCellReadsDigits(dx: string, dy: string, t: string)
    requires 1 <= |dx| && AllDigits(dx) && Value(dx) <= I32Max
    requires 1 <= |dy| && AllDigits(dy) && Value(dy) <= I32Max
    ensures ParseCell("(" + dx + "," + dy + ")" + t) == Done(t, Cell(Value(dx), Value(dy)))
  {
    var t1 := ")" + t;
    var t2 := dy + t1;
    var t3 := "," + t2;
    Assoc("(" + dx + "," + dy, ")", t);
    Assoc("(" + dx + ",", dy, t1);
    Assoc("(" + dx, ",", t2);
    Assoc("(", dx, t3);
    ParseCellReadsNested(dx, dy, t);
  }

  /** `cell` reads back a rendered cell whose coordinates fit in an `i32`. */
  lemma ParseCellReadsFormatCell(c: Cell, t: string)
    requires Readable(c)
    ensures ParseCell(FormatCell(c) + t) == Done(t, c)
  {
    ParseCellReadsDigits(FormatNat(c.x), FormatNat(c.y), t);
  }

  /** `link` succeeds once its three pieces do. */
  lemma ParseLinkPieces(s: string, s1: string, a: Cell, s2: string, b: Cell)
    requires ParseCell(s) == Done(s1, a)
    requires " -> " <= s1 && ParseCell(s1[4..]) == Done(s2, b)
    ensures ParseLink(s) == Done(s2, (a, b))
  {
  }

  lemma SplitFormatLink(l: Link, t: string)
    ensures var tail := " -> " + FormatCell(l.1) + t;
      && FormatLink(l) + t == FormatCell(l.0) + tail
      && " -> " <= tail && tail[4..] == FormatCell(l.1) + t
  {
    var tail := " -> " + FormatCell(l.1) + t;
    assert tail == " -> " + (FormatCell(l.1) + t);
  }

  lemma ParseLinkReadsFormatLink(l: Link, t: string)
    requires Readable(l.0) && Readable(l.1)
    ensures ParseLink(FormatLink(l) + t) == Done(t, l)
  {
    var tail := " -> " + FormatCell(l.1) + t;
    SplitFormatLink(l, t);
    ParseCellReadsFormatCell(l.0, tail);
    ParseCellReadsFormatCell(l.1, t);
    ParseLinkPieces(FormatLink(l) + t, tail, l.0, t, l.1);
  }

  /** `link_line` succeeds on a link followed by a line ending. */
  lemma LinkLinePieces(s: string, s1: string, l: Link, t: string)
    requires Space0(s) == s && ParseLink(s) == Done(s1, l)
    requires LineEnding(s1) == Done(t, ())
    ensures LinkLine(s) == Done(t, l)
  {
  }

  /** A rendered link followed by a newline is one link line. */
  lemma LinkLineReadsFormatLink(l: Link, t: string)
    requires Readable(l.0) && Readable(l.1)
    ensures LinkLine(FormatLink(l) + "\n" + t) == Done(t, l)
  {
    var s := FormatLink(l) + "\n" + t;
    assert s == FormatLink(l) + ("\n" + t) && s[0] == '(';
    assert Space0(s) == s;
    ParseLinkReadsFormatLink(l, "\n" + t);
    assert LineEnding("\n" + t) == Done(t, ());
    LinkLinePieces(s, "\n" + t, l, t);
  }

  /** `many0` takes one more item once `link_line` succeeds. */
  lemma LinkLinesPieces(s: string, s1: string, l: Link, rest: string, ls: seq<Link>)
    requires LinkLine(s) == Done(s1, l) && LinkLines(s1) == (rest, ls)
    ensures LinkLines(s) == (rest, [l] + ls)
  {
  }

  lemma Assoc(a: string, b: string, t: string)
    ensures a + b + t == a + (b + t)
  {
  }

  lemma Regroup(a: string, b: string, c: string, t: string)
    ensures a + b + c + t == a + b + (c + t)
  {
  }

  lemma SplitFormatLinkLines(links: seq<Link>, t: string)
    requires |links| > 0
    ensures FormatLinkLines(links) + t == FormatLink(links[0]) + "\n" + (FormatLinkLines(links[1..]) + t)
  {
    Regroup(FormatLink(links[0]), "\n", FormatLinkLines(links[1..]), t);
  }

  /** A rendered link line in front of text `many0` reads gives one more
      link. */
  lemma LinkLinesReadLink(l: Link, r: string, t: string, ls: seq<Link>)
    requires Readable(l.0) && Readable(l.1)
    requires LinkLines(r) == (t, ls)
    ensures LinkLines(FormatLink(l) + "\n" + r) == (t, [l] + ls)
  {
    LinkLineReadsFormatLink(l, r);
    LinkLinesPieces(FormatLink(l) + "\n" + r, r, l, t, ls);
  }

  /** `many0(link_line)` reads back every rendered link line, in order,
      and stops in front of the first line that is not one. */
  lemma {:induction false} LinkLinesReadFormat(links: seq<Link>, t: string)
    requires forall i :: 0 <= i < |links| ==> Readable(links[i].0) && Readable(links[i].1)
    requires LinkLine(t).Error?
    ensures LinkLines(FormatLinkLines(links) + t) == (t, links)
  {
    if |links| == 0 {
      assert FormatLinkLines(links) + t == t;
    } else {
      SplitFormatLinkLines(links, t);
      LinkLinesReadFormat(links[1..], t);
      LinkLinesReadLink(links[0], FormatLinkLines(links[1..]) + t, t, links[1..]);
      HeadTail(links);
    }
  }

  /** `path_header` succeeds once its pieces do (no leading line
      ending, no leading blanks). */
  lemma PathHeaderPieces(s: string, s3: string, n: nat, t: string)
    requires LineEnding(s).Error? && Space0(s) == s
    requires PathStartPattern <= s && s3 == s[|PathStartPattern|..]
    requires 0 < n == DigitRun(s3) && PathEndPattern <= s3[n..]
    requires LineEnding(s3[n..][|PathEndPattern|..]) == Done(t, ())
    ensures PathHeader(s) == Done(t, ())
  {
  }

  lemma SplitHeader(d: string, t: string)
    ensures var s := PathStartPattern + d + PathEndPattern + "\n" + t;
      && PathStartPattern <= s && s[|PathStartPattern|..] == d + (PathEndPattern + "\n" + t)
  {
    var s := PathStartPattern + d + PathEndPattern + "\n" + t;
    assert s == PathStartPattern + (d + (PathEndPattern + "\n" + t));
  }

  lemma PathHeaderReadsFormat(n: nat, t: string)
    ensures PathHeader(PathStartPattern + FormatNat(n) + PathEndPattern + "\n" + t) == Done(t, ())
  {
    var d := FormatNat(n);
    var s := PathStartPattern + d + PathEndPattern + "\n" + t;
    var tail := PathEndPattern + "\n" + t;
    SplitHeader(d, t);
    assert s[0] == '-';
    assert Space0(s) == s;
    DigitRunStopsAtNonDigit(d, tail);
    assert tail[|PathEndPattern|..] == "\n" + t;
    PathHeaderPieces(s, d + tail, |d|, t);
  }

  /** A rendered section reads back as its links, whatever its number. */
  lemma PathBlockReadsFormatSection(n: nat, links: seq<Link>, t: string)
    requires forall i :: 0 <= i < |links| ==> Readable(links[i].0) && Readable(links[i].1)
    requires LinkLine(t).Error?
    ensures PathBlock(FormatSection(n, links) + t) == Done(t, links)
  {
    var body := FormatLinkLines(links) + t;
    assert FormatSection(n, links) + t == PathStartPattern + FormatNat(n) + PathEndPattern + "\n" + body;
    PathHeaderReadsFormat(n, body);
    LinkLinesReadFormat(links, t);
  }

  /** A header starts with '-', which no link line can. */
  lemma NoLinkLineAtHeader(s: string)
    requires s == [] || s[0] == '-'
    ensures LinkLine(s).Error?
  {
    assert Space0(s) == s;
  }

  lemma PrefixOfConcat(p: string, a: string, b: string, c: string, d: string, t: string)
    ensures p <= p + a + b + c + d + t
  {
    assert p + a + b + c + d + t == p + (a + b + c + d + t);
  }

  /** Text after a rendered section: the next header, or the trailing
      text, which holds no link line. */
  lemma FormatOutputTail(sections: seq<seq<Link>>, n: nat, t: string)
    requires LinkLine(t).Error?
    ensures LinkLine(FormatOutput(sections, n) + t).Error?
  {
    if sections == [] {
      assert FormatOutput(sections, n) + t == t;
    } else {
      var rest := FormatOutput(sections[1..], n + 1) + t;
      var u := FormatOutput(sections, n) + t;
      Assoc(FormatSection(n, sections[0]), FormatOutput(sections[1..], n + 1), t);
      PrefixOfConcat(PathStartPattern, FormatNat(n), PathEndPattern, "\n", FormatLinkLines(sections[0]), rest);
      HeaderIsNoLinkLine(u);
    }
  }

  lemma HeaderIsNoLinkLine(u: string)
    requires PathStartPattern <= u
    ensures LinkLine(u).Error?
  {
    NoLinkLineAtHeader(u);
  }

  /** `take_until` stops at once when the input starts with the tag. */
  lemma SkipUntilPathAtHeader(s: string)
    requires PathStartPattern <= s
    ensures SkipUntilPath(s) == Done(s, [])
  {
    assert s[0..] == s;
  }

  /** One round of `parse_neos_output` once its pieces succeed. */
  lemma ParseNeosOutputPieces(s: string, skipped: string, s1: string, block: seq<Link>, rest: string, blocks: seq<seq<Link>>)
    requires SkipUntilPath(s) == Done(s, skipped)
    requires PathBlock(s) == Done(s1, block)
    requires ParseNeosOutput(s1) == Done(rest, blocks)
    ensures ParseNeosOutput(s) == Done(rest, [block] + blocks)
  {
  }

  lemma HeadTail<T>(s: seq<T>)
    requires |s| > 0
    ensures [s[0]] + s[1..] == s
  {
  }

  /** A rendered section in front of text that parses reads back as one
      more block. */
  lemma ParseReadsSection(n: nat, links: seq<Link>, rest: string, t: string, blocks: seq<seq<Link>>)
    requires forall i :: 0 <= i < |links| ==> Readable(links[i].0) && Readable(links[i].1)
    requires LinkLine(rest).Error?
    requires ParseNeosOutput(rest) == Done(t, blocks)
    ensures ParseNeosOutput(FormatSection(n, links) + rest) == Done(t, [links] + blocks)
  {
    var s := FormatSection(n, links) + rest;
    PrefixOfConcat(PathStartPattern, FormatNat(n), PathEndPattern, "\n", FormatLinkLines(links), rest);
    SkipUntilPathAtHeader(s);
    PathBlockReadsFormatSection(n, links, rest);
    ParseNeosOutputPieces(s, [], rest, links, t, blocks);
  }

  /** Grammar round trip: rendering sections and parsing the text gives
      back the same sections, links in order; trailing text holding no
      header and no link line is left over untouched. */
  lemma {:induction false} ParseReadsFormatOutput(sections: seq<seq<Link>>, n: nat, t: string)
    requires forall k, i :: 0 <= k < |sections| && 0 <= i < |sections[k]| ==>
      Readable(sections[k][i].0) && Readable(sections[k][i].1)
    requires LinkLine(t).Error? && SkipUntilPath(t).Error?
    ensures ParseNeosOutput(FormatOutput(sections, n) + t) == Done(t, sections)
  {
    if sections == [] {
      assert FormatOutput(sections, n) + t == t;
    } else {
      var rest := FormatOutput(sections[1..], n + 1) + t;
      assert FormatOutput(sections, n) + t == FormatSection(n, sections[0]) + rest;
      FormatOutputTail(sections[1..], n + 1, t);
      ParseReadsFormatOutput(sections[1..], n + 1, t);
      ParseReadsSection(n, sections[0], rest, t, sections[1..]);
      HeadTail(sections);
    }
  }

  /** `take_until` walks over text holding no '-' to the next header. */
  lemma {:induction false} FindFromSkipsNoise(s: string, i: nat, k: nat)
    requires i <= k <= |s| && PathStartPattern <= s[k..]
    requires forall j :: i <= j < k ==> !(PathStartPattern <= s[j..])
    ensures FindFrom(s, PathStartPattern, i) == Some(k)
    decreases k - i
  {
    if i < k {
      FindFromSkipsNoise(s, i + 1, k);
    }
  }

  /** Text in front of a header is ignored exactly when no "--- Path "
      starts inside it. */
  lemma LeadingNoiseIgnored(noise: string, s: string)
    requires forall j :: 0 <= j < |noise| ==> !(PathStartPattern <= (noise + s)[j..])
    requires PathStartPattern <= s
    ensures ParseNeosOutput(noise + s) == ParseNeosOutput(s)
  {
    var u := noise + s;
    assert u[|noise|..] == s;
    FindFromSkipsNoise(u, 0, |noise|);
    SkipUntilPathAtHeader(s);
  }

  /** In particular, leading text that holds no '-' is ignored. */
  lemma DashFreeNoiseIgnored(noise: string, s: string)
    requires forall j :: 0 <= j < |noise| ==> noise[j] != '-'
    requires PathStartPattern <= s
    ensures ParseNeosOutput(noise + s) == ParseNeosOutput(s)
  {
    var u := noise + s;
    forall j | 0 <= j < |noise| ensures !(PathStartPattern <= u[j..]) {
      assert u[j..][0] == noise[j];
    }
    LeadingNoiseIgnored(noise, s);
  }

  /** A header tag followed by anything but a digit is no header. */
  lemma HeaderWithoutNumberFails(s: string)
    requires PathStartPattern <= s
    requires |s| == |PathStartPattern| || !IsDigit(s[|PathStartPattern|])
    ensures PathHeader(s).Error?
  {
    assert s[0] == '-';
    assert LineEnding(s).Error?;
    assert Space0(s) == s;
    var s3 := s[|PathStartPattern|..];
    assert s3 == [] || !IsDigit(s3[0]);
    assert DigitRun(s3) == 0;
  }

  /** Once a "--- Path " is found, a block that does not parse there
      fails the whole parse: the `?` after `path_block` does not skip it. */
  lemma MalformedBlockFailsParse(s: string)
    requires SkipUntilPath(s).Done? && PathBlock(SkipUntilPath(s).rest).Error?
    ensures ParseNeosOutput(s).Error?
  {
  }

  /** A section whose header number is not a digit fails the whole
      parse instead of being skipped, whatever follows it. */
  lemma MalformedHeaderFailsParse(s: string)
    requires PathStartPattern <= s
    requires |s| == |PathStartPattern| || !IsDigit(s[|PathStartPattern|])
    ensures ParseNeosOutput(s).Error?
  {
    SkipUntilPathAtHeader(s);
    HeaderWithoutNumberFails(s);
    MalformedBlockFailsParse(s);
  }

  /** A last header without its line ending also fails the whole parse. */
  lemma UnterminatedHeaderFailsParse()
    ensures ParseNeosOutput(PathStartPattern + "1" + PathEndPattern).Error?
  {
    var s := PathStartPattern + "1" + PathEndPattern;
    SkipUntilPathAtHeader(s);
    assert Space0(s) == s;
    assert DigitRun(s[|PathStartPattern|..]) == 1;
    MalformedBlockFailsParse(s);
  }
}
