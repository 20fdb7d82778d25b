# NEOS grid path finder: a Dafny model of its core

The application lets a user draw obstacles on a grid, pick a start and an
end cell, and send a shortest-path problem to the NEOS optimisation server.
The solver's text answer is then parsed back into paths. This project models
that core in Dafny 4.11 and proves properties about it:

- **Cells** (`Cells`): the `Cell` record, its derived lexicographic order
  and the 0-based shift.
- **Rasteriser** (`Raster`): the Bresenham walk `bresenham_cells`, which
  both revisions of the field use. The two copies are textually the same.
- **Current field** (`Grid`). The field is 1-based. It holds filled cells
  (Green or Pink), the symmetric pink pair map, the endpoints and the
  reconstructed paths. The model covers:
  - the add and erase handlers and the endpoint selection;
  - the diagonal pink pair matcher, and adding and removing a pair;
  - `unique_pink_pairs`;
  - stitching solver sections into paths (`path_from_links`,
    `parse_all_paths`).
- **Pair map** (`PairMap`) and **link map / walk** (`Links`): the shared
  data structures behind those operations.
- **Solver output grammar** (`NeosParser`): the nom parser
  `parse_neos_output` and its sub-parsers. Formatting functions render
  sections as text, so the parser can be given a round trip.
- **Legacy field** (`LegacyGrid`, `PathPattern`, `Text`). This is the older
  0-based `src/field.rs`. It reads rows with the `PATH_PARSER` regular
  expression and subtracts one from each coordinate. The regex is modelled
  as a recogniser together with a declarative description of its matches.
- **Template input** (`PinkParams`, `TemplateContext`). `PinkPairParam::new`
  gives the solver one named parameter per pink pair. The model also covers
  the values the problem template receives: the endpoint guards, the pair
  range and the disabled nodes.
- **Scenarios** (`GridScenarios`): concrete solver texts, parsed and stitched
  end to end.

Some inputs come from outside the model and are passed in as parameters:

- Cursor positions arrive already resolved to cells, or to nothing.
- The iteration orders of the hash containers are sequences that enumerate
  the container.
- The Tera renderer is a function.

## Model

| member | source | states |
|---|---|---|
| `Cells.New` | src/field/cell.rs:8-10 | The cell holds exactly the two given coordinates, and any cell with those coordinates is that cell. |
| `Cells.LeIsTotalOrder` | src/field/cell.rs:1-5 | The derived order on cells is lexicographic (x, then y). It is reflexive, antisymmetric, transitive and total, and equality is componentwise. |
| `Cells.ToZeroIndexed` | src/field/cell.rs:12-15 | Each coordinate goes down by exactly one. Both coordinates must be at least 1, because the unsigned subtraction underflows at 0. |
| `Cells.ToZeroIndexedKeepsOrder` | src/field/cell.rs:12-15 | The 0-based shift preserves the cell order and equality in both directions, so an ordered map keeps its order. |
| `Paths.NewPath` | src/field/path/mod.rs:14-16 | A path keeps the given cells and id and validates nothing. Any sequence is accepted. |
| `NeosParser.NumberMeaning` | src/field/path/parser.rs:18-20 | `number` consumes the maximal run of leading digits and returns its decimal value. It fails exactly when there is no leading digit or the value exceeds `i32::MAX`. |
| `NeosParser.ParseCell` | src/field/path/parser.rs:22-32 | A successful `cell` consumed at least five characters: '(' and a digit first, a digit and ')' last. |
| `NeosParser.ParseCellReadsFormatCell` | src/field/path/parser.rs:22-32 | "(x,y)" followed by anything reads back as the cell (x, y), with the rest left over. No shift is applied. |
| `NeosParser.ParseLink` | src/field/path/parser.rs:34-36 | A successful `link` starts with '(' and consumed at least fourteen characters. |
| `NeosParser.ParseLinkReadsFormatLink` | src/field/path/parser.rs:34-36 | Two rendered cells around the exact separator " -> " read back as that link. |
| `NeosParser.Space0` | src/field/path/parser.rs:39 | Exactly the leading spaces and tabs are dropped: everything dropped is blank and what remains does not start with a blank. |
| `NeosParser.LineEnding` | src/field/path/parser.rs:45 | Accepts exactly "\n" or "\r\n" at the front and consumes it. |
| `NeosParser.LinkLine` | src/field/path/parser.rs:38-40 | A successful link line consumes input, and after its leading blanks the text starts with '('. |
| `NeosParser.LinkLineReadsFormatLink` | src/field/path/parser.rs:38-40 | A rendered link followed by a newline is read as one link line. |
| `NeosParser.LinkLines` | src/field/path/parser.rs:58 | `many0(link_line)` never fails, and it stops exactly where `link_line` fails. |
| `NeosParser.LinkLinesReadFormat` | src/field/path/parser.rs:57-59 | Rendered link lines read back as the same links in the same order. Reading stops in front of the first line that is not a link line. |
| `NeosParser.PathHeader` | src/field/path/parser.rs:42-55 | A successful header consumed at least both tags, a digit and a line ending. |
| `NeosParser.PathHeaderReadsFormat` | src/field/path/parser.rs:42-55 | "--- Path n ---" followed by a newline is accepted for every n. The number is discarded. |
| `NeosParser.PathBlock` | src/field/path/parser.rs:57-59 | A block consumes input and ends in front of text that is no link line. |
| `NeosParser.PathBlockReadsFormatSection` | src/field/path/parser.rs:57-59 | A rendered section reads back as its links, whatever its number. A section with no links is accepted. |
| `NeosParser.FindFrom` | src/field/path/parser.rs:62 | The result is the first occurrence of the pattern at or after the start position. None means no occurrence. |
| `NeosParser.SkipUntilPath` | src/field/path/parser.rs:61-63 | `take_until` returns the input from the first "--- Path " on. Nothing before that point starts the tag. It fails exactly when the tag never occurs. |
| `NeosParser.ParseNeosOutput` | src/field/path/parser.rs:65-75 | Text without a header gives no sections and is left whole. After a successful parse the remaining text holds no header. |
| `NeosParser.ParseReadsFormatOutput` | src/field/path/parser.rs:65-75 | Grammar round trip: rendered sections parse back to the same sections, links in order. Trailing text without header or link line is left over. |
| `NeosParser.LeadingNoiseIgnored` | src/field/path/parser.rs:61-75 | Text in front of a header does not change the result when no "--- Path " starts inside it. |
| `NeosParser.DashFreeNoiseIgnored` | src/field/path/parser.rs:61-75 | In particular, text without '-' in front of the first header does not change the result. |
| `NeosParser.HeaderWithoutNumberFails` | src/field/path/parser.rs:42-55 | A header tag followed by no digit is rejected by `path_header`. |
| `NeosParser.MalformedBlockFailsParse` | src/field/path/parser.rs:65-75 | For every input: once a "--- Path " is found, a block that does not parse there fails the whole parse. It is not skipped. |
| `NeosParser.MalformedHeaderFailsParse` | src/field/path/parser.rs:68-70 | For every input: text that starts with "--- Path " followed by no digit (or by nothing) fails the whole parse instead of being skipped, whatever comes after it. This is an instance of `MalformedBlockFailsParse`. |
| `NeosParser.UnterminatedHeaderFailsParse` | src/field/path/parser.rs:42-55 | Output that ends in a header with no line ending fails the whole parse. |
| `Links.LinkMap` | src/field/mod.rs:103 | The map's keys are exactly the links' sources, and it has at most as many entries as there are links. |
| `Links.LinkMapLastWins` | src/field/mod.rs:103 | When sources repeat, the map holds the target of the last link with that source. |
| `Links.Walk` | src/field/mod.rs:104-110 | A successful walk starts at the start cell, ends at the end cell, follows the map at each step and meets the end only last. Every failure is `InvalidPath`. |
| `Links.WalkIsDistinct` | src/field/mod.rs:104-110 | A walk that reaches the end never visits a cell twice. |
| `Links.WalkLength` | src/field/mod.rs:104-110 | A walk has at most one cell more than the map has entries. |
| `Links.WalkFindsWalk` | src/field/mod.rs:104-110 | With fuel for its length, the bounded walk returns any walk that exists. |
| `Links.WalkIsUnique` | src/field/mod.rs:104-110 | There is at most one walk from a start to an end. |
| `Links.BoundedWalkDecides` | src/field/mod.rs:104-110 | The step bound of links + 1 loses nothing: the bounded walk succeeds exactly when a walk exists, that is, exactly when the source's unbounded loop ends with a path. |
| `PairMap.Canonical` | src/field/mod.rs:474-483 | A pair is written smaller cell first and holds the same two cells. |
| `PairMap.UniquePairs` | src/field/mod.rs:474-483 | An ordered pair (p, q) is listed exactly when the map links p to q or q to p. |
| `PairMap.SymmetricPairs` | src/field/mod.rs:474-483 | On a symmetric map, every listed pair is an entry read forwards. |
| `PairMap.AddPair` | src/field/mod.rs:453-454 | Both cells become keys and point to each other. Every other entry is unchanged. |
| `PairMap.RemovePair` | src/field/mod.rs:464-465 | The clicked cell and its partner lose their entries and everything else stays. An unknown cell changes nothing. |
| `PairMap.AddPairKeepsSymmetric` | src/field/mod.rs:453-454 | Linking two distinct cells outside the map keeps it symmetric and free of self-links. |
| `PairMap.RemovePairKeepsSymmetric` | src/field/mod.rs:464-465 | Removing a pair keeps the map symmetric. |
| `PairMap.AddThenRemovePair` | src/field/mod.rs:446-472 | Removing a freshly added pair, through either cell, restores the map. |
| `PairMap.RemovePairDropsOnePair` | src/field/mod.rs:461-483 | Removing a pair drops exactly that pair from the enumeration. |
| `PairMap.UniquePairsCount` | src/field/mod.rs:474-483 | On a symmetric map without self-links, the enumeration has half as many pairs as the map has entries. |
| `PairMap.AddPairAddsOnePair` | src/field/mod.rs:446-483 | Adding a pair of new cells adds exactly that pair to the enumeration. |
| `Raster.RoundStaysInRange` | src/field/mod.rs:283-292 | With the error term tied to the step counts, each round steps at least one axis and never steps past the target on either axis. |
| `Raster.Round` | src/field/mod.rs:281-296 | One loop round keeps position and error term in step with the step counts and always steps the longer axis. The new cell is a king step away, inside the bounding box. |
| `Raster.RunToEnd` | src/field/mod.rs:274-297 | The loop of `bresenham_cells` ends with the walker on the target. At that point the visited cells form a king-step trace from the start inside the box, each round one step farther from the start, and the collected set is the visited cells less the marker. |
| `Raster.BresenhamCells` | src/field/mod.rs:267-300 | The visited cells run from start to end, stay in the bounding box and move to a neighbour at each step. No cell is visited twice, and there are max(dx, dy) + 1 of them. The returned set is the visited cells less the start marker: both ends unless they are the marker, never the marker, only cells of the box, and max(dx, dy) or max(dx, dy) + 1 cells (exactly max(dx, dy) + 1 without a marker). |
| `Grid.NewFieldIsConsistent` | src/field/mod.rs:33-49 | The default field satisfies the pair invariant: symmetric diagonal links whose keys are exactly the Pink cells. |
| `Grid.FirstShape` | src/field/mod.rs:383-443 | Reference search: the first of the four L-shapes (bottom right, top left, bottom left, top right) that holds at the cell. |
| `Grid.FindPinkDiagonalMatch` | src/field/mod.rs:378-444 | An occupied cell has no match. A match pairs the clicked cell with a free, in-grid diagonal neighbour whose two shared neighbours are Green. |
| `Grid.MatchIsFirstShape` | src/field/mod.rs:378-444 | On a free cell the matcher proposes the opposite corner of the first L-shape that holds, and nothing when none holds. |
| `Grid.MatchExistsIffShape` | src/field/mod.rs:378-444 | A match exists exactly when the cell is free and one of the four L-shapes holds. |
| `Grid.HandleAddPinkPair` | src/field/mod.rs:446-459 | On a match both cells become Pink and are linked in both directions. Every other filled cell keeps its type and every other link keeps its partner. Otherwise, or without a click, nothing changes. No other field changes. |
| `Grid.HandleRemovePinkPair` | src/field/mod.rs:461-472 | Clicking a linked Pink cell removes its link, its partner's link and both filled entries. Any other click changes nothing. |
| `Grid.LinkFreePairKeepsConsistent` | src/field/mod.rs:450-454 | Painting two free diagonal neighbours Pink and linking them keeps the pair invariant. |
| `Grid.AddPinkPairKeepsConsistent` | src/field/mod.rs:446-459 | Adding a pair keeps the pair invariant. |
| `Grid.RemovePinkPairKeepsConsistent` | src/field/mod.rs:461-472 | Removing a pair keeps the pair invariant. |
| `Grid.PinkPairRoundTrip` | src/field/mod.rs:446-472 | Adding the matched pair, then removing it through either of its cells, restores the filled cells and the pair map exactly. |
| `Grid.UniquePinkPairsCount` | src/field/mod.rs:474-483 | Under the pair invariant each physical pair is listed once, as an entry read forwards, and there are half as many pairs as map entries. |
| `Grid.PaintGreen` | src/field/mod.rs:308-312 | `extend` with Green: touched cells become Green whatever they were, and other cells keep their entry. |
| `Grid.HandleAddingCells` | src/field/mod.rs:302-315 | As written: every segment cell except the start cell becomes Green and nothing else changes. A drag starting on a non-start Pink cell breaks the pair invariant. |
| `Grid.PaintGreenBreaksPairs` | src/field/mod.rs:308-312 | Repainting a Pink cell Green under a consistent pair map leaves a link on a cell that is no longer Pink. |
| `Grid.PinkExampleIsConsistent` | src/field/mod.rs:308-312 | A concrete consistent field whose non-start cell (2,2) is Pink. A drag starting there breaks the invariant. |
| `Grid.PaintGreenSparingPink` | src/field/mod.rs:308-312 | Corrected `extend`: touched cells become Green except Pink ones, and the set of Pink cells is unchanged. |
| `Grid.SparingPinkKeepsPairs` | src/field/mod.rs:308-312 | Painting that spares Pink cells keeps the Pink cells and hence the pair invariant. |
| `Grid.HandleAddingCellsSparingPink` | src/field/mod.rs:302-315 | Corrected handler: the same cells are filled as by the source, the Pink cells stay as they were, and the pair invariant is kept. |
| `Grid.HandleRemovingCells` | src/field/mod.rs:317-328 | Every segment cell except the start and Pink cells is erased, and nothing is added or recoloured. Pink cells and the pair invariant survive. |
| `Grid.HandleStartCellSelection` | src/field/mod.rs:330-336 | A click on a free cell moves the start there. Any other click changes nothing, and endpoints on free cells stay on free cells. |
| `Grid.HandleEndCellSelection` | src/field/mod.rs:338-344 | The same for the end cell. |
| `Grid.ClearPaths` | src/field/mod.rs:346-348 | Forgets the paths and nothing else. |
| `Grid.PathFromLinks` | src/field/mod.rs:92-113 | The start is checked before the end. Success is the walk from start to end over the section's map, tagged with the given id; any other failure is `InvalidPath`. |
| `Grid.PathFromLinksDecides` | src/field/mod.rs:92-113 | Stitching succeeds exactly when the links hold a walk from start to end. The path found has no repeated cell and at most one cell more than the map has entries. |
| `Grid.Collect` | src/field/mod.rs:118-124 | A collected success has one value per result. |
| `Grid.CollectOk` | src/field/mod.rs:118-124 | A collected success holds every value, in order. |
| `Grid.CollectFirstError` | src/field/mod.rs:118-124 | A collected failure is the error of the first failing result. |
| `Grid.CollectOkIffAllOk` | src/field/mod.rs:118-124 | Collecting succeeds exactly when every result is a success. |
| `Grid.Stitched` | src/field/mod.rs:118-121 | Section i is stitched with id i, its 0-based position. |
| `Grid.ParseAllPaths` | src/field/mod.rs:115-129 | A grammar failure is `InvalidPath`. On success the paths replace the old ones, one per section with id i and nothing else changed. Success happens exactly when every section stitches; otherwise the error is some section's error. |
| `Grid.NoSectionsNoStitching` | src/field/mod.rs:115-129 | Output without any header sets an empty path list, even with no endpoint set. |
| `GridScenarios.ExampleTextParses` | src/field/path/parser.rs:65-75 | Noise, one section with two links and trailing noise parse to that section, with the trailing noise left over. |
| `GridScenarios.OneSection` | src/field/mod.rs:115-129 | One section gives one path with id 0, or that section's error. |
| `GridScenarios.ExampleStitches` | src/field/mod.rs:92-129 | With start (2,2) and end (3,3), the example text gives the single path (2,2), (3,2), (3,3) with id 0. |
| `GridScenarios.ExampleMissesOtherEnd` | src/field/mod.rs:92-129 | With end (4,4) the walk runs out of successors, giving `InvalidPath`. |
| `GridScenarios.CycleIsInvalid` | src/field/mod.rs:104-110 | On a two-cell cycle that never reaches the end, the bounded walk reports InvalidPath. The source's loop does not end on this input (see "Walk termination" under Left out). |
| `GridScenarios.TwoSectionsTwoPaths` | src/field/mod.rs:115-129 | Two valid sections give two paths, with ids 0 and 1, in section order. |
| `GridScenarios.TwoStitchedSections` | src/field/mod.rs:115-129 | For any output of two sections that both stitch, the paths are both results in section order. |
| `PathPattern.SkipSpaces` | src/re.rs:6 | `\s*` steps over exactly the leading whitespace: the text is the whitespace followed by the rest, which does not start with whitespace. |
| `PathPattern.Digits` | src/re.rs:6 | `\d+` takes the maximal non-empty run of digits, and fails exactly when the text does not start with a digit. |
| `PathPattern.Coords` | src/re.rs:6 | A coordinate group is "(" digits "," whitespace digits ")" followed by the rest. |
| `PathPattern.Arrow` | src/re.rs:6 | The arrow is whitespace, "->", whitespace, followed by the rest. |
| `PathPattern.MatchAtReads` | src/re.rs:6 | Completeness: any rendered match followed by anything is recognised, with exactly its four groups and the rest. |
| `PathPattern.MatchAtSound` | src/re.rs:6 | Soundness: whatever is recognised is a rendered match with valid groups and whitespace, followed by the rest. |
| `PathPattern.MatchAtIffRendered` | src/re.rs:6 | A match starts at a position exactly when the text there is a rendered match. |
| `PathPattern.FindMatch` | src/re.rs:6 | `captures` returns the leftmost match; no earlier position starts one, and None means no position does. |
| `PathPattern.Capture` | src/re.rs:6 | A group is found exactly for the four names of the pattern. |
| `PathPattern.FindMatchAtStart` | src/re.rs:6 | A line that starts with a match is captured at position 0. |
| `PathPattern.NoArrowNoMatch` | src/re.rs:6 | A line without '>' has no match. |
| `Text.Split` | src/field.rs:108 | At least one piece comes back, and no piece holds the separator. |
| `Text.JoinSplit` | src/field.rs:108 | Joining the pieces gives back the text. |
| `Text.SplitJoin` | src/field.rs:108 | Splitting joined pieces that hold no separator gives back the pieces. |
| `Text.NonEmpty` | src/field.rs:109 | Keeps exactly the non-empty pieces: all of them, and only pieces of the input. |
| `Text.NonEmptyKeepsFull` | src/field.rs:109 | A list without empty pieces is kept as it is. |
| `LegacyGrid.ParseUsize` | src/field.rs:73-75 | A parsed value fits in a `usize`. Empty text and a lone '+' are rejected. |
| `LegacyGrid.ParseUsizeDigits` | src/field.rs:73-75 | A digit string parses exactly when its value fits, and then to that value. |
| `LegacyGrid.ParseUsizeFormat` | src/field.rs:73-75 | A printed number that fits parses back, with or without a leading '+'. |
| `LegacyGrid.ParseCoord` | src/field.rs:69-77 | An unknown group name is "Missing field: name". A value that does not fit is reported by the name alone. |
| `LegacyGrid.ParseCoordValue` | src/field.rs:69-77 | On a match, each group reads as its decimal value, and fails exactly when that value exceeds `usize::MAX`. |
| `LegacyGrid.ReadCoords` | src/field.rs:82-85 | The groups are read in order and the first error stops the reading. |
| `LegacyGrid.NoUnderflowReadsPositive` | src/field.rs:82-85 | When no `- 1` meets a zero, every coordinate read is at least 1. |
| `LegacyGrid.ReadCoordsValues` | src/field.rs:82-85 | Reading the four groups succeeds exactly when every value fits. Otherwise it fails with the name of the first group that does not. |
| `LegacyGrid.ParseCells` | src/field.rs:79-94 | A row without a match is an error carrying the row itself. |
| `LegacyGrid.ParseCellsValues` | src/field.rs:79-94 | On a matched row the link's coordinates are the group values minus one. The row fails exactly when a value exceeds `usize::MAX`, naming the first such group. |
| `LegacyGrid.RowCapturesRead` | src/field.rs:82-85 | A link's groups, written 1-based, read as its coordinates plus one, without underflow. |
| `LegacyGrid.ParseCellsReadsRow` | src/field.rs:79-94 | A row written 1-based reads back as the 0-based link, whatever follows on the line. |
| `LegacyGrid.ZeroBasedRowUnderflows` | src/field.rs:82 | A row holding a 0 coordinate would make the subtraction underflow. |
| `LegacyGrid.OverflowIsReportedByName` | src/field.rs:82 | A first coordinate past `usize::MAX` fails with "first_x". |
| `LegacyGrid.Parsed` | src/field.rs:110 | `parse_cells` applied to every row, in order. |
| `LegacyGrid.OkValues` | src/field.rs:111-114 | Filtering successes and collecting keeps every success value and invents none. |
| `LegacyGrid.OkValuesSkipsErr` | src/field.rs:111-114 | An error anywhere contributes nothing. |
| `LegacyGrid.OkValuesAllOk` | src/field.rs:111-114 | When all results are successes, all values are kept in order. |
| `LegacyGrid.RowLinks` | src/field.rs:107-114 | The links of exactly the rows that parse. |
| `LegacyGrid.ParsedConcat` | src/field.rs:110 | Parsing rows commutes with concatenating lists of rows. |
| `LegacyGrid.RowLinksSkipsNoise` | src/field.rs:107-114 | A row that does not parse contributes nothing, wherever it stands. |
| `LegacyGrid.RowLinksReadsRows` | src/field.rs:107-114 | Rows written from links are read back as those links, in order. |
| `LegacyGrid.NewLegacyField` | src/field.rs:20-34 | The default is a 30 by 30 grid with no filled cells, no endpoints and no path. |
| `LegacyGrid.ParsePath` | src/field.rs:96-128 | The start is checked before the end. On success only the path changes, and it is the walk over the rows' successor map. Any other failure is `InvalidPath`. |
| `LegacyGrid.ParsePathDecides` | src/field.rs:116-123 | The path is found exactly when the rows hold a walk from start to end, and it has no repeated cell. |
| `LegacyGrid.ParsePathReadsRows` | src/field.rs:96-128 | Round trip: one solver row per link, joined by newlines, gives the walk over those links. |
| `LegacyGrid.ParsePathOfLinks` | src/field.rs:107-123 | The result depends on the text only through the links read from it. |
| `LegacyGrid.RowsOfJoinedRows` | src/field.rs:107-109 | Rows joined by newlines and split again come back unchanged. |
| `LegacyGrid.HandleAddingCells` | src/field.rs:302-311 | Every segment cell except the start cell becomes filled and nothing else changes. An unfilled start stays unfilled. |
| `LegacyGrid.HandleRemovingCells` | src/field.rs:313-322 | Every segment cell except the start cell is cleared and nothing is added. |
| `LegacyGrid.EraseUndoesDraw` | src/field.rs:302-322 | Erasing along a segment after drawing along it leaves every cell off the segment, and the start cell, as it was before drawing. |
| `LegacyGrid.HandleStartCellSelection` | src/field.rs:324-330 | A click on an unfilled cell moves the start there, and any other click changes nothing. |
| `LegacyGrid.HandleEndCellSelection` | src/field.rs:332-338 | The same for the end cell. |
| `LegacyGrid.SelectionKeepsStartFree` | src/field.rs:324-338 | Selecting either endpoint keeps the start cell unfilled. |
| `LegacyGrid.ClearPath` | src/field.rs:340-342 | Forgets the path and nothing else. |
| `PinkParams.PairValues` | src/template/param_pink.rs:17 | A pair gives eight values. |
| `PinkParams.DecodeValues` | src/template/param_pink.rs:17 | Tag 1..4 at the even positions with the coordinates in between decode to a pair that encodes back to those values. |
| `PinkParams.DecodePairValues` | src/template/param_pink.rs:17 | The value list of a pair decodes back to that pair, with coordinates copied unshifted. |
| `PinkParams.ParamsFrom` | src/template/param_pink.rs:16-23 | The loop from a given counter: one entry per pair, entry i named after counter + i and decoding to pair i. |
| `PinkParams.NewParams` | src/template/param_pink.rs:12-26 | The counter starts at 1: entry i is named "pink_pair(i+1)" and decodes to the i-th enumerated pair. |
| `PinkParams.ParamNameInjective` | src/template/param_pink.rs:19 | Different counters give different names. |
| `PinkParams.EnumerationSize` | src/template/param_pink.rs:16 | Iterating a set visits as many elements as it holds. |
| `PinkParams.NewParamsDescribesSet` | src/template/param_pink.rs:12-26 | In any iteration order there is one entry per pair. Every pair is described by some entry, and every entry describes a pair of the set. |
| `PinkParams.NewParamsNames` | src/template/param_pink.rs:13-22 | The names are pairwise distinct and cover "pink_pair1" to "pink_pairN". |
| `TemplateContext.Kind` | src/template/mod.rs:14-24 | There are nine kinds of template. |
| `TemplateContext.VariantsListEachKindOnce` | src/template/mod.rs:27-41 | The variant list has nine entries and holds every kind exactly once. |
| `TemplateContext.PinkPairRange` | src/template/mod.rs:68 | The range is 1..=n, where n is half the number of map entries. |
| `TemplateContext.PinkPairRangeCountsPairs` | src/template/mod.rs:68-70 | Under the pair invariant the range counts exactly the pairs that `unique_pink_pairs` lists. |
| `TemplateContext.DisabledCells` | src/template/mod.rs:79-82 | Keeps exactly the listed filled cells that are not Pink. |
| `TemplateContext.DisabledCellsDistinct` | src/template/mod.rs:79-82 | Filtering a list without repeats leaves none. |
| `TemplateContext.Tokens` | src/template/mod.rs:83 | One "(x,y)" token per cell, in order. |
| `TemplateContext.FormatCellIsOneWord` | src/template/mod.rs:83 | A token is a non-empty word without spaces. |
| `TemplateContext.FormatCellInjective` | src/template/mod.rs:83 | Different cells give different tokens. |
| `TemplateContext.DisabledNodesListsGreenCells` | src/template/mod.rs:77-86 | Split on spaces, the disabled nodes are one token per Green cell, each cell once. No Pink cell's token appears, and no Green cells give the empty text. |
| `TemplateContext.BuildContext` | src/template/mod.rs:53-86 | A missing start fails before a missing end. On success the sizes and endpoints are passed unshifted, and the turn cost is present exactly for the turn-cost template. The range is `PinkPairRange`, the pair parameters are `NewParams` of the pair enumeration, and the disabled nodes are `DisabledNodes` of the filled-cell enumeration. What those mean is stated in `ContextDescribesField`. |
| `TemplateContext.GenerateInput` | src/template/mod.rs:53-90 | The same guards apply. With both endpoints set, the result succeeds exactly when the render does, and a render failure is `FailedRenderFile`. |
| `TemplateContext.RangeMatchesParams` | src/template/mod.rs:68-71 | Under the pair invariant the range and the parameters describe the same pairs. Parameter i is named after range entry i. |
| `TemplateContext.ContextDescribesField` | src/template/mod.rs:68-86 | Under the pair invariant, the built context's range is 1..=pairs, and parameter i is named after range entry i. Every pair of the field is decoded from some parameter. The disabled nodes, split on spaces, are one token per Green cell and hold no Pink cell's token. |

## Left out

- **Graphics and input.** Drawing, painting and all cursor-to-cell
  conversion (`pos2cell`, `cell2pos2`, `cell_rect`, the drag's
  `line_segment_start`) work on egui floating-point positions. The handlers
  take the resolved previous and current cells as inputs instead.
- **Other parts of the application.** The network client, the solver
  submission, configuration, screenshots and toasts are not modelled.
- **Template rendering.** The template is rendered by Tera from files
  loaded at runtime, so the render is a function parameter. Not modelled:
  the XML wrapper around the rendered text (src/template/mod.rs:92-113),
  the solver name and e-mail it embeds, and `Template::name`.
- **Older template copy.** src/template.rs is an older copy of the template
  code and is not part of this model.
- **Legacy cell.** src/cell.rs, the legacy field's `Cell`, is not part of
  this model. The legacy field uses `Cells.Cell`, which has the same two
  `usize` fields.
- **Integer widths.** `usize` coordinates are natural numbers. The `i32`
  read by `number` and `usize::MAX` in the legacy reader are explicit bounds.
  `u32` for the turn cost is a newtype. Cell coordinates never approach the
  machine bound; the pink pair counter is modelled unbounded.
- **Legacy underflow.** The legacy `parse_cells` subtracts 1 from each
  coordinate read. A 0 would underflow, which panics in debug builds and
  wraps in release builds. The model makes this a precondition, `RowSafe`,
  applied in evaluation order; `ZeroBasedRowUnderflows` exhibits a row
  violating it.
- `LegacyGrid.ParseCells`: its own contract states only the no-match error.
  What it reads from a matched row is stated by `ParseCellsValues` and
  `ParseCellsReadsRow`.
- `NeosParser.ParseCell`, `NeosParser.ParseLink`, `NeosParser.LinkLine`,
  `NeosParser.PathHeader`, `NeosParser.PathBlock`: their own contracts
  state only how much input a success consumes. What they read is stated by
  the `…Reads…` lemmas, for rendered input.
- **Regex digits.** `\d` in `PATH_PARSER` is Unicode-aware in the regex
  crate; the model accepts ASCII digits only. `\s` follows the Unicode
  White_Space property.
- **Walk termination.** Both revisions' walk loops have no step bound and
  never end on a cycle that misses the end cell. The model walks at most
  |links| + 1 steps and reports `InvalidPath` after that;
  `Links.BoundedWalkDecides` shows that no path is lost.
- **Failed updates.** `parse_all_paths` and `parse_path` return an error
  and leave the field unchanged. The model returns an error and no new
  field.
- **Hash iteration order.** The iteration orders of `unique_pink_pairs`'
  set and of the filled-cell map are parameters that enumerate the
  container (`Enumerates`).
- **Path ids.** The code numbers paths with `enumerate()`, starting at 0,
  and the model follows the code.

## Findings

| source | as written | input that shows it | evidently intended | confidence | as-written member | corrected member |
|---|---|---|---|---|---|---|
| src/field/mod.rs:302-315 | `handle_adding_cells` extends the filled map with Green for every touched cell except the start cell, overwriting Pink cells while `pink_pair_map` keeps their links | The field `PinkExample` (Pink pair (2,2)-(3,3), Green (3,2) and (2,3)), no start set, drag from (2,2) to any cell: (2,2) becomes Green but is still a key of the pair map | Pink cells keep their category; pairs change only through the pair handlers | not executed | `Grid.HandleAddingCells` (with `Grid.PaintGreenBreaksPairs`, `Grid.PinkExampleIsConsistent`) | `Grid.HandleAddingCellsSparingPink` |
