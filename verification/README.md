# A verified model of PCB-IR

PCB-IR is an integer-geometry board database with a reader and a writer for
KiCad files. This project models the parts of it in which the algorithms are
intricate and the promises precise, and proves those promises for all inputs and
all runs. `dafny verify dfyconfig.toml` checks everything.

What is modelled, one file per component:

- `Int64`, `Geometry`, `CyclicSum`, `Seqs`, `Products`, `Wrappers`: 64-bit
  checked arithmetic with C++ truncating division, points, spans, contours, sums
  round a closed list of vertices, and facts about products of reals.
- `Contours`, `Polygons`, `Transforms`, `Winding`, `ContourInvariance`,
  `PolygonInvariance`: shoelace orientation, even-odd containment, chord
  crossing and validity, with the meaning each has in the real plane, and their
  invariance under reversal, translation and quarter turns, for polygons with
  holes too.
- `OutlineAssembly`: the greedy chaining of loose board edges, and the Euler
  condition under which it succeeds.
- `Arena`, `Workspace`, `Store`: generation-checked handles, the copy-on-write
  tables with explicit owner counts, and every run of open, insert, restore,
  erase, edit, commit and drop, default-constructed snapshots included, against
  a simple form in which nothing is shared.
- `SExpr`, `SExprGrammar`, `Decimal`, `Zone`: the parser and printer, the
  fixed-point decimal codec, and zone export and import on top of them, up to
  one round trip through the text of a file.
- `SpatialIndex`: the uniform grid against a brute-force scan.
- `Bezier`, `Cubic`, `BezierError`: integer De Casteljau flattening and its
  distance from the exact cubic, at the vertices and between them.
- `PadShape`, `PadCurve`, `PadPlacement`: parametric pad outlines, the vertices
  and arcs they consist of and how far they reach, and their placement on the
  board.
- `Lookup`, `PadCodec`, `Footprint`: layers and nets by name, and the round trip
  of pads and of whole footprints under one stackup and net table, with the
  outlines the importer builds.
- `Sha1`, `Sha1Example`, `Uuid`, `Identifier`: streaming SHA-1 against RFC 3174
  on the whole message, name-based identifiers of RFC 4122, and the names they
  are derived from.
- `Example`: a text and three written trees in full.

Conventions. A thrown `ImportError`, `ExportError` or parse error is the value
`None`, or `Refused` where an import has other outcomes besides; `Beyond` marks
a branch that is left out. Point addition, subtraction and negation follow a
release build, in which the assertion on overflow is absent; the results that
need exact sums say so in their preconditions. Signed overflow that C++ leaves
undefined is excluded by a precondition, or is an outcome of its own
(`Undefined`), and a lemma says which inputs are meant. Methods follow the loops
and in-place updates of the source and are proved equal to functions; the
theorems are about those functions.

Where the code and its own documentation disagree, the model follows the code, a
lemma gives an input that shows it, and another one says when the code does what
is promised: the decimal round trip at the most negative value
(`Decimals.FormatParseRoundTrip`), pad outlines that are not valid
(`PadShapes.PadOutlineValidIff`), tall ovals whose caps bulge inward
(`PadCurves.PadFillsItsSize`, `PadCurves.TallOvalFallsShort`), circles of
unequal sides and pads on layers without a copper name that are written and then
refused (`PadCodecs.PadRoundTrip`), the corner radius that shrinks
(`PadCodecs.RadiusCycle`), the full coordinate range of curve flattening
(`Beziers.FullRangeOverflows`, `Beziers.SumsFitIff`) and its micrometre of
accuracy (`BezierErrors.MicrometreMet`, `BezierErrors.MicrometreMissed`), the
36-character namespace text (`Uuids.ParseKeepsPromiseIff`), the null id that a
workspace over a default-constructed snapshot issues (`Workspaces.NullIdIff`),
and stale handles after 2^32 - 1 reuses of one slot
(`Arenas.StaleHandleResolvesAfterWrap`, `Arenas.HandleResolvesExactly`).

## Model

| member | source | states |
|---|---|---|
| `OutlineAssembly.AssembleIffEvenDegrees` | src/pcbir/kicad/import_geometry.cpp:61-88 | for every edge list, the greedy chaining succeeds if and only if every point occurs an even number of times among all edge ends (the Euler condition); otherwise it throws |
| `OutlineAssembly.AssembledLoops` | src/pcbir/kicad/import_geometry.cpp:61-88 | when it succeeds, every loop is non-empty and closed span to span, and the loops use each input edge exactly once, up to reversing its direction of travel |
| `OutlineAssembly.AssembledGreedily` | src/pcbir/kicad/import_geometry.cpp:61-88 | which loops they are: each starts on the last edge that the loops before it have left, in its given direction; at every end it goes on with the first edge that starts there, or else with the first that ends there, reversed; and it stops as soon as it is closed, so its start is reached by its last span only |
| `OutlineAssembly.AssembleLoops` | src/pcbir/kicad/import_geometry.cpp:61-88 | the two nested loops that pop, search, reverse and erase compute the specified assembly, success or failure, and always terminate |
| `OutlineAssembly.FindStart` | src/pcbir/kicad/import_geometry.cpp:70-71 | the search returns the first edge that starts at the point, and nothing exactly when there is none |
| `OutlineAssembly.FindEnd` | src/pcbir/kicad/import_geometry.cpp:74-75 | the second search returns the first edge that ends at the point, and nothing exactly when there is none |
| `OutlineAssembly.ImportOutlines` | src/pcbir/kicad/import_geometry.cpp:114-119 | the import loop stores exactly the assembled loops, each wound canonically, or fails with the assembly |
| `OutlineAssembly.BoardOutlinesNeverClockwise` | src/pcbir/kicad/import_geometry.cpp:115-119 | no stored board outline is clockwise, for any list of edges |
| `Arenas.InsertKeepsValid` | include/pcbir/core/arena.hpp:38-64 | an insertion keeps the whole invariant (free list is exactly the dead slots without repeats, id index is a bijection with the live slots) if and only if its id is not already live, which the code does not check |
| `Arenas.EraseKeepsValid` | include/pcbir/core/arena.hpp:66-76 | erasing through any handle, live or stale, keeps the invariant |
| `Arenas.EditKeepsValid` | include/pcbir/core/arena.hpp:78-90 | assigning through the pointer `try_get` returns keeps the invariant |
| `Arenas.LastFreedFirst` | include/pcbir/core/arena.hpp:38-76 | the slot freed last is taken first: an insertion right after an erasure leaves the free list and the number of slots as they were, its handle finds the new entity, and the erased handle stays stale |
| `Arenas.FindIdOfInverse` | include/pcbir/core/arena.hpp:107-121 | `find` and `id_of` undo each other on live entities, and `find` of an id that is not live gives a handle that resolves to nothing |
| `Arenas.StaleHandleIsInert` | include/pcbir/core/arena.hpp:66-121 | a handle that resolves to nothing has no value and no id, and neither erases nor changes anything |
| `Arenas.HandleResolvesExactly` | include/pcbir/core/arena.hpp:146-157 | after every history of operations, a handle resolves if and only if its slot is occupied and has been reused a multiple of 2^32 - 1 times since the handle was issued |
| `Arenas.HandleResolvesIffLive` | include/pcbir/core/arena.hpp:36-90 | while its slot has been reused fewer than 2^32 - 1 times, a handle resolves if and only if its own insertion has not been erased, and then to the value last stored there and to its id |
| `Arenas.StaleHandleResolvesAfterWrap` | include/pcbir/core/arena.hpp:71-76 | a concrete history in which the first handle ever issued, erased long ago, resolves again because the 32-bit generation wrapped around |
| `Arenas.Arena.constructor` | include/pcbir/core/arena.hpp:34 | a new arena is empty |
| `Arenas.Arena.Copy` | include/pcbir/core/detail/cow_table.hpp:26-28 | a clone has the contents of the original in storage of its own |
| `Arenas.Arena.Insert` | include/pcbir/core/arena.hpp:38-64 | the in-place insertion reaches the specified state and returns the handle of the slot it took |
| `Arenas.Arena.Erase` | include/pcbir/core/arena.hpp:66-76 | the in-place erasure reaches the specified state; a stale handle changes nothing |
| `Arenas.Arena.Edit` | include/pcbir/core/arena.hpp:78-83 | overwriting through the returned pointer changes that one value and nothing else; a null pointer changes nothing |
| `Arenas.Arena.ForEach` | include/pcbir/core/arena.hpp:130-136 | the traversal visits exactly the live entities, in slot order |
| `Workspaces.StepRefines` | include/pcbir/core/workspace.hpp:25-64 | each operation on the shared, counted store acts on what every holder sees exactly like the same operation on private copies, and keeps every use count equal to the number of references |
| `Workspaces.SharingIsInvisible` | include/pcbir/core/detail/cow_table.hpp:21-30 | over every run the store with copy-on-write sharing shows each holder what it would see if nothing were ever shared |
| `Workspaces.SnapshotIsolation` | include/pcbir/core/workspace.hpp:58-64 | over every run a committed snapshot keeps showing exactly what it showed, whatever is done to any workspace afterwards, for as long as it is held |
| `Workspaces.SnapshotKept` | include/pcbir/core/snapshot.hpp:21-43 | over every run the tables of a snapshot stay the very same shared objects until it is dropped |
| `Workspaces.UneditedTablesAreShared` | include/pcbir/core/detail/cow_table.hpp:11-16 | a table that was not edited between two commits is one shared object in both snapshots, not a duplicate |
| `Workspaces.RunKeepsAddress` | include/pcbir/core/detail/cow_table.hpp:25-30 | over every run a table keeps its arena object as long as nobody writes that table of that holder or drops the holder |
| `Workspaces.WriteIsInvisible` | include/pcbir/core/detail/cow_table.hpp:25-30 | cloning before a write changes nothing that any holder can see |
| `Workspaces.WriteCopiesIffShared` | include/pcbir/core/detail/cow_table.hpp:23-30 | a table that nobody else holds is written in place, and a shared one in a new object |
| `Workspaces.AssignIsLocal` | include/pcbir/core/detail/cow_table.hpp:25-30 | mutating an arena whose use count is one changes that one table of that one holder and nothing else |
| `Workspaces.CommitRefines` | include/pcbir/core/workspace.hpp:58-64 | a commit adds a snapshot that shows what the workspace shows, under the advanced version, and counts its references |
| `Workspaces.VersionCountsCommits` | include/pcbir/core/workspace.hpp:61-64 | over every run, the version of a holder that is not dropped grows by one with each of its commits and with nothing else |
| `Workspaces.IdsNeverCollide` | include/pcbir/core/workspace.hpp:28-44 | after every run no id is live in two tables and every live id is below the allocator, also when restored ids arrive out of order |
| `Workspaces.InsertedIdsValid` | include/pcbir/core/workspace.hpp:39-44 | restoring a fresh id leaves the allocator past every live id if and only if the id is not the last 64-bit value |
| `Workspaces.ReplayReproduces` | src/pcbir/geometry/serialize.cpp:370-378 | replaying the listing of every table through `insert_with_id` into an empty workspace reproduces ids, values and iteration order, and leaves the allocator just past the largest id |
| `Workspaces.ReplayValid` | src/pcbir/geometry/serialize.cpp:370-378 | replaying any list of distinct ids gives a valid workspace |
| `Workspaces.ReplayAllocator` | include/pcbir/core/workspace.hpp:39-42 | after such a replay the allocator is one past the largest id, or one for an empty list |
| `Workspaces.NullIdIff` | include/pcbir/core/workspace.hpp:28-44 | over every run the null id was live at some point if and only if some step issued it: an insertion while the allocator stood at 0, or a restored id 0 |
| `Workspaces.AllocatorNeverNull` | include/pcbir/core/workspace.hpp:23-31 | without a default-constructed snapshot in the run no allocator ever stands at 0 |
| `Workspaces.BlankSnapshotIssuesNull` | include/pcbir/core/snapshot.hpp:23 | a workspace opened from a default-constructed snapshot, the default base of the importers, gives its first entity the null id |
| `Stores.Store.constructor` | include/pcbir/core/workspace.hpp:23 | a store starts with no holder and no arena |
| `Stores.Store.Write` | include/pcbir/core/detail/cow_table.hpp:25-30 | `write` gives a table whose use count is one: the same object if it was private, a clone otherwise |
| `Stores.Store.Insert` | include/pcbir/core/workspace.hpp:28-31 | the new entity gets the next id, in the table of this workspace only |
| `Stores.Store.InsertWithId` | include/pcbir/core/workspace.hpp:39-44 | the entity gets the given id and the allocator moves past it |
| `Stores.Store.Erase` | include/pcbir/core/workspace.hpp:46-48 | the entity leaves the table of this workspace only |
| `Stores.Store.Edit` | include/pcbir/core/workspace.hpp:50-52 | the value changes in this workspace only, and the table is private afterwards even when the handle was stale |
| `Stores.Store.Open` | include/pcbir/core/workspace.hpp:23 | a default workspace owns one new empty arena per component |
| `Stores.Store.Blank` | include/pcbir/core/snapshot.hpp:23 | a default-constructed snapshot owns one new empty arena per component and carries the allocator 0 |
| `Stores.Store.OpenFrom` | include/pcbir/core/workspace.hpp:25-26 | a workspace opened from a snapshot shares all its tables |
| `Stores.Store.Commit` | include/pcbir/core/workspace.hpp:61-64 | the version advances and a snapshot that shares every table is added |
| `Stores.Store.Drop` | include/pcbir/core/detail/cow_table.hpp:33 | dropping a holder releases its references, and an arena disappears with its last one |
| `SExprGrammar.ParseIffSpells` | src/pcbir/kicad/sexpr.cpp:17-144 | a text parses to a tree if and only if it spells that tree under a declarative grammar (maximal symbols, optional whitespace elsewhere, lone backslashes literal) and the tree nests at most 256 lists |
| `SExprGrammar.SameCharacters` | src/pcbir/kicad/sexpr.cpp:19-25 | whitespace is blank, tab, carriage return and line feed; besides these, parentheses and a quote end a symbol |
| `SExprGrammar.SpellsUnique` | src/pcbir/kicad/sexpr.cpp:59-133 | the grammar is unambiguous at any nesting: no text spells two trees |
| `SExprGrammar.WhitespaceInsensitive` | src/pcbir/kicad/sexpr.cpp:19-25 | two texts that spell the same tree parse alike, whatever whitespace they use |
| `SExprGrammar.WriteParseRoundTrip` | src/pcbir/kicad/sexpr.cpp:77-204 | writing any well-formed tree and parsing the text gives the tree back when it nests at most 256 lists, and the same text is rejected when it nests deeper |
| `SExprGrammar.ParseWriteParse` | src/pcbir/kicad/sexpr.cpp:142-204 | whatever the parser returns is well formed and survives being written and parsed again |
| `SExprs.Parser.ParseRoot` | src/pcbir/kicad/sexpr.cpp:34-45 | the root parser accepts one expression between optional whitespace and nothing else |
| `SExprs.Parser.SkipSpaces` | src/pcbir/kicad/sexpr.cpp:52-56 | the cursor stops at the first character that is not whitespace |
| `SExprs.Parser.ParseOne` | src/pcbir/kicad/sexpr.cpp:59-71 | the dispatch on the first character consumes exactly one expression or fails |
| `SExprs.Parser.ParseList` | src/pcbir/kicad/sexpr.cpp:77-96 | the list loop consumes exactly a list, restores the depth and fails beyond the depth limit |
| `SExprs.Parser.ParseString` | src/pcbir/kicad/sexpr.cpp:98-123 | the string loop consumes exactly a string literal and decodes its escapes |
| `SExprs.Parser.ParseSymbol` | src/pcbir/kicad/sexpr.cpp:125-133 | the symbol loop consumes the longest run without a terminator |
| `SExprs.ParseSexpr` | src/pcbir/kicad/sexpr.cpp:142-144 | the parser object computes the specified parse of every text |
| `SExprs.WriteAtom` | src/pcbir/kicad/sexpr.cpp:148-161 | the loop over the characters appends a symbol verbatim or a string with quotes and backslashes escaped |
| `SExprs.WriteNode` | src/pcbir/kicad/sexpr.cpp:168-195 | the loop over the children appends exactly the specified text of the node |
| `SExprs.WriteSexpr` | src/pcbir/kicad/sexpr.cpp:199-204 | the written text is the specified text of the root and a final newline |
| `WrittenExamples.LayoutExample` | src/pcbir/kicad/sexpr.cpp:163-204 | atoms stand on the line of their list behind single blanks; a list stands on a line of its own, two blanks deeper, and the list around it is closed on another line: an example in full |
| `Decimals.ParseIffDenotes` | src/pcbir/kicad/units.cpp:48-106 | a text parses to a value if and only if it is a decimal numeral whose value times 10^6, rounded half away from zero, is that value, for digit strings of any length; malformed or overflowing texts fail |
| `Decimals.MagnitudeIsNearest` | src/pcbir/kicad/units.cpp:82-103 | the digits after the sixth round the exact decimal value to the nearest integer, a tie away from zero |
| `Decimals.NearestUnique` | src/pcbir/kicad/units.cpp:93-96 | the nearest integer with that tie rule is unique |
| `Decimals.FormatParseRoundTrip` | src/pcbir/kicad/units.cpp:112-136 | parsing a written value gives it back for every 64-bit integer but the most negative one, whose text the parser rejects; the header claims every representable value |
| `Decimals.FormattedMagnitude` | src/pcbir/kicad/units.cpp:112-136 | the written text is a well-formed numeral of exactly the absolute value, also for the most negative value |
| `Decimals.FormatIsShortest` | src/pcbir/kicad/units.cpp:112-136 | no plus sign, no needless leading zero, no trailing zero, at most six decimals, and no point without a digit after it |
| `Decimals.DigitValues` | src/pcbir/kicad/units.cpp:20-26 | the ten digits are "0" to "9" and count from zero to nine |
| `Decimals.ScanDigits` | src/pcbir/kicad/units.cpp:57-59 | the scanning loop stops after the longest run of digits |
| `Decimals.AccumulateDigits` | src/pcbir/kicad/units.cpp:30-41 | the checked loop gives the value of the digit string, or fails exactly when it does not fit in 64 bits |
| `Decimals.ScaleFraction` | src/pcbir/kicad/units.cpp:85-96 | padding and rounding give the fraction in millionths, rounded at the seventh digit |
| `Decimals.ScanNumeral` | src/pcbir/kicad/units.cpp:49-75 | the cursor splits a text into sign, integer and fraction digits exactly when it is a numeral |
| `Decimals.ParseDecimalE6` | src/pcbir/kicad/units.cpp:48-106 | the whole loop-based parser computes the specified parse |
| `Decimals.WriteFraction` | src/pcbir/kicad/units.cpp:126-133 | the padded digits with trailing zeros popped are the specified fraction digits |
| `Decimals.FormatDecimalE6` | src/pcbir/kicad/units.cpp:112-136 | the loop-based writer produces the specified text |
| `Zones.ValidZoneRoundTrip` | src/pcbir/kicad/export.cpp:313-342 | every valid straight-edged polygon with holes whose coordinates are readable comes back span for span through the text of a file |
| `Zones.ZoneTextRoundTrip` | src/pcbir/kicad/import_zone.cpp:41-95 | every polygon of closed straight contours, whichever way they are wound, comes back through the text with its outline and its holes wound canonically, exactly when no coordinate is the most negative 64-bit value |
| `Zones.TreeRoundTrip` | src/pcbir/kicad/import_zone.cpp:82-95 | the same round trip on the tree alone |
| `Zones.ImportedWindings` | src/pcbir/kicad/import_zone.cpp:69-95 | whatever zone is read, its outline is not clockwise; every hole is clockwise exactly when it has area, where no shoelace sum overflows; and each contour is that of its polygon node, one way round or the other |
| `Zones.ParseOutlineIff` | src/pcbir/kicad/import_zone.cpp:82-95 | a zone is read if and only if it has a polygon node and every polygon node is read |
| `Zones.PolygonNodeIff` | src/pcbir/kicad/import_zone.cpp:41-67 | a polygon node is read if and only if its point list has at least three entries, all of them readable points; they become the vertices, in order, of a closed contour of straight edges |
| `WrittenExamples.ZoneExample` | src/pcbir/kicad/export.cpp:313-342 | the node of a triangle, child for child |
| `Zones.CanonicalHoleIsClockwise` | src/pcbir/kicad/import_zone.cpp:73-80 | without overflow a hole is clockwise after canonicalization if and only if its area is not zero |
| `Zones.FindAllChildren` | src/pcbir/kicad/sexpr_util.hpp:38-48 | the loop collects exactly the children with the tag, in order |
| `Zones.TagIsSymbol` | src/pcbir/kicad/sexpr_util.hpp:22-48 | only a symbol at the head of a list is a tag |
| `Zones.ParseZonePolygon` | src/pcbir/kicad/import_zone.cpp:41-67 | the point loop and the edge loop build the specified contour, or fail |
| `Zones.CollectPoints` | src/pcbir/kicad/import_zone.cpp:47-59 | the entries are read in order, and any entry other than a readable `xy` pair fails the whole list |
| `Zones.ClosePoints` | src/pcbir/kicad/import_zone.cpp:61-66 | each point is joined to the next one and the last to the first |
| `Zones.CanonicalizeHoleWinding` | src/pcbir/kicad/import_zone.cpp:73-80 | the hole is canonicalized and then reversed in place |
| `Zones.ParseZoneOutline` | src/pcbir/kicad/import_zone.cpp:82-95 | the first polygon becomes the outline, the others holes; any failure fails the zone |
| `Zones.ExportZonePolygon` | src/pcbir/kicad/export.cpp:313-324 | a straight contour is written as its start points in order; an arc span is an error |
| `Zones.ExportZoneEntry` | src/pcbir/kicad/export.cpp:326-342 | the zone node lists net, layer, the uuid derived from the pour id, outline and holes in that order; an arc anywhere is an error |
| `Identifiers.NamesDistinct` | src/pcbir/kicad/export.cpp:330 | behind the prefix of one kind of entity, different ids give different names to derive the uuid from |
| `WrittenExamples.PourExample` | src/pcbir/kicad/export.cpp:330 | the name that the uuid of pour 5 is derived from |
| `Contours.ContainsIsRightParity` | src/pcbir/geometry/contour.cpp:70-91 | the even-odd test is the parity of the edges that meet the rightward ray, as real geometry in the plane, and false when a cross product overflows |
| `Contours.LeftAndRightAgree` | src/pcbir/geometry/contour.cpp:70-91 | for a point on no chord the leftward ray has the same parity |
| `Contours.OutsideBoxNotContained` | src/pcbir/geometry/contour.cpp:70-91 | no point outside the bounding box of the vertices is ever contained |
| `Contours.ContainmentReversed` | src/pcbir/geometry/contour.cpp:70-91 | reversing the direction of travel does not change containment |
| `Contours.ContainmentRotated` | src/pcbir/geometry/contour.cpp:70-91 | starting the contour at another vertex does not change containment, whichever edge the loop starts at |
| `Contours.ContourStrictlyContains` | src/pcbir/geometry/contour.cpp:70-91 | the toggling loop computes the specified verdict, including the early exit on overflow |
| `Contours.ReversalNegatesArea` | src/pcbir/geometry/contour.cpp:93-121 | reversing a continuous closed contour negates its shoelace sum |
| `Contours.ComputeOrientation` | src/pcbir/geometry/contour.cpp:93-121 | the checked loop answers the sign of the exact shoelace sum, and degenerate when any step overflows |
| `Windings.OneSidedOrientation` | src/pcbir/geometry/contour.cpp:93-121 | which turn is which: a closed contour with every vertex on the closed left of every chord, and one strictly on the left, is counterclockwise, and on the right it is clockwise, where the shoelace sum fits |
| `Windings.RectangleOrientation` | src/pcbir/geometry/contour.cpp:93-121 | a rectangle visited lower left, lower right, upper right, upper left is counterclockwise and its reversal clockwise; its sum is twice width times height |
| `Contours.CanonicalIsNeverClockwise` | src/pcbir/kicad/coordinate_util.hpp:257-265 | canonicalization never returns a clockwise contour, even when an overflow makes one of the two orientations degenerate |
| `Contours.CanonicalIsCounterClockwise` | src/pcbir/kicad/coordinate_util.hpp:257-265 | without overflow the canonical contour is counterclockwise if and only if the area is not zero |
| `Contours.CanonicalizeWinding` | src/pcbir/kicad/coordinate_util.hpp:257-265 | a clockwise contour is reversed and every other one is returned as it is |
| `Contours.ReverseSpansInPlace` | src/pcbir/kicad/coordinate_util.hpp:259-262 | the in-place loop after the list reversal gives the reversed contour |
| `Contours.ValidMeans` | src/pcbir/geometry/contour.cpp:123-160 | the verdict is valid if and only if there are three spans, every span ends where the next starts, every arc is a circle arc and no two non-adjacent chords properly cross |
| `Contours.VerdictMeans` | src/pcbir/geometry/contour.cpp:123-160 | and the other verdicts: too few spans come first, then the defect of the first span that has one, and crossings come last |
| `Contours.ValidIsNoOverflow` | include/pcbir/geometry/contour.hpp:56-63 | an overflow never makes a contour valid: in a valid one every orientation test and every distance that is looked at has a value |
| `Contours.SpanDefectMeans` | src/pcbir/geometry/contour.cpp:129-142 | of one span the arc is looked at first, then the gap behind it |
| `Contours.AdjacentMeansNext` | src/pcbir/geometry/contour.cpp:52-55 | two spans are adjacent exactly when one follows the other, round the end too |
| `Contours.ValidateContour` | src/pcbir/geometry/contour.cpp:123-160 | the loop over the spans and the two nested loops over the pairs give the specified verdict |
| `ContourInvariance.CrossingMeansMeeting` | src/pcbir/geometry/contour.cpp:58-68 | where none of the four orientation tests overflows, the sign test answers whether the two open chords meet transversally at a point of the plane |
| `ContourInvariance.CrossingIsExact` | src/pcbir/geometry/contour.cpp:33-68 | and it is then exact: each chord has its ends strictly on the two sides of the other |
| `ContourInvariance.CompactFits` | src/pcbir/geometry/contour.cpp:33-68 | no test that validate may make of a contour overflows when no two of its points are further than 2.1 m apart in a coordinate |
| `ContourInvariance.ValidityTranslated` | src/pcbir/geometry/contour.cpp:123-160 | translation does not change the validity verdict of any contour, down to which defect is reported, whether or not a test overflows |
| `ContourInvariance.ValidityRotated` | src/pcbir/geometry/rotate.cpp:47-63 | nor does any multiple of a quarter turn about any origin, where no test overflows before or after |
| `ContourInvariance.ValidityReversed` | src/pcbir/geometry/contour.cpp:123-160 | where no test overflows in either direction, a contour is valid if and only if its reversal is |
| `ContourInvariance.OrientationOfImage` | src/pcbir/geometry/contour.cpp:93-121 | translations and quarter turns keep the orientation wherever both computations overflow or neither does |
| `ContourInvariance.AreaOfImage` | src/pcbir/geometry/contour.cpp:93-121 | and the exact area always |
| `ContourInvariance.TranslateIsImage` | src/pcbir/kicad/coordinate_util.hpp:271-292 | translation moves every point of every span by exactly the offset when nothing overflows |
| `ContourInvariance.RotateIsImage` | src/pcbir/geometry/rotate.cpp:84-115 | rotation by a multiple of 90 degrees is the exact rigid motion when nothing overflows |
| `ContourInvariance.QuarterTurnIsLeft` | src/pcbir/geometry/rotate.cpp:47-63 | a positive quarter turn is counterclockwise: the image of a point is at a right angle to it, on its left, and as far away |
| `ContourInvariance.TurnsCompose` | src/pcbir/geometry/rotate.cpp:47-63 | the other quarter turns are that one, repeated |
| `ContourInvariance.QuarterTurnsIff` | src/pcbir/geometry/rotate.cpp:35-63 | the exact path is taken for the multiples of 90 degrees, with as many quarter turns |
| `Transforms.Translate` | src/pcbir/kicad/coordinate_util.hpp:284-292 | the pushing loop gives the translated contour |
| `Transforms.Rotate` | src/pcbir/geometry/rotate.cpp:108-115 | the pushing loop gives the rotated contour, on the exact quarter-turn path |
| `Transforms.TranslateWithHoles` | src/pcbir/kicad/coordinate_util.hpp:294-303 | the loop over the holes gives the polygon with every contour translated |
| `Transforms.RotateWithHoles` | src/pcbir/geometry/rotate.cpp:117-125 | the loop over the holes gives the polygon with every contour rotated |
| `Transforms.NormalizeAngle` | src/pcbir/geometry/rotate.cpp:27-33 | the result is the representative of the angle in one full turn, for negative angles too |
| `Polygons.ValidPolygonMeans` | src/pcbir/geometry/polygon.cpp:30-52 | a polygon is valid if and only if its outline is valid and counterclockwise, and every hole is valid, clockwise, crosses no outline chord and starts inside the outline |
| `Polygons.HoleDefectMeans` | src/pcbir/geometry/polygon.cpp:38-49 | what is reported about a hole, in the order in which it is looked at |
| `Polygons.ValidateWithHoles` | src/pcbir/geometry/polygon.cpp:30-52 | the loop over the holes gives the specified verdict |
| `Polygons.AvoidsCrossing` | src/pcbir/geometry/polygon.cpp:15-26 | the nested loops answer whether no chord of the hole properly crosses one of the outline |
| `PolygonInvariance.ContainmentOfImage` | src/pcbir/geometry/contour.cpp:70-91 | under a translation and quarter turns the containment verdict changes if and only if an odd number of edges through the point is carried over to the side that counts them; a translation needs no condition, a turn that no edge test overflows |
| `PolygonInvariance.ContainmentKept` | src/pcbir/geometry/contour.cpp:70-91 | so it never changes under a translation, nor for a point that no edge passes through, although the turned ray is another one |
| `PolygonInvariance.EdgePointIsDisturbed` | include/pcbir/geometry/contour.hpp:67-74 | the header leaves points on the boundary open; a point on the left edge of a square counts as inside, and no longer after half a turn, for every size up to 2.1 m and every such point |
| `PolygonInvariance.PolygonTranslated` | src/pcbir/geometry/polygon.cpp:30-52 | translation does not change the verdict on a polygon with holes, down to the defect that is reported, where each shoelace sum overflows both before and after or not at all |
| `PolygonInvariance.PolygonRotated` | src/pcbir/geometry/polygon.cpp:30-52 | a multiple of 90 degrees does not either while no hole starts on an edge that is carried over, and a valid polygon stays valid only then |
| `PolygonInvariance.ValidPolygonOfImageIff` | src/pcbir/geometry/polygon.cpp:30-52 | the same for every translation and quarter turn, as an if-and-only-if |
| `PolygonInvariance.OffChordsIsUndisturbed` | src/pcbir/geometry/contour.cpp:70-91 | no hole that starts off the closed chords of the outline, in the real plane, is disturbed by any quarter turn |
| `SpatialIndexes.SpatialIndex.Query` | src/pcbir/geometry/spatial_index.cpp:64-97 | after any sequence of insertions the bucketed query returns exactly the brute-force list of intersecting boxes, for all signed coordinates and every positive cell size |
| `SpatialIndexes.SpatialIndex.Insert` | src/pcbir/geometry/spatial_index.cpp:45-62 | the box is appended and filed in exactly the cells it covers; the returned index is its insertion number |
| `SpatialIndexes.SpatialIndex.constructor` | src/pcbir/geometry/spatial_index.cpp:40-42 | a new index is empty |
| `SpatialIndexes.SpatialIndex.Candidates` | src/pcbir/geometry/spatial_index.cpp:75-85 | the cell loops gather every box that meets the region, possibly with repeats, and only inserted boxes |
| `SpatialIndexes.SpatialIndex.Narrowed` | src/pcbir/geometry/spatial_index.cpp:89-95 | the filtering loop keeps exactly the candidates that intersect, in ascending order |
| `SpatialIndexes.BruteForceMembers` | include/pcbir/geometry/spatial_index.hpp:38-40 | the brute-force list holds exactly the intersecting boxes, strictly ascending and so without duplicates |
| `SpatialIndexes.IntersectingBoxesShareCell` | src/pcbir/geometry/spatial_index.cpp:70-85 | two intersecting boxes always cover a common grid cell |
| `SpatialIndexes.LoopsStopUnlessAtLimit` | src/pcbir/geometry/spatial_index.cpp:57-61 | the cell loops run past the last 64-bit cell coordinate only for one-nanometre cells and a box at the very end of the range |
| `SpatialIndexes.FloorDivIsFloor` | src/pcbir/geometry/spatial_index.cpp:21-28 | the corrected quotient names the one half-open interval that holds the dividend, also for negative dividends |
| `SpatialIndexes.Sort` | src/pcbir/geometry/spatial_index.cpp:86 | the candidates are put in order and none is added or lost |
| `SpatialIndexes.Unique` | src/pcbir/geometry/spatial_index.cpp:87 | of each run of equal candidates one remains |
| `SpatialIndexes.IntersectsIffCommonPoint` | include/pcbir/geometry/bbox.hpp:24-30 | two boxes intersect if and only if they have a point in common |
| `SpatialIndexes.UnionIsLeast` | include/pcbir/geometry/bbox.hpp:34-45 | the union lies within a box exactly when both operands do |
| `BezierErrors.VertexError` | src/pcbir/geometry/bezier.cpp:16-45 | vertex k after d bisections is within 3d/2 nanometres, in each coordinate, of the exact cubic at k/2^d, as a real polynomial |
| `BezierErrors.PolylineError` | include/pcbir/geometry/bezier.hpp:23-33 | between the vertices too: the point at parameter s of segment k is, in each coordinate, within 3d/2 nm plus three quarters of the second differences of the control points over 4^d of the exact cubic at (k + s)/2^d |
| `BezierErrors.MicrometreMet` | include/pcbir/geometry/bezier.hpp:23-33 | at depth 10 every point of the polyline is within the documented micrometre of the curve at the same parameter, in each coordinate, for every curve whose largest second difference is at most 1.377 m |
| `BezierErrors.MicrometreMissed` | include/pcbir/geometry/bezier.hpp:23-33 | for every curve whose largest second difference is at least 1.410 m, the middle of the first or of the last segment misses it |
| `BezierErrors.MicrometreClaimFails` | include/pcbir/geometry/bezier.hpp:23-33 | nor does the distance to the whole curve keep the promise over the whole coordinate range: a concrete arch on which no sum overflows has a polyline point more than a micrometre away from every point of the exact curve |
| `Cubics.ChordError` | src/pcbir/geometry/bezier.cpp:28-45 | the chord of a bisected cubic is within three quarters of the second differences over 4^d of the curve above it |
| `Beziers.ReversedCurve` | src/pcbir/geometry/bezier.cpp:28-45 | flattening the reversed curve gives the reversed polyline, rounding included, for all inputs |
| `Beziers.NegatedLeaves` | src/pcbir/geometry/bezier.cpp:16-45 | flattening a curve turned by half a turn about the origin gives the turned polyline, so the midpoints are rounded toward zero on both sides of it, when no sum overflows |
| `Beziers.VerticesStayInBox` | src/pcbir/geometry/bezier.cpp:28-45 | every vertex stays in every box that contains the four control points, when no sum overflows |
| `Beziers.SumsFitIff` | src/pcbir/geometry/bezier.cpp:16-19 | no coordinate sum overflows at any depth if and only if the middle sum fits and the two endpoint chains do |
| `Beziers.HalfRangeCurveFits` | src/pcbir/geometry/bezier.cpp:16-19 | control points in half of the coordinate range never overflow |
| `Beziers.FullRangeOverflows` | include/pcbir/geometry/bezier.hpp:23-33 | the header includes curves over the full coordinate range; at every depth a curve resting at one far point is flattened through the origin |
| `Beziers.TraceIsConnected` | include/pcbir/geometry/bezier.hpp:36-38 | the segments run connected from the first control point to the last |
| `Beziers.FlattenCubicBezier` | src/pcbir/geometry/bezier.cpp:47-61 | exactly 1024 segments through the vertices of ten bisections |
| `Beziers.Subdivide` | src/pcbir/geometry/bezier.cpp:28-45 | the recursion appends exactly the leaf endpoints, in curve order |
| `PadShapes.PadOutlineValidIff` | src/pcbir/kicad/pad_shape.hpp:36-46 | the header promises a valid polygon for all parameters; where nothing overflows the outline is valid if and only if no side of a rectangle, circle or trapezoid rounds to nothing, an oval has a straight part of at least 2 nm or is a circle, a positive radius is at most half of each positive side of which there is one, and half a delta is at most the half side it shears; only an unequal circle throws |
| `PadShapes.InRangeFits` | src/pcbir/kicad/pad_shape.hpp:36-46 | nothing overflows when no side, radius or delta exceeds half a metre |
| `PadShapes.OverflowIsInvalid` | src/pcbir/geometry/contour.cpp:93-121 | an outline whose shoelace sum overflows is never valid, whatever its shape |
| `PadShapes.OversizedRadius` | src/pcbir/kicad/pad_shape.cpp:143-184 | a rounded rectangle of side 10 with radius 6 is built without complaint and crosses itself |
| `PadShapes.HourglassIsValid` | src/pcbir/kicad/pad_shape.cpp:143-184 | a rounded rectangle of width 0, height 10 and radius 3, more than half of a side, is an hourglass and valid |
| `PadShapes.OctagonNeverCrosses` | src/pcbir/kicad/pad_shape.cpp:143-184 | of any two corner or edge chords that share no end, one keeps the other on one side, whenever the radius is at most half of each positive side and there is one |
| `PadShapes.OctagonCrosses` | src/pcbir/kicad/pad_shape.cpp:143-184 | for every other radius two chords of the outline properly cross |
| `Windings.OneSidedNeverCrosses` | src/pcbir/geometry/contour.cpp:144-157 | a closed contour all of whose vertices lie on one closed side of every chord has no proper crossing |
| `PadShapes.RectPad` | src/pcbir/kicad/pad_shape.cpp:41-50 | a rectangle is valid exactly when both sides are at least 2 nm in absolute value |
| `PadShapes.CirclePad` | src/pcbir/kicad/pad_shape.cpp:62-87 | a circle is valid exactly when its diameter is at least 2 nm in absolute value |
| `PadShapes.OvalPad` | src/pcbir/kicad/pad_shape.cpp:92-134 | an oval is valid exactly when it is a circle, or its smaller side and the difference of its sides are at least 2 nm |
| `PadShapes.RoundRectPad` | src/pcbir/kicad/pad_shape.cpp:143-184 | for all sides, a rounded rectangle with a positive radius is valid exactly when some half side is positive and the radius is at most each half side that is; without a radius exactly when it is a valid rectangle |
| `PadShapes.TrapezoidPad` | src/pcbir/kicad/pad_shape.cpp:195-226 | a trapezoid is valid exactly when half its delta is at most half of the side it shears, and no side vanishes |
| `PadShapes.BuildOval` | src/pcbir/kicad/pad_shape.cpp:92-134 | the in-place exchange of coordinates of a tall oval gives the transposed wide one, arc directions unchanged |
| `PadShapes.BuildPadOutline` | src/pcbir/kicad/pad_shape.cpp:246-266 | the dispatch builds the outline of the requested shape, canonically wound |
| `PadCurves.PadFillsItsSize` | src/pcbir/kicad/pad_shape.cpp:246-266 | the outline of a rectangle, a circle, a rounded rectangle with a radius of at most half of each side, or an oval that is not taller than wide reaches half the height up and down and half the width to both sides, and no further; of an oval up to one nanometre of width |
| `PadCurves.TallOvalFallsShort` | src/pcbir/kicad/pad_shape.cpp:119-132 | an oval that is taller than wide does not: the exchange of coordinates keeps the directions of its caps, so they bulge inward and the outline stays below half the height |
| `PadCurves.OvalFillsIff` | src/pcbir/kicad/pad_shape.cpp:92-134 | an oval whose sides are at least 2 nm and not 1 nm taller than wide reaches half its height if and only if it is not taller than wide |
| `PadCurves.WideCaps` | src/pcbir/kicad/pad_shape.cpp:106-118 | the caps of a wide oval bulge outward |
| `PadCurves.TrapezoidReach` | src/pcbir/kicad/pad_shape.cpp:193-226 | a trapezoid reaches half a delta further on its longer side |
| `PadCurves.RectCorners` | src/pcbir/kicad/pad_shape.cpp:41-50 | the corners of a rectangle are exactly the four points at half its width and half its height, joined by four straight edges along the axes |
| `PadCurves.TrapezoidCorners` | src/pcbir/kicad/pad_shape.cpp:193-226 | those of a trapezoid are half a delta further out at the left or at the top, and half a delta further in on the other side |
| `PadCurves.CircleIsRound` | src/pcbir/kicad/pad_shape.cpp:62-87 | a circle is four quarter arcs of its radius round the origin, each counterclockwise and each behind the one before |
| `PadCurves.CircleIsCounterClockwise` | src/pcbir/kicad/pad_shape.cpp:62-87 | so it is counterclockwise and is not reversed |
| `PadCurves.RoundedParts` | src/pcbir/kicad/pad_shape.cpp:143-184 | a rounded rectangle consists, in turn, of straight edges on its sides and of quarter arcs of the given radius whose centers are one radius inside the sides |
| `PadCurves.ReversedArc` | src/pcbir/kicad/coordinate_util.hpp:240-250 | an arc travelled the other way turns the other way, sweeps as far and, when it is half a circle, passes through the same middle |
| `PadCurves.HalfRounds` | src/pcbir/kicad/pad_shape.cpp:42-43 | half of a side is rounded toward zero |
| `PadPlacements.PlacementKeepsVerdicts` | src/pcbir/kicad/import_footprint.cpp:226-228 | validity and orientation of any outline are unchanged by that placement, where the motion and the tests do not overflow |
| `PadPlacements.PlacedPadValidIff` | src/pcbir/kicad/import_footprint.cpp:226-228 | where nothing overflows on the way, the placed outline of a pad is a valid polygon for exactly the acceptable parameters |
| `PadPlacements.PlacedPadIsValid` | src/pcbir/kicad/import_footprint.cpp:226-228 | in particular an acceptable pad of at most half a metre is still a valid polygon after it has been turned by a multiple of 90 degrees and moved anywhere within a metre of the origin |
| `PadPlacements.PlacedPoint` | src/pcbir/kicad/import_footprint.cpp:226-228 | a pad is turned about its own origin before it is moved to its position |
| `Sha1Streaming.Sha1.Update` | src/pcbir/kicad/uuid.cpp:25-34 | the state depends only on the concatenation of everything given, however the message is cut into pieces |
| `Sha1Streaming.Sha1.Push` | src/pcbir/kicad/uuid.cpp:26-33 | one byte is buffered, and a full block is compressed into the chained words |
| `Sha1Streaming.Sha1.Finish` | src/pcbir/kicad/uuid.cpp:36-56 | the digest is that of section 6.1 of RFC 3174 on the whole message padded as in section 4 |
| `Sha1Streaming.Sha1.PushZeros` | src/pcbir/kicad/uuid.cpp:39-41 | the padding loop terminates, after exactly the zeros of section 4 |
| `Sha1Streaming.Sha1.LengthBytes` | src/pcbir/kicad/uuid.cpp:42-45 | the shifting loop gives the length as eight big-endian bytes |
| `Sha1Streaming.Sha1.ProcessBlock` | src/pcbir/kicad/uuid.cpp:63-108 | one block changes the five words as steps a to e of section 6.1 say |
| `Sha1Streaming.Sha1.ExpandSchedule` | src/pcbir/kicad/uuid.cpp:64-73 | the eighty schedule words are those of steps a and b |
| `Sha1Streaming.Sha1.RunRounds` | src/pcbir/kicad/uuid.cpp:75-102 | the working variables after the loop are those of eighty rounds of step d |
| `Sha1Streaming.Sha1.constructor` | src/pcbir/kicad/uuid.cpp:110-113 | a new hasher has absorbed the empty message |
| `Sha1Streaming.Sha1.SumInAnyOrder` | src/pcbir/kicad/uuid.cpp:96 | adding the round constant before the schedule word, as the code does, gives the sum of RFC 3174 |
| `Sha1Examples.DigestOfAbc` | src/pcbir/kicad/uuid.cpp:36-113 | the digest of "abc" is the one that section 7.3 of RFC 3174 lists, worked out word by word |
| `Sha1Spec.WordSpells` | src/pcbir/kicad/uuid.cpp:66-69 | a schedule word is the number its four bytes spell, the first byte counting most, and its bytes give it back |
| `Sha1Spec.WordOfBytes` | src/pcbir/kicad/uuid.cpp:49-54 | and every word is the word of its four digest bytes |
| `Sha1Spec.RotationOfBits` | src/pcbir/kicad/uuid.cpp:59-61 | the shifts rotate a ring of 32 bits to the left |
| `Sha1Spec.ChooseSelects` | src/pcbir/kicad/uuid.cpp:84 | bit by bit, the first logical function selects its second or third argument by its first |
| `Sha1Spec.MajorityVotes` | src/pcbir/kicad/uuid.cpp:90 | bit by bit, the third one is what two arguments agree on |
| `Sha1Spec.ParityCounts` | src/pcbir/kicad/uuid.cpp:87 | bit by bit, the second and the fourth count ones |
| `Sha1Spec.ConstantsAreRoots` | src/pcbir/kicad/uuid.cpp:85-94 | the four round constants are the integer parts of 2^30 times the square roots of 2, 3, 5 and 10 |
| `Sha1Spec.InitialWordsCount` | src/pcbir/kicad/uuid.cpp:110 | from the lowest byte on, the initial words count up from 01 to EF, down from FE to 10, and on with F0, E1, D2, C3 |
| `Sha1Spec.PaddingLayout` | src/pcbir/kicad/uuid.cpp:36-46 | behind the message stand a one bit, zeros and the length in bits, in the fewest whole blocks |
| `Sha1Spec.PaddingIsInjective` | src/pcbir/kicad/uuid.cpp:36-46 | within the length limit of section 4, two messages that are padded alike are the same message |
| `Sha1Spec.BigEndianAt` | src/pcbir/kicad/uuid.cpp:44 | each length byte is the length shifted right by the bytes after it |
| `Sha1Spec.BigEndianSpells` | src/pcbir/kicad/uuid.cpp:42-45 | the length bytes spell the length |
| `Uuids.ParseFormat` | src/pcbir/kicad/uuid.cpp:129-161 | parsing the text of sixteen bytes gives the bytes back |
| `Uuids.HexTextSpells` | src/pcbir/kicad/uuid.cpp:148-161 | the digits spell in hexadecimal the number that the bytes spell, most significant first |
| `Uuids.ParseSpells` | src/pcbir/kicad/uuid.cpp:129-146 | the bytes that are read spell the number of the digits |
| `Uuids.NibbleOfEitherCase` | src/pcbir/kicad/uuid.cpp:116-127 | the digits of either case count from zero to fifteen |
| `Uuids.FormatParse` | src/pcbir/kicad/uuid.cpp:129-161 | writing what was parsed gives the text back exactly for the lower-case standard form: 36 characters, hyphens at 8, 13, 18 and 23, lower-case hex digits elsewhere |
| `Uuids.ParseIffDigits` | src/pcbir/kicad/uuid.cpp:129-146 | a text is accepted if and only if it holds exactly 32 characters besides hyphens and all of them are hex digits of either case |
| `Uuids.ParseKeepsPromiseIff` | src/pcbir/kicad/uuid.hpp:30-31 | the header promises an error for every text that is not of the 36-character form; for every text the parser keeps that promise if and only if the text is of that form or does not hold 32 hex digits besides hyphens |
| `Uuids.ParseInPlaceIff` | src/pcbir/kicad/uuid.hpp:30-31 | whenever the hyphens stand at exactly the four places, a text is accepted if and only if it is of the promised form |
| `Uuids.ParseWithoutHyphens` | src/pcbir/kicad/uuid.hpp:30-31 | for instance, 32 digits without hyphens are read although they are not of the standard form |
| `Uuids.ParseUuid` | src/pcbir/kicad/uuid.cpp:129-146 | the two loops compute the specified parse, and fail unless exactly 32 hex digits remain |
| `Uuids.FormatUuid` | src/pcbir/kicad/uuid.cpp:148-161 | the loop with its four hyphens produces the five-group layout |
| `Uuids.UuidV5` | src/pcbir/kicad/uuid.cpp:170-191 | every namespace text of the standard form is accepted, and besides exactly those that hold 32 hex digits; the result is the section 4.3 identifier of RFC 4122: standard text, version and variant fields set, all other bits those of the digest of namespace and name |
| `Uuids.Stamped` | src/pcbir/kicad/uuid.cpp:184-189 | the two stamps set the version to 5 and the variant to RFC 4122 and keep every other bit |
| `Uuids.Version5Digits` | src/pcbir/kicad/uuid.cpp:188-190 | the version digit of the text is 5 and its variant digit is 8, 9, a or b |
| `Footprints.FootprintRoundTrip` | src/pcbir/kicad/export_footprint.cpp:268-333 | under one stackup and one net table, for footprints turned by multiples of 90 degrees, reading a written footprint gives its texts, its position, its rotation modulo a full turn, its side and every pad with its outline if and only if every outline can be built and every layer has a copper name; one circle of unequal sides or one pad on a layer without such a name makes it unreadable |
| `Footprints.FootprintTextRoundTrip` | src/pcbir/kicad/export_footprint.cpp:268-333 | the same through the text of a file, whatever the texts and numbers of the footprint are: the tree always comes back |
| `Footprints.FootprintSound` | src/pcbir/kicad/export_footprint.cpp:268-333 | a written footprint is a well-formed tree that nests three lists, whatever its texts and numbers are |
| `Footprints.ExportedIff` | src/pcbir/kicad/export_footprint.cpp:299-330 | the export fails exactly when the layer or the net of some pad is not listed, or a corner radius overflows |
| `Footprints.ExportFootprintEntry` | src/pcbir/kicad/export_footprint.cpp:268-333 | the loop gives library name, layer, derived uuid, placement, the two properties and the pads in that order, or the ExportError of the first pad that has one |
| `Footprints.ImportFootprintEntry` | src/pcbir/kicad/import_footprint.cpp:290-322 | one iteration gives the specified footprint: layer and placement first, then the pads, with the outcome of the first pad that is not imported |
| `Footprints.CollectPads` | src/pcbir/kicad/import_footprint.cpp:303-313 | the loop over the pads collects them in order up to the first that is not imported |
| `Footprints.ImportPadsMeans` | src/pcbir/kicad/import_footprint.cpp:303-313 | all pads are read, each on its own and in order, or the footprint is not |
| `Footprints.ImportedFootprintMeans` | src/pcbir/kicad/import_footprint.cpp:290-322 | whatever entry it is: without a layer, a position or a readable angle it is refused, and what is read was in the file |
| `Footprints.FindPropertyValue` | src/pcbir/kicad/import_footprint.cpp:46-54 | the value of the first property with the key, or the empty text |
| `Footprints.FirstPropertyMeans` | src/pcbir/kicad/import_footprint.cpp:46-54 | it is the value of the first property with the key that has one, and empty if there is none |
| `Footprints.SidesMean` | src/pcbir/kicad/import_footprint.cpp:299-301 | only the layer B.Cu means the bottom side, and the sides are written as F.Cu and B.Cu |
| `WrittenExamples.FootprintExample` | src/pcbir/kicad/export_footprint.cpp:268-297 | what is written in front of the pads of a footprint on the bottom side, child for child |
| `PadCodecs.PadSound` | src/pcbir/kicad/export_footprint.cpp:202-240 | a written pad is a well-formed tree that nests at most two lists, for every number, layer, net and uuid text |
| `PadCodecs.PadRoundTrip` | src/pcbir/kicad/import_footprint.cpp:194-247 | under one stackup and one net table each pad keeps its number, its absolute position to the nanometre, its rotation modulo a full turn and its shape, and gets the outline of that shape and the layer and the net its names lead to, if and only if its outline can be built and the name of its layer ends in ".Cu", is not "*.Cu" and does not lead to the null id; it is refused exactly when one of these fails, except that outline arithmetic may overflow first |
| `PadCodecs.TopPadIsRefused` | src/pcbir/kicad/import_footprint.cpp:174-188 | a rectangle on a copper layer called "Top", which the exporter foresees, is exported and its own import fails |
| `PadCodecs.PadKeepsIdsIff` | src/pcbir/kicad/coordinate_util.hpp:308-317 | layer and net keep their ids if and only if no later layer and no earlier net has the same name |
| `PadCodecs.ImportedPadMeans` | src/pcbir/kicad/import_footprint.cpp:198-247 | what a pad that is read was in the file, whatever file it is: number, type, shape keyword, placement, size, ratio or delta, net and layer, and the outline of these parameters |
| `PadCodecs.PadTypes` | src/pcbir/kicad/import_footprint.cpp:215-284 | a pad of the type connect is read like one of the type smd, a drilled pad takes another branch, and every other type is refused |
| `PadCodecs.ShapeKeywords` | src/pcbir/kicad/import_footprint.cpp:56-77 | the five keywords and the shapes they stand for |
| `WrittenExamples.PadExample` | src/pcbir/kicad/export_footprint.cpp:202-240 | the node of a rounded rectangle, child for child |
| `PadCodecs.UnequalCircleIsRefused` | src/pcbir/kicad/pad_shape.cpp:249-252 | a circle of sides 10 and 20 on the layer F.Cu is exported and its own import fails |
| `PadCodecs.PlacedOutlineSurvives` | src/pcbir/kicad/import_footprint.cpp:226-228 | a pad turned by a multiple of 90 degrees that can be imported gets back, span for span, the outline on the board that its parameters have, whenever its corner radius, if it has one, is reproduced |
| `PadCodecs.SameOutlineIff` | src/pcbir/kicad/export_footprint.cpp:173-181 | the outline before placement comes back span for span if and only if the shape has no positive corner radius or that radius is reproduced |
| `PadCodecs.LocalPointInverts` | src/pcbir/kicad/coordinate_util.hpp:511-517 | turning an absolute point into a footprint-local one and back is exact for quarter turns |
| `PadCodecs.AtRoundTrip` | src/pcbir/kicad/coordinate_util.hpp:222-232 | every rotation survives export text and import modulo 360 degrees, and so does every readable position |
| `PadCodecs.FileAnglesAreClockwise` | src/pcbir/kicad/coordinate_util.hpp:206-232 | a file counts angles clockwise: what is written makes a full turn with the rotation and lies between zero and a full turn, and is missing exactly for whole turns; what is read makes a full turn with the text |
| `PadCodecs.StoredNinetyTurnsDown` | src/pcbir/kicad/coordinate_util.hpp:206-221 | a stored angle of 90 degrees moves a point on the positive x axis to the negative y axis, as the comment says |
| `PadCodecs.RadiusCycle` | src/pcbir/kicad/export_footprint.cpp:182-192 | for every 64-bit radius and both sides: the export fails exactly when the smaller side is positive and the radius times 10^6 overflows, and the import never fails; a side that is not positive loses the radius, a positive one takes the ceiling of ((its magnitude times 10^6) modulo the side) over 10^6 off its magnitude; the radius is reproduced if and only if it is 0, or the side is positive and divides its magnitude times 10^6 |
| `PadCodecs.ThirdOfUnitIsLost` | src/pcbir/kicad/export_footprint.cpp:173-181 | the comment promises the same radius on every reload; radius 1 on a side of 3 comes back as 0 |
| `PadCodecs.SettledIsStable` | src/pcbir/kicad/import_footprint.cpp:132-141 | repeated cycles of every exportable radius reach one that survives unchanged |
| `Lookups.FindLayerIdByName` | src/pcbir/kicad/coordinate_util.hpp:308-317 | the visit over all layers gives the last one of the name, or the null id |
| `Lookups.BuildNetIndex` | src/pcbir/kicad/coordinate_util.hpp:416-422 | the index maps every name to the first net of that name |
| `Lookups.ParseLayerNames` | src/pcbir/kicad/coordinate_util.hpp:323-330 | the texts behind the tag, in order |
| `Lookups.ResolvePadCopperLayer` | src/pcbir/kicad/import_footprint.cpp:174-188 | the first listed name that ends in ".Cu", is not "*.Cu" and is in the stackup gives the layer; otherwise it fails |
| `Lookups.FirstCopperMeans` | src/pcbir/kicad/import_footprint.cpp:180-187 | the layer is that of the first listed copper name in the stackup, and there is none without such a name |
| `Lookups.CopperNames` | src/pcbir/kicad/import_footprint.cpp:181 | a copper name is something other than a lone star in front of ".Cu" |
| `Lookups.NetReadIff` | src/pcbir/kicad/coordinate_util.hpp:431-443 | without a named net an entry is unconnected; a name that no net has is refused; any other leads to the first net of that name |
| `Lookups.SideLayers` | src/pcbir/kicad/export_footprint.cpp:67-78 | mask and paste are those of the side that the name of the copper layer starts with; without a side there is only the copper layer |
| `Lookups.WrittenLayer` | src/pcbir/kicad/export_footprint.cpp:67-78 | of the names written for a copper layer only that of the layer itself can be looked up, so they lead to the last layer of that name if it is a copper name, and nowhere otherwise |
| `Lookups.LayerComesBackIff` | src/pcbir/kicad/coordinate_util.hpp:308-317 | the name of a layer leads back to it if and only if no later layer has the same name |
| `Lookups.NetComesBackIff` | src/pcbir/kicad/coordinate_util.hpp:416-422 | the name of a net is always found, and leads back to it if and only if no earlier net has the same name |
| `Int64.CheckedAdd` | include/pcbir/geometry/checked_arith.hpp:17-25 | the guarded sum answers exactly when the true sum fits |
| `Int64.CheckedSub` | include/pcbir/geometry/checked_arith.hpp:27-35 | the guarded difference answers exactly when the true difference fits |
| `Int64.CheckedMul` | include/pcbir/geometry/checked_arith.hpp:37-73 | the division-guarded product answers exactly when the true product fits |
| `Int64.MulBound` | include/pcbir/geometry/checked_arith.hpp:54-70 | the four sign cases of the guard fail exactly when the product overflows |
| `Int64.TruncDivMod` | src/pcbir/geometry/spatial_index.cpp:21-28 | truncating quotient and remainder recompose the dividend, and the remainder has its sign |
| `Geometry.Cross` | include/pcbir/geometry/point.hpp:66-70 | the exact cross product, or nothing when a product or the difference overflows |
| `Geometry.Dot` | include/pcbir/geometry/point.hpp:57-61 | the exact dot product, or nothing when a product or the sum overflows |
| `Geometry.OverflowLeavesZeros` | include/pcbir/geometry/point.hpp:31-45 | what a release build leaves of an overflowing sum or difference: the first coordinate if it fits, and zeros |
| `Geometry.ReverseContourInvolution` | src/pcbir/kicad/coordinate_util.hpp:240-263 | reversing a contour twice gives it back |

## Left out

- FlatBuffers encoding and its verifiers: only the replay of listed entries through `insert_with_id` is modelled.
- Clipper2 boolean operations: a thin wrapper over a library that is not part of this model.
- Floating point: three-point arcs, arc midpoints and flattening, and rotations that are not multiples of 90 degrees.
- `BoardFileView`, reading and writing files, and the C interface: plumbing without an algorithm.
- Fidelity reports, most per-entity validation and the bytes of the pad-shape extension: true but easy.
- Texts of error messages and byte offsets: a failure is an outcome without a description.
- Thread safety of shared snapshots, and the quality of the cell hash: the cell table is a map.
- `custom` pads and vias in footprints: members are parametric surface-mount pads; custom pads go through the same point lists as zones. An import that meets one of the others has the outcome `Beyond`.
- Slot indices and version counters are unbounded in `Arenas` and `Workspaces`; generations wrap at 32 bits and ids at 64 bits, as in the source.
- Stores.Store.Write: the arenas in the shared store are values in cells whose addresses stand for the shared objects, so aliasing is the equality of addresses; the in-place form of an arena is the class `Arenas.Arena`.
- Stores.Store.Edit: a pointer obtained from `try_get` is used for one assignment and not kept past the next commit, after which the table may be shared again.
- Stores.Store.InsertWithId: requires an id that is not live in any table and is not the last 64-bit value, because the code checks neither; `Arenas.InsertKeepsValid` and `Workspaces.InsertedIdsValid` show that both conditions are exact.
- Sha1Streaming.Sha1.Finish: bytes are integers below 256, and a mask such as `(b & 0x0F) | 0x50` is written as remainder and sum; the words are 32-bit vectors.
- Uuids.UuidV5: the name is given as its bytes.
- Zones.ExportZoneEntry: the net and layer texts are parameters.
- PadShapes.PadOutlineValidIff: requires that neither the tests nor the shoelace sums overflow, as they never do up to half a metre (`PadShapes.InRangeFits`); validity is a matter of the chords, and what the arcs do is in `PadCurves`.
- PadCurves.PadFillsItsSize: sides are positive, and a corner radius is at most half of each; the outlines of other parameters are described by their parts (`PadCurves.RectCorners`, `PadCurves.RoundedParts`).
- PadPlacements.PlacedPadIsValid: a sufficient range; `PadPlacements.PlacedPadValidIff` covers every place where nothing overflows.
- ContourInvariance.ValidityRotated: requires that no test overflows before or after the turn, because an overflowing cross product counts as a crossing and turning exchanges the products.
- ContourInvariance.ValidityReversed: likewise, because the reversal tests other differences.
- SpatialIndexes.SpatialIndex.Insert: boxes at the end of the 64-bit range with one-nanometre cells are excluded, because the loop counter would overflow.
- Footprints.ImportFootprint: a footprint that is not turned by a multiple of 90 degrees is placed through floating point and has the outcome `Beyond`.
- PadCodecs.PlacedOutlineSurvives: the pad's own rotation is arbitrary in `PadCodecs.PadRoundTrip`, but its outline is followed onto the board only for multiples of 90 degrees.
- BezierErrors.MicrometreMet: for curves whose largest second difference is between 1.377 m and 1.410 m the distance depends on how the vertices happen to round, and is not decided.
- PolygonInvariance.ContainmentOfImage: quarter turns require that no edge test overflows before or after, because an overflowing cross product ends the test.
- PolygonInvariance.PolygonRotated: requires that no test overflows before or after, and that each shoelace sum overflows both before and after or not at all.
