# Kronkelschrift generator, modelled in Dafny

This project models the core of `umalla.js`, the generator for
Kronkelschrift. Kronkelschrift writes a text as one continuous line that
winds through a checkerboard pattern. The generator:

1. normalises the text: lower-case it, then delete everything but `a`–`z` and `,`;
2. encodes it with a 27-entry code table by one `replaceAll` per entry, in
   table order;
3. pads the bitstream with `'0'` to a whole number of rows of `columns / 2` bits;
4. computes the row count and the canvas size;
5. writes SVG path data: dashes along the four edges of the grid, then one
   small stroke per bit. A `'1'` draws the left and right edge of its cell,
   any other bit the top and bottom edge. The cells are chosen by a
   serpentine map onto the checkerboard.

The model keeps the generator's steps and constants (`tile` = 8,
`margin` = 3·`tile`). The module-level variables are replaced by values passed
from step to step. The path data is a sequence of `M`, `m` and `l` commands.
A small interpreter (`Path.Trace`) turns the commands into the segments they
draw, so the figure's geometry can be stated directly.

Modules, one per file:

- `Bits`: strings of `'0'` and `'1'`.
- `Arith`: uniqueness of Euclidean quotient and remainder.
- `Alphabet`: the code table and its structure.
- `Normalizer`: lower-casing and the `notAllowed` filter.
- `Encoder`: `replaceAll` substitution, the reference lookup encoding, and padding.
- `Layout`: rows, canvas and the serpentine map `x`, `y`.
- `Path`: path commands, the interpreter, the border and the bit strokes.
- `Drawing`: where segments lie and which cell edges are drawn.
- `Generator`: the whole pipeline and its end-to-end properties.
- `Wrappers`: `Option` and `Result`.

Every code is three groups taken from `"1"`, `"01"` and `"001"`. Entry `i`
of the table (the letters in order, then the comma) is the triple that
spells `i` in base 3. The 27 entries are therefore exactly the 27 triples.
Three properties follow, and the model proves each:

- the table is prefix-free;
- every code is 3 to 9 bits long and ends in `'1'`;
- substituting entry by entry in table order gives the same result as
  replacing each character by its code. No symbol is a digit, so a
  later `replaceAll` never touches an earlier code.

Because each code ends in `'1'`, the padding `'0'`s cannot be confused with
code. The drawing shows each bit on its own cell: a `'1'` exactly when the
cell's left edge is drawn, a `'0'` exactly when its top edge is. The lowest
row line drawn is the bottom of the grid, which fixes the number of rows. So
the set of edges drawn, whatever the order and direction of the segments,
determines the normalised message (`Generator.FigureDeterminesMessage`).

"Ab," at width 3 gives 16 code bits (`111`, `1101`, `001001001`), padded
with two `'0'`s to 18 bits, 6 rows and a 96 by 96 canvas
(`Generator.GenerateExample`). The comment at `umalla.js:66` speaks of
underscores. The model follows the regular expression at `umalla.js:33`,
which keeps the comma and no underscore.

## Model

| member | source | states |
|---|---|---|
| Alphabet.TableShape | umalla.js:3-31 | the table has 27 entries; entry `i` is the `i`-th letter (the comma last) with the code made of the three groups that spell `i` in base 3 |
| Alphabet.CodesPrefixFree | umalla.js:3-31 | no code of the table is a prefix of the code of a different entry |
| Alphabet.CodeOf | umalla.js:3-31 | the code of an allowed character is made of `'0'` and `'1'`, is 3 to 9 characters long and ends in `'1'` |
| Alphabet.CodeOfEntry | umalla.js:3-31 | the table entry at an allowed character's position holds that character and its code |
| Alphabet.TableWellFormed | umalla.js:3-31 | every code is a bit string, no symbol is `'0'` or `'1'`, and every symbol is one the normaliser keeps |
| Normalizer.LowerCharFacts | umalla.js:104 | `LowerChar`, the per-character `toLowerCase`: lower-casing keeps allowed characters as they are and makes exactly the upper-case letters allowed; it is idempotent |
| Normalizer.RemoveNotAllowed | umalla.js:33 | `RemoveNotAllowed`, the `replaceAll` with `notAllowed`: deleting the characters the regular expression matches leaves only `a`–`z` and `,`, never lengthens the text, and leaves alphabet text unchanged |
| Normalizer.RemoveNotAllowedMembers | umalla.js:105 | a character survives the deletion if and only if it occurs in the input and is allowed |
| Normalizer.RemoveNotAllowedAppend | umalla.js:105 | the global replace works piece by piece: deleting from a concatenation is deleting from each part |
| Normalizer.Simplify | umalla.js:103-106 | `Simplify` (`simplifyMessage`), which is `RemoveNotAllowed` after `Lowercase`: the normalised text contains only `a`–`z` and `,` and is no longer than the input |
| Normalizer.SimplifyMembers | umalla.js:103-106 | a character occurs in the normalised text if and only if it is allowed and some input character lower-cases to it |
| Normalizer.SimplifyFixedPoints | umalla.js:103-106 | the normaliser leaves a text unchanged if and only if the text is already over `a`–`z` and `,` |
| Normalizer.SimplifyIdempotent | umalla.js:103-106 | normalising twice is normalising once |
| Encoder.ReplaceAllAbsent | umalla.js:115 | `ReplaceAll`, one `replaceAll` call: `replaceAll` of a symbol that does not occur changes nothing |
| Encoder.ReplaceAllRemoves | umalla.js:115 | after `replaceAll` with a replacement that lacks the symbol, the symbol no longer occurs |
| Encoder.ReplaceAllAppend | umalla.js:115 | `replaceAll` on a concatenation is `replaceAll` on each part |
| Encoder.ApplyEntriesChar | umalla.js:113-117 | `ApplyEntries`, the first `n` rounds of the loop: after the first `n` substitutions a single character has become its code among the first `n` entries, or is still itself; a code once written is never changed again |
| Encoder.ApplyEntriesAppend | umalla.js:113-117 | the chain of substitutions works piece by piece on a concatenation |
| Encoder.ApplyEntriesIsLookup | umalla.js:113-117 | for any table of digit codes and non-digit symbols, in-order substitution equals per-character lookup and concatenation, for every input |
| Encoder.SubstituteCodes | umalla.js:3-31 | looking a character up in the table gives its code when it is allowed and leaves it unchanged otherwise |
| Encoder.LookupAllowed | umalla.js:3-31 | the first table entry for an allowed character carries that character's code |
| Encoder.CodifyIsLookup | umalla.js:113-117 | `Codify`, the whole loop over the table: the generator's `codifyMessage` loop computes the per-character encoding of any message |
| Encoder.EncodeFacts | umalla.js:113-117 | the encoding of normalised text is a bit string of between 3 and 9 bits per character, ending in `'1'` unless the text is empty |
| Encoder.EncodeAppend | umalla.js:113-117 | the encoding of a concatenation is the concatenation of the encodings |
| Encoder.EncodeInjective | umalla.js:113-117 | two normalised texts with the same encoding are equal |
| Encoder.PadCountFacts | umalla.js:120-122 | the number of `'0'`s appended is the least that makes the length a multiple of `columns / 2`, is below `columns / 2`, and is zero for a length already a multiple |
| Encoder.PadFacts | umalla.js:119-123 | `Pad`, `completeMessage` as a function: the padded stream is the input followed only by `'0'`s, its length is a multiple of `columns / 2`, fewer than `columns / 2` are added, no shorter padding would do, and input of such a length is unchanged |
| Encoder.PadIdempotent | umalla.js:119-123 | padding a padded stream changes nothing |
| Encoder.CompleteMessage | umalla.js:119-123 | `completeMessage` as a method with its loop: the `while` loop terminates for every even `columns` of at least 2 and returns the input followed by the fewest `'0'`s that fill the last row |
| Encoder.PaddedEncoding | umalla.js:113-123 | the padded stream of a message is its encoding followed by `'0'`s |
| Encoder.PaddedStream | umalla.js:113-123 | the padded stream of normalised text is a bit string that starts with its encoding and continues with fewer than `columns / 2` `'0'`s up to a multiple of `columns / 2` |
| Encoder.PaddedEncodingInjective | umalla.js:113-123 | two normalised texts whose encodings agree after appending `'0'`s are equal |
| Layout.RowsExact | umalla.js:125-127 | `Rows` (`calculateRows`): for a length that is a multiple of `columns / 2`, the rows times the bits per row is exactly the length |
| Layout.SerpentineCell | umalla.js:189-199 | `X` and `Y`, the functions `x` and `y`: bit `i` sits at column `2·(i mod columns/2)` plus the parity of its row |
| Layout.CellParity | umalla.js:189-199 | every bit's column and row have the same parity |
| Layout.CellInGrid | umalla.js:189-199 | for `i < rows·columns/2` the cell is inside the grid and its column and row have the same parity |
| Layout.CellIndexInverts | umalla.js:189-199 | every grid cell whose column and row have the same parity is the cell of some bit position below `rows·columns/2` |
| Layout.CellIndexRecovers | umalla.js:189-199 | the bit position is recovered from its cell |
| Layout.CellsDistinct | umalla.js:189-199 | no two bit positions share a cell |
| Layout.SerpentineBijection | umalla.js:189-199 | the map is a bijection from `0 .. rows·columns/2` onto the cells of the grid whose column and row have the same parity |
| Path.TraceAppend | umalla.js:144-187 | drawing appended path data draws the first part, then the second from where the first left the pen |
| Path.DashesTrace | umalla.js:151-153 | `n` repetitions of "move one tile, line one tile" draw `n` dashes, dash `k` from `2k+1` to `2k+2` tiles past the start |
| Path.OuterTrace | umalla.js:148-176 | `OuterLines` (`addOuterLines`): the border draws `columns/2` dashes on the top and on the bottom, `floor(rows/2)` on the left and `ceil(rows/2)` on the right. The bottom starts one tile left of the margin when `rows` is even, and the right side starts one tile above the margin |
| Path.StrokeTrace | umalla.js:180-185 | `BitStroke`, the loop body of `addInnerLines`: the stroke of a `'1'` draws its cell's left edge down and its right edge up; any other bit draws the top edge right and the bottom edge left |
| Path.StrokesDraw | umalla.js:178-187 | `StrokesUpTo`, the first `n` rounds of the loop in `addInnerLines`: they draw the two edges of bit 0, then of bit 1, and so on up to bit `n - 1` |
| Path.StrokesTrace | umalla.js:178-187 | the first `n` strokes draw exactly `2n` segments, two per bit, in stream order |
| Path.InnerTrace | umalla.js:178-187 | `InnerLines` (`addInnerLines`): the bit strokes draw exactly two segments per bit of the stream, in order |
| Path.FigureTrace | umalla.js:83-86 | `BuildPath`, the two path builders in order: the figure draws `columns + rows` border dashes, then two segments per bit |
| Drawing.BorderSegmentFits | umalla.js:148-176 | every border dash is one tile long and joins two lattice points of the grid |
| Drawing.CellSegmentFits | umalla.js:180-185 | every edge a stroke draws for a cell of the grid is a unit edge of the grid lattice |
| Drawing.BitSegmentFits | umalla.js:178-187 | every bit segment is a unit edge of the grid lattice |
| Drawing.FigureFitsAt | umalla.js:148-187 | segment `k` of the figure is a unit edge between lattice points of the `columns` by `rows` grid |
| Drawing.FigureFits | umalla.js:148-187 | every segment of the figure is a unit edge between lattice points of the `columns` by `rows` grid |
| Drawing.DrawnAbove | umalla.js:148-187 | no edge the figure draws lies below row line `rows` |
| Drawing.BottomDashDrawn | umalla.js:160-168 | the figure draws a dash on row line `rows`, the bottom of the grid |
| Drawing.BorderMissesCells | umalla.js:148-176 | no border dash covers the left or top edge of a cell whose column and row have the same parity |
| Drawing.CellSegmentHits | umalla.js:180-185 | among cells whose column and row have the same parity, a cell's left edge is drawn only as the first edge of a `'1'` in that very cell, and its top edge only as the first edge of another bit there |
| Drawing.BitSegmentHits | umalla.js:178-199 | a bit segment covers the left edge of bit `i`'s cell if and only if it is bit `i`'s first segment and the bit is `'1'`; likewise the top edge when the bit is not `'1'` |
| Drawing.FigureReadable | umalla.js:178-199 | in the whole figure, bit `i` is `'1'` if and only if the left edge of its cell is drawn, and not `'1'` if and only if its top edge is drawn |
| Generator.GenerateFails | umalla.js:95-97 | a figure is made if and only if the width is at least 1, and it has `2·width` columns |
| Generator.GenerateStream | umalla.js:60-72 | the figure's message is the normalised text. Its bitstream starts with the message's encoding and continues with fewer than `width` `'0'`s up to a multiple of `width` |
| Generator.GenerateParts | umalla.js:60-75 | the figure's message is the normalised text, its grid has `2·width` columns, its bitstream is the padded encoding of the message, and its rows are those the bitstream fills |
| Generator.GenerateRows | umalla.js:73-74 | rows times width, and rows times bits per row, are the bitstream length |
| Generator.GeneratePadded | umalla.js:113-123 | the figure's bitstream is the encoding of its message followed by `'0'`s only |
| Generator.GenerateLayout | umalla.js:125-132 | `CanvasSize` (`calculateCanvasSize`) and `Rows` inside `Generate`: rows times width is the bitstream length; the canvas is `2·margin + columns·tile` by `2·margin + rows·tile`; the path draws `columns + rows + 2·bits` segments |
| Generator.GenerateEmpty | umalla.js:60-93 | text with nothing left after normalising gives no bits, no rows, a canvas `2·margin` high, and a path that is the border alone |
| Generator.GenerateWellFormed | umalla.js:60-93 | `Generate`, the main routine: every generated figure has valid columns, a bitstream that fills its rows exactly, the canvas of its grid and the path of its bits |
| Generator.DrawnLength | umalla.js:83-86 | a well-formed figure draws `columns + rows` border dashes and two segments per bit |
| Generator.FigureWithinCanvas | umalla.js:129-132 | every segment of a generated figure is a unit edge that stays at least a margin inside the canvas |
| Generator.FigureReadsBack | umalla.js:178-199 | each bit of a generated figure is `'1'` exactly when its cell's left edge is drawn and `'0'` exactly when its top edge is |
| Generator.RowsBelow | umalla.js:125-176 | a well-formed figure that draws the same edges as another of the same width has at least as many rows |
| Generator.DrawingDeterminesBits | umalla.js:178-199 | two figures of the same width that draw the same set of edges, in any order and direction, carry the same bitstream |
| Generator.SameDrawingSameMessage | umalla.js:113-199 | two well-formed figures of the same width, each holding the padded encoding of normalised text, that draw the same set of edges carry the same message |
| Generator.FigureDeterminesMessage | umalla.js:60-93 | two texts drawn at the same width whose figures draw the same set of edges normalise to the same message |
| Generator.GenerateExample | umalla.js:60-93 | "Ab," at width 3 gives the message "ab,", the 18 bits `111110100100100100`, 6 columns, 6 rows and a 96 by 96 canvas |
| Generator.ExampleMessage | umalla.js:103-106 | "Ab," normalises to "ab," |
| Generator.ExampleEncoding | umalla.js:3-31 | "ab," encodes to `1111101001001001` |

## Left out

- Reading the form: `getColumns` and `getMessage` (`umalla.js:95-101`) become the
  parameters `width` and `raw` of `Generator.Generate`. Coercing the form's
  text to a number is not modelled, and the width is an integer.
- Writing the page: `updateInput`, `setCanvasSize`, `setBackgroundSize`,
  `setLineData`, `setLineWidth` and `setColors` (`umalla.js:108-111`,
  `134-142`, `201-214`). These are presentation output.
- The PNG and SVG downloads (`umalla.js:216-260`). They use browser objects
  and an asynchronous callback.
- `lineWidth` (`umalla.js:39`) and the colours. They only style the line.
- The global variables (`umalla.js:41-57`). Values are passed from step to step instead.
- Writing the path data as text: the number formatting and separators of
  `lineData`. The path is a sequence of commands, and the segments are what
  the commands draw.
- Normalizer.LowerChar: lower-cases ASCII `A`–`Z` only, because JavaScript's
  full Unicode case mapping is library behaviour outside the program. Some
  non-ASCII characters lower-case to an allowed letter in the browser (the
  Kelvin sign to `k`), and some to two characters (`İ`). The model drops them.
- Generator.Generate: returns `NonPositiveWidth` for a width below 1. In the
  browser, width 0 makes the padding loop never stop, because `% 0` is
  `NaN`. A negative width draws a degenerate figure.
- `replaceAll` replacement patterns (`$&` and the like). No code contains `$`,
  so they never apply.
- Floating point: `columns / 2`, `rows` and `Math.floor`/`Math.ceil` are exact
  integers for the inputs modelled, and the model uses integer division.
- The pen position before the first command: the path always starts with an
  absolute move, so the figure does not depend on it. The lemmas hold for any
  starting pen, and `Generator.Drawn` starts at the origin.
- How a segment is rendered (stroke width, caps, joins). A segment is "drawn"
  when it covers an edge in either direction.
