# bmatrix: a verified model of the "digital rain" renderer

bmatrix fills the terminal with random printable characters, redrawn every
200 ms. A Bitcoin symbol, drawn in ASCII art with the character `0`, stays
blank in the middle of the screen. This project models the logic of one
frame of that renderer in Dafny and proves its properties:

- **Overlap test** (`overlap.dfy`, module `Overlap`): `is_inside_bitcoin_symbol`
  centres a `symbol_width x symbol_height` box in the grid and tests half-open
  containment. Arithmetic is i32 with truncating division, written out as
  `Half`.
- **Line splitting** (`lines.dfy`, module `TextLines`): Rust's `str::lines` for
  text without carriage returns. `Lines` and `Join` are proved inverse up to a final line break.
- **Symbol mask** (`symbol_mask.dfy`, module `SymbolMask`): the
  `BITCOIN_SYMBOL` constant and the iterator chain that collects the
  `(column, row)` of every `0`. The results proved about the real art are:
  26 rows, an empty row 0, and markers only in columns 0..21 and rows 1..25.
- **Palette** (`palette.dfy`, module `MatrixChars`): the 94 characters with
  code points 33..126.
- **Frame** (`frame.dfy`, module `Frame`): one pass of the `for row` / `for col`
  loops of `print_green_matrix`. It is a method that appends one `Draw`
  (cursor column, cursor row, character) per cell. The random generator
  becomes a parameter `rng: nat -> nat`: the k-th call of
  `gen_range(0..len)` in the frame returns `rng(k)`, and the precondition
  says that value is below the palette length.

The box size comes from the terminal alone: width `twidth/2 + 24`, height
`theight/2`. The code never compares it with the art's 22 x 26 extent, and
nothing in the code keeps the mask inside the box.
`Frame.MaskFitsTallTerminal` and `Frame.TallFrameBlanks` show that from 52
rows up, the blank cells are exactly the centred markers that fall on the
grid. `Frame.SymbolOnGrid` shows that all markers fall on the grid when the
terminal also has at least 46 columns, so the whole symbol is carved out.
Below 46 columns the box starts left of the grid, and
`Frame.SymbolCutOnNarrowTerminal` shows that the art's column 0 is never
drawn.
`Frame.SymbolClippedOnShortTerminal` shows that on shorter terminals the
bottom of the art is cut off: when such a cell is on screen, it gets a random
character.

The constant `BITCOIN_SYMBOL` is written as `Join(SymbolRows)`: its 25 art
rows, trailing spaces kept, after an empty row, each row followed by a line
break. That text is character for character the source's raw string, which
starts and ends with a line break. `SymbolMask.SymbolLines` proves that the
line splitter gives these rows back.

## Model

| member | source | states |
|---|---|---|
| `Overlap.IsInsideSymbol` | src/main.rs:47-60 | a cell is inside exactly when its coordinates relative to the centred offsets lie in `[0, symbol_width) x [0, symbol_height)` |
| `Overlap.HalfTruncates` | src/main.rs:56-57 | the i32 `/ 2` used for the offsets rounds toward zero: it is odd-symmetric and drops at most one unit |
| `Overlap.OffsetCentres` | src/main.rs:56-57 | for non-negative sizes, the margins left and right of the box differ by at most one cell |
| `Overlap.InsideBoundaries` | src/main.rs:59 | `offset_x` and `offset_x + symbol_width - 1` are inside; `offset_x - 1` and `offset_x + symbol_width` are not |
| `Overlap.InsideExample80` | src/main.rs:56-59 | width 80 with a symbol 10 wide gives offset 35; 35 and 44 are inside, 34 and 45 are not |
| `TextLines.LineEnd` | src/main.rs:81 | the first line ends at the first `'\n'`, or at the end of the text |
| `TextLines.Lines` | src/main.rs:81 | no line produced by the splitter contains `'\n'` |
| `TextLines.JoinOfLines` | src/main.rs:81 | re-joining the lines with `'\n'` gives the text back; a final line break adds no empty line |
| `TextLines.LinesOfJoin` | src/main.rs:81 | splitting lines joined with `'\n'` returns exactly those lines (so a leading line break gives an empty first line) |
| `TextLines.LineEndOf` | src/main.rs:81 | the first line of `head + "\n..."` is exactly `head` when `head` holds no line break |
| `SymbolMask.LineMarksMembership` | src/main.rs:84-90 | one line yields `(x, y)` exactly when its character at index `x - x0` is the marker |
| `SymbolMask.LinesMarksMembership` | src/main.rs:82-91 | the enumerated lines yield `(x, y)` exactly when line `y - y0` has the marker at index `x` |
| `SymbolMask.MaskMembership` | src/main.rs:80-92 | for the mask builder `BuildMask`: `(x, y)` is in the mask iff line `y` has `'0'` at index `x`; hence `0 <= y < line count` and `0 <= x < |line y|` |
| `SymbolMask.MaskExample` | src/main.rs:80-92 | the text `"0 \n 0"` yields exactly `{(0,0), (1,1)}` |
| `SymbolMask.SymbolLines` | src/main.rs:19-45 | the constant splits into 26 lines: an empty row 0 (leading line break), then the 25 art rows, and no trailing empty line |
| `SymbolMask.SymbolTopRowEmpty` | src/main.rs:19-20 | row 0 of the symbol holds no mask coordinate |
| `SymbolMask.SymbolExtent` | src/main.rs:19-45 | every mask coordinate of the symbol lies in columns 0..21 and rows 1..25 |
| `SymbolMask.SymbolExtremes` | src/main.rs:19-45 | the bounds are reached: `(0, 4)`, `(21, 6)` and `(3, 25)` are in the mask |
| `SymbolMask.RowMarkersWithin` | src/main.rs:20-44 | no art row has a marker right of column 21, and row 0 has none |
| `MatrixChars.PaletteContents` | src/main.rs:75 | the palette `Palette` has 94 characters, exactly code points 33..126, strictly increasing, and no space |
| `MatrixChars.PaletteIndexPrintable` | src/main.rs:115 | every index in `0..len` picks a printable non-space character |
| `Frame.DrawCell` | src/main.rs:109-126 | a cell draws `' '` exactly when it is inside the box and its box-relative coordinate is in the mask; otherwise it draws the palette character of the next random call. The cursor goes to `(col as u16 * 2, row)` |
| `Frame.RenderFrame` | src/main.rs:107-129 | a frame emits `twidth * theight` draws; draw `i` is for cell `(i % twidth, i / twidth)`; its character is `' '` iff the cell is blank; every other cell takes the palette character of random call number "non-blank cells before it" |
| `Frame.PrintGreenMatrixFrame` | src/main.rs:75-129 | with the symbol's mask: a frame emits `twidth * theight` draws; draw `i` is for cell `(i % twidth, i / twidth)`; its character is `' '` iff the cell is blank for that mask, and otherwise the palette character of random call number "non-blank cells before it"; every draw is a space or a character with code point 33..126; from 52 rows up, the blanks are exactly the centred markers that fall on the grid |
| `Frame.SymbolBoxSize` | src/main.rs:77-78 | for `SymbolWidth`/`SymbolHeight`: the box is `twidth / 2 + 24` wide and `theight / 2` tall; it is always at least 24 columns wide, more than the art's 22, and it is at least 26 rows tall iff the terminal has at least 52 rows |
| `Frame.BlankIsInsideAndMarked` | src/main.rs:109-113 | for `IsBlank`: a cell is blank iff `is_inside_bitcoin_symbol` accepts it and its box-relative coordinate is in the mask |
| `Frame.CursorColumnModular` | src/main.rs:118 | for `CursorColumn`: the cursor column is `2 * col` modulo 2^16, an even u16 value |
| `Frame.FrameDrawsAt` | src/main.rs:107-128 | the i-th draw of the cell-by-cell frame is the draw of cell `i` |
| `Frame.CellDrawAt` | src/main.rs:107-128 | the draw of `(col, row)` sits at index `row * twidth + col`; it uses one random call exactly when the cell is not blank |
| `Frame.RowMajorIndex` | src/main.rs:107-108 | index `row * width + col` gives back `col` (remainder) and `row` (quotient) |
| `Frame.RowMajorVisit` | src/main.rs:107-108 | each grid cell is visited, at index `row * twidth + col`, and at no other index |
| `Frame.IndexInGrid` | src/main.rs:107-108 | every index of a frame names a cell of the grid |
| `Frame.RowMajorOrder` | src/main.rs:107-108 | a later draw is on a later row, or on the same row further right |
| `Frame.CursorColumnExact` | src/main.rs:118 | the cursor column is `2 * col` for columns below 32768 |
| `Frame.CursorColumnWraps` | src/main.rs:118 | `col as u16 * 2` wraps at column 32768, onto cursor column 0 |
| `Frame.DistinctPositions` | src/main.rs:118-124 | on terminals up to 32768 columns wide, no two draws of a frame go to the same screen position |
| `Frame.MaskFitsTallTerminal` | src/main.rs:77-78 | from 52 rows up, a mask within columns 0..21 and rows 0..25 fits the box; a cell is then blank iff its box-relative coordinate is in the mask |
| `Frame.TallFrameBlanks` | src/main.rs:109-113 | in a frame on such a terminal, each drawn cell is blank iff its box-relative coordinate is in the mask |
| `Frame.SymbolOnGrid` | src/main.rs:77-78 | from 46 columns and 52 rows up, every marker of the symbol, shifted by the box offsets, lands on a grid cell, so the whole symbol is carved out |
| `Frame.SymbolCutOnNarrowTerminal` | src/main.rs:56-57 | under 46 columns the box's left offset is negative: marker `(0, 4)` lands on a negative column, which the frame never draws |
| `Frame.SymbolClippedOnShortTerminal` | src/main.rs:77-78 | under 52 rows, the box is shorter than the art: marker `(3, 25)` falls outside it and its cell is not blank |

## Left out

- Terminal I/O through crossterm is not modelled: `terminal::size`, raw mode, `Hide`/`Show`/`Clear`/`SetForegroundColor`/`ResetColor` and the `execute!` writes (src/main.rs:64, 94-104, 137). These are foreign side effects. A frame's writes are modelled as the returned sequence of `Draw` values, and the terminal size comes in as two `U16` parameters.
- Write errors are not modelled. The `?` after each `execute!` stops the frame on an I/O error; the model has no failing writes.
- The Ctrl-C handler and its `Arc<AtomicBool>` (src/main.rs:68-73) are left out. They exist for concurrency, and the loop never reads the flag.
- The endless `loop` and the 200 ms `thread::sleep` (src/main.rs:106, 132) are left out. One frame is modelled. In the program, each frame continues the random sequence where the previous one stopped; the model numbers the random calls of the modelled frame from 0, in the oracle it is given.
- The internals of `rand::thread_rng` / `gen_range` (src/main.rs:76, 115) are left out. They are replaced by the index oracle `rng`, constrained to `0..94`; uniformity is not modelled.
- The `scopeguard` teardown (src/main.rs:101-104) is resource release and is left out.
- `Overlap.IsInsideSymbol`: its arguments are unbounded integers. The i32 overflow of `offset_x + symbol_width` is not modelled; it needs arguments near ±2^31, while the program's arguments stay within 0..65535+24.
- `TextLines.Lines`: Rust's `str::lines` also drops a `'\r'` before each `'\n'`; the model splits on `'\n'` only. `BITCOIN_SYMBOL` contains no `'\r'`, so its mask is unaffected.
- `Frame.CursorColumn`: `col as u16 * 2` is modelled with release-build wrap-around. A debug build panics instead, once a terminal is wider than 32768 columns.
