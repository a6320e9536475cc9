/**
  One frame of the render loop of print_green_matrix: every cell of the
  twidth x theight grid, in row-major order, becomes one draw operation
  (cursor column, cursor row, character). A cell is drawn blank when it is
  inside the centred symbol box and its box-relative coordinate is in the
  symbol mask; otherwise it gets the palette character chosen by the next
  call to the random source.

  The random source is the function `rng`: the k-th call of
  `gen_range(0..94)` in the frame returns rng(k).
 */
module Frame {
  import opened Overlap
  import opened MatrixChars
  import opened SymbolMask

  /** Terminal sizes and cursor coordinates are u16. */
  type U16 = n: int | 0 <= n < 0x1_0000

  /** One `MoveTo(cursorCol, cursorRow)` followed by `Print(ch)`. */
  datatype Draw = Draw(cursorCol: int, cursorRow: int, ch: char)

  /** The size of the symbol box, derived from the terminal size alone. */
  function SymbolWidth(twidth: int): int { Half(twidth) + 24 }
  function SymbolHeight(theight: int): int { Half(theight) }

  /** `col as u16 * 2`: the u16 product wraps (release build). */
  function CursorColumn(col: int): int
  {
    ((col % 0x1_0000) * 2) % 0x1_0000
  }

  /** A cell is blank when its coordinate relative to the centred box lies in
      the box and in the mask. */
  predicate IsBlank(twidth: int, theight: int, symbolCoords: set<(int, int)>, col: int, row: int)
  {
    var symbolWidth, symbolHeight := SymbolWidth(twidth), SymbolHeight(theight);
    var relX, relY := col - Offset(twidth, symbolWidth), row - Offset(theight, symbolHeight);
    0 <= relX < symbolWidth && 0 <= relY < symbolHeight && (relX, relY) in symbolCoords
  }

  /** The cell rule of the frame loop for one cell: a blank when the cell is
      in the box and its box-relative coordinate is in the mask, otherwise the
      palette character picked by the random call number `used`. */
  method DrawCell(twidth: U16, theight: U16, symbolCoords: set<(int, int)>, rng: nat -> nat,
                  col: int, row: int, used: nat)
    returns (d: Draw, drewRandom: bool)
    requires forall k :: rng(k) < |Palette()|
    ensures d.cursorCol == CursorColumn(col) && d.cursorRow == row
    ensures drewRandom <==> !IsBlank(twidth, theight, symbolCoords, col, row)
    ensures d.ch == if drewRandom then Palette()[rng(used)] else ' '
  {
    var symbolWidth := Half(twidth) + 24;
    var symbolHeight := Half(theight);
    if !IsInsideSymbol(col, row, symbolWidth, symbolHeight, twidth, theight)
      || (col - (Half(twidth) - Half(symbolWidth)), row - (Half(theight) - Half(symbolHeight))) !in symbolCoords
    {
      var randomChar := Palette()[rng(used)];
      d, drewRandom := Draw(CursorColumn(col), row, randomChar), true;
    } else {
      d, drewRandom := Draw(CursorColumn(col), row, ' '), false;
    }
  }

  /** The number of cells among the first n (row-major) that are not blank,
      that is, the number of random draws made before cell n. */
  function RandomsBefore(twidth: int, theight: int, symbolCoords: set<(int, int)>, n: nat): nat
    requires twidth > 0
  {
    if n == 0 then 0
    else
      var i := n - 1;
      RandomsBefore(twidth, theight, symbolCoords, i)
        + if IsBlank(twidth, theight, symbolCoords, i % twidth, i / twidth) then 0 else 1
  }

  /** What the frame draws for its i-th cell (row-major). */
  function CellDraw(twidth: int, theight: int, symbolCoords: set<(int, int)>, rng: nat -> nat, i: nat): Draw
    requires twidth > 0
    requires forall k :: rng(k) < |Palette()|
  {
    var col, row := i % twidth, i / twidth;
    Draw(CursorColumn(col), row,
         if IsBlank(twidth, theight, symbolCoords, col, row) then ' '
         else Palette()[rng(RandomsBefore(twidth, theight, symbolCoords, i))])
  }

  /** The draws of the first n cells of a frame, in row-major order. */
  function FrameDraws(twidth: int, theight: int, symbolCoords: set<(int, int)>, rng: nat -> nat, n: nat)
    : (draws: seq<Draw>)
    requires twidth > 0
    requires forall k :: rng(k) < |Palette()|
    ensures |draws| == n
  {
    if n == 0 then []
    else FrameDraws(twidth, theight, symbolCoords, rng, n - 1) + [CellDraw(twidth, theight, symbolCoords, rng, n - 1)]
  }

  lemma {:induction false} FrameDrawsAt(twidth: int, theight: int, symbolCoords: set<(int, int)>,
                                        rng: nat -> nat, n: nat, i: nat)
    requires twidth > 0
    requires forall k :: rng(k) < |Palette()|
    requires i < n
    ensures FrameDraws(twidth, theight, symbolCoords, rng, n)[i] == CellDraw(twidth, theight, symbolCoords, rng, i)
  {
    if i < n - 1 {
      FrameDrawsAt(twidth, theight, symbolCoords, rng, n - 1, i);
    }
  }

  /** One frame of the render loop, with the terminal writes recorded as
      draw operations. */
  method RenderFrame(twidth: U16, theight: U16, symbolCoords: set<(int, int)>, rng: nat -> nat)
    returns (draws: seq<Draw>)
    requires forall k :: rng(k) < |Palette()|
    ensures |draws| == twidth * theight
    ensures forall i :: 0 <= i < |draws| ==>
      draws[i].cursorCol == CursorColumn(i % twidth) && draws[i].cursorRow == i / twidth
    ensures forall i :: 0 <= i < |draws| ==>
      (draws[i].ch == ' ' <==> IsBlank(twidth, theight, symbolCoords, i % twidth, i / twidth))
    ensures forall i :: 0 <= i < |draws| && !IsBlank(twidth, theight, symbolCoords, i % twidth, i / twidth) ==>
      draws[i].ch == Palette()[rng(RandomsBefore(twidth, theight, symbolCoords, i))]
  {
    draws := [];
    var used := 0;
    for row := 0 to theight
      invariant |draws| == RowStart(row, twidth)
      invariant twidth > 0 ==> used == RandomsBefore(twidth, theight, symbolCoords, |draws|)
      invariant twidth > 0 ==> draws == FrameDraws(twidth, theight, symbolCoords, rng, |draws|)
    {
      for col := 0 to twidth
        invariant |draws| == RowStart(row, twidth) + col
        invariant twidth > 0 ==> used == RandomsBefore(twidth, theight, symbolCoords, |draws|)
        invariant twidth > 0 ==> draws == FrameDraws(twidth, theight, symbolCoords, rng, |draws|)
      {
        var d, drewRandom := DrawCell(twidth, theight, symbolCoords, rng, col, row, used);
        CellDrawAt(twidth, theight, symbolCoords, rng, |draws|, row, col, used, d, drewRandom);
        draws := draws + [d];
        if drewRandom {
          used := used + 1;
        }
      }
    }
    RowStartIsProduct(theight, twidth);
    PaletteContents();
    forall i | 0 <= i < |draws|
      ensures draws[i] == CellDraw(twidth, theight, symbolCoords, rng, i)
    {
      FrameDrawsAt(twidth, theight, symbolCoords, rng, |draws|, i);
    }
  }

  /** print_green_matrix cut to a single iteration of its endless loop: the
      symbol mask is built from the art, then one frame is drawn, as
      RenderFrame describes it for that mask. Every draw is a blank or a
      printable non-space character, and on a terminal of at least 52 rows the
      blanks are exactly the centred markers that fall on the grid (all of
      them from 46 columns up, SymbolOnGrid). */
  method PrintGreenMatrixFrame(twidth: U16, theight: U16, rng: nat -> nat) returns (draws: seq<Draw>)
    requires forall k :: rng(k) < |Palette()|
    ensures |draws| == twidth * theight
    ensures forall i :: 0 <= i < |draws| ==>
      draws[i].cursorCol == CursorColumn(i % twidth) && draws[i].cursorRow == i / twidth
    ensures forall i :: 0 <= i < |draws| ==>
      (draws[i].ch == ' ' <==> IsBlank(twidth, theight, BuildMask(Symbol), i % twidth, i / twidth))
    ensures forall i :: 0 <= i < |draws| && !IsBlank(twidth, theight, BuildMask(Symbol), i % twidth, i / twidth) ==>
      draws[i].ch == Palette()[rng(RandomsBefore(twidth, theight, BuildMask(Symbol), i))]
    ensures forall i :: 0 <= i < |draws| ==> draws[i].ch == ' ' || 33 <= draws[i].ch as int <= 126
    ensures theight >= 52 ==> forall i :: 0 <= i < |draws| ==>
      (draws[i].ch == ' ' <==>
        (i % twidth - Offset(twidth, SymbolWidth(twidth)), i / twidth - Offset(theight, SymbolHeight(theight)))
          in BuildMask(Symbol))
  {
    var symbolCoords := BuildMask(Symbol);
    draws := RenderFrame(twidth, theight, symbolCoords, rng);
    if twidth > 0 {
      DrawsPrintable(twidth, theight, symbolCoords, rng, draws);
    }
    if twidth > 0 && theight >= 52 {
      SymbolExtent();
      TallFrameBlanks(twidth, theight, symbolCoords, draws);
    }
  }

  // Proof steps of the frame loop

  /** A frame whose non-blank draws take palette characters draws only blanks
      and printable non-space characters. */
  lemma DrawsPrintable(twidth: int, theight: int, symbolCoords: set<(int, int)>, rng: nat -> nat,
                       draws: seq<Draw>)
    requires twidth > 0
    requires forall k :: rng(k) < |Palette()|
    requires forall i :: 0 <= i < |draws| ==>
      (draws[i].ch == ' ' <==> IsBlank(twidth, theight, symbolCoords, i % twidth, i / twidth))
    requires forall i :: 0 <= i < |draws| && !IsBlank(twidth, theight, symbolCoords, i % twidth, i / twidth) ==>
      draws[i].ch == Palette()[rng(RandomsBefore(twidth, theight, symbolCoords, i))]
    ensures forall i :: 0 <= i < |draws| ==> draws[i].ch == ' ' || 33 <= draws[i].ch as int <= 126
  {
    PaletteContents();
    forall i | 0 <= i < |draws|
      ensures draws[i].ch == ' ' || 33 <= draws[i].ch as int <= 126
    {
      if draws[i].ch != ' ' {
        assert draws[i].ch in Palette();
      }
    }
  }

  /** The draw of cell (col, row) is the one the frame makes at index
      i = row * twidth + col. */
  lemma CellDrawAt(twidth: int, theight: int, symbolCoords: set<(int, int)>, rng: nat -> nat,
                   i: nat, row: nat, col: nat, used: nat, d: Draw, drewRandom: bool)
    requires 0 <= col < twidth && i == RowStart(row, twidth) + col
    requires used == RandomsBefore(twidth, theight, symbolCoords, i)
    requires d.cursorCol == CursorColumn(col) && d.cursorRow == row
    requires drewRandom <==> !IsBlank(twidth, theight, symbolCoords, col, row)
    requires forall k :: rng(k) < |Palette()|
    requires d.ch == if drewRandom then Palette()[rng(used)] else ' '
    ensures d == CellDraw(twidth, theight, symbolCoords, rng, i)
    ensures RandomsBefore(twidth, theight, symbolCoords, i + 1) == if drewRandom then used + 1 else used
  {
    RowStartIsProduct(row, twidth);
    RowMajorIndex(twidth, row, col);
  }

  /** The index of the first cell of a row, counted cell by cell as the loop
      does. It stands for row * width in the loop invariants, which keeps
      nonlinear arithmetic out of them; RowStartIsProduct links the two. */
  function RowStart(row: nat, width: nat): nat
  {
    if row == 0 then 0 else RowStart(row - 1, width) + width
  }

  lemma {:induction false} RowStartIsProduct(row: nat, width: nat)
    ensures RowStart(row, width) == row * width
  {
    if row > 0 {
      RowStartIsProduct(row - 1, width);
      assert row * width == (row - 1) * width + width;
    }
  }

  /** The cell (col, row) has row-major index row * width + col. */
  lemma RowMajorIndex(width: int, row: int, col: int)
    requires width > 0 && row >= 0 && 0 <= col < width
    ensures (row * width + col) % width == col && (row * width + col) / width == row
  {
    var i := row * width + col;
    var q, m := i / width, i % width;
    assert width * (q - row) == col - m;
    if q - row >= 1 {
      MulAtLeast(width, q - row);
    } else if q - row <= -1 {
      MulAtLeast(width, row - q);
    }
  }

  lemma MulAtLeast(a: int, b: int)
    requires a > 0 && b >= 1
    ensures a * b >= a
  {
  }

  lemma MulMonotone(a: int, b: int, c: int)
    requires a > 0 && b <= c
    ensures a * b <= a * c
  {
  }

  // Properties of a frame

  /** The box is half the terminal, rounded down, plus 24 columns wide and
      half the terminal rows tall. It is always at least 24 columns wide, more
      than the art's 22, and it is tall enough for the art's 26 rows exactly when the
      terminal has at least 52 rows. */
  lemma SymbolBoxSize(twidth: U16, theight: U16)
    ensures SymbolWidth(twidth) == twidth / 2 + 24 && SymbolHeight(theight) == theight / 2
    ensures SymbolWidth(twidth) >= 24
    ensures SymbolHeight(theight) > 25 <==> theight >= 52
  {
  }

  /** A cell is blank exactly when the source's overlap test accepts it and
      its box-relative coordinate is in the mask. */
  lemma BlankIsInsideAndMarked(twidth: U16, theight: U16, symbolCoords: set<(int, int)>, col: int, row: int)
    ensures IsBlank(twidth, theight, symbolCoords, col, row)
        <==> IsInsideSymbol(col, row, SymbolWidth(twidth), SymbolHeight(theight), twidth, theight)
             && (col - Offset(twidth, SymbolWidth(twidth)), row - Offset(theight, SymbolHeight(theight)))
                in symbolCoords
  {
  }

  /** The cursor column is 2 * col reduced modulo 2^16, an even u16 value. */
  lemma CursorColumnModular(col: nat)
    ensures CursorColumn(col) == (2 * col) % 0x1_0000
    ensures 0 <= CursorColumn(col) < 0x1_0000 && CursorColumn(col) % 2 == 0
  {
  }

  /** Row-major enumeration: every grid cell (col, row) is visited, at index
      row * twidth + col, and that is the only index that visits it. */
  lemma RowMajorVisit(twidth: int, theight: int, col: int, row: int, i: int)
    requires 0 <= col < twidth && 0 <= row < theight
    requires 0 <= i < twidth * theight
    ensures 0 <= row * twidth + col < twidth * theight
    ensures (i % twidth == col && i / twidth == row) <==> i == row * twidth + col
  {
    RowMajorIndex(twidth, row, col);
    MulAtLeast(twidth, theight - row);
    assert twidth * theight == row * twidth + (theight - row) * twidth;
  }

  /** Every index of a frame names a grid cell. */
  lemma IndexInGrid(twidth: int, theight: int, i: int)
    requires twidth > 0 && 0 <= i < twidth * theight
    ensures 0 <= i % twidth < twidth && 0 <= i / twidth < theight
  {
    if i / twidth >= theight {
      MulMonotone(twidth, theight, i / twidth);
    }
  }

  /** Cells are visited top to bottom, left to right: a later index is on a
      later row, or on the same row further right. */
  lemma RowMajorOrder(twidth: int, i: int, j: int)
    requires twidth > 0 && 0 <= i < j
    ensures i / twidth < j / twidth || (i / twidth == j / twidth && i % twidth < j % twidth)
  {
    var qi, qj := i / twidth, j / twidth;
    if qj < qi {
      MulMonotone(twidth, qj + 1, qi);
    }
  }

  /** The cursor column of logical column col is 2 * col as long as the u16
      product does not wrap, that is, for terminals up to 32768 columns. */
  lemma CursorColumnExact(col: int)
    requires 0 <= col < 0x8000
    ensures CursorColumn(col) == 2 * col
  {
  }

  /** Past 32768 columns the u16 product wraps: column 32768 is drawn at
      cursor column 0, over column 0. */
  lemma CursorColumnWraps()
    ensures CursorColumn(0x8000) == 0 == CursorColumn(0)
  {
  }

  /** On a terminal at most 32768 columns wide, the draws of one frame go to
      pairwise distinct screen positions. */
  lemma DistinctPositions(twidth: int, i: int, j: int)
    requires 0 < twidth <= 0x8000 && 0 <= i < j
    ensures (CursorColumn(i % twidth), i / twidth) != (CursorColumn(j % twidth), j / twidth)
  {
    RowMajorOrder(twidth, i, j);
    CursorColumnExact(i % twidth);
    CursorColumnExact(j % twidth);
  }

  /** On a terminal at least 52 rows tall, the box (at least 24 wide and 26
      tall) holds any mask within columns 0..21 and rows 0..25, as the art's
      is (SymbolMask.SymbolExtent); then a cell is blank exactly when its
      box-relative coordinate is in the mask. */
  lemma MaskFitsTallTerminal(twidth: U16, theight: U16, symbolCoords: set<(int, int)>, col: int, row: int)
    requires theight >= 52
    requires forall x, y :: (x, y) in symbolCoords ==> 0 <= x <= 21 && 0 <= y <= 25
    ensures IsBlank(twidth, theight, symbolCoords, col, row)
        <==> (col - Offset(twidth, SymbolWidth(twidth)), row - Offset(theight, SymbolHeight(theight)))
             in symbolCoords
  {
  }

  /** On a terminal under 52 rows the box is shorter than the art, so the
      marker at column 3 of row 25 is cut off: its cell is not blank. */
  lemma SymbolClippedOnShortTerminal(twidth: U16, theight: U16)
    requires theight < 52
    ensures (3, 25) in BuildMask(Symbol)
    ensures !IsBlank(twidth, theight, BuildMask(Symbol),
                     Offset(twidth, SymbolWidth(twidth)) + 3, Offset(theight, SymbolHeight(theight)) + 25)
  {
    SymbolExtremes();
  }

  /** From 46 columns and 52 rows up, every marker of the symbol, translated
      by the box offsets, lands on a cell of the grid. */
  lemma SymbolOnGrid(twidth: U16, theight: U16)
    requires twidth >= 46 && theight >= 52
    ensures forall x, y :: (x, y) in BuildMask(Symbol) ==>
      0 <= Offset(twidth, SymbolWidth(twidth)) + x < twidth
      && 0 <= Offset(theight, SymbolHeight(theight)) + y < theight
  {
    SymbolExtent();
  }

  /** Under 46 columns the box starts left of the grid: the marker in column 0
      of row 4 falls on a negative grid column, which the frame never draws. */
  lemma SymbolCutOnNarrowTerminal(twidth: U16)
    requires twidth < 46
    ensures (0, 4) in BuildMask(Symbol)
    ensures Offset(twidth, SymbolWidth(twidth)) + 0 < 0
  {
    SymbolExtremes();
  }

  /** A frame whose blanks follow IsBlank, for a mask that fits the box of a
      terminal of at least 52 rows, blanks exactly the translated mask. */
  lemma TallFrameBlanks(twidth: U16, theight: U16, symbolCoords: set<(int, int)>, draws: seq<Draw>)
    requires twidth > 0 && theight >= 52
    requires forall x, y :: (x, y) in symbolCoords ==> 0 <= x <= 21 && 0 <= y <= 25
    requires forall i :: 0 <= i < |draws| ==>
      (draws[i].ch == ' ' <==> IsBlank(twidth, theight, symbolCoords, i % twidth, i / twidth))
    ensures forall i :: 0 <= i < |draws| ==>
      (draws[i].ch == ' ' <==>
        (i % twidth - Offset(twidth, SymbolWidth(twidth)), i / twidth - Offset(theight, SymbolHeight(theight)))
          in symbolCoords)
  {
    forall i | 0 <= i < |draws|
      ensures draws[i].ch == ' ' <==>
        (i % twidth - Offset(twidth, SymbolWidth(twidth)), i / twidth - Offset(theight, SymbolHeight(theight)))
          in symbolCoords
    {
      MaskFitsTallTerminal(twidth, theight, symbolCoords, i % twidth, i / twidth);
    }
  }
}
