/**
  The bounding-box test of the renderer: a symbol box of size
  symbolWidth x symbolHeight is centred in a matrixWidth x matrixHeight grid,
  and a cell is inside when it lies in the half-open box.
  Arithmetic is on i32 in the program, whose `/` truncates toward zero;
  `Half` writes that division by two out explicitly.
 */
module Overlap {

  /** i32 division by two: truncates toward zero (Dafny's `/` is Euclidean). */
  function Half(n: int): int
  {
    if n >= 0 then n / 2 else -((-n) / 2)
  }

  /** The left (or top) edge of a box of extent `size` centred in `extent`. */
  function Offset(extent: int, size: int): int
  {
    Half(extent) - Half(size)
  }

  /** is_inside_bitcoin_symbol: the cell (x, y) lies in the centred box. */
  function IsInsideSymbol(x: int, y: int, symbolWidth: int, symbolHeight: int,
                          matrixWidth: int, matrixHeight: int): (inside: bool)
    ensures inside <==> 0 <= x - Offset(matrixWidth, symbolWidth) < symbolWidth
                        && 0 <= y - Offset(matrixHeight, symbolHeight) < symbolHeight
  {
    var offsetX := Half(matrixWidth) - Half(symbolWidth);
    var offsetY := Half(matrixHeight) - Half(symbolHeight);
    x >= offsetX && x < offsetX + symbolWidth && y >= offsetY && y < offsetY + symbolHeight
  }

  /** Half rounds toward zero: it is odd-symmetric and loses at most one unit. */
  lemma HalfTruncates(n: int)
    ensures Half(-n) == -Half(n)
    ensures n >= 0 ==> 0 <= n - 2 * Half(n) <= 1
    ensures n < 0 ==> -1 <= n - 2 * Half(n) <= 0
  {
  }

  /** For non-negative extents (terminal sizes) the box is centred: the margins
      left and right of it differ by at most one cell. */
  lemma OffsetCentres(extent: int, size: int)
    requires extent >= 0 && size >= 0
    ensures -1 <= Offset(extent, size) - (extent - (Offset(extent, size) + size)) <= 1
  {
  }

  /** The two edges of the box along x: the first and last columns are inside,
      their outer neighbours are not. */
  lemma InsideBoundaries(y: int, symbolWidth: int, symbolHeight: int,
                         matrixWidth: int, matrixHeight: int)
    requires symbolWidth >= 1
    requires 0 <= y - Offset(matrixHeight, symbolHeight) < symbolHeight
    ensures var ox := Offset(matrixWidth, symbolWidth);
      && IsInsideSymbol(ox, y, symbolWidth, symbolHeight, matrixWidth, matrixHeight)
      && IsInsideSymbol(ox + symbolWidth - 1, y, symbolWidth, symbolHeight, matrixWidth, matrixHeight)
      && !IsInsideSymbol(ox - 1, y, symbolWidth, symbolHeight, matrixWidth, matrixHeight)
      && !IsInsideSymbol(ox + symbolWidth, y, symbolWidth, symbolHeight, matrixWidth, matrixHeight)
  {
  }

  /** An 80-column matrix with a 10-column symbol: offset 35, so columns 35..44
      are inside and 34 and 45 are not. */
  lemma InsideExample80(y: int)
    requires 0 <= y < 10
    ensures Offset(80, 10) == 35
    ensures IsInsideSymbol(35, y, 10, 10, 80, 10) && IsInsideSymbol(44, y, 10, 10, 80, 10)
    ensures !IsInsideSymbol(34, y, 10, 10, 80, 10) && !IsInsideSymbol(45, y, 10, 10, 80, 10)
  {
  }
}
