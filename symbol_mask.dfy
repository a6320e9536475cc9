/**
  The symbol mask: the coordinates (column, row) of every marker character
  '0' in the art of the symbol, rows counted from the first line of the art
  as `str::lines` splits it, columns counted in characters.
 */
module SymbolMask {
  import opened TextLines

  /** The character that marks a filled pixel of the art. */
  const Marker: char := '0'

  /** The rows of BITCOIN_SYMBOL as they appear in the source, trailing spaces
      included; row 0 is the empty row before the literal's first line break. */
  const ArtRows: seq<string> := [
    "",
    "   000    000  ",
    "   000    000",
    "   000    000",
    "00000000000000000000",
    "000000000000000000000  ",
    "   000             000 ",
    "   000             000 ",
    "   000             000 ",
    "   000             000 ",
    "   000             000 ",
    "   000             000 ",
    "   00000000000000000",
    "   00000000000000000",
    "   000             000 ",
    "   000             000 ",
    "   000             000 ",
    "   000             000 ",
    "   000             000 ",
    "   000             000 ",
    "000000000000000000000",
    "00000000000000000000  ",
    "   000    000 ",
    "   000    000 ",
    "   000    000",
    "   000    000"
  ]

  /** The same rows, rebuilt one by one. Being a comprehension rather than a
      literal, it keeps the verifier from evaluating Join and Lines on the
      whole text wherever the mask of the symbol is mentioned. */
  const SymbolRows: seq<string> := seq(|ArtRows|, i requires 0 <= i < |ArtRows| => ArtRows[i])

  /** BITCOIN_SYMBOL itself: a line break, then every art row followed by a
      line break, so the text starts and ends with '\n'. */
  const Symbol: string := Join(SymbolRows)

  /** The marked coordinates of one line, the first character being column x
      (`line.chars().enumerate().filter_map(..)`). */
  function LineMarks(line: string, x: int, y: int): set<(int, int)>
    decreases |line|
  {
    if line == [] then {}
    else (if line[0] == Marker then {(x, y)} else {}) + LineMarks(line[1..], x + 1, y)
  }

  /** The marked coordinates of consecutive lines, the first being row y
      (`lines.enumerate().flat_map(..)`). */
  function LinesMarks(ls: seq<string>, y: int): set<(int, int)>
    decreases |ls|
  {
    if ls == [] then {} else LineMarks(ls[0], 0, y) + LinesMarks(ls[1..], y + 1)
  }

  /** The mask builder: every marker of the text, as (column, row). */
  function BuildMask(s: string): set<(int, int)>
  {
    LinesMarks(Lines(s), 0)
  }

  lemma {:induction false} LineMarksMembership(line: string, x0: int, y0: int, x: int, y: int)
    ensures (x, y) in LineMarks(line, x0, y0)
        <==> y == y0 && x0 <= x < x0 + |line| && line[x - x0] == Marker
    decreases |line|
  {
    if line != [] {
      LineMarksMembership(line[1..], x0 + 1, y0, x, y);
    }
  }

  lemma {:induction false} LinesMarksMembership(ls: seq<string>, y0: int, x: int, y: int)
    ensures (x, y) in LinesMarks(ls, y0)
        <==> y0 <= y < y0 + |ls| && 0 <= x < |ls[y - y0]| && ls[y - y0][x] == Marker
    decreases |ls|
  {
    if ls != [] {
      LineMarksMembership(ls[0], 0, y0, x, y);
      LinesMarksMembership(ls[1..], y0 + 1, x, y);
    }
  }

  /** (x, y) is in the mask exactly when line y of the text has the marker at
      index x; so every coordinate has 0 <= y < line count and 0 <= x < |line y|. */
  lemma MaskMembership(s: string, x: int, y: int)
    ensures (x, y) in BuildMask(s)
        <==> 0 <= y < |Lines(s)| && 0 <= x < |Lines(s)[y]| && Lines(s)[y][x] == Marker
  {
    LinesMarksMembership(Lines(s), 0, x, y);
  }

  /** A two-line text "0 \n 0" yields exactly {(0, 0), (1, 1)}. */
  lemma MaskExample()
    ensures BuildMask("0 \n 0") == {(0, 0), (1, 1)}
  {
    var s := "0 \n 0";
    LineEndOf("0 ", "\n 0");
    assert s[..2] == "0 " && s[3..] == " 0";
    assert Lines(s) == ["0 "] + Lines(" 0");
    assert Lines(s) == ["0 ", " 0"];
    forall x, y ensures (x, y) in BuildMask(s) <==> (x, y) in {(0, 0), (1, 1)} {
      MaskMembership(s, x, y);
    }
  }

  /** The art splits back into the 26 rows of SymbolRows: the leading line
      break gives an empty row 0 and the trailing one adds no row. */
  lemma SymbolLines()
    ensures Lines(Symbol) == SymbolRows && |SymbolRows| == 26
  {
    forall i | 0 <= i < |SymbolRows| ensures '\n' !in SymbolRows[i] {
    }
    LinesOfJoin(SymbolRows);
  }

  /** Row 0 of the symbol holds no marker. */
  lemma SymbolTopRowEmpty(x: int)
    ensures (x, 0) !in BuildMask(Symbol)
  {
    SymbolLines();
    MaskMembership(Symbol, x, 0);
  }

  /** Every marker of the symbol lies in columns 0..21 and rows 1..25. */
  lemma SymbolExtent()
    ensures forall x, y :: (x, y) in BuildMask(Symbol) ==> 0 <= x <= 21 && 1 <= y <= 25
  {
    SymbolLines();
    forall x, y | (x, y) in BuildMask(Symbol)
      ensures 0 <= x <= 21 && 1 <= y <= 25
    {
      RowsExtent(Symbol, x, y);
    }
  }

  lemma {:induction false} RowsExtent(s: string, x: int, y: int)
    requires Lines(s) == SymbolRows
    requires (x, y) in BuildMask(s)
    ensures 0 <= x <= 21 && 1 <= y <= 25
  {
    MaskMembership(s, x, y);
    assert 0 <= y < |SymbolRows| && 0 <= x < |SymbolRows[y]| && SymbolRows[y][x] == Marker;
    RowMarkersWithin(y, x);
  }

  /** The bounds of SymbolExtent are reached: column 0 (in row 4), column 21
      (in row 6) and row 25 (in column 3) hold markers. */
  lemma SymbolExtremes()
    ensures (0, 4) in BuildMask(Symbol)
    ensures (21, 6) in BuildMask(Symbol) && (3, 25) in BuildMask(Symbol)
  {
    SymbolLines();
    RowsExtremes(Symbol);
  }

  lemma {:induction false} RowsExtremes(s: string)
    requires Lines(s) == SymbolRows
    ensures (0, 4) in BuildMask(s)
    ensures (21, 6) in BuildMask(s) && (3, 25) in BuildMask(s)
  {
    assert SymbolRows[4][0] == Marker && SymbolRows[6][21] == Marker && SymbolRows[25][3] == Marker;
    MaskMembership(s, 0, 4);
    MaskMembership(s, 21, 6);
    MaskMembership(s, 3, 25);
  }

  /** No row of the art has a marker right of column 21. */
  lemma {:induction false} RowMarkersWithin(y: int, x: int)
    requires 0 <= y < |SymbolRows| && 0 <= x < |SymbolRows[y]|
    requires SymbolRows[y][x] == Marker
    ensures 1 <= y && x <= 21
  {
  }
}
