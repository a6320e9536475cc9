/**
  The character palette of the rain: the printable, non-space ASCII
  characters, code points 33 to 126, in increasing order.
 */
module MatrixChars {

  /** The palette built at startup: `(33..127).map(|c: u8| c as char).collect()`. */
  function Palette(): seq<char>
  {
    seq(127 - 33, i requires 0 <= i < 127 - 33 => (33 + i) as char)
  }

  /** The palette has 94 characters, exactly those with code points 33..126,
      strictly increasing; in particular it holds no space. */
  lemma PaletteContents()
    ensures |Palette()| == 94
    ensures forall c: char :: c in Palette() <==> 33 <= c as int <= 126
    ensures forall i, j :: 0 <= i < j < |Palette()| ==> Palette()[i] < Palette()[j]
    ensures ' ' !in Palette()
  {
    var p := Palette();
    forall c: char | 33 <= c as int <= 126 ensures c in p {
      assert p[c as int - 33] == c;
    }
  }

  /** Every index the random source may return (0 <= k < |Palette()|) selects
      a printable, non-space character. */
  lemma PaletteIndexPrintable(k: int)
    requires 0 <= k < |Palette()|
    ensures 33 <= Palette()[k] as int <= 126 && Palette()[k] != ' '
  {
  }
}
