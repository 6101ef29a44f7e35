/** Screen cells and rows, as far as the screen layer looks at them. */
module Cells {
  /** A colour is opaque to the screen layer; it only copies it. */
  type Color = int

  datatype Attrs = Attrs(bold: bool, underline: nat, italic: bool, blink: bool, reverse: bool,
                         conceal: bool, strike: bool, font: nat, small: bool, baseline: nat)

  const PLAIN := Attrs(false, 0, false, false, false, false, false, 0, false, 0)

  datatype ScreenPen = ScreenPen(fg: Color, bg: Color, attrs: Attrs, protectedCell: bool, dwl: bool, dhl: nat)

  /** `chars` holds the code points up to the terminating 0 of the source's fixed array. */
  datatype Cell = Cell(chars: seq<nat>, pen: ScreenPen)

  /** VTERM_MAX_CHARS_PER_CELL */
  const MAX_CHARS_PER_CELL := 6

  /** (uint32_t)-1, the chars[0] of a cell behind a double-width character. */
  const WIDE_GAP := 0xffff_ffff

  /** chars[0] == 0: never written, or erased. */
  predicate IsBlank(c: Cell) { c.chars == [] }

  type Row = seq<Cell>

  function Blanks(blank: Cell, n: nat): Row { seq(n, _ => blank) }

  /** A row without the blank cells at its end. */
  function Trim(row: Row): (r: Row)
    ensures |r| <= |row| && r == row[..|r|]
    ensures r != [] ==> !IsBlank(r[|r| - 1])
    ensures forall i :: |r| <= i < |row| ==> IsBlank(row[i])
  {
    if row != [] && IsBlank(row[|row| - 1]) then Trim(row[..|row| - 1]) else row
  }

  /** Blank cells at the end do not matter to Trim. */
  lemma {:induction false} TrimPadded(row: Row, pad: Row)
    requires forall i :: 0 <= i < |pad| ==> IsBlank(pad[i])
    ensures Trim(row + pad) == Trim(row)
  {
    if pad == [] {
      assert row + pad == row;
    } else {
      TrimPadded(row, pad[..|pad| - 1]);
      assert (row + pad)[..|row + pad| - 1] == row + pad[..|pad| - 1];
    }
  }
}
