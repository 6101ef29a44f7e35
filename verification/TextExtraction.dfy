/**
 vterm_screen_get_chars and vterm_screen_get_text (src/libvterm/src/screen.c): one loop that fills the
 caller's buffer with code points, or with their UTF-8.
 */
module TextExtraction {
  import opened Bytes
  import opened Cells
  import opened Rects
  import Utf8

  const SPACE := 0x20
  const LINEFEED := 0x0a

  predicate IsGap(c: Cell) { c.chars != [] && c.chars[0] == WIDE_GAP }

  predicate IsGlyph(c: Cell) { !IsBlank(c) && !IsGap(c) }

  /** What a cell stands for when something follows it in its row. */
  function CellText(c: Cell): seq<nat> {
    if IsBlank(c) then [SPACE] else if IsGap(c) then [] else c.chars
  }

  /** A row without what follows its last glyph. */
  function Inked(row: Row): (r: Row)
    ensures |r| <= |row| && r == row[..|r|]
    ensures r != [] ==> IsGlyph(r[|r| - 1])
    ensures forall i :: |r| <= i < |row| ==> !IsGlyph(row[i])
  {
    if row != [] && !IsGlyph(row[|row| - 1]) then Inked(row[..|row| - 1]) else row
  }

  function CellsText(row: Row): seq<nat> {
    if row == [] then [] else CellsText(row[..|row| - 1]) + CellText(row[|row| - 1])
  }

  function RowText(row: Row): seq<nat> { CellsText(Inked(row)) }

  /** The text of a rectangle: its rows' texts with a line feed between two rows. */
  function Text(rows: seq<Row>): seq<nat> {
    if rows == [] then []
    else if |rows| == 1 then RowText(rows[0])
    else Text(rows[..|rows| - 1]) + [LINEFEED] + RowText(rows[|rows| - 1])
  }

  /** A blank cell before a glyph is a space, one after the last is nothing; a gap is nothing; rows are a line feed apart. */
  lemma ThreeRows(pen: ScreenPen)
    ensures var a, wide, gap, blank := Cell([0x41, 0x301], pen), Cell([0x4e00], pen), Cell([0xffff_ffff], pen), Cell([], pen);
            Text([[blank, a, blank, wide, gap, blank], [blank, blank], [a]]) == [0x20, 0x41, 0x301, 0x20, 0x4e00] + [0x0a, 0x0a, 0x41, 0x301]
  {
    var a, wide, gap, blank := Cell([0x41, 0x301], pen), Cell([0x4e00], pen), Cell([0xffff_ffff], pen), Cell([], pen);
    FirstRow(a, wide, gap, blank);
    OtherRows(a, blank);
    hide RowText, Text;
    RowsApart([blank, a, blank, wide, gap, blank], [blank, blank], [a]);
  }

  lemma OtherRows(a: Cell, blank: Cell)
    requires a.chars == [0x41, 0x301] && blank.chars == []
    ensures RowText([blank, blank]) == [] && RowText([a]) == [0x41, 0x301]
  {
    hide CellsText, Inked;
    InkedIs([blank, blank], 0);
    InkedIs([a], 1);
    CellsTextSnoc([], a);
    assert [] + [a] == [a] == [a][..1] && [blank, blank][..0] == [];
  }

  lemma RowsApart(a: Row, b: Row, c: Row)
    ensures Text([a, b, c]) == RowText(a) + [0x0a] + RowText(b) + [0x0a] + RowText(c)
  {
    hide RowText, Text;
    RowAdded(a, [], b);
    RowAdded(a, [b], c);
    assert [a] + [] == [a] && [a] + [b] == [a, b] && [a, b] + [c] == [a, b, c];
  }

  lemma RowAdded(first: Row, more: seq<Row>, last: Row)
    ensures Text([first]) == RowText(first) && Text([first] + more + [last]) == Text([first] + more) + [0x0a] + RowText(last)
  {
    assert ([first] + more + [last])[..|more| + 1] == [first] + more;
  }

  lemma FirstRow(a: Cell, wide: Cell, gap: Cell, blank: Cell)
    requires a.chars == [0x41, 0x301] && wide.chars == [0x4e00] && gap.chars == [0xffff_ffff] && blank.chars == []
    ensures RowText([blank, a, blank, wide, gap, blank]) == [0x20, 0x41, 0x301, 0x20, 0x4e00]
  {
    hide CellsText, Inked;
    var row := [blank, a, blank, wide, gap, blank];
    InkedIs(row, 4);
    assert row[..4] == [] + [blank] + [a] + [blank] + [wide];
    CellsTextSnoc([], blank);
    CellsTextSnoc([] + [blank], a);
    CellsTextSnoc([] + [blank] + [a], blank);
    CellsTextSnoc([] + [blank] + [a] + [blank], wide);
  }

  lemma CellsTextSnoc(row: Row, c: Cell)
    ensures CellsText(row + [c]) == CellsText(row) + CellText(c) && CellsText([]) == []
  {
    assert (row + [c])[..|row|] == row;
  }

  lemma InkedIs(row: Row, n: nat)
    requires n <= |row| && (n > 0 ==> IsGlyph(row[n - 1])) && forall i :: n <= i < |row| ==> !IsGlyph(row[i])
    ensures Inked(row) == row[..n]
  {
  }

  function Size(utf8: bool, cp: nat): (n: nat)
    ensures n > 0
  {
    if utf8 then Utf8.Length(cp) else 1
  }

  function TotalSize(utf8: bool, text: seq<nat>): nat {
    if text == [] then 0 else TotalSize(utf8, text[..|text| - 1]) + Size(utf8, text[|text| - 1])
  }

  /** How many code points of the text a buffer of `len` units has room for. */
  function Fitting(utf8: bool, text: seq<nat>, len: nat): (k: nat)
    ensures k <= |text|
  {
    if TotalSize(utf8, text) <= len then |text| else Fitting(utf8, text[..|text| - 1], len)
  }

  /** Fitting is what its name says: all up to there fits, one more does not. */
  lemma {:induction false} FittingIsMost(utf8: bool, text: seq<nat>, len: nat)
    ensures var k := Fitting(utf8, text, len);
            && TotalSize(utf8, text[..k]) <= len
            && (forall j :: k < j <= |text| ==> TotalSize(utf8, text[..j]) > len)
  {
    assert text[..|text|] == text;
    if TotalSize(utf8, text) > len {
      var most := text[..|text| - 1];
      FittingIsMost(utf8, most, len);
      assert forall j :: 0 <= j <= |most| ==> most[..j] == text[..j];
    }
  }

  predicate Encodable(text: seq<nat>) {
    forall i :: 0 <= i < |text| ==> text[i] < Utf8.LIMIT
  }

  lemma FittingSnoc(utf8: bool, text: seq<nat>, cp: nat, len: nat)
    ensures TotalSize(utf8, text + [cp]) == TotalSize(utf8, text) + Size(utf8, cp)
    ensures Fitting(utf8, text + [cp], len) == if TotalSize(utf8, text) + Size(utf8, cp) <= len then |text| + 1 else Fitting(utf8, text, len)
    ensures TotalSize(utf8, text) <= len ==> Fitting(utf8, text, len) == |text|
  {
    assert (text + [cp])[..|text|] == text;
  }

  /** The loop's output: a position that runs on past the end of the buffer, and what was put in before. */
  class Output {
    const utf8: bool
    const str: array?<byte>
    const chars: array?<nat>
    const len: nat
    var outpos: nat

    /** Everything put so far, whether it fitted or not. */
    ghost var text: seq<nat>

    /** What the buffers held at first. */
    ghost const strBefore: seq<byte>
    ghost const charsBefore: seq<nat>

    ghost predicate Valid() reads this, str, chars {
      && outpos == TotalSize(utf8, text)
      && (utf8 ==> Encodable(text))
      && Shows(text, Fitting(utf8, text, len))
    }

    /** The buffer holds the first `k` code points whole, and after them what it held before. */
    ghost predicate Shows(text: seq<nat>, k: nat) reads str, chars {
      && k <= |text|
      && (utf8 && str != null ==>
            var size := TotalSize(true, text[..k]);
            && Encodable(text[..k]) && size <= len <= str.Length == |strBefore|
            && str[..] == Utf8.EncodeAll(text[..k]) + strBefore[size..])
      && (!utf8 && chars != null ==> k <= len <= chars.Length == |charsBefore| && chars[..] == text[..k] + charsBefore[k..])
    }

    constructor (utf8: bool, str: array?<byte>, chars: array?<nat>, len: nat)
      requires (str != null ==> len <= str.Length) && (chars != null ==> len <= chars.Length)
      ensures Valid() && text == [] && this.utf8 == utf8 && this.str == str && this.chars == chars && this.len == len
    {
      this.utf8, this.str, this.chars, this.len := utf8, str, chars, len;
      outpos, text := 0, [];
      strBefore := if str == null then [] else str[..];
      charsBefore := if chars == null then [] else chars[..];
    }

    /** PUT: what does not fit is only counted. */
    method Put(cp: nat)
      requires Valid() && (utf8 ==> cp < Utf8.LIMIT)
      modifies this`outpos, this`text, str, chars
      ensures Valid() && text == old(text) + [cp]
    {
      hide Utf8.EncodeAll, Utf8.Encode, TotalSize, Fitting;
      ghost var was := text;
      FittingSnoc(utf8, text, cp, len);
      assert text[..|text|] == text;
      assert (text + [cp])[..|text| + 1] == text + [cp];
      assert forall k :: 0 <= k <= |text| ==> (text + [cp])[..k] == text[..k];
      text := text + [cp];
      if utf8 {
        EncodeAllSnoc(was, cp);
        if str != null && outpos + Utf8.Length(cp) <= len {
          ghost var before := str[..];
          var n := Utf8.FillUtf8(cp, str, outpos);
          Overwritten(before, str[..], outpos, Utf8.Encode(cp), Utf8.EncodeAll(was), strBefore);
          outpos := outpos + n;
        } else {
          outpos := outpos + Utf8.Length(cp);
        }
      } else {
        TotalOfOnes(was);
        if chars != null && outpos + 1 <= len {
          ghost var before := chars[..];
          chars[outpos] := cp;
          Overwritten(before, chars[..], outpos, [cp], was, charsBefore);
        }
        outpos := outpos + 1;
      }
    }

    method PutSpaces(padding: nat)
      requires Valid()
      modifies this`outpos, this`text, str, chars
      ensures Valid() && text == old(text) + Spaces(padding)
    {
      hide Valid;
      NoRowText();
      for i := 0 to padding
        invariant Valid() && text == old(text) + Spaces(i)
      {
        SpacesSnoc(i);
        Put(SPACE);
      }
    }

    method PutGlyph(glyph: seq<nat>)
      requires Valid() && (utf8 ==> Encodable(glyph))
      modifies this`outpos, this`text, str, chars
      ensures Valid() && text == old(text) + glyph
    {
      for i := 0 to |glyph|
        invariant Valid() && text == old(text) + glyph[..i]
      {
        assert glyph[..i + 1] == glyph[..i] + [glyph[i]];
        Put(glyph[i]);
      }
      assert glyph[..|glyph|] == glyph;
    }

    /** One row of the rectangle: blank cells wait to see whether a glyph follows. */
    method PutRow(row: Row)
      requires Valid() && (utf8 ==> RowEncodable(row))
      modifies this`outpos, this`text, str, chars
      ensures Valid() && text == old(text) + RowText(row)
    {
      hide Valid, RowText, Owed, Spaces;
      var padding := 0;
      ghost var before := text;
      NoRowText();
      assert row[..0] == [];
      for col := 0 to |row|
        invariant Valid() && text == before + RowText(row[..col]) && padding == Owed(row[..col])
      {
        var cell := row[col];
        assert row[..col + 1] == row[..col] + [cell];
        RowTextSnoc(row[..col], cell);
        ghost var done := RowText(row[..col]);
        if IsBlank(cell) {
          padding := padding + 1;
        } else if !IsGap(cell) {
          PutSpaces(padding);
          padding := 0;
          PutGlyph(cell.chars);
          assert before + done + Spaces(Owed(row[..col])) + cell.chars == before + (done + Spaces(Owed(row[..col])) + cell.chars);
        }
      }
      assert row[..|row|] == row;
    }

    /** _get_chars. */
    method GetChars(screen: seq<Row>, rect: Rect) returns (total: nat)
      requires Valid() && text == []
      requires rect.startRow <= rect.endRow && InGrid(screen, rect)
      requires utf8 ==> forall i :: 0 <= i < |screen| ==> RowEncodable(screen[i])
      modifies this`outpos, this`text, str, chars
      ensures Valid() && text == Text(Slice(screen, rect))
      ensures total == TotalSize(utf8, Text(Slice(screen, rect)))
    {
      hide RowText, Valid, Text;
      ghost var rows := Slice(screen, rect);
      NoText();
      assert rows[..0] == [];
      for row := rect.startRow to rect.endRow
        invariant Valid() && |rows| == rect.endRow - rect.startRow
        invariant text == Text(rows[..row - rect.startRow]) + if rect.startRow < row < rect.endRow then [LINEFEED] else []
      {
        ghost var k := row - rect.startRow;
        assert rows[..k + 1] == rows[..k] + [rows[k]];
        TextSnoc(rows[..k], rows[k]);
        PutRow(screen[row][rect.startCol..rect.endCol]);
        if row < rect.endRow - 1 {
          Put(LINEFEED);
        }
      }
      assert rows[..|rows|] == rows;
      total := outpos;
      ValidTotal();
    }

    lemma ValidTotal()
      requires Valid()
      ensures outpos == TotalSize(utf8, text)
    {
    }
  }

  /** Writing where the text ends leaves the rest of the buffer as it was. */
  lemma Overwritten<T>(before: seq<T>, now: seq<T>, at: nat, more: seq<T>, text: seq<T>, first: seq<T>)
    requires |before| == |now| == |first| && at == |text| && at + |more| <= |now|
    requires before == text + first[at..]
    requires now[at..at + |more|] == more && forall i :: 0 <= i < |now| && !(at <= i < at + |more|) ==> now[i] == before[i]
    ensures now == (text + more) + first[at + |more|..]
  {
  }

  /** The part of the screen in a rectangle. */
  function Slice(screen: seq<Row>, rect: Rect): seq<Row>
    requires rect.startRow <= rect.endRow && InGrid(screen, rect)
  {
    seq(rect.endRow - rect.startRow, k requires 0 <= k < rect.endRow - rect.startRow =>
      screen[rect.startRow + k][rect.startCol..rect.endCol])
  }

  predicate InGrid(screen: seq<Row>, rect: Rect) {
    && 0 <= rect.startRow && rect.endRow <= |screen| && 0 <= rect.startCol <= rect.endCol
    && forall i :: rect.startRow <= i < rect.endRow ==> rect.endCol <= |screen[i]|
  }

  predicate RowEncodable(row: Row) {
    forall j :: 0 <= j < |row| && !IsGap(row[j]) ==> Encodable(row[j].chars)
  }

  function Spaces(n: nat): seq<nat> { seq(n, _ => SPACE) }

  /** The blank cells after the last glyph of a row. */
  function Owed(row: Row): nat {
    if row == [] then 0
    else
      var last := row[|row| - 1];
      if IsGlyph(last) then 0 else Owed(row[..|row| - 1]) + if IsBlank(last) then 1 else 0
  }

  /** A row's cells are the text up to its last glyph and the spaces it would owe to a next one. */
  lemma {:induction false} OwedSpaces(row: Row)
    ensures CellsText(row) == RowText(row) + Spaces(Owed(row))
  {
    if row == [] {
      NoRowText();
    } else {
      var most, last := row[..|row| - 1], row[|row| - 1];
      OwedSpaces(most);
      if IsGlyph(last) {
        assert RowText(row) + [] == CellsText(row);
      } else if IsBlank(last) {
        assert Spaces(Owed(most)) + [SPACE] == Spaces(Owed(row));
        assert RowText(most) + Spaces(Owed(most)) + [SPACE] == RowText(most) + (Spaces(Owed(most)) + [SPACE]);
      } else {
        assert CellsText(most) + [] == CellsText(most);
      }
    }
  }

  lemma SpacesSnoc(n: nat)
    ensures Spaces(n + 1) == Spaces(n) + [SPACE]
  {
  }

  lemma NoRowText()
    ensures RowText([]) == [] && Owed([]) == 0 && Spaces(0) == []
  {
  }

  lemma RowTextSnoc(row: Row, cell: Cell)
    ensures Owed(row + [cell]) == if IsGlyph(cell) then 0 else Owed(row) + if IsBlank(cell) then 1 else 0
    ensures RowText(row + [cell]) == if IsGlyph(cell) then RowText(row) + Spaces(Owed(row)) + cell.chars else RowText(row)
  {
    assert (row + [cell])[..|row|] == row;
    OwedSpaces(row);
  }

  lemma NoText()
    ensures Text([]) == []
  {
  }

  lemma TextSnoc(rows: seq<Row>, row: Row)
    ensures Text(rows + [row]) == if rows == [] then RowText(row) else Text(rows) + [LINEFEED] + RowText(row)
  {
    assert (rows + [row])[..|rows|] == rows;
  }

  lemma EncodeAllSnoc(text: seq<nat>, cp: nat)
    requires Encodable(text) && cp < Utf8.LIMIT
    ensures Encodable(text + [cp])
    ensures Utf8.EncodeAll(text + [cp]) == Utf8.EncodeAll(text) + Utf8.Encode(cp)
    ensures |Utf8.EncodeAll(text)| == TotalSize(true, text)
  {
    assert (text + [cp])[..|text|] == text;
    EncodedSize(text);
  }

  lemma {:induction false} EncodedSize(text: seq<nat>)
    requires Encodable(text)
    ensures |Utf8.EncodeAll(text)| == TotalSize(true, text)
  {
    if text != [] {
      EncodedSize(text[..|text| - 1]);
    }
  }

  lemma {:induction false} TotalOfOnes(text: seq<nat>)
    ensures TotalSize(false, text) == |text|
  {
    if text != [] {
      TotalOfOnes(text[..|text| - 1]);
    }
  }

  /** Asking with no buffer tells how much room to bring, and then the text comes whole. */
  method GetText(screen: seq<Row>, rect: Rect) returns (str: array<byte>)
    requires rect.startRow <= rect.endRow && InGrid(screen, rect)
    requires forall i :: 0 <= i < |screen| ==> RowEncodable(screen[i])
    ensures var text := Text(Slice(screen, rect)); Encodable(text) && str[..] == Utf8.EncodeAll(text)
  {
    var measure := new Output(true, null, null, 0);
    var total := measure.GetChars(screen, rect);
    str := new byte[total];
    var output := new Output(true, str, null, total);
    var _ := output.GetChars(screen, rect);
    ghost var text := output.text;
    assert text[..|text|] == text;
    assert str[..] == str[..total];
  }
}
