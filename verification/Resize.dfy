/**
 Resizing the active primary buffer (src/libvterm/src/screen.c, resize_buffer): rows are taken from the
 bottom of the old buffer and written upwards into the new one; blank rows at the bottom give way when
 the rest does not fit, and what still does not fit is pushed to the scrollback.
 */
module Resize {
  import opened Cells
  import opened Reflow
  import opened Rects

  /** The buffer that is being replaced: read, never written. */
  datatype OldBuffer = OldBuffer(lines: seq<Line>, cols: nat, reflow: bool, cursor: Pos) {
    ghost predicate Valid() {
      && lines != [] && cols > 0
      && (forall i :: 0 <= i < |lines| ==> |lines[i].cells| == cols)
      && 0 <= cursor.row < |lines| && 0 <= cursor.col < cols
    }

    /** The top row does not continue a line that has left the screen. */
    predicate TopIsStart() {
      reflow && lines != [] ==> !lines[0].continuation
    }

    /** A logical line starts at this row, or the buffer ends here. */
    predicate Starts(row: nat) {
      reflow && row < |lines| ==> !lines[row].continuation
    }

    /** Rows start to end make up a logical line. */
    ghost predicate IsChain(start: nat, end: nat) {
      && start <= end < |lines|
      && (start < end ==> reflow)
      && (forall i :: start < i <= end ==> lines[i].continuation)
    }

    function Chain(start: nat, end: nat): seq<Line>
      requires start <= end < |lines|
    {
      lines[start..end + 1]
    }

    /** (row, col) is where the p-th cell of the line is. */
    ghost predicate ReadsAt(start: nat, end: nat, row: nat, col: nat, p: nat)
      requires start <= end < |lines|
    {
      start <= row <= end + 1 && col < cols && p == |Flat(Chain(start, end)[..row - start])| + col
    }

    predicate CursorIn(start: nat, end: nat) {
      start <= cursor.row <= end
    }

    /** The cell under the cursor, counted along its logical line. */
    ghost function CursorPosition(start: nat, end: nat): nat
      requires start <= end < |lines| && CursorIn(start, end) && cursor.col >= 0
    {
      |Flat(Chain(start, end)[..cursor.row - start])| + cursor.col
    }

    ghost function View(start: nat, end: nat, newCols: nat): CursorView
      requires Valid() && IsChain(start, end)
    {
      var length := |ChainText(Chain(start, end))|;
      CursorView(reflow, CursorIn(start, end) || SlipsOnto(end), if CursorIn(start, end) then CursorPosition(start, end) else length + cursor.col,
                 cursor.col, length, newCols)
    }

    /** With reflow, a cursor on the row below one that is full to its last cell is taken to be at the end of that row. */
    predicate SlipsOnto(end: nat)
      requires end < |lines|
    {
      reflow && cursor.row == end + 1 && |Trim(lines[end].cells)| == cols
    }

    /** A walk that has left the line behind is on the cursor's row exactly then. */
    lemma CursorBelow(start: nat, end: nat, row: nat, col: nat, p: nat)
      requires Valid() && IsChain(start, end) && ReadsAt(start, end, row, col, p) && p <= |ChainText(Chain(start, end))|
      requires cursor.row > end && reflow
      ensures cursor.row == row <==> SlipsOnto(end) && p == |ChainText(Chain(start, end))|
      ensures cursor.row == row ==> col == 0
    {
      hide ChainText, Flat, Trim;
      var chain := Chain(start, end);
      ChainTextLength(chain);
      assert chain[..|chain|] == chain;
      FlatPrefix(chain, |chain| - 1);
      assert chain[..|chain| - 1 + 1] == chain;
      if row <= end {
        FlatMonotone(chain, cols, row - start, |chain|);
      }
    }

    /** As long as there is text left, the walk is on one of the line's rows. */
    lemma StaysInChain(start: nat, end: nat, row: nat, col: nat, p: nat)
      requires Valid() && IsChain(start, end) && ReadsAt(start, end, row, col, p)
      requires p < |ChainText(Chain(start, end))|
      ensures row <= end
    {
      ChainTextTrims(Chain(start, end));
      assert Chain(start, end)[..end + 1 - start] == Chain(start, end);
    }

    /** Two cells of a line at the same distance from its start are the same cell. */
    lemma SamePosition(start: nat, end: nat, row: nat, col: nat, p: nat)
      requires Valid() && IsChain(start, end) && row <= end && ReadsAt(start, end, row, col, p)
      ensures CursorIn(start, end) ==> (CursorPosition(start, end) == p <==> cursor.row == row && cursor.col == col)
    {
      if CursorIn(start, end) {
        if cursor.row < row {
          FlatMonotone(Chain(start, end), cols, cursor.row - start, row - start);
        } else if row < cursor.row {
          FlatMonotone(Chain(start, end), cols, row - start, cursor.row - start);
        }
      }
    }

    lemma NextCell(start: nat, end: nat, row: nat, col: nat, p: nat)
      requires Valid() && IsChain(start, end) && ReadsAt(start, end, row, col, p)
      requires p < |ChainText(Chain(start, end))|
      ensures row <= end && ChainText(Chain(start, end))[p] == lines[row].cells[col]
      ensures if col + 1 < cols then ReadsAt(start, end, row, col + 1, p + 1) else ReadsAt(start, end, row + 1, 0, p + 1)
      ensures CursorIn(start, end) ==> (CursorPosition(start, end) == p <==> cursor.row == row && cursor.col == col)
      ensures !reflow ==> |ChainText(Chain(start, end))| <= cols && p == col
    {
      hide ChainText, Trim, Flat;
      StaysInChain(start, end, row, col, p);
      ChainTextAt(Chain(start, end), row - start, col);
      FlatPrefix(Chain(start, end), row - start);
      SamePosition(start, end, row, col, p);
      SingleRow(start, end);
    }

    /** When all the text has been read and the cursor is further along, it is on the row just left, beyond it. */
    lemma CursorPastText(start: nat, end: nat, row: nat, col: nat)
      requires Valid() && IsChain(start, end) && CursorIn(start, end)
      requires ReadsAt(start, end, row, col, |ChainText(Chain(start, end))|)
      requires CursorPosition(start, end) >= |ChainText(Chain(start, end))|
      ensures cursor.row == row && cursor.col >= col
    {
      hide ChainText, Flat, Trim;
      var chain := Chain(start, end);
      ChainTextLength(chain);
      var n, c := |chain| - 1, cursor.row - start;
      if c < n {
        FlatMonotone(chain, cols, c, n);
      }
      if row - start < n {
        FlatMonotone(chain, cols, row - start, n);
      } else if row - start > n {
        FlatMonotone(chain, cols, n, row - start);
      }
    }

    /** A cursor on the walk's row and not before it is as far along the line as it says. */
    lemma CursorAhead(start: nat, end: nat, row: nat, col: nat, p: nat)
      requires Valid() && IsChain(start, end) && CursorIn(start, end) && ReadsAt(start, end, row, col, p)
      ensures cursor.row == row && cursor.col >= col ==> CursorPosition(start, end) == p + (cursor.col - col)
    {
      hide ChainText, Flat, Trim;
    }

    lemma SingleRow(start: nat, end: nat)
      requires Valid() && IsChain(start, end)
      ensures |Flat(Chain(start, end)[..0])| == 0
      ensures !reflow ==> ChainText(Chain(start, end)) == Trim(lines[start].cells)
      ensures !reflow && CursorIn(start, end) ==> cursor.row == start && CursorPosition(start, end) == cursor.col
    {
      assert Chain(start, end)[..0] == [];
      if !reflow {
        ChainTextOne(lines[start]);
        assert Chain(start, end) == [lines[start]];
      }
    }
  }

  method LinePopcount(prev: OldBuffer, row: nat) returns (n: nat)
    requires row < |prev.lines|
    ensures n == |Trim(prev.lines[row].cells)|
  {
    var cells := prev.lines[row].cells;
    var col := |cells| - 1;
    while col >= 0 && IsBlank(cells[col])
      invariant -1 <= col < |cells|
      invariant forall i :: col < i < |cells| ==> IsBlank(cells[i])
    {
      col := col - 1;
    }
    n := col + 1;
    assert n > 0 ==> !IsBlank(cells[n - 1]);
  }

  /** Up from a row to the start of its logical line. */
  method FindLineStart(prev: OldBuffer, end: nat) returns (start: nat)
    requires prev.Valid() && prev.TopIsStart() && end < |prev.lines|
    ensures prev.IsChain(start, end)
    ensures prev.reflow ==> !prev.lines[start].continuation
  {
    var row: int := end;
    while prev.reflow && row >= 0 && prev.lines[row].continuation
      invariant 0 <= row <= end
      invariant row < end ==> prev.reflow
      invariant forall i :: row < i <= end ==> prev.lines[i].continuation
    {
      row := row - 1;
    }
    start := row;
  }

  /** The number of cells of a logical line, the blank ones at its end not counted. */
  method LineWidth(prev: OldBuffer, start: nat, end: nat) returns (width: nat)
    requires prev.Valid() && prev.IsChain(start, end)
    requires prev.reflow && end + 1 < |prev.lines| ==> !prev.lines[end + 1].continuation
    ensures width == |ChainText(prev.Chain(start, end))|
  {
    width := 0;
    for row := start to end + 1
      invariant width == if row <= end then |Flat(prev.lines[start..row])| else |ChainText(prev.Chain(start, end))|
    {
      assert prev.lines[start..row + 1][..row - start] == prev.lines[start..row];
      assert prev.lines[start..row + 1][row - start] == prev.lines[row];
      if prev.reflow && row < |prev.lines| - 1 && prev.lines[row + 1].continuation {
        width := width + prev.cols;
      } else {
        var n := LinePopcount(prev, row);
        width := width + n;
      }
    }
  }

  lemma SliceGrows(text: Row, from: nat, to: nat)
    requires from <= to < |text|
    ensures text[from..to] + [text[to]] == text[from..to + 1]
  {
  }

  /** The cells for one new row, before clearing its rest. */
  method CopyCells(prev: OldBuffer, start: nat, end: nat, oldRow0: nat, oldCol0: nat, count0: nat,
                   newRow: nat, newCursor0: Pos, ghost p0: nat, ghost text: Row)
    returns (cells: Row, oldRow: nat, oldCol: nat, newCursor: Pos)
    requires prev.Valid() && prev.IsChain(start, end) && text == ChainText(prev.Chain(start, end))
    requires prev.ReadsAt(start, end, oldRow0, oldCol0, p0) && p0 + count0 <= |text|
    requires !prev.reflow ==> p0 == 0 && oldRow0 == start
    ensures cells == text[p0..p0 + count0]
    ensures prev.reflow ==> prev.ReadsAt(start, end, oldRow, oldCol, p0 + count0)
    ensures !prev.reflow ==> oldCol == count0 && oldRow == if count0 == prev.cols then start + 1 else start
    ensures if prev.CursorIn(start, end) && p0 <= prev.CursorPosition(start, end) < p0 + count0
            then newCursor == Pos(newRow, prev.CursorPosition(start, end) - p0)
            else newCursor == newCursor0
  {
    hide ChainText, OldBuffer.CursorPosition, OldBuffer.Chain;
    cells, oldRow, oldCol, newCursor := [], oldRow0, oldCol0, newCursor0;
    var newCol, count := 0, count0;
    while count > 0
      invariant newCol + count == count0
      invariant prev.ReadsAt(start, end, oldRow, oldCol, p0 + newCol)
      invariant !prev.reflow ==> oldRow == start && oldCol == newCol
      invariant cells == text[p0..p0 + newCol]
      invariant if prev.CursorIn(start, end) && p0 <= prev.CursorPosition(start, end) < p0 + newCol
                then newCursor == Pos(newRow, prev.CursorPosition(start, end) - p0)
                else newCursor == newCursor0
      decreases count
    {
      prev.NextCell(start, end, oldRow, oldCol, p0 + newCol);
      SliceGrows(text, p0, p0 + newCol);
      cells := cells + [prev.lines[oldRow].cells[oldCol]];
      if prev.cursor.row == oldRow && prev.cursor.col == oldCol {
        newCursor := Pos(newRow, newCol);
      }
      oldCol := oldCol + 1;
      if oldCol == prev.cols {
        oldRow := oldRow + 1;
        if !prev.reflow {
          newCol := newCol + 1;
          assert newCol == count0;
          break;
        }
        oldCol := 0;
      }
      newCol := newCol + 1;
      count := count - 1;
    }
  }

  /** What is left to place when `p` cells have been placed. */
  function Rest(lay: Layout, text: Row, p: nat): seq<Line>
    requires lay.cols > 0 && p <= |text|
  {
    if lay.reflow then Wrap(lay, text[p..], p > 0) else Place(lay, text)
  }

  function FirstPart(lay: Layout, width: nat): nat { if width >= lay.cols then lay.cols else width }

  /** The next row to write when `p` cells have been placed. */
  function NextRow(lay: Layout, text: Row, p: nat): Row
    requires lay.cols > 0 && p <= |text|
  {
    Pad(lay, text[p..p + FirstPart(lay, |text| - p)])
  }

  method ClearRest(lay: Layout, copied: Row) returns (cells: Row)
    requires |copied| <= lay.cols
    ensures cells == Pad(lay, copied)
  {
    cells := copied;
    var newCol := |copied|;
    while newCol < lay.cols
      invariant |copied| <= newCol <= lay.cols
      invariant cells == copied + Blanks(lay.blank, newCol - |copied|)
    {
      assert Blanks(lay.blank, newCol + 1 - |copied|) == Blanks(lay.blank, newCol - |copied|) + [lay.blank];
      cells := cells + [lay.blank];
      newCol := newCol + 1;
    }
  }

  /** Where a cell `at` cells along a line of `length` cells is when the line is wrapped; beyond its text on its last row, as far as that goes. */
  function Land(cols: nat, length: nat, at: nat): Pos
    requires cols > 0
    decreases length
  {
    if length <= cols || at < cols then Pos(0, Min(at, cols - 1))
    else
      var rest := Land(cols, length - cols, at - cols);
      Pos(rest.row + 1, rest.col)
  }

  /** The cursor as seen from a logical line: whether it is on it, how far along, and how long the line is. */
  datatype CursorView = CursorView(reflow: bool, inLine: bool, at: nat, col: int, length: nat, newCols: nat) {
    /** What writing row newRow from cells p to q of the line does to the new cursor. */
    ghost predicate Step(p: nat, q: nat, newRow: nat, before: Pos, after: Pos) {
      && (!inLine || (reflow && at < p) ==> after == before)
      && (reflow && inLine && p <= at && (at < q || q == length) ==> after == Pos(newRow, Min(at - p, newCols - 1)))
      && (!reflow && inLine ==> after == Pos(newRow, Min(col, newCols - 1)))
    }

    /** Where it is in the rows from newRowStart on. */
    function Spot(newRowStart: int): Pos
      requires newCols > 0
    {
      var l := if reflow then Land(newCols, length, at) else Pos(0, Min(col, newCols - 1));
      Pos(newRowStart + l.row, l.col)
    }

    /** It is there once the cells of the line up to the cursor's, or all, have been written; `k` rows and `p` cells have. */
    ghost predicate SoFar(p: nat, k: nat, all: bool, newRowStart: nat, before: Pos, now: Pos)
      requires newCols > 0
    {
      && (!inLine ==> now == before)
      && (inLine && (all || (reflow && at < p)) ==> now == Spot(newRowStart))
      && (inLine && reflow && !all && p <= at ==> p <= length && Spot(newRowStart) == Pos(newRowStart + k + Land(newCols, length - p, at - p).row, Land(newCols, length - p, at - p).col))
    }
  }

  lemma SoFarNext(v: CursorView, p: nat, q: nat, k: nat, all: bool, newRowStart: nat, before: Pos, now: Pos, after: Pos)
    requires v.newCols > 0 && v.SoFar(p, k, false, newRowStart, before, now) && v.Step(p, q, newRowStart + k, now, after)
    requires !v.reflow ==> all && k == 0
    requires v.reflow ==> p <= v.length && q == p + Min(v.length - p, v.newCols) && (all <==> q == v.length)
    ensures v.SoFar(q, k + 1, all, newRowStart, before, after)
  {
  }

  lemma {:induction false} LandInside(lay: Layout, text: Row, at: nat, continuation: bool)
    requires lay.cols > 0
    ensures var l := Land(lay.cols, |text|, at); 0 <= l.row < |Wrap(lay, text, continuation)| && 0 <= l.col < lay.cols
    decreases |text|
  {
    if |text| > lay.cols && at >= lay.cols {
      LandInside(lay, text[lay.cols..], at - lay.cols, true);
    }
  }

  /** One new row: its cells, where the cursor goes if it is on them or beyond them, and cleared cells after them. */
  method CopyRow(prev: OldBuffer, lay: Layout, start: nat, end: nat, oldRow0: nat, oldCol0: nat, count: nat,
                 newRow: nat, newCursor0: Pos, ghost p0: nat, ghost text: Row)
    returns (cells: Row, oldRow: nat, oldCol: nat, newCursor: Pos)
    requires prev.Valid() && prev.IsChain(start, end) && text == ChainText(prev.Chain(start, end))
    requires prev.ReadsAt(start, end, oldRow0, oldCol0, p0) && p0 + count <= |text|
    requires lay.cols > 0 && lay.reflow == prev.reflow && count == FirstPart(lay, |text| - p0)
    requires !prev.reflow ==> p0 == 0 && oldRow0 == start
    ensures cells == NextRow(lay, text, p0)
    ensures prev.reflow ==> prev.ReadsAt(start, end, oldRow, oldCol, p0 + count)
    ensures prev.View(start, end, lay.cols).Step(p0, p0 + count, newRow, newCursor0, newCursor)
  {
    hide ChainText, OldBuffer.CursorPosition, OldBuffer.Chain;
    cells, oldRow, oldCol, newCursor := CopyCells(prev, start, end, oldRow0, oldCol0, count, newRow, newCursor0, p0, text);
    var newCol := |cells|;
    if prev.reflow && prev.CursorIn(start, end) && p0 + count == |text| && prev.CursorPosition(start, end) >= |text| {
      prev.CursorPastText(start, end, oldRow, oldCol);
    }
    if prev.reflow && prev.CursorIn(start, end) {
      prev.CursorAhead(start, end, oldRow, oldCol, p0 + count);
    }
    if prev.reflow && prev.cursor.row > end {
      prev.CursorBelow(start, end, oldRow, oldCol, p0 + count);
    }
    prev.SingleRow(start, end);
    if prev.cursor.row == oldRow && prev.cursor.col >= oldCol {
      newCursor := Pos(newRow, Min(prev.cursor.col - oldCol + newCol, lay.cols - 1));
    }
    cells := ClearRest(lay, cells);
  }

  lemma RestStep(lay: Layout, text: Row, p: nat)
    requires lay.cols > 0 && p <= |text| && (!lay.reflow ==> p == 0)
    ensures Rest(lay, text, p)[0] == Line(NextRow(lay, text, p), p > 0)
    ensures |Rest(lay, text, p)| > 1 ==> Rest(lay, text, p)[1..] == Rest(lay, text, p + FirstPart(lay, |text| - p))
    ensures |Rest(lay, text, p)| > 1 ==> lay.reflow && p + FirstPart(lay, |text| - p) > 0
    ensures lay.reflow ==> (|Rest(lay, text, p)| == 1 <==> p + FirstPart(lay, |text| - p) == |text|)
  {
    if lay.reflow {
      var rest := text[p..];
      if |rest| > lay.cols {
        assert rest[..lay.cols] == text[p..p + lay.cols] && rest[lay.cols..] == text[p + lay.cols..];
      } else {
        assert rest == text[p..p + FirstPart(lay, |text| - p)];
      }
    } else {
      assert Fit(lay, text) == text[0..FirstPart(lay, |text|)];
    }
  }

  /** How far the copying of a line has come: `placed` rows are due, `k` of them written, `p` cells read. */
  ghost predicate Copying(prev: OldBuffer, lay: Layout, start: nat, end: nat, text: Row,
                          k: nat, oldRow: nat, oldCol: nat, width: nat, p: nat)
    requires lay.cols > 0 && start <= end < |prev.lines|
  {
    && p <= |text| && width == |text| - p && k < |Place(lay, text)|
    && prev.ReadsAt(start, end, oldRow, oldCol, p)
    && (p > 0 <==> k > 0)
    && (!prev.reflow ==> p == 0 && oldRow == start)
    && Rest(lay, text, p) == Place(lay, text)[k..]
  }

  lemma CopyingStart(prev: OldBuffer, lay: Layout, start: nat, end: nat, text: Row)
    requires lay.cols > 0 && prev.Valid() && prev.IsChain(start, end) && lay.reflow == prev.reflow
    ensures Copying(prev, lay, start, end, text, 0, start, 0, |text|, 0)
  {
    prev.SingleRow(start, end);
    assert text[0..] == text;
  }

  lemma CopyingWidth(prev: OldBuffer, lay: Layout, start: nat, end: nat, text: Row, k: nat, oldRow: nat, oldCol: nat, width: nat, p: nat)
    requires lay.cols > 0 && start <= end < |prev.lines| && Copying(prev, lay, start, end, text, k, oldRow, oldCol, width, p)
    ensures p <= |text| && width == |text| - p && (!lay.reflow ==> |Place(lay, text)| == 1)
  {
  }

  lemma CopyingStep(prev: OldBuffer, lay: Layout, start: nat, end: nat, text: Row,
                    k: nat, oldRow0: nat, oldCol0: nat, width: nat, p: nat, oldRow: nat, oldCol: nat)
    requires lay.cols > 0 && start <= end < |prev.lines| && lay.reflow == prev.reflow
    requires Copying(prev, lay, start, end, text, k, oldRow0, oldCol0, width, p)
    requires prev.reflow ==> prev.ReadsAt(start, end, oldRow, oldCol, p + FirstPart(lay, width))
    ensures Place(lay, text)[k] == Line(NextRow(lay, text, p), k > 0)
    ensures k + 1 < |Place(lay, text)| ==>
              Copying(prev, lay, start, end, text, k + 1, oldRow, oldCol, width - FirstPart(lay, width), p + FirstPart(lay, width))
    ensures prev.reflow ==> (k + 1 == |Place(lay, text)| <==> p + FirstPart(lay, width) == |text|)
  {
    RestStep(lay, text, p);
    assert Place(lay, text)[k..][1..] == Place(lay, text)[k + 1..];
  }

  /** One row of PlaceLine: the k-th of the rows that are due. */
  method PlaceRow(a: array<Line>, prev: OldBuffer, lay: Layout, start: nat, end: nat, newRow: nat, first: bool,
                  oldRow0: nat, oldCol0: nat, width0: nat, newCursor0: Pos, ghost text: Row, ghost p: nat, ghost k: nat)
    returns (oldRow: nat, oldCol: nat, width: nat, newCursor: Pos, ghost q: nat)
    requires prev.Valid() && prev.IsChain(start, end) && text == ChainText(prev.Chain(start, end))
    requires lay.cols > 0 && lay.reflow == prev.reflow && newRow < a.Length && first == (k == 0)
    requires Copying(prev, lay, start, end, text, k, oldRow0, oldCol0, width0, p)
    modifies a
    ensures a[newRow] == Place(lay, text)[k]
    ensures forall i :: 0 <= i < a.Length && i != newRow ==> a[i] == old(a[i])
    ensures k + 1 < |Place(lay, text)| ==> Copying(prev, lay, start, end, text, k + 1, oldRow, oldCol, width, q)
    ensures q == p + FirstPart(lay, width0) && (prev.reflow ==> (k + 1 == |Place(lay, text)| <==> q == |text|))
    ensures prev.View(start, end, lay.cols).Step(p, q, newRow, newCursor0, newCursor)
  {
    var count := FirstPart(lay, width0);
    width, q := width0 - count, p + count;
    var cells;
    cells, oldRow, oldCol, newCursor := CopyRow(prev, lay, start, end, oldRow0, oldCol0, count, newRow, newCursor0, p, text);
    CopyingStep(prev, lay, start, end, text, k, oldRow0, oldCol0, width0, p, oldRow, oldCol);
    a[newRow] := Line(cells, !first);
  }

  /** Writes the rows newRowStart to newRowEnd of the new buffer from one logical line of the old one. */
  method PlaceLine(a: array<Line>, prev: OldBuffer, lay: Layout, start: nat, end: nat, width0: nat,
                   newRowStart: nat, newRowEnd: nat, newCursor0: Pos, ghost text: Row)
    returns (newCursor: Pos)
    requires prev.Valid() && prev.IsChain(start, end) && text == ChainText(prev.Chain(start, end))
    requires lay.cols > 0 && lay.reflow == prev.reflow && width0 == |text|
    requires newRowStart <= newRowEnd < a.Length && newRowEnd - newRowStart + 1 == |Place(lay, text)|
    modifies a
    ensures a[newRowStart..newRowEnd + 1] == Place(lay, text)
    ensures a[..newRowStart] == old(a[..newRowStart]) && a[newRowEnd + 1..] == old(a[newRowEnd + 1..])
    ensures var v := prev.View(start, end, lay.cols); newCursor == if v.inLine then v.Spot(newRowStart) else newCursor0
  {
    hide Copying, Place, ChainText;
    newCursor := newCursor0;
    var newRow: nat, oldRow: nat, oldCol: nat, width: nat := newRowStart, start, 0, width0;
    ghost var p: nat, k: nat, view := 0, 0, prev.View(start, end, lay.cols);
    assert view.reflow == prev.reflow && view.length == |text| && view.newCols == lay.cols;
    hide OldBuffer.View, OldBuffer.Valid, OldBuffer.IsChain, OldBuffer.Chain;
    prev.SingleRow(start, end);
    CopyingStart(prev, lay, start, end, text);
    while newRow <= newRowEnd
      invariant newRow == newRowStart + k <= newRowEnd + 1
      invariant forall i :: 0 <= i < k ==> a[newRowStart + i] == Place(lay, text)[i]
      invariant forall i :: 0 <= i < newRowStart || newRow <= i < a.Length ==> a[i] == old(a[i])
      invariant newRow <= newRowEnd ==> Copying(prev, lay, start, end, text, k, oldRow, oldCol, width, p)
      invariant newRow == newRowStart ==> newCursor == newCursor0
      invariant view.SoFar(p, k, newRow > newRowEnd, newRowStart, newCursor0, newCursor)
    {
      ghost var p0, c := p, newCursor;
      CopyingWidth(prev, lay, start, end, text, k, oldRow, oldCol, width, p);
      oldRow, oldCol, width, newCursor, p :=
        PlaceRow(a, prev, lay, start, end, newRow, newRow == newRowStart, oldRow, oldCol, width, newCursor, text, p, k);
      SoFarNext(view, p0, p, k, newRow == newRowEnd, newRowStart, newCursor0, c, newCursor);
      newRow, k := newRow + 1, k + 1;
    }
  }

  // ----- the whole buffer

  /**
   How far the filling has come: `placed`, the new rows so far, hold the old rows [kept, to); the old rows
   from `to` on were blank and had to go, and the `spare` rows before them are blank and can go too.
   */
  ghost predicate Filled(prev: OldBuffer, lay: Layout, placed: seq<Line>, kept: nat, to: nat, spare: nat)
    requires lay.cols > 0
  {
    && kept + spare <= to <= |prev.lines|
    && (lay.reflow && kept < |prev.lines| ==> !prev.lines[kept].continuation)
    && (forall i :: to - spare <= i < |prev.lines| ==> IsBlankLine(lay.reflow, prev.lines[i]))
    && placed == PlaceAll(lay, prev.lines[kept..to])
  }

  lemma FilledBounds(prev: OldBuffer, lay: Layout, placed: seq<Line>, kept: nat, to: nat, spare: nat)
    requires lay.cols > 0 && Filled(prev, lay, placed, kept, to, spare)
    ensures kept + spare <= to <= |prev.lines|
    ensures lay.reflow && kept < |prev.lines| ==> !prev.lines[kept].continuation
    ensures Filled(prev, lay, placed, kept, to, 0)
  {
  }

  lemma NothingFilled(prev: OldBuffer, lay: Layout)
    requires lay.cols > 0
    ensures Filled(prev, lay, [], |prev.lines|, |prev.lines|, 0)
  {
  }

  /** Laying out rows of which the last `d` are blank. */
  lemma PlaceAllSpare(lay: Layout, lines: seq<Line>, d: nat)
    requires ValidLayout(lay) && d <= |lines|
    requires forall i :: |lines| - d <= i < |lines| ==> IsBlankLine(lay.reflow, lines[i])
    ensures PlaceAll(lay, lines) == PlaceAll(lay, lines[..|lines| - d]) + BlankLines(lay, d)
  {
    hide PlaceAll, BlankLine;
    var a, b := lines[..|lines| - d], lines[|lines| - d..];
    PlaceAllConcat(lay, a, b);
    PlaceAllBlanks(lay, b);
    assert lines == a + b;
  }

  /** Shifting the new rows down over spare blank rows drops exactly those. */
  lemma DropSpare(prev: OldBuffer, lay: Layout, placed: seq<Line>, kept: nat, to: nat, spare: nat, d: nat)
    requires ValidLayout(lay) && d <= spare && Filled(prev, lay, placed, kept, to, spare)
    ensures d <= |placed| && Filled(prev, lay, placed[..|placed| - d], kept, to - d, spare - d)
  {
    hide PlaceAll, BlankLine;
    var lines := prev.lines[kept..to];
    PlaceAllSpare(lay, lines, d);
    assert lines[..|lines| - d] == prev.lines[kept..to - d];
  }

  /** If only blank rows are placed, they are all the rows taken so far. */
  lemma OnlySpare(prev: OldBuffer, lay: Layout, placed: seq<Line>, kept: nat, to: nat, spare: nat)
    requires ValidLayout(lay) && Filled(prev, lay, placed, kept, to, spare) && |placed| == spare
    ensures kept + spare == to
  {
    DropSpare(prev, lay, placed, kept, to, spare, spare);
  }

  /** A logical line of width 0 is a single blank row. */
  lemma BlankChain(prev: OldBuffer, start: nat, end: nat)
    requires prev.Valid() && prev.IsChain(start, end) && ChainText(prev.Chain(start, end)) == []
    ensures start == end && Trim(prev.lines[start].cells) == []
  {
    if start == end {
      ChainTextOne(prev.lines[start]);
      assert prev.Chain(start, end) == [prev.lines[start]];
    }
  }

  lemma AddLine(prev: OldBuffer, lay: Layout, placed: seq<Line>, start: nat, end: nat, to: nat, spare: nat)
    requires ValidLayout(lay) && prev.Valid() && prev.reflow == lay.reflow && prev.IsChain(start, end)
    requires prev.reflow ==> !prev.lines[start].continuation
    requires Filled(prev, lay, placed, end + 1, to, spare)
    ensures Filled(prev, lay, Place(lay, ChainText(prev.Chain(start, end))) + placed, start, to, spare)
    ensures ChainText(prev.Chain(start, end)) == [] && |placed| == spare ==>
              Filled(prev, lay, Place(lay, ChainText(prev.Chain(start, end))) + placed, start, to, spare + 1)
  {
    hide PlaceAll, Place, ChainText;
    var chain, rest := prev.Chain(start, end), prev.lines[end + 1..to];
    assert prev.lines[start..to] == chain + rest;
    PlaceAllCons(lay, chain, rest);
    if ChainText(chain) == [] && |placed| == spare {
      BlankChain(prev, start, end);
      OnlySpare(prev, lay, placed, end + 1, to, spare);
    }
  }

  /** The memmove that makes room at the top of the new buffer. */
  method ShiftDown(a: array<Line>, downwards: nat)
    requires downwards <= a.Length
    modifies a
    ensures a[downwards..] == old(a[..a.Length - downwards])
  {
    var i := a.Length;
    while i > downwards
      invariant downwards <= i <= a.Length
      invariant forall k :: 0 <= k < i ==> a[k] == old(a[k])
      invariant forall k :: i <= k < a.Length ==> a[k] == old(a[k - downwards])
    {
      i := i - 1;
      a[i] := a[i - downwards];
    }
  }

  /** The memmove that closes the gap at the top of the new buffer. */
  method ShiftUp(a: array<Line>, upwards: nat)
    requires upwards <= a.Length
    modifies a
    ensures a[..a.Length - upwards] == old(a[upwards..])
  {
    ghost var was := a[..];
    for i := 0 to a.Length - upwards
      invariant forall k :: 0 <= k < i ==> a[k] == was[upwards..][k]
      invariant forall k :: i <= k < a.Length ==> a[k] == was[k]
    {
      a[i] := a[i + upwards];
      assert a[i] == was[upwards..][i];
    }
  }

  /** ceil(width / cols) rows with reflow on, and always one row without. */
  method LineHeight(lay: Layout, width: nat, ghost text: Row) returns (height: nat)
    requires lay.cols > 0 && width == |text|
    ensures height == |Place(lay, text)| && (width == 0 ==> height == 1)
  {
    if lay.reflow {
      WrapHeight(lay, text, false);
      height := if width != 0 then (width + lay.cols - 1) / lay.cols else 1;
    } else {
      height := 1;
    }
  }

  // ----- which lines fit

  /** The rows from here on are blank, and no row above them is. */
  function BlankFrom(reflow: bool, lines: seq<Line>): (n: nat)
    ensures n <= |lines|
    ensures forall i :: n <= i < |lines| ==> IsBlankLine(reflow, lines[i])
    ensures n > 0 ==> !IsBlankLine(reflow, lines[n - 1])
  {
    hide IsBlankLine;
    if lines != [] && IsBlankLine(reflow, lines[|lines| - 1]) then BlankFrom(reflow, lines[..|lines| - 1]) else |lines|
  }

  /** The cursor is on a row that reflow takes for the end of the full row above it, and that row's line lies under `start`'s. */
  ghost predicate SlippedBelow(prev: OldBuffer, start: nat)
    requires prev.Valid()
  {
    && prev.cursor.row > 0 && prev.SlipsOnto(prev.cursor.row - 1) && !prev.lines[prev.cursor.row].continuation
    && exists k :: start < k < prev.cursor.row && !prev.lines[k].continuation
  }

  /**
   When the line that starts at `start` comes up, the rows from there to this one have to be on the new screen with it: down to
   the last one that is not blank and to the cursor, as far as the cursor has kept its row.
   */
  ghost function Needed(prev: OldBuffer, start: nat): (m: nat)
    requires prev.Valid()
    ensures m <= |prev.lines| && BlankFrom(prev.reflow, prev.lines) <= m
  {
    var n := BlankFrom(prev.reflow, prev.lines);
    if prev.cursor.row < n || SlippedBelow(prev, start) then n else prev.cursor.row + 1
  }

  /** The line that starts at `start` fits a screen of `rows` rows with what is needed under it. */
  ghost predicate Fits(prev: OldBuffer, lay: Layout, rows: nat, start: nat)
    requires prev.Valid() && lay.cols > 0
  {
    start >= Needed(prev, start) || |PlaceAll(lay, prev.lines[start..Needed(prev, start)])| <= rows
  }

  /** A whole logical line: rows start to end. */
  ghost predicate IsLine(prev: OldBuffer, start: nat, end: nat) {
    prev.IsChain(start, end) && prev.Starts(start) && prev.Starts(end + 1)
  }

  /** Needed, for the line that ends above row `kept`. */
  function NeededAbove(prev: OldBuffer, kept: nat): (m: nat)
    requires prev.Valid()
    ensures m <= |prev.lines| && BlankFrom(prev.reflow, prev.lines) <= m
    ensures m == BlankFrom(prev.reflow, prev.lines) || (m == prev.cursor.row + 1 && prev.cursor.row >= BlankFrom(prev.reflow, prev.lines))
  {
    var n := BlankFrom(prev.reflow, prev.lines);
    if prev.cursor.row < n || (kept < prev.cursor.row && prev.SlipsOnto(prev.cursor.row - 1)) then n else prev.cursor.row + 1
  }

  lemma NeededIs(prev: OldBuffer, start: nat, end: nat)
    requires prev.Valid() && IsLine(prev, start, end)
    ensures Needed(prev, start) == NeededAbove(prev, end + 1)
  {
    var n, r := BlankFrom(prev.reflow, prev.lines), prev.cursor.row;
    if r >= n && r > 0 && prev.SlipsOnto(r - 1) && end + 1 < r {
      assert start < end + 1 < r && !prev.lines[end + 1].continuation;
    }
  }

  /** What is known of the new buffer in numbers when the old rows from `kept` on have been taken, and those from `to` on dropped. */
  ghost predicate Ledger(prev: OldBuffer, lay: Layout, rows: nat, kept: nat, to: nat, newRow: int, c: Pos)
    requires prev.Valid() && lay.cols > 0
  {
    var n, m := BlankFrom(prev.reflow, prev.lines), NeededAbove(prev, kept);
    && kept <= to <= |prev.lines| && n <= to && (kept < m ==> m <= to) && prev.Starts(kept)
    && rows > 0 && -1 <= newRow < rows && |PlaceAll(lay, prev.lines[kept..to])| == rows - newRow - 1
    && (if prev.cursor.row < kept then c.row == -1
        else if m == n then 0 <= c.row < rows - (to - Max(n, kept))
        else 0 <= c.row == rows - to + prev.cursor.row)
  }

  lemma LedgerOpens(prev: OldBuffer, lay: Layout, rows: nat)
    requires prev.Valid() && lay.cols > 0 && rows > 0
    ensures Ledger(prev, lay, rows, |prev.lines|, |prev.lines|, rows - 1, Pos(-1, -1))
  {
  }

  /** Rows past the last that is not blank count one each, laid out. */
  lemma Heights(prev: OldBuffer, lay: Layout, from: nat, m: nat, to: nat)
    requires prev.Valid() && ValidLayout(lay) && lay.reflow == prev.reflow && from <= m <= to <= |prev.lines|
    requires BlankFrom(prev.reflow, prev.lines) <= m
    ensures |PlaceAll(lay, prev.lines[from..to])| == |PlaceAll(lay, prev.lines[from..m])| + (to - m)
  {
    hide PlaceAll, BlankFrom, IsBlankLine, BlankLine;
    var top, bottom := prev.lines[from..m], prev.lines[m..to];
    assert prev.lines[from..to] == top + bottom;
    forall i | 0 <= i < |bottom| ensures IsBlankLine(lay.reflow, bottom[i]) {
      assert bottom[i] == prev.lines[m + i];
    }
    BlanksBegin(lay.reflow, bottom);
    PlaceAllConcat(lay, top, bottom);
    PlaceAllBlanks(lay, bottom);
  }

  lemma BlanksBegin(reflow: bool, lines: seq<Line>)
    requires forall i :: 0 <= i < |lines| ==> IsBlankLine(reflow, lines[i])
    ensures Boundary(reflow, lines)
  {
  }

  lemma PlaceAllSome(lay: Layout, lines: seq<Line>)
    requires lay.cols > 0
    ensures lines != [] ==> PlaceAll(lay, lines) != []
  {
  }

  lemma LineHeights(prev: OldBuffer, lay: Layout, start: nat, end: nat, to: nat)
    requires prev.Valid() && lay.cols > 0 && lay.reflow == prev.reflow && IsLine(prev, start, end) && end < to <= |prev.lines|
    ensures PlaceAll(lay, prev.lines[start..to]) == Place(lay, ChainText(prev.Chain(start, end))) + PlaceAll(lay, prev.lines[end + 1..to])
  {
    hide PlaceAll, Place, ChainText;
    assert prev.lines[start..to] == prev.Chain(start, end) + prev.lines[end + 1..to];
    PlaceAllCons(lay, prev.Chain(start, end), prev.lines[end + 1..to]);
  }

  /** Whether a line is blank, told from its width. */
  lemma WidthTells(prev: OldBuffer, start: nat, end: nat)
    requires prev.Valid() && IsLine(prev, start, end)
    ensures ChainText(prev.Chain(start, end)) == [] <==> IsBlankLine(prev.reflow, prev.lines[end])
    ensures ChainText(prev.Chain(start, end)) == [] ==> start == end
  {
    var chain := prev.Chain(start, end);
    if ChainText(chain) == [] {
      BlankChain(prev, start, end);
    } else if start == end {
      ChainTextOne(prev.lines[start]);
      assert chain == [prev.lines[start]];
    }
  }

  /** final_blank_row when the next line up is known to be blank or not. */
  function FinalBlank(finalBlankRow: int, newRow: int, width: nat): int {
    if finalBlankRow == newRow + 1 && width == 0 then newRow else finalBlankRow
  }

  /** How far the new rows are scrolled down to make room: what is missing or what is spare, if that keeps the cursor on the screen. */
  function Downwards(rows: nat, newRow: int, height: nat, finalBlankRow: int, cursorRow: int): int {
    var newRowStart := newRow - height + 1;
    if newRowStart < 0 && rows - finalBlankRow >= 0 && (cursorRow == -1 || cursorRow - newRowStart < rows)
    then Min(-newRowStart, rows - finalBlankRow) else 0
  }

  function ShiftedCursor(c: Pos, downwards: int): Pos { if c.row >= 0 then c.(row := c.row + downwards) else c }

  function LineEnd(prev: OldBuffer, row: nat): (end: nat)
    requires row < |prev.lines|
    ensures row <= end < |prev.lines|
    decreases |prev.lines| - row
  {
    if prev.reflow && row + 1 < |prev.lines| && prev.lines[row + 1].continuation then LineEnd(prev, row + 1) else row
  }

  lemma {:induction false} LineEndIs(prev: OldBuffer, start: nat, end: nat, row: nat)
    requires IsLine(prev, start, end) && start <= row <= end
    ensures LineEnd(prev, row) == end
    decreases end - row
  {
    if row < end {
      assert prev.lines[row + 1].continuation;
      LineEndIs(prev, start, end, row + 1);
    }
  }

  /** The cursor has a line start above it among the rows from `kept` on, but is taken to be on the full row there. */
  ghost predicate SlipsUp(prev: OldBuffer, kept: nat)
    requires prev.Valid()
  {
    kept < prev.cursor.row && prev.Starts(prev.cursor.row) && prev.SlipsOnto(prev.cursor.row - 1)
  }

  /** The row of the line that the cursor is taken to be on. */
  ghost function CursorRow(prev: OldBuffer, kept: nat): (row: nat)
    requires prev.Valid()
    ensures row < |prev.lines|
  {
    if SlipsUp(prev, kept) then prev.cursor.row - 1 else prev.cursor.row
  }

  /** How far along its line. */
  ghost function CursorAlong(prev: OldBuffer, kept: nat): nat
    requires prev.Valid()
  {
    var row := CursorRow(prev, kept);
    var start := LineStart(prev, row);
    (if SlipsUp(prev, kept) then |ChainText(prev.Chain(start, LineEnd(prev, row)))| else |Flat(prev.Chain(start, LineEnd(prev, row))[..row - start])|) +
    prev.cursor.col
  }

  /** Where the cursor goes among the rows that the old rows from `kept` on are laid out in. */
  ghost function LandsAt(prev: OldBuffer, lay: Layout, kept: nat): Pos
    requires prev.Valid() && lay.cols > 0 && kept <= prev.cursor.row
  {
    if !prev.reflow then Pos(prev.cursor.row - kept, Min(prev.cursor.col, lay.cols - 1))
    else
      var row := CursorRow(prev, kept);
      var start := LineStart(prev, row);
      var above := if kept <= start then |PlaceAll(lay, prev.lines[kept..start])| else 0;
      var l := Land(lay.cols, |ChainText(prev.Chain(start, LineEnd(prev, row)))|, CursorAlong(prev, kept));
      Pos(above + l.row, l.col)
  }

  /** Where the cursor is once the old rows from `kept` on are in the new rows from `newRow` + 1 on. */
  ghost predicate CursorPlaced(prev: OldBuffer, lay: Layout, rows: nat, kept: nat, newRow: int, c: Pos)
    requires prev.Valid() && lay.cols > 0
  {
    if prev.cursor.row < kept then c == Pos(-1, -1)
    else
      var l := LandsAt(prev, lay, kept);
      c == Pos(newRow + 1 + l.row, l.col) && 0 <= c.row < rows && 0 <= c.col < lay.cols
  }

  lemma CursorShifts(prev: OldBuffer, lay: Layout, rows: nat, kept: nat, newRow: int, newRowStart: int, c: Pos, downwards: nat)
    requires prev.Valid() && lay.cols > 0 && CursorPlaced(prev, lay, rows, kept, newRow, c) && downwards <= -newRowStart
    requires c.row == -1 || c.row - newRowStart < rows
    ensures CursorPlaced(prev, lay, rows, kept, newRow + downwards, ShiftedCursor(c, downwards))
  {
    hide LandsAt;
  }

  /** The rows of the new buffer from `newRow` + 1 on are scrolled down over the blank ones at the bottom. */
  method ScrollDown(a: array<Line>, prev: OldBuffer, lay: Layout, newRow: int, downwards: nat, ghost kept: nat, ghost to: nat, ghost spare: nat)
    requires ValidLayout(lay) && -1 <= newRow < a.Length && downwards <= spare <= a.Length - newRow - 1
    requires Filled(prev, lay, a[newRow + 1..], kept, to, spare)
    modifies a
    ensures newRow + downwards < a.Length && downwards <= to
    ensures Filled(prev, lay, a[newRow + downwards + 1..], kept, to - downwards, spare - downwards)
  {
    hide Filled;
    ghost var was, placed := a[..], a[newRow + 1..];
    FilledBounds(prev, lay, placed, kept, to, spare);
    DropSpare(prev, lay, placed, kept, to, spare, downwards);
    ShiftDown(a, downwards);
    assert a[newRow + 1 + downwards..] == a[downwards..][newRow + 1..];
    assert placed[..|placed| - downwards] == was[..a.Length - downwards][newRow + 1..];
  }

  /**
   Before a line is written: a blank line at the bottom counts as spare, and if the line does not fit above
   what is there, the new rows are scrolled down over spare blank rows, as far as the cursor allows.
   */
  method MakeRoom(a: array<Line>, prev: OldBuffer, lay: Layout, newRow0: int, width: nat, height: nat,
                  finalBlankRow0: int, newCursor0: Pos, ghost kept: nat, ghost to0: nat)
    returns (newRow: int, finalBlankRow: int, newCursor: Pos, ghost to: nat)
    requires ValidLayout(lay) && a.Length > 0 && height > 0 && (width == 0 ==> height == 1)
    requires -1 <= newRow0 < finalBlankRow0 <= a.Length
    requires Filled(prev, lay, a[newRow0 + 1..], kept, to0, a.Length - finalBlankRow0)
    requires prev.Valid() && CursorPlaced(prev, lay, a.Length, kept, newRow0, newCursor0)
    modifies a
    ensures var blank := FinalBlank(finalBlankRow0, newRow0, width);
            var downwards := Downwards(a.Length, newRow0, height, blank, newCursor0.row);
            && 0 <= downwards <= to0 && to == to0 - downwards
            && newRow == newRow0 + downwards && finalBlankRow == blank + downwards && newCursor == ShiftedCursor(newCursor0, downwards)
    ensures -1 <= newRow < a.Length && finalBlankRow <= a.Length && newRow <= finalBlankRow
    ensures Filled(prev, lay, a[newRow + 1..], kept, to, a.Length - finalBlankRow - if finalBlankRow == newRow then 1 else 0)
    ensures finalBlankRow == newRow <==> finalBlankRow0 == newRow0 + 1 && width == 0
    ensures CursorPlaced(prev, lay, a.Length, kept, newRow, newCursor)
  {
    hide Filled, CursorPlaced, PlaceAll, OldBuffer.Valid;
    newRow, finalBlankRow, newCursor, to := newRow0, finalBlankRow0, newCursor0, to0;
    if finalBlankRow == newRow + 1 && width == 0 {
      finalBlankRow := newRow;
    }
    var newRowStart := newRow - height + 1;
    var spareRows := a.Length - finalBlankRow;
    if newRowStart < 0 && spareRows >= 0 && (newCursor.row == -1 || newCursor.row - newRowStart < a.Length) {
      var downwards := Min(-newRowStart, spareRows);
      ScrollDown(a, prev, lay, newRow, downwards, kept, to, a.Length - finalBlankRow0);
      CursorShifts(prev, lay, a.Length, kept, newRow, newRowStart, newCursor, downwards);
      newRow, finalBlankRow, to := newRow + downwards, finalBlankRow + downwards, to - downwards;
      if newCursor.row >= 0 {
        newCursor := newCursor.(row := newCursor.row + downwards);
      }
    }
  }

  /** The rows at the bottom that may give way once the old rows [kept, to) are in the new ones. */
  function Spared(prev: OldBuffer, kept: nat, to: nat): int { to - Max(BlankFrom(prev.reflow, prev.lines), kept) }

  /** How many of them do, for a line that is so wide and so high. */
  function Dropped(prev: OldBuffer, rows: nat, kept: nat, to: nat, newRow: int, width: nat, height: nat, cursorRow: int): int {
    Downwards(rows, newRow, height, FinalBlank(rows - Spared(prev, kept, to), newRow, width), cursorRow)
  }

  /** The source's test, after making room, says whether the line fits. */
  lemma Verdict(prev: OldBuffer, lay: Layout, rows: nat, start: nat, end: nat, to: nat, newRow: int, c: Pos, width: nat, height: nat)
    requires prev.Valid() && ValidLayout(lay) && lay.reflow == prev.reflow && IsLine(prev, start, end)
    requires Ledger(prev, lay, rows, end + 1, to, newRow, c)
    requires width == |ChainText(prev.Chain(start, end))| && height == |Place(lay, ChainText(prev.Chain(start, end)))|
    ensures var downwards := Dropped(prev, rows, end + 1, to, newRow, width, height, c.row);
            && (newRow + downwards - height + 1 >= 0 <==> Fits(prev, lay, rows, start))
            && (Fits(prev, lay, rows, start) && start < Needed(prev, start) ==> downwards <= to - Needed(prev, start))
  {
    hide PlaceAll, Place, ChainText, BlankFrom, Needed, IsLine, IsBlankLine, NeededAbove, OldBuffer.Starts, OldBuffer.IsChain;
    LineBounds(prev, start, end);
    var n, m := BlankFrom(prev.reflow, prev.lines), NeededAbove(prev, end + 1);
    NeededIs(prev, start, end);
    LineStands(prev, start, end);
    HeightsAround(prev, lay, start, end, to, m);
    WidthZero(lay, ChainText(prev.Chain(start, end)));
    NeededAboveIs(prev, end + 1);
    var missing := |PlaceAll(lay, prev.lines[start..to])| - rows;
    assert height - 1 - newRow == missing;
    FitsInNumbers(prev.cursor.row, n, m, start, end, to, rows, c.row, width, missing);
    assert Fits(prev, lay, rows, start) <==> start >= m || missing <= to - m;
  }

  /** The source's two tests, whether there are spare rows and whether the cursor stays, against the rows that are needed. */
  lemma FitsInNumbers(row: nat, n: nat, m: nat, start: nat, end: nat, to: nat, rows: nat, c: int, width: nat, missing: int)
    requires rows > 0 && start <= end < to && n <= m <= to
    requires n <= end ==> width == 0 && start == end && missing == to - start - rows
    requires n == end + 1 ==> width > 0
    requires row < n ==> m == n
    requires m == n ==> row < n || end + 1 < row == n
    requires m != n ==> m == row + 1 && n <= row
    requires if row < end + 1 then c == -1 else if m == n then 0 <= c < rows - (to - Max(n, end + 1)) else 0 <= c == rows - to + row
    ensures var spare := to - Max(n, end + 1) + if end + 1 > n && width == 0 then 1 else 0;
            missing <= 0 || (missing <= spare && (c == -1 || c + missing < rows)) <==> start >= m || missing <= to - m
  {
  }

  lemma WidthZero(lay: Layout, text: Row)
    requires lay.cols > 0
    ensures text == [] ==> |Place(lay, text)| == 1
  {
  }

  /** The line above blank rows is blank too, or the last that is not. */
  lemma LineStands(prev: OldBuffer, start: nat, end: nat)
    requires prev.Valid() && IsLine(prev, start, end)
    ensures var n, width := BlankFrom(prev.reflow, prev.lines), |ChainText(prev.Chain(start, end))|;
            && start <= end
            && (n <= end ==> width == 0 && start == end)
            && (n == end + 1 ==> width > 0)
            && (width == 0 ==> start == end)
  {
    hide ChainText;
    WidthTells(prev, start, end);
  }

  lemma NeededAboveIs(prev: OldBuffer, kept: nat)
    requires prev.Valid()
    ensures var n, m := BlankFrom(prev.reflow, prev.lines), NeededAbove(prev, kept);
            && (prev.cursor.row < n ==> m == n)
            && (m == n ==> prev.cursor.row < n || (kept < prev.cursor.row == n))
            && (m != n ==> m == prev.cursor.row + 1 && n <= prev.cursor.row)
  {
    if prev.cursor.row > 0 && prev.SlipsOnto(prev.cursor.row - 1) && kept < prev.cursor.row {
      assert !IsBlankLine(prev.reflow, prev.lines[prev.cursor.row - 1]);
    }
  }

  /** How high the line is with what stands under it, and without the rows that need not. */
  lemma HeightsAround(prev: OldBuffer, lay: Layout, start: nat, end: nat, to: nat, m: nat)
    requires prev.Valid() && ValidLayout(lay) && lay.reflow == prev.reflow && IsLine(prev, start, end)
    requires end < to <= |prev.lines| && BlankFrom(prev.reflow, prev.lines) <= to && BlankFrom(prev.reflow, prev.lines) <= m
    ensures var n := BlankFrom(prev.reflow, prev.lines);
            var all, under := |PlaceAll(lay, prev.lines[start..to])|, |PlaceAll(lay, prev.lines[end + 1..to])|;
            && all == |Place(lay, ChainText(prev.Chain(start, end)))| + under
            && (end + 1 >= n ==> under == to - (end + 1))
            && (end + 1 < n ==> under > to - n)
            && (start < m <= to ==> all == |PlaceAll(lay, prev.lines[start..m])| + (to - m))
  {
    hide PlaceAll, Place, ChainText, BlankFrom, IsBlankLine, IsLine, OldBuffer.Chain;
    var n := BlankFrom(prev.reflow, prev.lines);
    LineHeights(prev, lay, start, end, to);
    if end + 1 >= n {
      Heights(prev, lay, end + 1, end + 1, to);
      NothingPlaced(lay, prev.lines[end + 1..end + 1]);
    } else {
      Heights(prev, lay, end + 1, n, to);
      PlaceAllSome(lay, prev.lines[end + 1..n]);
    }
    if start < m <= to {
      Heights(prev, lay, start, m, to);
    }
  }

  lemma NothingPlaced(lay: Layout, lines: seq<Line>)
    requires lay.cols > 0 && lines == []
    ensures PlaceAll(lay, lines) == []
  {
  }

  /** Where the cursor goes when a line of the old buffer is written in rows newRowStart to newRow. */
  ghost predicate CursorMoves(prev: OldBuffer, start: nat, end: nat, newRowStart: int, newRow: int, before: Pos, after: Pos)
    requires prev.Valid() && end < |prev.lines|
  {
    if prev.CursorIn(start, end) || (prev.cursor.row > end && prev.SlipsOnto(end)) then newRowStart <= after.row <= newRow else after == before
  }

  lemma CursorMoved(prev: OldBuffer, lay: Layout, rows: nat, start: nat, end: nat, newRowStart: nat, newRow: nat, before: Pos, after: Pos)
    requires ValidLayout(lay) && lay.reflow == prev.reflow && prev.Valid() && prev.IsChain(start, end)
    requires newRow - newRowStart + 1 == |Place(lay, ChainText(prev.Chain(start, end)))|
    requires var v := prev.View(start, end, lay.cols); after == if v.inLine then v.Spot(newRowStart) else before
    ensures CursorMoves(prev, start, end, newRowStart, newRow, before, after)
    ensures prev.CursorIn(start, end) || prev.SlipsOnto(end) ==> 0 <= after.col < lay.cols
  {
    hide ChainText, OldBuffer.CursorPosition, Land;
    var v := prev.View(start, end, lay.cols);
    if lay.reflow {
      LandInside(lay, ChainText(prev.Chain(start, end)), v.at, false);
    }
  }

  /** For a line that fits, only rows that are not needed are dropped. */
  lemma RowsDrop(prev: OldBuffer, lay: Layout, rows: nat, start: nat, end: nat, to: nat, newRow: int, c: Pos, width: nat, height: nat)
    requires prev.Valid() && ValidLayout(lay) && lay.reflow == prev.reflow && IsLine(prev, start, end)
    requires Ledger(prev, lay, rows, end + 1, to, newRow, c) && Fits(prev, lay, rows, start)
    requires width == |ChainText(prev.Chain(start, end))| && height == |Place(lay, ChainText(prev.Chain(start, end)))|
    ensures var downwards := Dropped(prev, rows, end + 1, to, newRow, width, height, c.row);
            && 0 <= downwards <= Spared(prev, start, to) && newRow + downwards - height + 1 >= 0 && newRow + downwards < rows
            && |PlaceAll(lay, prev.lines[start..to - downwards])| == rows - (newRow + downwards - height) - 1
            && FinalBlank(rows - Spared(prev, end + 1, to), newRow, width) + downwards == rows - Spared(prev, start, to - downwards)
            && (start < NeededAbove(prev, end + 1) ==> NeededAbove(prev, end + 1) <= to - downwards)
  {
    hide PlaceAll, Place, ChainText, BlankFrom, Needed, IsBlankLine, NeededAbove, Fits, IsLine, OldBuffer.Starts, OldBuffer.Valid, OldBuffer.IsChain;
    LineBounds(prev, start, end);
    var n, m := BlankFrom(prev.reflow, prev.lines), NeededAbove(prev, end + 1);
    Verdict(prev, lay, rows, start, end, to, newRow, c, width, height);
    NeededIs(prev, start, end);
    LineStands(prev, start, end);
    HeightsAround(prev, lay, start, end, to, m);
    WidthZero(lay, ChainText(prev.Chain(start, end)));
    var downwards := Dropped(prev, rows, end + 1, to, newRow, width, height, c.row);
    assert 0 <= downwards <= Spared(prev, start, to);
    Heights(prev, lay, start, to - downwards, to);
  }

  /** Writing a line that fits keeps the account. */
  lemma LedgerNext(prev: OldBuffer, lay: Layout, rows: nat, start: nat, end: nat, to: nat, newRow: int, c: Pos, width: nat, height: nat, after: Pos)
    requires prev.Valid() && ValidLayout(lay) && lay.reflow == prev.reflow && IsLine(prev, start, end)
    requires Ledger(prev, lay, rows, end + 1, to, newRow, c) && Fits(prev, lay, rows, start)
    requires width == |ChainText(prev.Chain(start, end))| && height == |Place(lay, ChainText(prev.Chain(start, end)))|
    requires var downwards := Dropped(prev, rows, end + 1, to, newRow, width, height, c.row);
             CursorMoves(prev, start, end, newRow + downwards - height + 1, newRow + downwards, ShiftedCursor(c, downwards), after)
    ensures var downwards := Dropped(prev, rows, end + 1, to, newRow, width, height, c.row);
            && 0 <= downwards <= to && Ledger(prev, lay, rows, start, to - downwards, newRow + downwards - height, after)
            && FinalBlank(rows - Spared(prev, end + 1, to), newRow, width) + downwards == rows - Spared(prev, start, to - downwards)
  {
    hide PlaceAll, Place, ChainText, BlankFrom, IsBlankLine, NeededAbove, Fits, Dropped, FinalBlank, OldBuffer.SlipsOnto, OldBuffer.IsChain, OldBuffer.Starts,
         IsLine;
    LineBounds(prev, start, end);
    var n, m, m' := BlankFrom(prev.reflow, prev.lines), NeededAbove(prev, end + 1), NeededAbove(prev, start);
    RowsDrop(prev, lay, rows, start, end, to, newRow, c, width, height);
    var downwards := Dropped(prev, rows, end + 1, to, newRow, width, height, c.row);
    NeededAboveIs(prev, end + 1);
    NeededAboveIs(prev, start);
    NeededGrows(prev, start, end);
    LineStands(prev, start, end);
    HeightsAround(prev, lay, start, end, to, m);
    WidthZero(lay, ChainText(prev.Chain(start, end)));
    CursorInNumbers(prev.cursor.row, n, m, m', start, end, to, rows, newRow, height, downwards, c.row, ShiftedCursor(c, downwards).row,
                    prev.cursor.row > end && prev.SlipsOnto(end), after.row);
  }

  lemma CursorInNumbers(row: nat, n: nat, m: nat, m': nat, start: nat, end: nat, to: nat, rows: nat, newRow: int, height: nat,
                        downwards: nat, c: int, moved: int, slips: bool, after: int)
    requires start <= end < to && n <= to - downwards && start <= to - downwards && height > 0 && newRow + 1 < rows + 1
    requires newRow + downwards - height + 1 >= 0
    requires n <= end ==> start == end && height == 1
    requires if end + 1 >= n then rows - newRow - 1 == to - (end + 1) else rows - newRow - 1 > to - n
    requires m' == n ==> row < n || start < row == n
    requires m' != n ==> m' == row + 1 && n <= row
    requires row < n ==> m == n && m' == n
    requires m' != n ==> m == m' && !slips
    requires m' == n && row >= n ==> row > end
    requires m' == n && row > end + 1 ==> m == n
    requires slips ==> row == end + 1
    requires m == n && row == n ==> end + 1 < row
    requires m' == n && row == end + 1 == n ==> slips
    requires if row < end + 1 then c == -1 else if m == n then 0 <= c < rows - (to - Max(n, end + 1)) else 0 <= c == rows - to + row
    requires moved == if c >= 0 then c + downwards else c
    requires if start <= row <= end || slips then newRow + downwards - height + 1 <= after <= newRow + downwards else after == moved
    ensures if row < start then after == -1
            else if m' == n then 0 <= after < rows - (to - downwards - Max(n, start))
            else 0 <= after == rows - (to - downwards) + row
  {
  }

  lemma BlankFromTells(prev: OldBuffer, row: nat)
    requires prev.Valid() && row < |prev.lines|
    ensures BlankFrom(prev.reflow, prev.lines) <= row ==> !(prev.reflow && prev.lines[row].continuation)
    ensures row > 0 && prev.SlipsOnto(row - 1) ==> prev.reflow && prev.cursor.row == row && BlankFrom(prev.reflow, prev.lines) >= row
  {
    if row > 0 && prev.SlipsOnto(row - 1) {
      assert !IsBlankLine(prev.reflow, prev.lines[row - 1]);
    }
  }

  /** What the cursor's row adds to what is needed, one line further up. */
  lemma NeededGrows(prev: OldBuffer, start: nat, end: nat)
    requires prev.Valid() && IsLine(prev, start, end)
    ensures var n, m := BlankFrom(prev.reflow, prev.lines), NeededAbove(prev, start);
            && (m != n ==> NeededAbove(prev, end + 1) == m && !(prev.cursor.row > end && prev.SlipsOnto(end)))
            && (m == n && prev.cursor.row >= n ==> prev.cursor.row > end)
            && (m == n && prev.cursor.row > end + 1 ==> NeededAbove(prev, end + 1) == n)
            && (m == n && prev.cursor.row == end + 1 == n ==> prev.SlipsOnto(end))
            && (prev.cursor.row > end && prev.SlipsOnto(end) ==> prev.cursor.row == end + 1)
  {
    hide BlankFrom, IsBlankLine;
    BlankFromTells(prev, prev.cursor.row);
  }

  // ----- what is kept, from the old buffer and the new size alone

  ghost function TopFrom(prev: OldBuffer, lay: Layout, rows: nat, from: nat): (k: nat)
    requires prev.Valid() && lay.cols > 0 && from <= |prev.lines|
    ensures from <= k <= |prev.lines| && prev.Starts(k) && Fits(prev, lay, rows, k)
    ensures forall s :: from <= s < k ==> !(prev.Starts(s) && Fits(prev, lay, rows, s))
    decreases |prev.lines| - from
  {
    hide Fits, PlaceAll, BlankFrom, OldBuffer.Valid;
    FitsAtEnd(prev, lay, rows);
    if from == |prev.lines| || (prev.Starts(from) && Fits(prev, lay, rows, from)) then from else TopFrom(prev, lay, rows, from + 1)
  }

  /** The first old row that is kept: the first line that fits. */
  ghost function Top(prev: OldBuffer, lay: Layout, rows: nat): nat
    requires prev.Valid() && lay.cols > 0
  {
    TopFrom(prev, lay, rows, 0)
  }

  function LineStart(prev: OldBuffer, row: nat): (start: nat)
    requires row < |prev.lines|
    ensures start <= row
  {
    if prev.reflow && row > 0 && prev.lines[row].continuation then LineStart(prev, row - 1) else row
  }

  /** The number of old rows that go to the scrollback: all above the last line that does not fit, and that line's first row. */
  ghost function Pushed(prev: OldBuffer, lay: Layout, rows: nat): nat
    requires prev.Valid() && lay.cols > 0
  {
    var top := Top(prev, lay, rows);
    if top == 0 then 0 else LineStart(prev, top - 1) + 1
  }

  /** The rows kept, laid out from the top; blank rows under them are added or left off. */
  ghost function NewScreen(prev: OldBuffer, lay: Layout, rows: nat): (s: seq<Line>)
    requires prev.Valid() && lay.cols > 0
    ensures |s| == rows
  {
    (PlaceAll(lay, prev.lines[Top(prev, lay, rows)..]) + BlankLines(lay, rows))[..rows]
  }

  /** The cursor was on the last row of a line whose first row was pushed and whose others are gone. */
  ghost predicate CursorLost(prev: OldBuffer, lay: Layout, rows: nat)
    requires prev.Valid() && lay.cols > 0
  {
    Pushed(prev, lay, rows) < Top(prev, lay, rows) && prev.cursor.row == Top(prev, lay, rows) - 1
  }

  lemma {:induction false} LineStartIs(prev: OldBuffer, start: nat, end: nat)
    requires prev.IsChain(start, end) && (prev.reflow ==> start == 0 || !prev.lines[start].continuation)
    ensures LineStart(prev, end) == start
    decreases end
  {
    if start < end {
      LineStartIs(prev, start, end - 1);
    }
  }

  /** If a line fits, every line under it does. */
  lemma FitsBelow(prev: OldBuffer, lay: Layout, rows: nat, s: nat, t: nat)
    requires prev.Valid() && ValidLayout(lay) && lay.reflow == prev.reflow && rows > 0
    requires s <= t <= |prev.lines| && prev.Starts(t) && Fits(prev, lay, rows, s)
    ensures Fits(prev, lay, rows, t)
  {
    hide PlaceAll, BlankFrom, IsBlankLine, OldBuffer.SlipsOnto;
    var n, r, m, m' := BlankFrom(prev.reflow, prev.lines), prev.cursor.row, Needed(prev, s), Needed(prev, t);
    if s < t < m' {
      BlankFromTells(prev, r);
      assert m == m' || m' == m + 1;
      if t < m {
        HeightsSplit(prev, lay, s, t, m);
      }
      if m < m' {
        Heights(prev, lay, t, if t < n then n else t, m');
        NothingPlaced(lay, prev.lines[t..t]);
      }
    }
  }

  lemma HeightsSplit(prev: OldBuffer, lay: Layout, s: nat, t: nat, m: nat)
    requires prev.Valid() && lay.cols > 0 && lay.reflow == prev.reflow && s < t < m <= |prev.lines| && prev.Starts(t)
    ensures |PlaceAll(lay, prev.lines[s..m])| > |PlaceAll(lay, prev.lines[t..m])|
  {
    hide PlaceAll;
    var top, bottom := prev.lines[s..t], prev.lines[t..m];
    assert prev.lines[s..m] == top + bottom;
    PlaceAllConcat(lay, top, bottom);
    PlaceAllSome(lay, top);
  }

  /** The lines kept are exactly those that fit. */
  lemma TopIsFirstToFit(prev: OldBuffer, lay: Layout, rows: nat, t: nat)
    requires prev.Valid() && ValidLayout(lay) && lay.reflow == prev.reflow && rows > 0 && t <= |prev.lines| && prev.Starts(t)
    ensures Fits(prev, lay, rows, t) <==> Top(prev, lay, rows) <= t
  {
    hide Fits;
    if Top(prev, lay, rows) <= t {
      FitsBelow(prev, lay, rows, Top(prev, lay, rows), t);
    }
  }

  /** Everything is kept, and nothing pushed, exactly if all that is needed fits. */
  lemma AllIsKept(prev: OldBuffer, lay: Layout, rows: nat)
    requires prev.Valid() && prev.TopIsStart() && ValidLayout(lay) && lay.reflow == prev.reflow && rows > 0
    ensures Top(prev, lay, rows) == 0 <==> Pushed(prev, lay, rows) == 0
    ensures Top(prev, lay, rows) == 0 <==> |PlaceAll(lay, prev.lines[..Needed(prev, 0)])| <= rows
  {
    hide PlaceAll, TopFrom;
    TopIsFirstToFit(prev, lay, rows, 0);
    assert prev.lines[0..Needed(prev, 0)] == prev.lines[..Needed(prev, 0)];
    NothingPlaced(lay, prev.lines[0..0]);
  }

  /** A line is cut off after its first row exactly if it does not fit and what is under it does. */
  lemma WhereTheCutIs(prev: OldBuffer, lay: Layout, rows: nat, start: nat, end: nat)
    requires prev.Valid() && prev.TopIsStart() && ValidLayout(lay) && lay.reflow == prev.reflow && rows > 0 && IsLine(prev, start, end)
    ensures !Fits(prev, lay, rows, start) && Fits(prev, lay, rows, end + 1) <==> Top(prev, lay, rows) == end + 1
    ensures Top(prev, lay, rows) == end + 1 ==> Pushed(prev, lay, rows) == start + 1
  {
    hide Fits;
    TopIsFirstToFit(prev, lay, rows, start);
    TopIsFirstToFit(prev, lay, rows, end + 1);
    LineStartIs(prev, start, end);
  }

  /** The cursor after one more line has been written. */
  lemma CursorLands(prev: OldBuffer, lay: Layout, rows: nat, start: nat, end: nat, newRowStart: nat, newRow: nat, before: Pos, after: Pos)
    requires ValidLayout(lay) && lay.reflow == prev.reflow && prev.Valid() && IsLine(prev, start, end) && newRow < rows
    requires newRow - newRowStart + 1 == |Place(lay, ChainText(prev.Chain(start, end)))|
    requires CursorPlaced(prev, lay, rows, end + 1, newRow, before)
    requires CursorMoves(prev, start, end, newRowStart, newRow, before, after)
    requires prev.CursorIn(start, end) || prev.SlipsOnto(end) ==> 0 <= after.col < lay.cols
    requires var v := prev.View(start, end, lay.cols); after == if v.inLine then v.Spot(newRowStart) else before
    ensures CursorPlaced(prev, lay, rows, start, newRowStart - 1, after)
  {
    hide ChainText, Land, Place, PlaceAll, Flat;
    var row := prev.cursor.row;
    if start <= row {
      if prev.CursorIn(start, end) || prev.SlipsOnto(end) {
        CursorSpot(prev, lay, start, end, newRowStart);
      } else {
        CursorFurther(prev, lay, start, end);
      }
    }
  }

  lemma CursorSpot(prev: OldBuffer, lay: Layout, start: nat, end: nat, newRowStart: int)
    requires ValidLayout(lay) && lay.reflow == prev.reflow && prev.Valid() && IsLine(prev, start, end)
    requires prev.CursorIn(start, end) || prev.SlipsOnto(end)
    ensures prev.cursor.row >= start
    ensures var l := LandsAt(prev, lay, start); prev.View(start, end, lay.cols).Spot(newRowStart) == Pos(newRowStart + l.row, l.col)
  {
    hide ChainText, Land, Place, PlaceAll, Flat;
    if prev.reflow {
      var row := CursorRow(prev, start);
      if prev.CursorIn(start, end) && start < prev.cursor.row {
        assert prev.lines[prev.cursor.row].continuation;
      }
      assert start <= row <= end;
      LineEndIs(prev, start, end, row);
      LineStartOf(prev, start, end, row);
      NothingPlaced(lay, prev.lines[start..start]);
    }
  }

  lemma {:induction false} LineStartOf(prev: OldBuffer, start: nat, end: nat, row: nat)
    requires IsLine(prev, start, end) && start <= row <= end
    ensures LineStart(prev, row) == start
    decreases row
  {
    if row > start {
      assert prev.lines[row].continuation;
      LineStartOf(prev, start, end, row - 1);
    }
  }

  /** A cursor further down moves on by the height of the line. */
  lemma CursorFurther(prev: OldBuffer, lay: Layout, start: nat, end: nat)
    requires ValidLayout(lay) && lay.reflow == prev.reflow && prev.Valid() && IsLine(prev, start, end)
    requires prev.cursor.row > end && !prev.SlipsOnto(end)
    ensures var below, here := LandsAt(prev, lay, end + 1), LandsAt(prev, lay, start);
            here == Pos(below.row + |Place(lay, ChainText(prev.Chain(start, end)))|, below.col)
  {
    hide ChainText, Land, Place, PlaceAll, Flat;
    PlaceHeight(lay, ChainText(prev.Chain(start, end)));
    if prev.reflow {
      var row := CursorRow(prev, end + 1);
      assert SlipsUp(prev, start) <==> SlipsUp(prev, end + 1);
      StartsBelow(prev, end + 1, row);
      var s := LineStart(prev, row);
      if s > end + 1 {
        LineHeights(prev, lay, start, end, s);
      } else {
        NothingPlaced(lay, prev.lines[s..s]);
        OneLinePlaced(prev, lay, start, end);
      }
    }
  }

  lemma {:induction false} StartsBelow(prev: OldBuffer, kept: nat, row: nat)
    requires kept <= row < |prev.lines| && prev.Starts(kept)
    ensures kept <= LineStart(prev, row)
    decreases row
  {
    if prev.reflow && row > 0 && prev.lines[row].continuation {
      StartsBelow(prev, kept, row - 1);
    }
  }

  lemma OneLinePlaced(prev: OldBuffer, lay: Layout, start: nat, end: nat)
    requires ValidLayout(lay) && lay.reflow == prev.reflow && IsLine(prev, start, end)
    ensures PlaceAll(lay, prev.lines[start..end + 1]) == Place(lay, ChainText(prev.Chain(start, end)))
  {
    hide PlaceAll, Place, ChainText;
    PlaceAllCons(lay, prev.Chain(start, end), []);
    NothingPlaced(lay, []);
    assert prev.Chain(start, end) + [] == prev.lines[start..end + 1];
  }

  /** Writes the next line up into the new buffer. */
  method PlaceNext(a: array<Line>, prev: OldBuffer, lay: Layout, start: nat, end: nat, width: nat, newRowStart: nat,
                   newRow: nat, newCursor0: Pos, ghost text: Row, ghost to: nat, ghost spare: nat, ghost blankLine: bool)
    returns (newCursor: Pos)
    requires ValidLayout(lay) && prev.Valid() && prev.reflow == lay.reflow && IsLine(prev, start, end)
    requires text == ChainText(prev.Chain(start, end)) && width == |text|
    requires newRowStart <= newRow < a.Length && newRow - newRowStart + 1 == |Place(lay, text)|
    requires Filled(prev, lay, a[newRow + 1..], end + 1, to, spare)
    requires CursorPlaced(prev, lay, a.Length, end + 1, newRow, newCursor0)
    requires blankLine ==> width == 0 && spare == a.Length - newRow - 1
    modifies a
    ensures Filled(prev, lay, a[newRowStart..], start, to, if blankLine then spare + 1 else spare)
    ensures CursorPlaced(prev, lay, a.Length, start, newRowStart - 1, newCursor)
    ensures CursorMoves(prev, start, end, newRowStart, newRow, newCursor0, newCursor)
  {
    hide Filled, Place, CursorPlaced, CursorMoves, ChainText, OldBuffer.View, CursorView.Spot;
    ghost var placed := a[newRow + 1..];
    newCursor := PlaceLine(a, prev, lay, start, end, width, newRowStart, newRow, newCursor0, text);
    assert a[newRowStart..] == Place(lay, text) + placed;
    AddLine(prev, lay, placed, start, end, to, spare);
    CursorMoved(prev, lay, a.Length, start, end, newRowStart, newRow, newCursor0, newCursor);
    CursorLands(prev, lay, a.Length, start, end, newRowStart, newRow, newCursor0, newCursor);
  }

  lemma PlaceHeight(lay: Layout, text: Row)
    requires lay.cols > 0
    ensures !lay.reflow ==> |Place(lay, text)| == 1
  {
  }

  /** How far the copy loop has come: the old rows from `kept` on are in the new rows from newRow + 1 on. */
  ghost predicate Going(prev: OldBuffer, lay: Layout, rows: nat, placed: seq<Line>, kept: nat, to: nat, newRow: int, finalBlankRow: int, c: Pos)
    requires prev.Valid() && lay.cols > 0
  {
    && -1 <= newRow < finalBlankRow <= rows && finalBlankRow == rows - Spared(prev, kept, to)
    && Filled(prev, lay, placed, kept, to, rows - finalBlankRow)
    && CursorPlaced(prev, lay, rows, kept, newRow, c)
    && Ledger(prev, lay, rows, kept, to, newRow, c)
    && (kept < |prev.lines| ==> Fits(prev, lay, rows, kept))
  }

  lemma GoingBounds(prev: OldBuffer, lay: Layout, rows: nat, placed: seq<Line>, kept: nat, to: nat, newRow: int, finalBlankRow: int, c: Pos)
    requires prev.Valid() && lay.cols > 0 && Going(prev, lay, rows, placed, kept, to, newRow, finalBlankRow, c)
    ensures kept <= to <= |prev.lines| && -1 <= newRow < finalBlankRow <= rows && prev.Starts(kept)
    ensures Filled(prev, lay, placed, kept, to, 0) && CursorPlaced(prev, lay, rows, kept, newRow, c)
  {
    hide PlaceAll, CursorPlaced;
  }

  lemma GoingStarts(prev: OldBuffer, lay: Layout, rows: nat)
    requires prev.Valid() && lay.cols > 0 && rows > 0
    ensures Going(prev, lay, rows, [], |prev.lines|, |prev.lines|, rows - 1, rows, Pos(-1, -1)) && prev.lines != []
  {
    hide PlaceAll, BlankFrom, Ledger, Filled;
    NothingFilled(prev, lay);
    LedgerOpens(prev, lay, rows);
  }

  lemma GoingNext(prev: OldBuffer, lay: Layout, rows: nat, was: seq<Line>, placed: seq<Line>, start: nat, end: nat, to: nat, newRow: int, finalBlankRow: int,
                  c: Pos, width: nat, height: nat, after: Pos)
    requires prev.Valid() && ValidLayout(lay) && lay.reflow == prev.reflow && IsLine(prev, start, end)
    requires Going(prev, lay, rows, was, end + 1, to, newRow, finalBlankRow, c) && Fits(prev, lay, rows, start)
    requires width == |ChainText(prev.Chain(start, end))| && height == |Place(lay, ChainText(prev.Chain(start, end)))|
    requires var blank := FinalBlank(finalBlankRow, newRow, width);
             var downwards := Downwards(rows, newRow, height, blank, c.row);
             && CursorMoves(prev, start, end, newRow + downwards - height + 1, newRow + downwards, ShiftedCursor(c, downwards), after)
             && CursorPlaced(prev, lay, rows, start, newRow + downwards - height, after)
             && 0 <= downwards <= to && newRow + downwards - height + 1 >= 0 && newRow + downwards <= blank + downwards <= rows
             && Filled(prev, lay, placed, start, to - downwards, rows - (blank + downwards))
    ensures var blank := FinalBlank(finalBlankRow, newRow, width);
            var downwards := Downwards(rows, newRow, height, blank, c.row);
            0 <= downwards <= to && Going(prev, lay, rows, placed, start, to - downwards, newRow + downwards - height, blank + downwards, after)
  {
    hide PlaceAll, Place, ChainText, Filled, CursorPlaced, CursorMoves, Ledger, Fits, IsLine, Spared, OldBuffer.Valid;
    LedgerNext(prev, lay, rows, start, end, to, newRow, c, width, height, after);
  }

  lemma GoingVerdict(prev: OldBuffer, lay: Layout, rows: nat, was: seq<Line>, start: nat, end: nat, to: nat, newRow: int, finalBlankRow: int,
                     c: Pos, width: nat, height: nat)
    requires prev.Valid() && ValidLayout(lay) && lay.reflow == prev.reflow && IsLine(prev, start, end)
    requires Going(prev, lay, rows, was, end + 1, to, newRow, finalBlankRow, c)
    requires width == |ChainText(prev.Chain(start, end))| && height == |Place(lay, ChainText(prev.Chain(start, end)))|
    ensures var downwards := Downwards(rows, newRow, height, FinalBlank(finalBlankRow, newRow, width), c.row);
            newRow + downwards - height + 1 >= 0 <==> Fits(prev, lay, rows, start)
    ensures Filled(prev, lay, was, end + 1, to, rows - finalBlankRow) && CursorPlaced(prev, lay, rows, end + 1, newRow, c)
    ensures end + 1 < |prev.lines| ==> Fits(prev, lay, rows, end + 1)
  {
    hide PlaceAll, Place, ChainText, Filled, CursorPlaced, CursorMoves, Ledger, Fits, IsLine, Spared, OldBuffer.Valid, Downwards, FinalBlank;
    Verdict(prev, lay, rows, start, end, to, newRow, c, width, height);
  }

  /** The outcome of the copy loop. */
  ghost predicate Done(prev: OldBuffer, lay: Layout, rows: nat, placed: seq<Line>, oldRow: int, newRow: int, c: Pos, to: nat)
    requires prev.Valid() && lay.cols > 0
  {
    var kept := Top(prev, lay, rows);
    && -1 <= newRow < rows && kept <= to <= |prev.lines| && Filled(prev, lay, placed, kept, to, 0)
    && oldRow + 1 == Pushed(prev, lay, rows) && (!lay.reflow && kept > 0 ==> newRow == -1)
    && if kept > 0 && oldRow <= prev.cursor.row < kept - 1 then c == Pos(0, Min(prev.cursor.col, lay.cols - 1))
       else CursorPlaced(prev, lay, rows, kept, newRow, c)
  }

  lemma AllTaken(prev: OldBuffer, lay: Layout, rows: nat, placed: seq<Line>, to: nat, newRow: int, finalBlankRow: int, c: Pos)
    requires prev.Valid() && prev.TopIsStart() && lay.cols > 0
    requires Going(prev, lay, rows, placed, 0, to, newRow, finalBlankRow, c)
    ensures Done(prev, lay, rows, placed, -1, newRow, c, to)
  {
    hide Fits, Ledger, CursorPlaced;
    GoingBounds(prev, lay, rows, placed, 0, to, newRow, finalBlankRow, c);
  }

  lemma LineBounds(prev: OldBuffer, start: nat, end: nat)
    requires IsLine(prev, start, end)
    ensures start <= end < |prev.lines| && prev.Starts(start)
  {
  }

  lemma StoppedAtTop(prev: OldBuffer, lay: Layout, rows: nat, placed: seq<Line>, start: nat, end: nat, to: nat, spare: nat, newRow: int, c: Pos, after: Pos)
    requires prev.Valid() && prev.TopIsStart() && ValidLayout(lay) && lay.reflow == prev.reflow && rows > 0 && IsLine(prev, start, end)
    requires !Fits(prev, lay, rows, start) && (end + 1 < |prev.lines| ==> Fits(prev, lay, rows, end + 1))
    requires -1 <= newRow < rows && newRow + 1 < |Place(lay, ChainText(prev.Chain(start, end)))|
    requires Filled(prev, lay, placed, end + 1, to, spare) && CursorPlaced(prev, lay, rows, end + 1, newRow, c)
    requires after == if start <= prev.cursor.row < end then Pos(0, Min(prev.cursor.col, lay.cols - 1)) else c
    ensures Done(prev, lay, rows, placed, start, newRow, after, to)
  {
    hide Fits, CursorPlaced, Top, Pushed, ChainText, Filled, IsLine;
    LineBounds(prev, start, end);
    FilledBounds(prev, lay, placed, end + 1, to, spare);
    FitsAtEnd(prev, lay, rows);
    WhereTheCutIs(prev, lay, rows, start, end);
  }

  lemma FitsAtEnd(prev: OldBuffer, lay: Layout, rows: nat)
    requires prev.Valid() && lay.cols > 0
    ensures Fits(prev, lay, rows, |prev.lines|)
  {
  }

  /**
   One round of the copy loop, for the logical line that ends at row `end`: its height, room for it if some can be made,
   and its rows if there is room.
   */
  method TakeLine(a: array<Line>, prev: OldBuffer, lay: Layout, end: nat, newRow0: int, finalBlankRow0: int, newCursor0: Pos, ghost to0: nat)
    returns (fits: bool, start: nat, newRow: int, finalBlankRow: int, newCursor: Pos, ghost to: nat)
    requires prev.Valid() && prev.TopIsStart() && ValidLayout(lay) && lay.reflow == prev.reflow && end < |prev.lines|
    requires a.Length > 0 && -1 <= newRow0 < a.Length && Going(prev, lay, a.Length, a[newRow0 + 1..], end + 1, to0, newRow0, finalBlankRow0, newCursor0)
    modifies a
    ensures start <= end && -1 <= newRow < a.Length
    ensures fits ==> Going(prev, lay, a.Length, a[newRow + 1..], start, to, newRow, finalBlankRow, newCursor)
    ensures !fits ==> Done(prev, lay, a.Length, a[newRow + 1..], start, newRow, newCursor, to)
  {
    hide Filled, Place, CursorPlaced, CursorMoves, ChainText, Going, Fits, IsLine, Done, Downwards, FinalBlank, ShiftedCursor,
         OldBuffer.View, OldBuffer.Valid, OldBuffer.IsChain, OldBuffer.Starts, CursorView.Spot;
    GoingBounds(prev, lay, a.Length, a[newRow0 + 1..], end + 1, to0, newRow0, finalBlankRow0, newCursor0);
    start := FindLineStart(prev, end);
    LineFound(prev, start, end);
    var width := LineWidth(prev, start, end);
    ghost var text := ChainText(prev.Chain(start, end));
    var height := LineHeight(lay, width, text);
    ghost var was := a[newRow0 + 1..];
    GoingVerdict(prev, lay, a.Length, was, start, end, to0, newRow0, finalBlankRow0, newCursor0, width, height);
    newRow, finalBlankRow, newCursor, to :=
      MakeRoom(a, prev, lay, newRow0, width, height, finalBlankRow0, newCursor0, end + 1, to0);
    ghost var spare := a.Length - finalBlankRow - if finalBlankRow == newRow then 1 else 0;
    var newRowStart := newRow - height + 1;
    fits := newRowStart >= 0;
    if !fits {
      ghost var shifted := newCursor;
      if start <= prev.cursor.row < end {
        newCursor := Pos(0, Min(prev.cursor.col, lay.cols - 1));
      }
      StoppedAtTop(prev, lay, a.Length, a[newRow + 1..], start, end, to, spare, newRow, shifted, newCursor);
      return;
    }
    newCursor := PlaceNext(a, prev, lay, start, end, width, newRowStart, newRow, newCursor, text, to, spare, finalBlankRow == newRow);
    GoingNext(prev, lay, a.Length, was, a[newRowStart..], start, end, to0, newRow0, finalBlankRow0, newCursor0, width, height, newCursor);
    newRow := newRowStart - 1;
  }

  /** The copy loop: from the last old row up, until all is copied or a line does not fit. */
  method FillRows(a: array<Line>, prev: OldBuffer, lay: Layout)
    returns (oldRow: int, newRow: int, newCursor: Pos, ghost to: nat)
    requires prev.Valid() && prev.TopIsStart() && ValidLayout(lay) && lay.reflow == prev.reflow && a.Length > 0
    modifies a
    ensures -1 <= newRow < a.Length && Done(prev, lay, a.Length, a[newRow + 1..], oldRow, newRow, newCursor, to)
  {
    hide Going, Done, OldBuffer.Valid;
    oldRow, newRow, newCursor := |prev.lines| - 1, a.Length - 1, Pos(-1, -1);
    var finalBlankRow: int := a.Length;
    to := |prev.lines|;
    assert a[newRow + 1..] == [];
    GoingStarts(prev, lay, a.Length);
    while oldRow >= 0
      invariant -1 <= oldRow < |prev.lines| && -1 <= newRow < a.Length
      invariant Going(prev, lay, a.Length, a[newRow + 1..], oldRow + 1, to, newRow, finalBlankRow, newCursor)
      invariant oldRow == -1 ==> Done(prev, lay, a.Length, a[newRow + 1..], oldRow, newRow, newCursor, to)
      decreases oldRow
    {
      GoingBounds(prev, lay, a.Length, a[newRow + 1..], oldRow + 1, to, newRow, finalBlankRow, newCursor);
      var fits;
      fits, oldRow, newRow, finalBlankRow, newCursor, to := TakeLine(a, prev, lay, oldRow, newRow, finalBlankRow, newCursor, to);
      if !fits {
        break;
      }
      oldRow := oldRow - 1;
      if oldRow == -1 {
        AllTaken(prev, lay, a.Length, a[newRow + 1..], to, newRow, finalBlankRow, newCursor);
      }
    }
  }

  lemma LineFound(prev: OldBuffer, start: nat, end: nat)
    requires prev.Valid() && prev.IsChain(start, end) && prev.Starts(end + 1)
    requires prev.reflow ==> !prev.lines[start].continuation
    ensures IsLine(prev, start, end) && start <= end < |prev.lines| && prev.Starts(start)
    ensures prev.reflow && end + 1 < |prev.lines| ==> !prev.lines[end + 1].continuation
  {
  }

  lemma {:induction false} PlaceAllWidths(lay: Layout, lines: seq<Line>)
    requires lay.cols > 0
    ensures forall i :: 0 <= i < |PlaceAll(lay, lines)| ==> |PlaceAll(lay, lines)[i].cells| == lay.cols
    decreases |lines|
  {
    if lines != [] {
      var n := ChainLength(lay.reflow, lines);
      PlaceContinues(lay, ChainText(lines[..n]));
      PlaceAllWidths(lay, lines[n..]);
    }
  }

  function CellsOf(lines: seq<Line>): seq<Row> {
    seq(|lines|, i requires 0 <= i < |lines| => lines[i].cells)
  }

  /** Closes the gap above the rows that were filled, and clears the rows left over at the bottom. */
  method ScrollBackUp(a: array<Line>, newRow: nat, lay: Layout)
    requires newRow < a.Length
    modifies a
    ensures a[..] == old(a[newRow + 1..]) + BlankLines(lay, newRow + 1)
  {
    var moveRows := a.Length - newRow - 1;
    ghost var filled := a[newRow + 1..];
    ShiftUp(a, newRow + 1);
    assert a[..moveRows] == filled;
    var cells := ClearRest(lay, []);
    assert cells == Blanks(lay.blank, lay.cols);
    for row := moveRows to a.Length
      invariant a[..moveRows] == filled
      invariant forall i :: moveRows <= i < row ==> a[i] == BlankLine(lay)
    {
      a[row] := Line(cells, false);
      assert a[..moveRows] == filled;
    }
    assert a[..] == a[..moveRows] + a[moveRows..];
    assert a[moveRows..] == BlankLines(lay, newRow + 1);
  }

  /** The cursor goes where its line is laid out, or to the top row if its line is not on the new screen. */
  ghost function NewCursor(prev: OldBuffer, lay: Layout, rows: nat): Pos
    requires prev.Valid() && lay.cols > 0
  {
    var top := Top(prev, lay, rows);
    if prev.cursor.row < top then Pos(0, Min(prev.cursor.col, lay.cols - 1)) else LandsAt(prev, lay, top)
  }

  /** A cursor whose row was pushed goes to the top row; one that is nowhere stops the program. */
  method SettleCursor(prev: OldBuffer, lay: Layout, oldRow: int, newRow: int, filled: Pos, newRows: nat, ghost kept: nat)
    returns (aborted: bool, newCursor: Pos)
    requires prev.Valid() && lay.cols > 0 && -1 <= oldRow < kept <= |prev.lines| && newRows > 0 && -1 <= newRow < newRows
    requires if oldRow <= prev.cursor.row < kept - 1 && kept > 0
             then filled == Pos(0, Min(prev.cursor.col, lay.cols - 1))
             else CursorPlaced(prev, lay, newRows, kept, newRow, filled)
    requires oldRow == -1 <==> kept == 0
    ensures aborted <==> oldRow + 1 < kept && prev.cursor.row == kept - 1
    ensures !aborted ==>
              if prev.cursor.row < kept then newCursor.row <= 0 && newCursor.col == Min(prev.cursor.col, lay.cols - 1)
              else newCursor == LandsAt(prev, lay, kept) && newCursor.row < newRows && 0 <= newCursor.col < lay.cols
  {
    hide LandsAt;
    newCursor := filled;
    if prev.cursor.row <= oldRow {
      newCursor := Pos(0, Min(prev.cursor.col, lay.cols - 1));
    }
    aborted := newCursor.row == -1 || newCursor.col == -1;
    if newRow >= 0 {
      newCursor := newCursor.(row := newCursor.row - (newRow + 1));
    }
  }

  /** resize_buffer, up to the point where the old buffer is let go.  The source aborts when it has lost the cursor. */
  method Rebuild(prev: OldBuffer, lay: Layout, newRows: nat)
    returns (aborted: bool, a: array<Line>, oldRow: int, newCursor: Pos)
    requires prev.Valid() && prev.TopIsStart() && ValidLayout(lay) && lay.reflow == prev.reflow && newRows > 0
    ensures fresh(a) && a[..] == NewScreen(prev, lay, newRows)
    ensures oldRow + 1 == Pushed(prev, lay, newRows)
    ensures aborted <==> CursorLost(prev, lay, newRows)
    ensures !aborted ==> NewCursor(prev, lay, newRows) == Pos(Clamp(newCursor.row, newRows), Clamp(newCursor.col, lay.cols))
  {
    hide Filled, Place, ChainText, BlankLine, NewScreen, TopFrom, CursorPlaced, LandsAt;
    a := new Line[newRows](_ => Line([], false));
    var newRow;
    ghost var to;
    oldRow, newRow, newCursor, to := FillRows(a, prev, lay);
    PushedBounds(prev, lay, newRows);
    aborted, newCursor := SettleCursor(prev, lay, oldRow, newRow, newCursor, newRows, Top(prev, lay, newRows));
    LandsBelow(prev, lay, Top(prev, lay, newRows));
    ghost var placed := a[newRow + 1..];
    if newRow >= 0 {
      ScrollBackUp(a, newRow, lay);
    }
    assert a[..] == placed + BlankLines(lay, newRow + 1);
    FilledIsNewScreen(prev, lay, placed, a[..], newRow + 1, to);
  }

  lemma LandsBelow(prev: OldBuffer, lay: Layout, kept: nat)
    requires prev.Valid() && lay.cols > 0
    ensures kept <= prev.cursor.row ==> LandsAt(prev, lay, kept).row >= 0
  {
    hide PlaceAll, ChainText, Flat;
    if kept <= prev.cursor.row && prev.reflow {
      var row := CursorRow(prev, kept);
      LandAtLeast(lay.cols, |ChainText(prev.Chain(LineStart(prev, row), LineEnd(prev, row)))|, CursorAlong(prev, kept));
    }
  }

  lemma {:induction false} LandAtLeast(cols: nat, length: nat, at: nat)
    requires cols > 0
    ensures Land(cols, length, at).row >= 0
    decreases length
  {
    if length > cols && at >= cols {
      LandAtLeast(cols, length - cols, at - cols);
    }
  }

  lemma PushedBounds(prev: OldBuffer, lay: Layout, rows: nat)
    requires prev.Valid() && lay.cols > 0
    ensures Pushed(prev, lay, rows) <= Top(prev, lay, rows) <= |prev.lines|
    ensures Pushed(prev, lay, rows) == 0 <==> Top(prev, lay, rows) == 0
    ensures !prev.reflow ==> Pushed(prev, lay, rows) == Top(prev, lay, rows)
  {
  }

  lemma FilledIsNewScreen(prev: OldBuffer, lay: Layout, placed: seq<Line>, newLines: seq<Line>, blanks: nat, to: nat)
    requires prev.Valid() && ValidLayout(lay) && lay.reflow == prev.reflow
    requires Filled(prev, lay, placed, Top(prev, lay, |newLines|), to, 0) && newLines == placed + BlankLines(lay, blanks)
    ensures newLines == NewScreen(prev, lay, |newLines|)
  {
    hide PlaceAll, BlankLine, Top;
    var shown := prev.lines[Top(prev, lay, |newLines|)..];
    assert shown[..|shown| - (|prev.lines| - to)] == prev.lines[Top(prev, lay, |newLines|)..to];
    PlaceAllSpare(lay, shown, |prev.lines| - to);
    BlankUnder(lay, placed, |prev.lines| - to, |newLines|);
  }

  lemma BlankUnder(lay: Layout, placed: seq<Line>, some: nat, rows: nat)
    requires |placed| <= rows
    ensures (placed + BlankLines(lay, some) + BlankLines(lay, rows))[..rows] == placed + BlankLines(lay, rows - |placed|)
  {
    hide BlankLine;
  }

  lemma NewScreenWidths(prev: OldBuffer, lay: Layout, rows: nat)
    requires prev.Valid() && lay.cols > 0
    ensures forall i :: 0 <= i < rows ==> |NewScreen(prev, lay, rows)[i].cells| == lay.cols
  {
    hide TopFrom, PlaceAll;
    PlaceAllWidths(lay, prev.lines[Top(prev, lay, rows)..]);
  }

  // ----- what resizing keeps

  lemma BlankLinesAreBlank(lay: Layout, n: nat)
    requires ValidLayout(lay)
    ensures forall i :: 0 <= i < n ==> IsBlankLine(lay.reflow, BlankLines(lay, n)[i])
  {
    TrimPadded([], Blanks(lay.blank, lay.cols));
    assert [] + Blanks(lay.blank, lay.cols) == Blanks(lay.blank, lay.cols);
  }

  /** Blank rows under a buffer are that many empty logical lines after its own. */
  lemma LogicalLinesOver(reflow: bool, lines: seq<Line>, blanks: seq<Line>)
    requires forall i :: 0 <= i < |blanks| ==> IsBlankLine(reflow, blanks[i])
    ensures LogicalLines(reflow, lines + blanks) == LogicalLines(reflow, lines) + Empties(|blanks|)
  {
    hide LogicalLines;
    LogicalLinesConcat(reflow, lines, blanks);
    LogicalLinesBlanks(reflow, blanks);
  }

  /** The new screen is what is kept, laid out, with blank rows added at the bottom or left off there. */
  lemma OnlyBlanksLeftOff(prev: OldBuffer, lay: Layout, rows: nat)
    requires prev.Valid() && ValidLayout(lay) && lay.reflow == prev.reflow
    ensures var all := PlaceAll(lay, prev.lines[Top(prev, lay, rows)..]);
            NewScreen(prev, lay, rows) + BlankLines(lay, Max(|all| - rows, 0)) == all + BlankLines(lay, Max(rows - |all|, 0))
  {
    hide PlaceAll, BlankLine, TopFrom, BlankFrom, IsBlankLine;
    var top := Top(prev, lay, rows);
    var m := Max(Needed(prev, top), top);
    var shown := prev.lines[top..];
    assert shown[..m - top] == prev.lines[top..m];
    NothingPlaced(lay, prev.lines[top..top]);
    forall i | m - top <= i < |shown| ensures IsBlankLine(lay.reflow, shown[i]) {
      assert shown[i] == prev.lines[top + i];
    }
    PlaceAllSpare(lay, shown, |prev.lines| - m);
    BlankUnder(lay, PlaceAll(lay, shown[..m - top]), |prev.lines| - m, rows);
  }

  /**
   Reflow keeps the logical lines: those on the new screen are exactly those of the old rows that are kept,
   the same cells in the same order, up to empty lines at the bottom.
   */
  lemma ReflowKeepsLogicalLines(prev: OldBuffer, lay: Layout, rows: nat)
    requires prev.Valid() && ValidLayout(lay) && lay.reflow && prev.reflow
    ensures var shown := prev.lines[Top(prev, lay, rows)..];
            var height := |PlaceAll(lay, shown)|;
            LogicalLines(true, NewScreen(prev, lay, rows)) + Empties(Max(height - rows, 0)) ==
            LogicalLines(true, shown) + Empties(Max(rows - height, 0))
  {
    hide LogicalLines, PlaceAll, BlankLine, IsBlankLine, TopFrom, NewScreen;
    var shown := prev.lines[Top(prev, lay, rows)..];
    var more, less := Max(rows - |PlaceAll(lay, shown)|, 0), Max(|PlaceAll(lay, shown)| - rows, 0);
    OnlyBlanksLeftOff(prev, lay, rows);
    BlankLinesAreBlank(lay, more);
    BlankLinesAreBlank(lay, less);
    LogicalLinesOver(true, NewScreen(prev, lay, rows), BlankLines(lay, less));
    LogicalLinesOver(true, PlaceAll(lay, shown), BlankLines(lay, more));
    PlaceAllKeepsLogicalLines(lay, shown);
    LogicalLinesFit(lay, shown);
  }

  /**
   With reflow off the screen is cut to its last rows, as many as fit; they stand in order, each clipped or
   padded, with blank rows under them, and all above them go to the scrollback.
   */
  lemma ResizeConservesRows(prev: OldBuffer, lay: Layout, rows: nat)
    requires prev.Valid() && ValidLayout(lay) && !lay.reflow && !prev.reflow && rows > 0
    ensures Top(prev, lay, rows) == Pushed(prev, lay, rows) == Max(Needed(prev, 0) - rows, 0)
    ensures forall i :: 0 <= i < rows ==>
              var row := Top(prev, lay, rows) + i;
              NewScreen(prev, lay, rows)[i] ==
              if row < |prev.lines| then Line(Pad(lay, Fit(lay, Trim(prev.lines[row].cells))), false) else BlankLine(lay)
  {
    hide PlaceAll, BlankLine, BlankFrom, TopFrom;
    var top, m := Top(prev, lay, rows), Needed(prev, 0);
    PlaceAllClips(lay, prev.lines[top..]);
    var t := Max(m - rows, 0);
    OneRowEach(prev, lay, rows, t);
    if t > 0 {
      OneRowEach(prev, lay, rows, t - 1);
    }
  }

  lemma OneRowEach(prev: OldBuffer, lay: Layout, rows: nat, t: nat)
    requires prev.Valid() && ValidLayout(lay) && !lay.reflow && !prev.reflow && rows > 0 && t <= |prev.lines|
    ensures t + rows >= Needed(prev, 0) <==> Top(prev, lay, rows) <= t
  {
    hide PlaceAll, BlankFrom, Top;
    TopIsFirstToFit(prev, lay, rows, t);
    if t < Needed(prev, 0) {
      PlaceAllClips(lay, prev.lines[t..Needed(prev, 0)]);
    }
  }

  /** In closed form: counted off in rows, and beyond the text on its last row, the column at most the last one. */
  lemma {:induction false} LandIs(cols: nat, length: nat, at: nat)
    requires cols > 0
    ensures at < length ==> Land(cols, length, at) == Pos(at / cols, at % cols)
    ensures at >= length ==>
              var last := if length == 0 then 0 else (length - 1) / cols;
              at >= last * cols && Land(cols, length, at) == Pos(last, if at - last * cols < cols then at - last * cols else cols - 1)
    decreases length
  {
    if length > cols && at >= cols {
      LandIs(cols, length - cols, at - cols);
      DivStep(at - cols, cols);
      DivStep(length - 1 - cols, cols);
      assert at % cols == (at - cols) % cols by {
        DivStepMod(at - cols, cols);
      }
      assert ((length - 1 - cols) / cols + 1) * cols == (length - 1 - cols) / cols * cols + cols;
    } else {
      SmallDiv(at, cols);
      SmallDiv(length - 1, cols);
    }
  }

  lemma SmallDiv(n: int, d: nat)
    requires d > 0
    ensures 0 <= n < d ==> n / d == 0 && n % d == n
  {
  }

  lemma DivStepMod(n: nat, d: nat)
    requires d > 0
    ensures (n + d) % d == n % d
  {
    DivStep(n, d);
    assert (n / d + 1) * d == n / d * d + d;
  }

  /** A cell of the text stands where the text's cells are counted to. */
  lemma {:induction false} WrapAt(lay: Layout, text: Row, at: nat, continuation: bool)
    requires lay.cols > 0 && at < |text|
    ensures var l := Land(lay.cols, |text|, at);
            && 0 <= l.row < |Wrap(lay, text, continuation)| && 0 <= l.col < |Wrap(lay, text, continuation)[l.row].cells|
            && Wrap(lay, text, continuation)[l.row].cells[l.col] == text[at]
    decreases |text|
  {
    if |text| > lay.cols && at >= lay.cols {
      WrapAt(lay, text[lay.cols..], at - lay.cols, true);
    }
  }

  /** A character belongs to its line's text, and its line to the rows that are not blank. */
  lemma CharacterInText(prev: OldBuffer, start: nat, end: nat)
    requires prev.Valid() && IsLine(prev, start, end) && prev.CursorIn(start, end) && !IsBlank(prev.lines[prev.cursor.row].cells[prev.cursor.col])
    ensures var text, at := ChainText(prev.Chain(start, end)), prev.CursorPosition(start, end);
            at < |text| && text[at] == prev.lines[prev.cursor.row].cells[prev.cursor.col]
    ensures end < BlankFrom(prev.reflow, prev.lines)
  {
    hide Flat, ChainText, BlankFrom;
    var chain, i := prev.Chain(start, end), prev.cursor.row - start;
    ChainTextLength(chain);
    FlatPrefix(chain, i);
    if i < |chain| - 1 {
      FlatPrefix(chain, |chain| - 1);
      if i + 1 < |chain| - 1 {
        FlatMonotone(chain, prev.cols, i + 1, |chain| - 1);
      }
      assert prev.lines[end].continuation;
    }
    ChainTextAt(chain, i, prev.cursor.col);
  }

  /** The cursor's row begins a line and the row above it is full to its last cell. */
  ghost predicate UnderFullRow(prev: OldBuffer)
    requires prev.Valid()
  {
    var row := prev.cursor.row;
    prev.reflow && row > 0 && !prev.lines[row].continuation && !IsBlank(prev.lines[row - 1].cells[prev.cols - 1])
  }

  /**
   A cursor on a character stays on that character, if its row is kept: without reflow when its column is kept too,
   with reflow unless it is under a full row that is kept too.
   */
  lemma StaysOnItsCell(prev: OldBuffer, lay: Layout, rows: nat)
    requires prev.Valid() && prev.TopIsStart() && ValidLayout(lay) && lay.reflow == prev.reflow && rows > 0
    requires Top(prev, lay, rows) <= prev.cursor.row && !IsBlank(prev.lines[prev.cursor.row].cells[prev.cursor.col])
    requires if prev.reflow then Top(prev, lay, rows) == prev.cursor.row || !UnderFullRow(prev) else prev.cursor.col < lay.cols
    ensures var c := NewCursor(prev, lay, rows);
            && 0 <= c.row < rows && 0 <= c.col < |NewScreen(prev, lay, rows)[c.row].cells|
            && NewScreen(prev, lay, rows)[c.row].cells[c.col] == prev.lines[prev.cursor.row].cells[prev.cursor.col]
  {
    hide PlaceAll, BlankFrom, Top, Fits, LandsAt, NewScreen, UnderFullRow, Pushed, Needed, Trim;
    var row := prev.cursor.row;
    if prev.reflow {
      StandsOnItsCell(prev, lay, rows, Top(prev, lay, rows));
    } else {
      ClippedRow(prev, lay, rows);
    }
  }

  lemma ClippedRow(prev: OldBuffer, lay: Layout, rows: nat)
    requires prev.Valid() && ValidLayout(lay) && !lay.reflow && !prev.reflow && rows > 0
    requires Top(prev, lay, rows) <= prev.cursor.row && !IsBlank(prev.lines[prev.cursor.row].cells[prev.cursor.col]) && prev.cursor.col < lay.cols
    ensures var c := LandsAt(prev, lay, Top(prev, lay, rows));
            && 0 <= c.row < rows && c.col == prev.cursor.col < |NewScreen(prev, lay, rows)[c.row].cells|
            && NewScreen(prev, lay, rows)[c.row].cells[c.col] == prev.lines[prev.cursor.row].cells[prev.cursor.col]
  {
    hide PlaceAll, BlankFrom, Top, NewScreen, Pushed, Needed, Trim, BlankLine, Pad;
    var row := prev.cursor.row;
    ResizeConservesRows(prev, lay, rows);
    NeedsCursor(prev, row);
    ClippedAt(lay, prev.lines[row].cells, prev.cursor.col);
    assert prev.lines[Top(prev, lay, rows) + (row - Top(prev, lay, rows))] == prev.lines[row];
  }

  lemma NeedsCursor(prev: OldBuffer, row: nat)
    requires prev.Valid() && row == prev.cursor.row && !prev.reflow
    ensures row < Needed(prev, 0)
  {
  }

  lemma ClippedAt(lay: Layout, cells: Row, col: nat)
    requires lay.cols > 0 && col < lay.cols && col < |cells| && !IsBlank(cells[col])
    ensures |Pad(lay, Fit(lay, Trim(cells)))| > col && Pad(lay, Fit(lay, Trim(cells)))[col] == cells[col]
  {
  }

  lemma FitsMeans(prev: OldBuffer, lay: Layout, rows: nat, start: nat)
    requires prev.Valid() && lay.cols > 0 && prev.cursor.row < BlankFrom(prev.reflow, prev.lines) && start <= prev.cursor.row && Fits(prev, lay, rows, start)
    ensures |PlaceAll(lay, prev.lines[start..BlankFrom(prev.reflow, prev.lines)])| <= rows
  {
    hide PlaceAll, BlankFrom;
  }

  lemma TopFits(prev: OldBuffer, lay: Layout, rows: nat)
    requires prev.Valid() && lay.cols > 0
    ensures Top(prev, lay, rows) <= |prev.lines| && prev.Starts(Top(prev, lay, rows)) && Fits(prev, lay, rows, Top(prev, lay, rows))
  {
    hide Fits;
  }

  lemma OnNewScreen(prev: OldBuffer, lay: Layout, rows: nat, row: nat)
    requires prev.Valid() && lay.cols > 0 && row < rows && row < |PlaceAll(lay, prev.lines[Top(prev, lay, rows)..])|
    ensures NewScreen(prev, lay, rows)[row] == PlaceAll(lay, prev.lines[Top(prev, lay, rows)..])[row]
  {
    hide PlaceAll, Top, BlankLine;
  }

  lemma StandsOnItsCell(prev: OldBuffer, lay: Layout, rows: nat, top: nat)
    requires prev.Valid() && prev.TopIsStart() && ValidLayout(lay) && lay.reflow && prev.reflow && rows > 0 && top == Top(prev, lay, rows)
    requires top <= prev.cursor.row && !IsBlank(prev.lines[prev.cursor.row].cells[prev.cursor.col]) && (top == prev.cursor.row || !UnderFullRow(prev))
    ensures var c := LandsAt(prev, lay, top);
            && 0 <= c.row < rows && 0 <= c.col < |NewScreen(prev, lay, rows)[c.row].cells|
            && NewScreen(prev, lay, rows)[c.row].cells[c.col] == prev.lines[prev.cursor.row].cells[prev.cursor.col]
  {
    hide PlaceAll, BlankLine, BlankFrom, Top, Flat, ChainText, Fits, Land, Place, Wrap, IsBlankLine, NewScreen, LandsAt, UnderFullRow, OldBuffer.CursorPosition;
    var row, n := prev.cursor.row, BlankFrom(prev.reflow, prev.lines);
    TopFits(prev, lay, rows);
    var start, end := LineStart(prev, row), LineEnd(prev, row);
    LineStartMakesLine(prev, row);
    LineEndMakesLine(prev, start, row);
    StartsBelow(prev, top, row);
    CharacterInText(prev, start, end);
    FitsMeans(prev, lay, rows, top);
    LandsInLine(prev, lay, top);
    LineCell(prev, lay, top, start, end, n, prev.CursorPosition(start, end));
    LineCell(prev, lay, top, start, end, |prev.lines|, prev.CursorPosition(start, end));
    assert prev.lines[top..|prev.lines|] == prev.lines[top..];
    OnNewScreen(prev, lay, rows, LandsAt(prev, lay, top).row);
  }

  lemma LandsInLine(prev: OldBuffer, lay: Layout, top: nat)
    requires prev.Valid() && ValidLayout(lay) && lay.reflow && prev.reflow && top <= prev.cursor.row && (top == prev.cursor.row || !UnderFullRow(prev))
    requires top <= LineStart(prev, prev.cursor.row) && IsLine(prev, LineStart(prev, prev.cursor.row), LineEnd(prev, prev.cursor.row))
    ensures var start, end := LineStart(prev, prev.cursor.row), LineEnd(prev, prev.cursor.row);
            var l := Land(lay.cols, |ChainText(prev.Chain(start, end))|, prev.CursorPosition(start, end));
            LandsAt(prev, lay, top) == Pos(|PlaceAll(lay, prev.lines[top..start])| + l.row, l.col)
  {
    hide PlaceAll, Flat, ChainText, Land;
    assert !SlipsUp(prev, top);
  }

  /** Under a full row that is kept it goes to the line above: above every row that its own line is laid out in. */
  lemma LeavesItsLine(prev: OldBuffer, lay: Layout, rows: nat)
    requires prev.Valid() && prev.TopIsStart() && ValidLayout(lay) && lay.reflow && prev.reflow && rows > 0
    requires Top(prev, lay, rows) < prev.cursor.row && UnderFullRow(prev)
    ensures 0 <= NewCursor(prev, lay, rows).row < |PlaceAll(lay, prev.lines[Top(prev, lay, rows)..prev.cursor.row])|
  {
    hide PlaceAll, Flat, ChainText, Land, Top, Wrap, CursorAlong;
    var top, row := Top(prev, lay, rows), prev.cursor.row;
    TopFits(prev, lay, rows);
    assert SlipsUp(prev, top);
    var start := LineStart(prev, row - 1);
    LineStartMakesLine(prev, row - 1);
    assert IsLine(prev, start, row - 1) && LineEnd(prev, row - 1) == row - 1;
    StartsBelow(prev, top, row - 1);
    LandInside(lay, ChainText(prev.Chain(start, row - 1)), CursorAlong(prev, top), false);
    LineWithin(prev, lay, top, start, row - 1, row);
  }

  lemma LineCell(prev: OldBuffer, lay: Layout, top: nat, start: nat, end: nat, to: nat, at: nat)
    requires prev.Valid() && ValidLayout(lay) && lay.reflow && prev.reflow && IsLine(prev, start, end) && top <= start && end < to <= |prev.lines|
    requires at < |ChainText(prev.Chain(start, end))|
    ensures var l, all := Land(lay.cols, |ChainText(prev.Chain(start, end))|, at), PlaceAll(lay, prev.lines[top..to]);
            var row := |PlaceAll(lay, prev.lines[top..start])| + l.row;
            && 0 <= row < |all| && 0 <= l.col < |all[row].cells| && all[row].cells[l.col] == ChainText(prev.Chain(start, end))[at]
  {
    hide PlaceAll, ChainText, Land, Wrap;
    var text, above := ChainText(prev.Chain(start, end)), |PlaceAll(lay, prev.lines[top..start])|;
    WrapAt(lay, text, at, false);
    LineWithin(prev, lay, top, start, end, to);
    var row := Land(lay.cols, |text|, at).row;
    assert PlaceAll(lay, prev.lines[top..to])[above..above + |Place(lay, text)|][row] == Place(lay, text)[row];
  }

  /** The rows of a line among those that are laid out. */
  lemma LineWithin(prev: OldBuffer, lay: Layout, top: nat, start: nat, end: nat, to: nat)
    requires prev.Valid() && ValidLayout(lay) && lay.reflow == prev.reflow && IsLine(prev, start, end) && top <= start && end < to <= |prev.lines|
    ensures var above, placed := PlaceAll(lay, prev.lines[top..start]), Place(lay, ChainText(prev.Chain(start, end)));
            && |above| + |placed| <= |PlaceAll(lay, prev.lines[top..to])|
            && PlaceAll(lay, prev.lines[top..to])[|above|..|above| + |placed|] == placed
  {
    hide PlaceAll, Place, ChainText;
    assert prev.lines[top..to] == prev.lines[top..start] + prev.lines[start..to];
    PlaceAllConcat(lay, prev.lines[top..start], prev.lines[start..to]);
    LineHeights(prev, lay, start, end, to);
  }

  lemma {:induction false} LineEndMakesLine(prev: OldBuffer, start: nat, row: nat)
    requires prev.IsChain(start, row) && prev.Starts(start)
    ensures IsLine(prev, start, LineEnd(prev, row))
    decreases |prev.lines| - row
  {
    if prev.reflow && row + 1 < |prev.lines| && prev.lines[row + 1].continuation {
      LineEndMakesLine(prev, start, row + 1);
    }
  }

  /** Old rows that are neither on the new screen nor in the scrollback: all but the first of a line that does not fit over what does. */
  lemma WhichRowsAreLost(prev: OldBuffer, lay: Layout, rows: nat, row: nat)
    requires prev.Valid() && prev.TopIsStart() && ValidLayout(lay) && lay.reflow == prev.reflow && rows > 0
    ensures Pushed(prev, lay, rows) <= row < Top(prev, lay, rows) <==>
            exists start: nat, end: nat :: IsLine(prev, start, end) && start < row <= end && !Fits(prev, lay, rows, start) && Fits(prev, lay, rows, end + 1)
  {
    hide Fits, TopFrom;
    var top := Top(prev, lay, rows);
    if top > 0 {
      var start := LineStart(prev, top - 1);
      LineStartMakesLine(prev, top - 1);
      WhereTheCutIs(prev, lay, rows, start, top - 1);
    }
    forall start: nat, end: nat | IsLine(prev, start, end) && start < row <= end && !Fits(prev, lay, rows, start) && Fits(prev, lay, rows, end + 1)
      ensures top == end + 1 && Pushed(prev, lay, rows) == start + 1
    {
      WhereTheCutIs(prev, lay, rows, start, end);
    }
  }

  lemma {:induction false} LineStartMakesLine(prev: OldBuffer, end: nat)
    requires prev.Valid() && prev.TopIsStart() && end < |prev.lines|
    ensures prev.IsChain(LineStart(prev, end), end) && prev.Starts(LineStart(prev, end))
  {
    if prev.reflow && end > 0 && prev.lines[end].continuation {
      LineStartMakesLine(prev, end - 1);
    }
  }

  /** The source gives up exactly when a line that does not fit over what does has more than one row and the cursor on its last. */
  lemma WhenItAborts(prev: OldBuffer, lay: Layout, rows: nat)
    requires prev.Valid() && prev.TopIsStart() && ValidLayout(lay) && lay.reflow == prev.reflow && rows > 0
    ensures CursorLost(prev, lay, rows) <==>
            exists start: nat :: start < prev.cursor.row && IsLine(prev, start, prev.cursor.row) &&
              !Fits(prev, lay, rows, start) && Fits(prev, lay, rows, prev.cursor.row + 1)
  {
    hide Fits, TopFrom;
    var top, end := Top(prev, lay, rows), prev.cursor.row;
    if top == end + 1 {
      LineStartMakesLine(prev, end);
      WhereTheCutIs(prev, lay, rows, LineStart(prev, end), end);
    }
    forall start: nat | start < end && IsLine(prev, start, end) && !Fits(prev, lay, rows, start) && Fits(prev, lay, rows, end + 1)
      ensures top == end + 1 && Pushed(prev, lay, rows) == start + 1
    {
      WhereTheCutIs(prev, lay, rows, start, end);
    }
  }

  /** It does happen: on four rows of which the first two are one line, going to three rows loses the second row, and the cursor on it. */
  lemma SecondRowIsLost(lay: Layout)
    requires ValidLayout(lay) && lay.reflow && lay.cols == 1
    ensures var prev := FourRows();
            && Pushed(prev, lay, 3) == 1 && Top(prev, lay, 3) == 2 && CursorLost(prev, lay, 3)
            && LogicalLines(true, prev.lines) == [[Letter(0), Letter(1)], [Letter(2)], [Letter(3)]]
  {
    hide PlaceAll, TopFrom, LogicalLines, FourRows, Letter, BlankFrom;
    var lines := FourRows().lines;
    FourRowsAre();
    OneRowLine(lay, lines[3], []);
    OneRowLine(lay, lines[2], [lines[3]]);
    TwoRowLine(lay, lines[0], lines[1], lines[2..]);
    assert lines[2..] == [lines[2]] + [lines[3]] && [lines[3]] == [lines[3]] + [] && lines == [lines[0], lines[1]] + lines[2..];
    assert lines[0..4] == lines && lines[2..4] == lines[2..];
    NothingPlaced(lay, []);
    EmptyHasNone();
    assert lines[0].cells + lines[1].cells == [Letter(0), Letter(1)];
    WhereTheCutIs(FourRows(), lay, 3, 0, 1);
  }

  lemma FourRowsAre()
    ensures var prev := FourRows();
            && prev.Valid() && prev.TopIsStart() && prev.reflow && |prev.lines| == 4 && BlankFrom(true, prev.lines) == 4
            && prev.cursor.row == 1 && IsLine(prev, 0, 1) && prev.Starts(2) && prev.lines[1].continuation && !prev.lines[3].continuation
            && forall i :: 0 <= i < 4 ==> prev.lines[i].cells == [Letter(i)] && !IsBlank(prev.lines[i].cells[0])
  {
    assert !IsBlank(Letter(3));
    assert !IsBlankLine(true, FourRows().lines[3]);
  }

  lemma EmptyHasNone()
    ensures LogicalLines(true, []) == []
  {
  }

  lemma OneRowLine(lay: Layout, line: Line, rest: seq<Line>)
    requires ValidLayout(lay) && lay.reflow && lay.cols == 1 && Boundary(true, rest)
    requires |line.cells| == 1 && !IsBlank(line.cells[0])
    ensures |PlaceAll(lay, [line] + rest)| == 1 + |PlaceAll(lay, rest)|
    ensures LogicalLines(true, [line] + rest) == [line.cells] + LogicalLines(true, rest)
  {
    hide PlaceAll, LogicalLines;
    PlaceAllCons(lay, [line], rest);
    ChainTextOne(line);
    WrapHeight(lay, line.cells, false);
    LogicalLinesCons(true, [line], rest);
    FlatOne(line);
  }

  lemma TwoRowLine(lay: Layout, first: Line, second: Line, rest: seq<Line>)
    requires ValidLayout(lay) && lay.reflow && lay.cols == 1 && Boundary(true, rest) && second.continuation
    requires |first.cells| == 1 == |second.cells| && !IsBlank(second.cells[0])
    ensures |PlaceAll(lay, [first, second] + rest)| == 2 + |PlaceAll(lay, rest)|
    ensures LogicalLines(true, [first, second] + rest) == [first.cells + second.cells] + LogicalLines(true, rest)
  {
    hide PlaceAll, LogicalLines;
    var chain := [first, second];
    PlaceAllCons(lay, chain, rest);
    assert chain[..1] == [first];
    FlatOne(first);
    WrapHeight(lay, ChainText(chain), false);
    LogicalLinesCons(true, chain, rest);
  }

  function Letter(i: nat): Cell { Cell([0x41 + i], ScreenPen(0, 0, PLAIN, false, false, 0)) }

  function FourRows(): OldBuffer {
    OldBuffer(seq(4, i requires 0 <= i < 4 => Line([Letter(i)], i == 1)), 1, true, Pos(1, 0))
  }

  /** The active primary screen of a terminal without sb_popline. */
  class ResizableScreen {
    var rows: nat
    var cols: nat
    /** The buffer and its line info, row by row. */
    var lines: array<Line>
    var cursor: Pos
    /** What the sb_pushline callback has been given. */
    var scrollback: seq<Row>
    const reflow: bool
    /** A cell as clearcell leaves it, with the current pen. */
    var blank: Cell

    ghost predicate Valid() reads this, lines {
      && rows > 0 && cols > 0 && IsBlank(blank)
      && lines.Length == rows
      && (forall i :: 0 <= i < rows ==> |lines[i].cells| == cols)
      && 0 <= cursor.row < rows && 0 <= cursor.col < cols
    }

    ghost function View(): OldBuffer reads this, lines {
      OldBuffer(lines[..], cols, reflow, cursor)
    }

    constructor (rows: nat, cols: nat, reflow: bool, blank: Cell)
      requires rows > 0 && cols > 0 && IsBlank(blank)
      ensures Valid() && this.reflow == reflow && this.rows == rows && this.cols == cols && this.blank == blank
      ensures lines[..] == BlankLines(Layout(reflow, cols, blank), rows) && scrollback == [] && cursor == Pos(0, 0)
    {
      this.rows, this.cols, this.reflow, this.blank := rows, cols, reflow, blank;
      var row := seq(cols, _ => blank);
      lines := new Line[rows](_ => Line(row, false));
      scrollback := [];
      cursor := Pos(0, 0);
    }

    /** Pushes the first `n` rows of the screen to the scrollback, top row first. */
    method PushRows(n: nat)
      requires n <= lines.Length
      modifies `scrollback
      ensures scrollback == old(scrollback) + CellsOf(lines[..n])
    {
      for row := 0 to n
        invariant scrollback == old(scrollback) + CellsOf(lines[..row])
      {
        assert CellsOf(lines[..row + 1]) == CellsOf(lines[..row]) + [lines[row].cells];
        scrollback := scrollback + [lines[row].cells];
      }
    }

    method Resize(newRows: nat, newCols: nat) returns (aborted: bool)
      requires Valid() && View().TopIsStart() && newRows > 0 && newCols > 0
      modifies this
      ensures aborted <==> CursorLost(old(View()), Layout(reflow, newCols, blank), newRows)
      ensures aborted ==> unchanged(this)
      ensures !aborted ==> Valid() && rows == newRows && cols == newCols && blank == old(blank)
      ensures !aborted ==> scrollback == old(scrollback) + CellsOf(old(lines[..])[..Pushed(old(View()), Layout(reflow, newCols, blank), newRows)])
      ensures !aborted ==> lines[..] == NewScreen(old(View()), Layout(reflow, newCols, blank), newRows)
      ensures !aborted ==> cursor == NewCursor(old(View()), Layout(reflow, newCols, blank), newRows)
      ensures !reflow ==> !aborted
      ensures !reflow ==> cursor.col == if old(cursor).col < newCols then old(cursor).col else newCols - 1
      ensures !reflow ==> var pushed := |scrollback| - |old(scrollback)|;
                          cursor.row == if old(cursor).row < pushed then 0 else old(cursor).row - pushed
      ensures var row, col, top := old(cursor).row, old(cursor).col, Top(old(View()), Layout(reflow, newCols, blank), newRows);
              && !aborted && top <= row && !IsBlank(old(lines[cursor.row]).cells[col])
              && (if reflow then top == row || !UnderFullRow(old(View())) else col < newCols)
              ==> lines[cursor.row].cells[cursor.col] == old(lines[cursor.row]).cells[col]
    {
      hide PlaceAll, Place, ChainText, BlankLine, NewScreen, Top, Pushed;
      var prev := OldBuffer(lines[..], cols, reflow, cursor);
      var lay := Layout(reflow, newCols, blank);
      var a, oldRow, newCursor;
      aborted, a, oldRow, newCursor := Rebuild(prev, lay, newRows);
      PushedBounds(prev, lay, newRows);
      if aborted {
        return;
      }
      NewScreenWidths(prev, lay, newRows);
      if Top(prev, lay, newRows) <= prev.cursor.row && !IsBlank(prev.lines[prev.cursor.row].cells[prev.cursor.col]) &&
         if reflow then Top(prev, lay, newRows) == prev.cursor.row || !UnderFullRow(prev) else prev.cursor.col < newCols
      {
        StaysOnItsCell(prev, lay, newRows);
      }
      if oldRow >= 0 {
        PushRows(oldRow + 1);
      }
      lines, rows, cols := a, newRows, newCols;
      cursor := Pos(Clamp(newCursor.row, newRows), Clamp(newCursor.col, newCols));
    }
  }

  function Clamp(x: int, n: nat): int { if x < 0 then 0 else if x >= n then n - 1 else x }
}
