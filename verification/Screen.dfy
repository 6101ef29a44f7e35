/**
 The screen buffer and its deferred damage and scroll events (src/libvterm/src/screen.c), with the mirror of
 a client that obeys the callbacks: it re-reads every damaged rectangle, and copies cells itself for every
 moverect it accepts.
 */
module Screen {
  import opened Cells
  import opened Rects
  import opened Damage

  datatype DamageMerge = MergeCell | MergeRow | MergeScreen | MergeScroll

  /** What the state layer and the client ask of the screen. */
  datatype Step =
    | PutStep(chars: seq<nat>, width: nat, row: nat, col: nat, protectedCell: bool, dwl: bool, dhl: nat)
    | EraseStep(rect: Rect, selective: bool)
    | ScrollStep(rect: Rect, downward: int, rightward: int)
    | PenStep(pen: ScreenPen)
    | FlushStep
    | MergeStep(size: DamageMerge)

  datatype LineInfo = LineInfo(doublewidth: bool, doubleheight: nat)

  /** Erasing keeps only the colours of the pen. */
  function ErasedCell(pen: ScreenPen, info: LineInfo): Cell {
    Cell([], ScreenPen(pen.fg, pen.bg, PLAIN, false, info.doublewidth, info.doubleheight))
  }

  /** The glyph's characters, and behind a wide one the marks of a gap. */
  ghost function Drawn(g: Grid, rows: nat, cols: nat, pen: ScreenPen, put: Step): Grid
    requires IsGrid(g, rows, cols) && put.PutStep?
  {
    seq(rows, i requires 0 <= i < rows => seq(cols, j requires 0 <= j < cols =>
      if i == put.row && j == put.col then
        Cell(if |put.chars| <= 6 then put.chars else put.chars[..6],
             (if put.chars != [] then pen else g[i][j].pen).(protectedCell := put.protectedCell, dwl := put.dwl, dhl := put.dhl))
      else if i == put.row && put.col < j < put.col + put.width then g[i][j].(chars := [0xffff_ffff])
      else g[i][j]))
  }

  ghost function Cleared(g: Grid, rows: nat, cols: nat, erased: Row, rect: Rect, selective: bool): Grid
    requires IsGrid(g, rows, cols) && |erased| == rows
  {
    seq(rows, i requires 0 <= i < rows => seq(cols, j requires 0 <= j < cols =>
      if rect.Has(i, j) && !(selective && g[i][j].pen.protectedCell) then erased[i] else g[i][j]))
  }

  ghost function ScrolledBy(g: Grid, rows: nat, cols: nat, erased: Row, rect: Rect, downward: int, rightward: int): Grid
    requires IsGrid(g, rows, cols) && |erased| == rows && rect.Within(rows, cols)
  {
    seq(rows, i requires 0 <= i < rows => seq(cols, j requires 0 <= j < cols =>
      ScrolledCell(g, rows, cols, rect, downward, rightward, erased, i, j)))
  }

  /** The rows that a scroll hands to the scrollback: those it moves off the top, unless it leaves nothing of the rectangle. */
  function Leaving(g: Grid, cols: nat, rect: Rect, downward: int): Grid {
    if rect.startRow == 0 && rect.startCol == 0 && rect.endCol == cols && cols > 0 && 0 < downward < rect.endRow && downward <= |g| then g[..downward] else []
  }

  /** What the screen shows and what has left it, apart from all that concerns the client. */
  datatype Sheet = Sheet(cells: Grid, scrollback: seq<Row>, pen: ScreenPen)

  ghost function After(s: Sheet, rows: nat, cols: nat, infos: seq<LineInfo>, hasPushline: bool, step: Step): Sheet
    requires IsGrid(s.cells, rows, cols) && |infos| == rows
    ensures IsGrid(After(s, rows, cols, infos, hasPushline, step).cells, rows, cols)
  {
    match step
    case PutStep(_, _, _, _, _, _, _) => s.(cells := Drawn(s.cells, rows, cols, s.pen, step))
    case EraseStep(rect, selective) => s.(cells := Cleared(s.cells, rows, cols, ErasedRow(s.pen, infos), rect, selective))
    case ScrollStep(rect, downward, rightward) =>
      if !rect.Within(rows, cols) then s
      else
        s.(cells := ScrolledBy(s.cells, rows, cols, ErasedRow(s.pen, infos), rect, downward, rightward),
           scrollback := s.scrollback + if hasPushline then Leaving(s.cells, cols, rect, downward) else [])
    case PenStep(pen) => s.(pen := pen)
    case FlushStep => s
    case MergeStep(_) => s
  }

  ghost function AfterAll(s: Sheet, rows: nat, cols: nat, infos: seq<LineInfo>, hasPushline: bool, steps: seq<Step>): Sheet
    requires IsGrid(s.cells, rows, cols) && |infos| == rows
    ensures IsGrid(AfterAll(s, rows, cols, infos, hasPushline, steps).cells, rows, cols)
  {
    if steps == [] then s
    else After(AfterAll(s, rows, cols, infos, hasPushline, steps[..|steps| - 1]), rows, cols, infos, hasPushline, steps[|steps| - 1])
  }

  function ErasedRow(pen: ScreenPen, infos: seq<LineInfo>): (r: Row)
    ensures |r| == |infos|
  {
    seq(|infos|, i requires 0 <= i < |infos| => ErasedCell(pen, infos[i]))
  }

  /** An erased cell is empty and unprotected, in the pen's colours and without its other attributes, as wide and high as its line. */
  lemma ErasedRowIs(pen: ScreenPen, infos: seq<LineInfo>, i: nat)
    requires i < |infos|
    ensures var c := ErasedRow(pen, infos)[i];
            && c.chars == [] && c.pen.fg == pen.fg && c.pen.bg == pen.bg && !c.pen.protectedCell
            && c.pen.dwl == infos[i].doublewidth && c.pen.dhl == infos[i].doubleheight
            && !c.pen.attrs.bold && c.pen.attrs.underline == 0 && !c.pen.attrs.italic && !c.pen.attrs.blink && !c.pen.attrs.reverse
            && !c.pen.attrs.conceal && !c.pen.attrs.strike && c.pen.attrs.font == 0 && !c.pen.attrs.small && c.pen.attrs.baseline == 0
  {
  }

  function Repeated(row: Row, n: nat): seq<Row> { seq(n, _ => row) }

  class VTermScreen {
    const rows: nat
    const cols: nat
    const buffer: array<Row>
    var pen: ScreenPen
    /** The state layer's line infos. */
    var lineinfo: seq<LineInfo>

    var merge: DamageMerge
    var damaged: Rect
    var pendingRect: Rect
    var pendingDownward: int
    var pendingRightward: int

    const hasMoverect: bool
    const hasPushline: bool
    /** What sb_pushline has been given. */
    var scrollback: seq<Row>

    ghost var mirror: Grid

    ghost predicate Valid() reads this, buffer {
      && buffer.Length == rows && IsGrid(buffer[..], rows, cols) && IsGrid(mirror, rows, cols) && |lineinfo| == rows
      && damaged.startRow >= -1
      && (merge == MergeRow && damaged.startRow != -1 ==> damaged.endRow == damaged.startRow + 1)
      && (pendingRect.startRow != -1 ==>
            && merge == MergeScroll && pendingRect.Within(rows, cols) && pendingRect.startRow < pendingRect.endRow
            && OneAxis(pendingDownward, pendingRightward))
    }

    ghost function Stored(): Pending reads `pendingRect, `pendingDownward, `pendingRightward {
      if pendingRect.startRow == -1 then NoScroll else PendingScroll(pendingRect, pendingDownward, pendingRightward)
    }

    /** What the mirror does not show yet is stored damage or a stored scroll, except for the cells of `hole`. */
    ghost predicate InSync(p: Pending, hole: set<(int, int)>) reads this, buffer {
      Synced(buffer[..], mirror, damaged, p, hasMoverect, hole)
    }

    ghost function Erased(): Row reads `pen, `lineinfo { ErasedRow(pen, lineinfo) }

    ghost function Now(): Sheet reads `pen, `scrollback, buffer { Sheet(buffer[..], scrollback, pen) }

    constructor (rows: nat, cols: nat, pen: ScreenPen, hasMoverect: bool, hasPushline: bool)
      ensures Valid() && InSync(NoScroll, {}) && Stored() == NoScroll
      ensures this.rows == rows && this.cols == cols && this.hasMoverect == hasMoverect && merge == MergeCell
    {
      this.rows, this.cols, this.pen := rows, cols, pen;
      this.hasMoverect, this.hasPushline := hasMoverect, hasPushline;
      var row := seq(cols, _ => Cell([], pen));
      buffer := new Row[rows](_ => row);
      mirror := seq(rows, _ => row);
      lineinfo := seq(rows, _ => LineInfo(false, 0));
      merge, damaged, pendingRect := MergeCell, Rect(-1, 0, 0, 0), Rect(-1, 0, 0, 0);
      pendingDownward, pendingRightward, scrollback := 0, 0, [];
    }

    // ----- damage

    method EmitDamage(rect: Rect)
      requires IsGrid(buffer[..], rows, cols) && IsGrid(mirror, rows, cols)
      modifies `mirror
      ensures mirror == Reread(old(mirror), buffer[..], rect) && IsGrid(mirror, rows, cols)
    {
      mirror := Reread(mirror, buffer[..], rect);
    }

    /** damagerect: whatever the merge mode, the cells of `rect` are now re-read or stored to be. */
    method DamageRect(rect: Rect, ghost p: Pending, ghost hole: set<(int, int)>)
      requires Valid() && InSync(p, hole) && 0 <= rect.startRow < rect.endRow
      requires merge != MergeScroll ==> p == NoScroll
      modifies `mirror, `damaged, `pendingRect
      ensures Valid() && InSync(p, hole - rect.Cells())
      ensures pendingRect == old(pendingRect)
      ensures merge == MergeCell ==> damaged == old(damaged) && mirror == Reread(old(mirror), buffer[..], rect)
      ensures merge == MergeScreen || merge == MergeScroll ==>
                mirror == old(mirror) && damaged == if old(damaged).startRow == -1 then rect else Expand(old(damaged), rect)
      ensures merge == MergeRow && rect.endRow == rect.startRow + 1 && old(damaged).startRow == -1 ==> mirror == old(mirror) && damaged == rect
      ensures merge == MergeRow && rect.endRow == rect.startRow + 1 && old(damaged).startRow == rect.startRow ==>
                mirror == old(mirror) && damaged == Expand(old(damaged), rect)
      ensures merge == MergeRow && rect.endRow == rect.startRow + 1 && old(damaged).startRow !in {-1, rect.startRow} ==>
                mirror == Reread(old(mirror), buffer[..], old(damaged)) && damaged == rect
      ensures merge == MergeRow && rect.endRow > rect.startRow + 1 ==> damaged.startRow == -1
      decreases 1
    {
      hide Synced;
      match merge {
        case MergeCell =>
          EmitCloses(buffer[..], mirror, damaged, hasMoverect, hole, rect);
          EmitDamage(rect);
        case MergeRow =>
          if rect.endRow > rect.startRow + 1 {
            FlushDamage(p, hole);
            EmitCloses(buffer[..], mirror, damaged, hasMoverect, hole, rect);
            EmitDamage(rect);
          } else if damaged.startRow == -1 {
            StoreCloses(buffer[..], mirror, damaged, p, hasMoverect, hole, rect, rect);
            damaged := rect;
          } else if rect.startRow == damaged.startRow {
            var merged := damaged.(startCol := Min(damaged.startCol, rect.startCol), endCol := Max(damaged.endCol, rect.endCol));
            StoreCloses(buffer[..], mirror, damaged, p, hasMoverect, hole, rect, merged);
            damaged := merged;
          } else {
            EmitCloses(buffer[..], mirror, damaged, hasMoverect, hole, damaged);
            var emit := damaged;
            EmitDamage(emit);
            StoreCloses(buffer[..], mirror, damaged.(startRow := -1), p, hasMoverect, hole, rect, rect);
            damaged := rect;
          }
        case _ =>
          var merged := if damaged.startRow == -1 then rect else Expand(damaged, rect);
          StoreCloses(buffer[..], mirror, damaged, p, hasMoverect, hole, rect, merged);
          damaged := merged;
      }
    }

    /**
     vterm_screen_flush_damage.  `p` is the scroll the buffer is ahead of the mirror by: the stored one, or
     one that is being carried out right now.
     */
    method FlushDamage(ghost p: Pending, ghost hole: set<(int, int)>)
      requires Valid() && InSync(p, hole)
      requires pendingRect.startRow != -1 ==> p == Stored() && hole == {}
      requires pendingRect.startRow == -1 ==> MayEmitFirst(buffer[..], mirror, damaged, p, hasMoverect)
      modifies `mirror, `damaged, `pendingRect
      ensures Valid() && damaged.startRow == -1 && pendingRect.startRow == -1
      ensures InSync(if old(pendingRect).startRow != -1 then NoScroll else p, hole)
      ensures old(pendingRect).startRow == -1 ==> pendingRect == old(pendingRect)
      decreases if pendingRect.startRow != -1 then 3 else 0
    {
      hide Synced;
      ghost var q := p;
      if pendingRect.startRow != -1 {
        UserScroll(pendingRect, pendingDownward, pendingRightward);
        pendingRect := pendingRect.(startRow := -1);
        q := NoScroll;
      }
      EmitWhileAhead(buffer[..], mirror, damaged, q, hasMoverect, hole);
      if damaged.startRow != -1 {
        EmitDamage(damaged);
        damaged := damaged.(startRow := -1);
      }
    }

    /** vterm_scroll_rect with moverect_user and erase_user: the client moves what it accepts and re-reads the rest. */
    method UserScroll(rect: Rect, downward: int, rightward: int)
      requires Valid() && rect.Within(rows, cols) && rect.startRow < rect.endRow && OneAxis(downward, rightward)
      requires InSync(PendingScroll(rect, downward, rightward), {})
      requires merge != MergeScroll ==> damaged.startRow == -1
      modifies `mirror, `damaged, `pendingRect
      ensures Valid() && InSync(NoScroll, {})
      ensures pendingRect == old(pendingRect)
      decreases 2
    {
      hide Synced;
      ghost var buf := buffer[..];
      match PlanScroll(rect, downward, rightward)
      case EraseAll =>
        ReportUnmoved(buf, mirror, damaged, rect, downward, rightward, hasMoverect);
        DamageRect(rect, NoScroll, rect.Cells());
        assert rect.Cells() - rect.Cells() == {};
      case MoveAndErase(dest, src, erased) =>
        PlanShape(rect, downward, rightward, rows, cols);
        ghost var hole := erased.Cells();
        var moved := false;
        if hasMoverect {
          if merge != MergeScroll {
            FlushDamage(PendingScroll(rect, downward, rightward), {});
          }
          // the callback's answer, which may be another every time
          moved := *;
        }
        if moved {
          ReportMoved(buf, mirror, rows, cols, damaged, rect, downward, rightward, hasMoverect);
          mirror := Moved(mirror, dest, src, rows, cols);
        } else {
          ReportUnmoved(buf, mirror, damaged, rect, downward, rightward, hasMoverect);
          DamageRect(dest, NoScroll, rect.Cells());
          hole := rect.Cells() - dest.Cells();
          TwoPartsCover(rect, downward, rightward);
        }
        DamageRect(erased, NoScroll, hole);
        assert hole - erased.Cells() == {};
    }

    // ----- the buffer itself

    /** memmove of one row's cells; the source and the destination may be the same row. */
    method CopyRowCells(destRow: nat, destCol: nat, srcRow: nat, srcCol: nat, n: nat)
      requires buffer.Length == rows && IsGrid(buffer[..], rows, cols)
      requires destRow < rows && srcRow < rows && destCol + n <= cols && srcCol + n <= cols
      modifies buffer
      ensures IsGrid(buffer[..], rows, cols)
      ensures forall i :: 0 <= i < rows && i != destRow ==> buffer[i] == old(buffer[i])
      ensures forall j :: 0 <= j < cols ==>
                buffer[destRow][j] == if destCol <= j < destCol + n then old(buffer[srcRow])[j - destCol + srcCol] else old(buffer[destRow])[j]
    {
      var was := buffer[destRow];
      buffer[destRow] := was[..destCol] + buffer[srcRow][srcCol..srcCol + n] + was[destCol + n..];
    }

    /** sb_pushline for the first `n` rows, top row first. */
    method PushRows(n: nat)
      requires n <= buffer.Length
      modifies `scrollback
      ensures scrollback == old(scrollback) + buffer[..n]
    {
      for row := 0 to n
        invariant scrollback == old(scrollback) + buffer[..row]
      {
        scrollback := scrollback + [buffer[row]];
      }
    }

    /** Rows are copied in the order that never reads a row already overwritten. */
    method MoveRows(dest: Rect, src: Rect)
      requires buffer.Length == rows && IsGrid(buffer[..], rows, cols) && dest.Within(rows, cols) && src.Within(rows, cols)
      requires src.endRow - src.startRow == dest.endRow - dest.startRow && src.endCol - src.startCol == dest.endCol - dest.startCol
      modifies buffer
      ensures buffer[..] == Moved(old(buffer[..]), dest, src, rows, cols)
    {
      ghost var was := buffer[..];
      ghost var goal := Moved(was, dest, src, rows, cols);
      var n := src.endCol - src.startCol;
      var downward := src.startRow - dest.startRow;
      var row, testRow, step := dest.startRow, dest.endRow, 1;
      if downward < 0 {
        row, testRow, step := dest.endRow - 1, dest.startRow - 1, -1;
      }
      while row != testRow
        invariant IsGrid(buffer[..], rows, cols) && dest.startRow - 1 <= row <= dest.endRow
        invariant step == 1 ==> dest.startRow <= row
        invariant step == -1 ==> row < dest.endRow
        invariant forall i :: 0 <= i < rows && !Done(dest, step, row, i) ==> buffer[i] == was[i]
        invariant forall i, j :: 0 <= i < rows && 0 <= j < cols && Done(dest, step, row, i) ==> buffer[i][j] == goal[i][j]
        decreases if step == 1 then testRow - row else row - testRow
      {
        CopyRowCells(row, dest.startCol, row + downward, src.startCol, n);
        assert forall j :: 0 <= j < cols ==> buffer[row][j] == goal[row][j];
        row := row + step;
      }
      SameGrid(buffer[..], goal, rows, cols);
    }

    /** The rows of `dest` already written when the loop is about to write `row`. */
    ghost predicate Done(dest: Rect, step: int, row: int, i: int) {
      if step == 1 then dest.startRow <= i < row else row < i < dest.endRow
    }

    /** moverect_internal: rows that a full-width scroll moves off the top go to the scrollback. */
    method MoverectInternal(dest: Rect, src: Rect)
      requires buffer.Length == rows && IsGrid(buffer[..], rows, cols) && dest.Within(rows, cols) && src.Within(rows, cols)
      requires src.endRow - src.startRow == dest.endRow - dest.startRow && src.endCol - src.startCol == dest.endCol - dest.startCol
      modifies buffer, `scrollback
      ensures buffer[..] == Moved(old(buffer[..]), dest, src, rows, cols)
      ensures scrollback == old(scrollback) + if PushesRows(dest) then old(buffer[..src.startRow]) else []
    {
      if PushesRows(dest) {
        PushRows(src.startRow);
      }
      MoveRows(dest, src);
    }

    predicate PushesRows(dest: Rect) {
      hasPushline && dest.startRow == 0 && dest.startCol == 0 && dest.endCol == cols
    }

    /** So the rows that leave go to the scrollback. */
    lemma PushesLeaving(g: Grid, rect: Rect, downward: int, rightward: int)
      requires |g| == rows && rect.Within(rows, cols) && OneAxis(downward, rightward) && Nonzero(downward, rightward)
      ensures match PlanScroll(rect, downward, rightward)
              case EraseAll => Leaving(g, cols, rect, downward) == []
              case MoveAndErase(dest, src, _) =>
                0 <= src.startRow <= rows && (if PushesRows(dest) then g[..src.startRow] else []) == if hasPushline then Leaving(g, cols, rect, downward) else []
    {
    }

    /** erase_internal; a selective erase leaves protected cells alone. */
    method EraseInternal(rect: Rect, selective: bool)
      requires buffer.Length == rows && IsGrid(buffer[..], rows, cols) && rect.Within(rows, cols) && |lineinfo| == rows
      modifies buffer
      ensures IsGrid(buffer[..], rows, cols)
      ensures forall i, j :: 0 <= i < rows && 0 <= j < cols ==>
                buffer[i][j] == if rect.Has(i, j) && !(selective && old(buffer[i])[j].pen.protectedCell)
                                then Erased()[i] else old(buffer[i])[j]
    {
      ghost var was := buffer[..];
      var row := rect.startRow;
      while row < rows && row < rect.endRow
        invariant rect.startRow <= row <= rect.endRow
        invariant IsGrid(buffer[..], rows, cols)
        invariant forall i :: 0 <= i < rows && !(rect.startRow <= i < row) ==> buffer[i] == was[i]
        invariant forall i, j :: rect.startRow <= i < row && 0 <= j < cols ==>
                    buffer[i][j] == if rect.Has(i, j) && !(selective && was[i][j].pen.protectedCell) then Erased()[i] else was[i][j]
      {
        var cells := buffer[row];
        var blank := ErasedCell(pen, lineinfo[row]);
        for col := rect.startCol to rect.endCol
          invariant |cells| == cols
          invariant forall j :: 0 <= j < cols ==>
                      cells[j] == if rect.startCol <= j < col && !(selective && was[row][j].pen.protectedCell) then blank else was[row][j]
        {
          if !(selective && cells[col].pen.protectedCell) {
            cells := cells[col := blank];
          }
        }
        buffer[row] := cells;
        row := row + 1;
      }
    }

    /** vterm_scroll_rect with moverect_internal and erase_internal. */
    method ScrollInternal(rect: Rect, downward: int, rightward: int)
      requires buffer.Length == rows && IsGrid(buffer[..], rows, cols) && |lineinfo| == rows
      requires rect.Within(rows, cols) && OneAxis(downward, rightward) && Nonzero(downward, rightward)
      modifies buffer, `scrollback
      ensures Scrolled(old(buffer[..]), buffer[..], rows, cols, rect, downward, rightward, Erased())
      ensures scrollback == old(scrollback) + if hasPushline then Leaving(old(buffer[..]), cols, rect, downward) else []
    {
      hide Scrolled, Leaving, PushesRows;
      PushesLeaving(buffer[..], rect, downward, rightward);
      ghost var was := buffer[..];
      match PlanScroll(rect, downward, rightward) {
        case EraseAll =>
          EraseInternal(rect, false);
        case MoveAndErase(dest, src, erased) =>
          PlanShape(rect, downward, rightward, rows, cols);
          MoverectInternal(dest, src);
          ghost var moved := buffer[..];
          EraseInternal(erased, false);
          assert forall i, j :: 0 <= i < rows && 0 <= j < cols ==> buffer[i][j] == if erased.Has(i, j) then Erased()[i] else moved[i][j];
      }
      PlanScrolls(was, buffer[..], rows, cols, rect, downward, rightward, Erased());
    }

    /**
     When a whole-screen scroll moves `n` rows off the top, the scrollback followed by the screen is what it was,
     followed by `n` erased rows: no line is lost, repeated or reordered.
     */
    method ScrollWholeScreen(n: nat)
      requires Valid() && 0 < n < rows && cols > 0 && hasPushline
      modifies buffer, `scrollback
      ensures IsGrid(buffer[..], rows, cols)
      ensures scrollback + buffer[..] == old(scrollback + buffer[..]) + BottomRows(Erased(), cols, n)
    {
      ghost var was, sb := buffer[..], scrollback;
      ScrollInternal(Rect(0, rows, 0, cols), n, 0);
      WholeScreenScroll(was, buffer[..], rows, cols, n, Erased());
      assert scrollback == sb + was[..n];
      assert was == was[..n] + was[n..];
    }

    /** Any number of linefeeds at the bottom of a full-screen scroll region. */
    method Linefeeds(n: nat)
      requires Valid() && rows > 1 && cols > 0 && hasPushline
      modifies buffer, `scrollback
      ensures IsGrid(buffer[..], rows, cols)
      ensures |scrollback| == old(|scrollback|) + n
      ensures scrollback + buffer[..] == old(scrollback + buffer[..]) + Repeated(Blanks(old(Erased())[rows - 1], cols), n)
    {
      ghost var before, bottom := scrollback + buffer[..], Blanks(Erased()[rows - 1], cols);
      for k := 0 to n
        invariant IsGrid(buffer[..], rows, cols)
        invariant |scrollback| == old(|scrollback|) + k
        invariant scrollback + buffer[..] == before + Repeated(bottom, k)
      {
        ScrollWholeScreen(1);
        assert BottomRows(Erased(), cols, 1) == [bottom];
        assert Repeated(bottom, k + 1) == Repeated(bottom, k) + [bottom];
      }
    }

    // ----- the callbacks of the state layer

    /**
     Whether a client that moves cells will still be right after the scroll; any other client always will.  Outside
     VTERM_DAMAGE_SCROLL no stored damage may be where cells are copied from.
     */
    predicate SafeToScroll(rect: Rect, downward: int, rightward: int)
      reads `merge, `damaged, `pendingRect, `pendingDownward, `pendingRightward
    {
      hasMoverect ==>
        if merge != MergeScroll then damaged.startRow == -1 || IsEmpty(DamagedTargets(damaged, rect, downward, rightward))
        else if damaged.startRow != -1 && !Intersects(rect, damaged) then true
        else if pendingRect.startRow == -1 then StaysRight(NoScroll, damaged, rect, downward, rightward)
        else
          Merges(rect, downward, rightward) ==>
            StaysRight(PendingScroll(pendingRect, pendingDownward, pendingRightward), damaged, rect, downward, rightward)
    }

    /** The stored scroll takes up the new one: same rectangle, same axis. */
    predicate Merges(rect: Rect, downward: int, rightward: int) reads `pendingRect, `pendingDownward, `pendingRightward {
      pendingRect == rect && ((pendingDownward == 0 && downward == 0) || (pendingRightward == 0 && rightward == 0))
    }

    /** The first half of scrollrect in VTERM_DAMAGE_SCROLL: make the new scroll part of the stored one, or the stored one. */
    method StoreScroll(rect: Rect, downward: int, rightward: int) returns (ghost p: Pending)
      requires Valid() && InSync(Stored(), {}) && merge == MergeScroll
      requires rect.Within(rows, cols) && rect.startRow < rect.endRow && OneAxis(downward, rightward) && Nonzero(downward, rightward)
      requires SafeToScroll(rect, downward, rightward)
      modifies `mirror, `damaged, `pendingRect, `pendingDownward, `pendingRightward
      ensures Valid() && InSync(p, {}) && Stored() == Add(p, rect, downward, rightward)
      ensures p.NoScroll? || p.rect == rect
      ensures hasMoverect ==> StaysRight(p, damaged, rect, downward, rightward)
    {
      hide Synced;
      p := Stored();
      if damaged.startRow != -1 && !Intersects(rect, damaged) {
        FlushDamage(p, {});
        p := NoScroll;
      }
      if pendingRect.startRow == -1 {
        p := NoScroll;
        pendingRect, pendingDownward, pendingRightward := rect, downward, rightward;
      } else if Merges(rect, downward, rightward) {
        pendingDownward, pendingRightward := pendingDownward + downward, pendingRightward + rightward;
      } else {
        FlushDamage(p, {});
        p := NoScroll;
        pendingRect, pendingDownward, pendingRightward := rect, downward, rightward;
      }
    }

    /** scrollrect */
    method ScrollRect(rect: Rect, downward: int, rightward: int)
      requires Valid() && InSync(Stored(), {})
      requires rect.Within(rows, cols) && rect.startRow < rect.endRow && OneAxis(downward, rightward) && Nonzero(downward, rightward)
      requires SafeToScroll(rect, downward, rightward)
      modifies buffer, `scrollback, `mirror, `damaged, `pendingRect, `pendingDownward, `pendingRightward
      ensures Valid() && InSync(Stored(), {})
      ensures Scrolled(old(buffer[..]), buffer[..], rows, cols, rect, downward, rightward, Erased())
      ensures scrollback == old(scrollback) +
                if hasPushline && rect.startRow == 0 && rect.startCol == 0 && rect.endCol == cols && cols > 0 && 0 < downward < rect.endRow
                then old(buffer[..])[..downward] else []
    {
      hide Synced, Scrolled, ScrolledCell;
      ghost var was := buffer[..];
      if merge != MergeScroll {
        ScrollInternal(rect, downward, rightward);
        ScrolledGrid(was, buffer[..], rows, cols, rect, downward, rightward, Erased());
        MayEmitAfterScroll(was, buffer[..], mirror, rows, cols, rect, downward, rightward, Erased(), damaged, hasMoverect);
        ScrollAhead(was, buffer[..], mirror, rows, cols, rect, downward, rightward, Erased(), damaged, damaged, NoScroll, hasMoverect);
        FlushDamage(PendingScroll(rect, downward, rightward), {});
        UserScroll(rect, downward, rightward);
      } else {
        ghost var p := StoreScroll(rect, downward, rightward);
        ScrollInternal(rect, downward, rightward);
        ScrolledGrid(was, buffer[..], rows, cols, rect, downward, rightward, Erased());
        AdjustedDamage(damaged, rect, downward, rightward);
        StaysRightIs(p, damaged, rect, downward, rightward);
        ScrollAhead(was, buffer[..], mirror, rows, cols, rect, downward, rightward, Erased(),
                    damaged, AdjustDamage(damaged, rect, downward, rightward), p, hasMoverect);
        damaged := AdjustDamage(damaged, rect, downward, rightward);
      }
    }

    /** erase */
    method Erase(rect: Rect, selective: bool)
      requires Valid() && InSync(Stored(), {}) && rect.Within(rows, cols) && rect.startRow < rect.endRow
      modifies buffer, `mirror, `damaged, `pendingRect
      ensures Valid() && InSync(Stored(), {})
      ensures forall i, j :: 0 <= i < rows && 0 <= j < cols ==>
                buffer[i][j] == if rect.Has(i, j) && !(selective && old(buffer[i])[j].pen.protectedCell)
                                then Erased()[i] else old(buffer[i])[j]
    {
      hide Synced;
      ghost var was := buffer[..];
      EraseInternal(rect, selective);
      WriteOpens(was, buffer[..], mirror, damaged, Stored(), hasMoverect, rect.Cells());
      DamageRect(rect, Stored(), rect.Cells());
      assert rect.Cells() - rect.Cells() == {};
    }

    /**
     putglyph.  The damage is as wide as the glyph: one of width 0, a combining character with nothing to
     combine with, changes a cell that no damage event covers.
     */
    method PutGlyph(chars: seq<nat>, width: nat, row: nat, col: nat, protectedCell: bool, dwl: bool, dhl: nat)
      requires Valid() && InSync(Stored(), {}) && row < rows && col < cols && col + width <= cols
      modifies buffer, `mirror, `damaged, `pendingRect
      ensures Valid() && InSync(Stored(), if width == 0 then {(row, col)} else {})
      ensures forall i, j :: 0 <= i < rows && 0 <= j < cols && !(i == row && col <= j < col + Max(width, 1)) ==>
                buffer[i][j] == old(buffer[i])[j]
      ensures buffer[row][col] == Cell(chars[..Min(|chars|, 6)],
                                       (if chars != [] then pen else old(buffer[row])[col].pen).(protectedCell := protectedCell, dwl := dwl, dhl := dhl))
      ensures forall j :: col < j < col + width ==> buffer[row][j] == old(buffer[row])[j].(chars := [0xffff_ffff])
    {
      hide Synced;
      ghost var was := buffer[..];
      var cells := buffer[row];
      var cellPen := if chars != [] then pen else cells[col].pen;
      cells := cells[col := Cell(chars[..Min(|chars|, MAX_CHARS_PER_CELL)], cellPen.(protectedCell := protectedCell, dwl := dwl, dhl := dhl))];
      for k := 1 to Max(width, 1)
        invariant |cells| == cols && buffer[..] == was
        invariant forall j :: 0 <= j < cols && !(col <= j < col + k) ==> cells[j] == was[row][j]
        invariant cells[col] == Cell(chars[..Min(|chars|, MAX_CHARS_PER_CELL)], cellPen.(protectedCell := protectedCell, dwl := dwl, dhl := dhl))
        invariant forall j :: col < j < col + k ==> cells[j] == was[row][j].(chars := [WIDE_GAP])
      {
        cells := cells[col + k := cells[col + k].(chars := [WIDE_GAP])];
      }
      buffer[row] := cells;
      var rect := Rect(row, row + 1, col, col + width);
      ghost var hole := Rect(row, row + 1, col, col + Max(width, 1)).Cells();
      WriteOpens(was, buffer[..], mirror, damaged, Stored(), hasMoverect, hole);
      DamageRect(rect, Stored(), hole);
      assert hole - rect.Cells() == if width == 0 then {(row as int, col as int)} else {};
    }

    /** vterm_screen_flush_damage, as the client calls it: afterwards its mirror is the screen. */
    method Flush()
      requires Valid() && InSync(Stored(), {})
      modifies `mirror, `damaged, `pendingRect
      ensures Valid() && InSync(Stored(), {}) && damaged.startRow == -1 && Stored() == NoScroll
      ensures mirror == buffer[..]
    {
      FlushDamage(Stored(), {});
      SyncedMeansEqual(buffer[..], mirror, damaged, hasMoverect);
    }

    /** vterm_screen_set_damage_merge */
    method SetDamageMerge(size: DamageMerge)
      requires Valid() && InSync(Stored(), {})
      modifies `merge, `mirror, `damaged, `pendingRect
      ensures Valid() && InSync(Stored(), {}) && merge == size && mirror == buffer[..]
    {
      Flush();
      merge := size;
    }

    // ----- whole runs

    /** What the state layer asks for stays on the screen, scrolls along one axis, and draws glyphs of width at least 1. */
    predicate Allowed(step: Step) {
      match step
      case PutStep(_, width, row, col, _, _, _) => width >= 1 && row < rows && col + width <= cols
      case EraseStep(rect, _) => rect.Within(rows, cols) && rect.startRow < rect.endRow
      case ScrollStep(rect, downward, rightward) =>
        rect.Within(rows, cols) && rect.startRow < rect.endRow && OneAxis(downward, rightward) && Nonzero(downward, rightward)
      case PenStep(_) => true
      case FlushStep => true
      case MergeStep(_) => true
    }

    method Perform(step: Step)
      requires Valid() && InSync(Stored(), {}) && Allowed(step)
      requires step.ScrollStep? ==> SafeToScroll(step.rect, step.downward, step.rightward)
      modifies this, buffer
      ensures Valid() && InSync(Stored(), {}) && lineinfo == old(lineinfo)
      ensures Now() == After(old(Now()), rows, cols, lineinfo, hasPushline, step)
      ensures merge == if step.MergeStep? then step.size else old(merge)
    {
      hide Synced, Scrolled, Drawn, Cleared, ScrolledBy, ErasedRow;
      ghost var was := buffer[..];
      match step {
        case PutStep(chars, width, row, col, protectedCell, dwl, dhl) =>
          PutGlyph(chars, width, row, col, protectedCell, dwl, dhl);
          DrawnIs(was, buffer[..], rows, cols, pen, step);
        case EraseStep(rect, selective) =>
          Erase(rect, selective);
          ClearedIs(was, buffer[..], rows, cols, Erased(), rect, selective);
        case ScrollStep(rect, downward, rightward) =>
          ScrollRect(rect, downward, rightward);
          ScrolledIs(was, buffer[..], rows, cols, Erased(), rect, downward, rightward);
        case PenStep(newPen) => pen := newPen;
        case FlushStep => Flush();
        case MergeStep(size) => SetDamageMerge(size);
      }
    }

    /** A run of steps, up to the first scroll that is not safe; without a moverect callback every scroll is. */
    method RunSteps(steps: seq<Step>) returns (done: nat)
      requires Valid() && InSync(Stored(), {})
      requires forall k :: 0 <= k < |steps| ==> Allowed(steps[k])
      modifies this, buffer
      ensures Valid() && InSync(Stored(), {}) && done <= |steps| && lineinfo == old(lineinfo)
      ensures Now() == AfterAll(old(Now()), rows, cols, lineinfo, hasPushline, steps[..done])
      ensures done < |steps| ==>
                hasMoverect && steps[done].ScrollStep? && !SafeToScroll(steps[done].rect, steps[done].downward, steps[done].rightward)
    {
      hide After, Synced;
      done := 0;
      while done < |steps| && (steps[done].ScrollStep? ==> SafeToScroll(steps[done].rect, steps[done].downward, steps[done].rightward))
        invariant done <= |steps| && Valid() && InSync(Stored(), {}) && lineinfo == old(lineinfo)
        invariant Now() == AfterAll(old(Now()), rows, cols, lineinfo, hasPushline, steps[..done])
      {
        assert steps[..done + 1][..done] == steps[..done];
        Perform(steps[done]);
        done := done + 1;
      }
    }

    /**
     After any run of steps and a flush the mirror is the screen, in every merge mode, and the screen is what the steps make
     of it.  Without a moverect callback there is no condition on the run; with one it is followed up to the first scroll that
     is not safe.
     */
    method Run(steps: seq<Step>) returns (done: nat)
      requires Valid() && InSync(Stored(), {})
      requires forall k :: 0 <= k < |steps| ==> Allowed(steps[k])
      modifies this, buffer
      ensures Valid() && mirror == buffer[..]
      ensures done <= |steps| && (!hasMoverect ==> done == |steps|)
      ensures Now() == AfterAll(old(Now()), rows, cols, lineinfo, hasPushline, steps[..done])
    {
      hide After, AfterAll, Synced;
      done := RunSteps(steps);
      Flush();
    }

    static lemma DrawnIs(was: Grid, now: Grid, rows: nat, cols: nat, pen: ScreenPen, put: Step)
      requires IsGrid(was, rows, cols) && IsGrid(now, rows, cols) && put.PutStep? && put.row < rows && put.col + put.width <= cols && put.width >= 1
      requires forall i, j :: 0 <= i < rows && 0 <= j < cols && !(i == put.row && put.col <= j < put.col + put.width) ==> now[i][j] == was[i][j]
      requires now[put.row][put.col] ==
               Cell(put.chars[..Min(|put.chars|, MAX_CHARS_PER_CELL)],
                    (if put.chars != [] then pen else was[put.row][put.col].pen).(protectedCell := put.protectedCell, dwl := put.dwl, dhl := put.dhl))
      requires forall j :: put.col < j < put.col + put.width ==> now[put.row][j] == was[put.row][j].(chars := [WIDE_GAP])
      ensures now == Drawn(was, rows, cols, pen, put)
    {
      SameGrid(now, Drawn(was, rows, cols, pen, put), rows, cols);
    }

    static lemma ClearedIs(was: Grid, now: Grid, rows: nat, cols: nat, erased: Row, rect: Rect, selective: bool)
      requires IsGrid(was, rows, cols) && IsGrid(now, rows, cols) && |erased| == rows
      requires forall i, j :: 0 <= i < rows && 0 <= j < cols ==>
                 now[i][j] == if rect.Has(i, j) && !(selective && was[i][j].pen.protectedCell) then erased[i] else was[i][j]
      ensures now == Cleared(was, rows, cols, erased, rect, selective)
    {
      SameGrid(now, Cleared(was, rows, cols, erased, rect, selective), rows, cols);
    }

    static lemma ScrolledIs(was: Grid, now: Grid, rows: nat, cols: nat, erased: Row, rect: Rect, downward: int, rightward: int)
      requires Scrolled(was, now, rows, cols, rect, downward, rightward, erased)
      ensures now == ScrolledBy(was, rows, cols, erased, rect, downward, rightward)
    {
      hide ScrolledCell;
      SameGrid(now, ScrolledBy(was, rows, cols, erased, rect, downward, rightward), rows, cols);
    }

    lemma ScrolledGrid(buf: Grid, buf': Grid, rows: nat, cols: nat, rect: Rect, downward: int, rightward: int, erased: Row)
      requires Scrolled(buf, buf', rows, cols, rect, downward, rightward, erased)
      ensures IsGrid(buf', rows, cols)
    {
    }
  }
}
