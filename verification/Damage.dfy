/**
 What damage events and deferred scrolls promise a client of the screen.

 A client keeps a mirror of the screen.  It re-reads each damaged rectangle, and where it has accepted a
 moverect it copies cells within its own mirror.  `Synced` says what the mirror still has to be told.
 */
module Damage {
  import opened Cells
  import opened Rects

  type Grid = seq<Row>

  ghost predicate IsGrid(g: Grid, rows: nat, cols: nat) {
    |g| == rows && forall i :: 0 <= i < rows ==> |g[i]| == cols
  }

  /** A cell of a grid; anything outside it. */
  ghost predicate InGrid(g: Grid, i: int, j: int) {
    0 <= i < |g| && 0 <= j < |g[i]|
  }

  ghost predicate SameShape(a: Grid, b: Grid) {
    |a| == |b| && forall i :: 0 <= i < |a| ==> |a[i]| == |b[i]|
  }

  /** The mirror after re-reading `rect` of the buffer. */
  ghost function Reread(mirror: Grid, buf: Grid, rect: Rect): (m: Grid)
    requires SameShape(mirror, buf)
    ensures SameShape(m, mirror)
  {
    seq(|mirror|, i requires 0 <= i < |mirror| =>
      seq(|mirror[i]|, j requires 0 <= j < |mirror[i]| => if rect.Has(i, j) then buf[i][j] else mirror[i][j]))
  }

  /** The mirror after copying `src` onto `dest` within itself. */
  ghost function Moved(mirror: Grid, dest: Rect, src: Rect, rows: nat, cols: nat): (m: Grid)
    requires IsGrid(mirror, rows, cols) && src.Within(rows, cols)
    requires src.endRow - src.startRow == dest.endRow - dest.startRow && src.endCol - src.startCol == dest.endCol - dest.startCol
    ensures IsGrid(m, rows, cols)
  {
    seq(rows, i requires 0 <= i < rows =>
      seq(cols, j requires 0 <= j < cols =>
        if dest.Has(i, j) then mirror[i + src.startRow - dest.startRow][j + src.startCol - dest.startCol] else mirror[i][j]))
  }

  /** A scroll that has been done to the buffer but not reported yet. */
  datatype Pending = NoScroll | PendingScroll(rect: Rect, downward: int, rightward: int)

  /** damaged.start_row == -1 means that no damage is stored. */
  predicate Damaged(d: Rect, i: int, j: int) { d.startRow != -1 && d.Has(i, j) }

  /** What a client that moves cells itself will get right about (i, j) once `p` is reported. */
  ghost predicate Ahead(buf: Grid, mirror: Grid, p: Pending, mover: bool, i: int, j: int)
    requires InGrid(buf, i, j) && SameShape(buf, mirror)
  {
    if p.NoScroll? || !p.rect.Has(i, j) then buf[i][j] == mirror[i][j]
    else
      var i', j' := i + p.downward, j + p.rightward;
      mover && (i' != i || j' != j) && p.rect.Has(i', j') && InGrid(mirror, i', j') ==> buf[i][j] == mirror[i'][j']
  }

  /** Every cell outside `hole` and outside the stored damage is one the mirror has right, or will have. */
  ghost predicate Synced(buf: Grid, mirror: Grid, damaged: Rect, p: Pending, mover: bool, hole: set<(int, int)>) {
    && SameShape(buf, mirror)
    && forall i, j :: InGrid(buf, i, j) && (i, j) !in hole && !Damaged(damaged, i, j) ==> Ahead(buf, mirror, p, mover, i, j)
  }

  /** With nothing stored, nothing pending and no hole, the mirror is the screen. */
  lemma SyncedMeansEqual(buf: Grid, mirror: Grid, damaged: Rect, mover: bool)
    requires damaged.startRow == -1 && Synced(buf, mirror, damaged, NoScroll, mover, {})
    ensures mirror == buf
  {
    forall i | 0 <= i < |buf| ensures buf[i] == mirror[i] {
      assert |buf[i]| == |mirror[i]|;
      forall j | 0 <= j < |buf[i]| ensures buf[i][j] == mirror[i][j] {
        assert InGrid(buf, i, j) && Ahead(buf, mirror, NoScroll, mover, i, j);
      }
    }
  }

  /** Emitting a damage event closes the hole under it. */
  lemma EmitCloses(buf: Grid, mirror: Grid, damaged: Rect, mover: bool, hole: set<(int, int)>, rect: Rect)
    requires Synced(buf, mirror, damaged, NoScroll, mover, hole)
    ensures Synced(buf, Reread(mirror, buf, rect), damaged, NoScroll, mover, hole - rect.Cells())
    ensures rect == damaged ==> Synced(buf, Reread(mirror, buf, rect), damaged.(startRow := -1), NoScroll, mover, hole)
  {
    var m := Reread(mirror, buf, rect);
    forall i, j | InGrid(buf, i, j) && ((i, j) !in hole || rect.Has(i, j)) && (!Damaged(damaged, i, j) || rect.Has(i, j))
      ensures Ahead(buf, m, NoScroll, mover, i, j)
    {
      if !rect.Has(i, j) {
        assert Ahead(buf, mirror, NoScroll, mover, i, j);
      }
    }
  }

  /** Storing damage closes the hole under it. */
  lemma StoreCloses(buf: Grid, mirror: Grid, damaged: Rect, p: Pending, mover: bool, hole: set<(int, int)>, rect: Rect, d': Rect)
    requires Synced(buf, mirror, damaged, p, mover, hole)
    requires forall i, j :: i >= 0 && (Damaged(damaged, i, j) || rect.Has(i, j)) ==> Damaged(d', i, j)
    ensures Synced(buf, mirror, d', p, mover, hole - rect.Cells())
  {
    forall i, j | InGrid(buf, i, j) && (i, j) !in hole - rect.Cells() && !Damaged(d', i, j)
      ensures Ahead(buf, mirror, p, mover, i, j)
    {
      assert !Damaged(damaged, i, j) && !rect.Has(i, j);
      assert (i, j) !in hole;
    }
  }

  /** A change of the buffer within `rect` makes at most that hole. */
  lemma WriteOpens(buf: Grid, buf': Grid, mirror: Grid, damaged: Rect, p: Pending, mover: bool, hole: set<(int, int)>)
    requires Synced(buf, mirror, damaged, p, mover, {}) && SameShape(buf, buf')
    requires forall i, j :: InGrid(buf, i, j) && (i, j) !in hole ==> buf'[i][j] == buf[i][j]
    ensures Synced(buf', mirror, damaged, p, mover, hole)
  {
    forall i, j | InGrid(buf', i, j) && (i, j) !in hole && !Damaged(damaged, i, j)
      ensures Ahead(buf', mirror, p, mover, i, j)
    {
      assert InGrid(buf, i, j);
      assert Ahead(buf, mirror, p, mover, i, j);
    }
  }

  // ----- scrolling

  /** What a scroll leaves in a cell: the cell at the offset if that lies in the rectangle, else an erased cell. */
  ghost function ScrolledCell(buf: Grid, rows: nat, cols: nat, rect: Rect, downward: int, rightward: int, erased: Row, i: int, j: int): Cell
    requires IsGrid(buf, rows, cols) && |erased| == rows && rect.Within(rows, cols) && 0 <= i < rows && 0 <= j < cols
  {
    if !rect.Has(i, j) then buf[i][j]
    else if rect.Has(i + downward, j + rightward) then buf[i + downward][j + rightward]
    else erased[i]
  }

  ghost predicate Scrolled(buf: Grid, buf': Grid, rows: nat, cols: nat, rect: Rect, downward: int, rightward: int, erased: Row) {
    && IsGrid(buf, rows, cols) && IsGrid(buf', rows, cols) && |erased| == rows && rect.Within(rows, cols)
    && forall i, j {:trigger buf'[i][j]} :: 0 <= i < rows && 0 <= j < cols ==>
         buf'[i][j] == ScrolledCell(buf, rows, cols, rect, downward, rightward, erased, i, j)
  }

  predicate Nonzero(downward: int, rightward: int) { downward != 0 || rightward != 0 }

  predicate SameDirection(a: int, b: int) { (a >= 0 && b >= 0) || (a <= 0 && b <= 0) }

  /** No line is double-width or double-height, so erased cells look the same on every row. */
  ghost predicate Uniform(erased: Row) {
    forall i, k :: 0 <= i < |erased| && 0 <= k < |erased| ==> erased[i] == erased[k]
  }

  lemma ScrollTwiceAt(b0: Grid, b1: Grid, b2: Grid, rows: nat, cols: nat, rect: Rect, d1: int, r1: int, d2: int, r2: int,
                      erased: Row, i: int, j: int)
    requires SameDirection(d1, d2) && SameDirection(r1, r2) && (d2 == 0 || Uniform(erased))
    requires Scrolled(b0, b1, rows, cols, rect, d1, r1, erased) && Scrolled(b1, b2, rows, cols, rect, d2, r2, erased)
    requires 0 <= i < rows && 0 <= j < cols
    ensures b2[i][j] == ScrolledCell(b0, rows, cols, rect, d1 + d2, r1 + r2, erased, i, j)
  {
    var i', j' := i + d2, j + r2;
    if rect.Has(i, j) && rect.Has(i', j') {
      assert b2[i][j] == b1[i'][j'];
      assert i' + d1 == i + (d1 + d2) && j' + r1 == j + (r1 + r2);
    } else {
      assert b2[i][j] == if rect.Has(i, j) then erased[i] else b1[i][j];
    }
  }

  /** Two scrolls in the same direction are one scroll by their sum. */
  lemma ScrollTwice(b0: Grid, b1: Grid, b2: Grid, rows: nat, cols: nat, rect: Rect, d1: int, r1: int, d2: int, r2: int, erased: Row)
    requires SameDirection(d1, d2) && SameDirection(r1, r2) && (d2 == 0 || Uniform(erased))
    requires Scrolled(b0, b1, rows, cols, rect, d1, r1, erased) && Scrolled(b1, b2, rows, cols, rect, d2, r2, erased)
    ensures Scrolled(b0, b2, rows, cols, rect, d1 + d2, r1 + r2, erased)
  {
    hide ScrolledCell, Uniform;
    forall i, j | 0 <= i < rows && 0 <= j < cols
      ensures b2[i][j] == ScrolledCell(b0, rows, cols, rect, d1 + d2, r1 + r2, erased, i, j)
    {
      ScrollTwiceAt(b0, b1, b2, rows, cols, rect, d1, r1, d2, r2, erased, i, j);
    }
  }

  /** The moves and erasures that vterm_scroll_rect asks for do scroll. */
  lemma PlanScrolls(buf: Grid, buf': Grid, rows: nat, cols: nat, rect: Rect, downward: int, rightward: int, erased: Row)
    requires IsGrid(buf, rows, cols) && IsGrid(buf', rows, cols) && |erased| == rows && rect.Within(rows, cols)
    requires OneAxis(downward, rightward) && Nonzero(downward, rightward)
    requires match PlanScroll(rect, downward, rightward)
             case EraseAll =>
               forall i, j :: 0 <= i < rows && 0 <= j < cols ==> buf'[i][j] == if rect.Has(i, j) then erased[i] else buf[i][j]
             case MoveAndErase(dest, src, strip) =>
               && src.Within(rows, cols)
               && src.endRow - src.startRow == dest.endRow - dest.startRow && src.endCol - src.startCol == dest.endCol - dest.startCol
               && forall i, j :: 0 <= i < rows && 0 <= j < cols ==>
                    buf'[i][j] == if strip.Has(i, j) then erased[i] else Moved(buf, dest, src, rows, cols)[i][j]
    ensures Scrolled(buf, buf', rows, cols, rect, downward, rightward, erased)
  {
    forall i, j | 0 <= i < rows && 0 <= j < cols
      ensures buf'[i][j] == ScrolledCell(buf, rows, cols, rect, downward, rightward, erased, i, j)
    {
      PlanCovers(rect, downward, rightward, i, j);
      if PlanScroll(rect, downward, rightward).MoveAndErase? {
        PlanShape(rect, downward, rightward, rows, cols);
      }
    }
  }

  /** `n` erased rows, as the bottom rows of the screen. */
  function BottomRows(erased: Row, cols: nat, n: nat): Grid
    requires n <= |erased|
  {
    seq(n, k requires 0 <= k < n => Blanks(erased[|erased| - n + k], cols))
  }

  /** A scroll of the whole screen drops rows at the top and adds erased ones at the bottom. */
  lemma WholeScreenScroll(buf: Grid, buf': Grid, rows: nat, cols: nat, n: nat, erased: Row)
    requires 0 < n <= rows && Scrolled(buf, buf', rows, cols, Rect(0, rows, 0, cols), n, 0, erased)
    ensures buf' == buf[n..] + BottomRows(erased, cols, n)
  {
    var goal := buf[n..] + BottomRows(erased, cols, n);
    forall i | 0 <= i < rows ensures buf'[i] == goal[i] {
      assert goal[i] == if i < rows - n then buf[i + n] else Blanks(erased[i], cols);
      forall j | 0 <= j < cols ensures buf'[i][j] == goal[i][j] {
        assert buf'[i][j] == ScrolledCell(buf, rows, cols, Rect(0, rows, 0, cols), n, 0, erased, i, j);
      }
    }
  }

  // ----- a scroll of the buffer that the client has not been told about

  /** The scroll to report once `rect` has been scrolled on top of what was pending there already. */
  function Add(p: Pending, rect: Rect, downward: int, rightward: int): Pending {
    if p.NoScroll? then PendingScroll(rect, downward, rightward)
    else PendingScroll(rect, p.downward + downward, p.rightward + rightward)
  }

  /** The client is told to copy this cell from another. */
  predicate Copied(q: Pending, i: int, j: int) {
    q.PendingScroll? && Nonzero(q.downward, q.rightward) && q.rect.Has(i, j) && q.rect.Has(i + q.downward, j + q.rightward)
  }

  /** Stored damage stays where it is outside the rectangle. */
  ghost predicate StaysOutside(d: Rect, d': Rect, rect: Rect) {
    forall i, j :: Damaged(d, i, j) && !rect.Has(i, j) ==> Damaged(d', i, j)
  }

  /** Copying the cell does no harm: it is re-read afterwards, or what it gets from the new scroll was right before it. */
  predicate CellStaysRight(p: Pending, d: Rect, d': Rect, rect: Rect, downward: int, rightward: int, i: int, j: int) {
    || Damaged(d', i, j)
    || (rect.Has(i + downward, j + rightward) && !Damaged(d, i + downward, j + rightward) && (p.PendingScroll? ==> Nonzero(p.downward, p.rightward)))
  }

  /** So it is for all the cells that are copied. */
  ghost predicate CellsStayRight(p: Pending, d: Rect, d': Rect, rect: Rect, downward: int, rightward: int) {
    forall i, j :: Copied(Add(p, rect, downward, rightward), i, j) ==> CellStaysRight(p, d, d', rect, downward, rightward, i, j)
  }

  lemma ScrollAheadAt(buf: Grid, buf': Grid, mirror: Grid, rows: nat, cols: nat, rect: Rect, downward: int, rightward: int,
                      erased: Row, d: Rect, d': Rect, p: Pending, mover: bool, i: int, j: int)
    requires Scrolled(buf, buf', rows, cols, rect, downward, rightward, erased) && Nonzero(downward, rightward)
    requires Synced(buf, mirror, d, p, mover, {})
    requires p.NoScroll? || p.rect == rect
    requires mover ==> CellsStayRight(p, d, d', rect, downward, rightward)
    requires StaysOutside(d, d', rect)
    requires 0 <= i < rows && 0 <= j < cols && !Damaged(d', i, j)
    ensures SameShape(buf', mirror) && Ahead(buf', mirror, Add(p, rect, downward, rightward), mover, i, j)
  {
    var q := Add(p, rect, downward, rightward);
    if !rect.Has(i, j) {
      assert InGrid(buf, i, j) && Ahead(buf, mirror, p, mover, i, j);
    } else if mover && Copied(q, i, j) {
      var i', j' := i + downward, j + rightward;
      assert CellStaysRight(p, d, d', rect, downward, rightward, i, j);
      assert InGrid(buf, i', j') && Ahead(buf, mirror, p, mover, i', j');
      assert buf'[i][j] == buf[i'][j'];
      if p.PendingScroll? {
        assert i' + p.downward == i + q.downward && j' + p.rightward == j + q.rightward;
      }
    }
  }

  /** Scrolling the buffer puts it ahead of the mirror by exactly the scroll that is still to be reported. */
  lemma ScrollAhead(buf: Grid, buf': Grid, mirror: Grid, rows: nat, cols: nat, rect: Rect, downward: int, rightward: int,
                    erased: Row, d: Rect, d': Rect, p: Pending, mover: bool)
    requires Scrolled(buf, buf', rows, cols, rect, downward, rightward, erased) && Nonzero(downward, rightward)
    requires Synced(buf, mirror, d, p, mover, {})
    requires p.NoScroll? || p.rect == rect
    requires mover ==> CellsStayRight(p, d, d', rect, downward, rightward)
    requires StaysOutside(d, d', rect)
    ensures Synced(buf', mirror, d', Add(p, rect, downward, rightward), mover, {})
  {
    hide Ahead;
    forall i, j | InGrid(buf', i, j) && !Damaged(d', i, j)
      ensures SameShape(buf', mirror) && Ahead(buf', mirror, Add(p, rect, downward, rightward), mover, i, j)
    {
      ScrollAheadAt(buf, buf', mirror, rows, cols, rect, downward, rightward, erased, d, d', p, mover, i, j);
    }
    assert SameShape(buf', mirror);
  }

  /** Damage can be emitted before the scroll is reported: none of it is where the client will copy from, and what is in the rectangle was right before. */
  ghost predicate MayEmitFirst(buf: Grid, mirror: Grid, d: Rect, p: Pending, mover: bool) {
    mover && p.PendingScroll? ==>
      && SameShape(buf, mirror)
      && (forall i, j :: InGrid(buf, i, j) && p.rect.Has(i, j) && Damaged(d, i, j) ==> Ahead(buf, mirror, p, mover, i, j))
      && (forall i, j :: p.rect.Has(i, j) && p.rect.Has(i + p.downward, j + p.rightward) ==> !Damaged(d, i + p.downward, j + p.rightward))
  }

  /** So it is after a scroll that copies no damaged cell. */
  lemma MayEmitAfterScroll(buf: Grid, buf': Grid, mirror: Grid, rows: nat, cols: nat, rect: Rect, downward: int, rightward: int,
                           erased: Row, d: Rect, mover: bool)
    requires Scrolled(buf, buf', rows, cols, rect, downward, rightward, erased) && Nonzero(downward, rightward)
    requires Synced(buf, mirror, d, NoScroll, mover, {})
    requires mover ==> d.startRow == -1 || IsEmpty(DamagedTargets(d, rect, downward, rightward))
    ensures MayEmitFirst(buf', mirror, d, PendingScroll(rect, downward, rightward), mover)
    ensures mover ==> CellsStayRight(NoScroll, d, d, rect, downward, rightward)
  {
    if mover {
      var p := PendingScroll(rect, downward, rightward);
      forall i, j | rect.Has(i, j) && rect.Has(i + downward, j + rightward) ensures !Damaged(d, i + downward, j + rightward) {
        assert d.startRow == -1 || !DamagedTargets(d, rect, downward, rightward).Has(i, j);
      }
      forall i, j | InGrid(buf', i, j) && rect.Has(i, j) && Damaged(d, i, j) ensures Ahead(buf', mirror, p, mover, i, j) {
        var i', j' := i + downward, j + rightward;
        if rect.Has(i', j') {
          assert InGrid(buf, i', j') && Ahead(buf, mirror, NoScroll, mover, i', j');
          assert buf'[i][j] == buf[i'][j'];
        }
      }
    }
  }

  lemma EmitWhileAhead(buf: Grid, mirror: Grid, d: Rect, p: Pending, mover: bool, hole: set<(int, int)>)
    requires Synced(buf, mirror, d, p, mover, hole) && MayEmitFirst(buf, mirror, d, p, mover)
    ensures Synced(buf, if d.startRow == -1 then mirror else Reread(mirror, buf, d), d.(startRow := -1), p, mover, hole)
  {
    var m := if d.startRow == -1 then mirror else Reread(mirror, buf, d);
    forall i, j | InGrid(buf, i, j) && (i, j) !in hole
      ensures Ahead(buf, m, p, mover, i, j)
    {
      if !Damaged(d, i, j) || (mover && p.PendingScroll? && p.rect.Has(i, j)) {
        assert Ahead(buf, mirror, p, mover, i, j);
      }
    }
  }

  /** Reporting the scroll to a client that moves cells leaves only the erased strip to be re-read. */
  lemma ReportMoved(buf: Grid, mirror: Grid, rows: nat, cols: nat, d: Rect, rect: Rect, downward: int, rightward: int, mover: bool)
    requires OneAxis(downward, rightward) && rect.Within(rows, cols) && IsGrid(buf, rows, cols) && IsGrid(mirror, rows, cols)
    requires PlanScroll(rect, downward, rightward).MoveAndErase?
    requires mover && Synced(buf, mirror, d, PendingScroll(rect, downward, rightward), mover, {})
    ensures var p := PlanScroll(rect, downward, rightward);
            && p.src.Within(rows, cols)
            && p.src.endRow - p.src.startRow == p.dest.endRow - p.dest.startRow
            && p.src.endCol - p.src.startCol == p.dest.endCol - p.dest.startCol
            && Synced(buf, Moved(mirror, p.dest, p.src, rows, cols), d, NoScroll, mover, p.erased.Cells())
  {
    PlanShape(rect, downward, rightward, rows, cols);
    var p := PlanScroll(rect, downward, rightward);
    var m := Moved(mirror, p.dest, p.src, rows, cols);
    forall i, j | InGrid(buf, i, j) && (i, j) !in p.erased.Cells() && !Damaged(d, i, j)
      ensures Ahead(buf, m, NoScroll, mover, i, j)
    {
      PlanCovers(rect, downward, rightward, i, j);
      assert Ahead(buf, mirror, PendingScroll(rect, downward, rightward), mover, i, j);
    }
  }

  /** Not reporting it leaves the whole rectangle to be re-read. */
  lemma ReportUnmoved(buf: Grid, mirror: Grid, d: Rect, rect: Rect, downward: int, rightward: int, mover: bool)
    requires Synced(buf, mirror, d, PendingScroll(rect, downward, rightward), mover, {})
    ensures Synced(buf, mirror, d, NoScroll, mover, rect.Cells())
  {
    forall i, j | InGrid(buf, i, j) && (i, j) !in rect.Cells() && !Damaged(d, i, j)
      ensures Ahead(buf, mirror, NoScroll, mover, i, j)
    {
      assert Ahead(buf, mirror, PendingScroll(rect, downward, rightward), mover, i, j);
    }
  }

  /** The two damage events of a refused scroll cover it. */
  lemma TwoPartsCover(rect: Rect, downward: int, rightward: int)
    requires OneAxis(downward, rightward) && PlanScroll(rect, downward, rightward).MoveAndErase?
    ensures var p := PlanScroll(rect, downward, rightward);
            rect.Cells() - p.dest.Cells() - p.erased.Cells() == {}
  {
    var p := PlanScroll(rect, downward, rightward);
    forall i, j | (i, j) in rect.Cells() - p.dest.Cells() - p.erased.Cells()
      ensures false
    {
      PlanCovers(rect, downward, rightward, i, j);
    }
  }

  // ----- what scrollrect does to the stored damage

  /** The end of scrollrect: damage inside the rectangle is moved, damage cut by a vertical scroll has its cut edge moved. */
  function AdjustDamage(d: Rect, rect: Rect, downward: int, rightward: int): Rect {
    if d.startRow == -1 then d
    else if Contains(rect, d) then Clip(Shift(d, -downward, -rightward), rect)
    else if rect.startCol <= d.startCol && rect.endCol >= d.endCol && rightward == 0 then
      var startRow := if rect.startRow <= d.startRow < rect.endRow
                      then Min(Max(d.startRow - downward, rect.startRow), rect.endRow) else d.startRow;
      var endRow := if rect.startRow <= d.endRow < rect.endRow
                    then Min(Max(d.endRow - downward, rect.startRow), rect.endRow) else d.endRow;
      d.(startRow := startRow, endRow := endRow)
    else d
  }

  /** The cells of the rectangle that get a damaged cell of the rectangle. */
  function DamagedTargets(d: Rect, rect: Rect, downward: int, rightward: int): Rect {
    Rect(Max(rect.startRow, Max(rect.startRow, d.startRow) - downward), Min(rect.endRow, Min(rect.endRow, d.endRow) - downward),
         Max(rect.startCol, Max(rect.startCol, d.startCol) - rightward), Min(rect.endCol, Min(rect.endCol, d.endCol) - rightward))
  }

  predicate IsEmpty(r: Rect) { r.startRow >= r.endRow || r.startCol >= r.endCol }

  /** Adjusted damage still covers what it covered outside the rectangle. */
  lemma AdjustedDamage(d: Rect, rect: Rect, downward: int, rightward: int)
    requires rect.startRow >= 0 && rect.startRow <= rect.endRow && d.startRow >= -1
    ensures StaysOutside(d, AdjustDamage(d, rect, downward, rightward), rect)
    ensures AdjustDamage(d, rect, downward, rightward).startRow >= -1
  {
  }

  /** The cells of the rectangle that get a cell of the rectangle. */
  function Targets(rect: Rect, downward: int, rightward: int): Rect {
    Rect(Max(rect.startRow, rect.startRow - downward), Min(rect.endRow, rect.endRow - downward),
         Max(rect.startCol, rect.startCol - rightward), Min(rect.endCol, rect.endCol - rightward))
  }

  function Common(a: Rect, b: Rect): Rect {
    Rect(Max(a.startRow, b.startRow), Min(a.endRow, b.endRow), Max(a.startCol, b.startCol), Min(a.endCol, b.endCol))
  }

  /** The stored damage covers the rectangle. */
  predicate Covers(d: Rect, r: Rect) { IsEmpty(r) || (d.startRow != -1 && Contains(d, r)) }

  /** It covers what is in `r` and not in `hole`. */
  predicate CoversBut(d: Rect, r: Rect, hole: Rect) {
    && Covers(d, r.(endRow := Min(r.endRow, hole.startRow))) && Covers(d, r.(startRow := Max(r.startRow, hole.endRow)))
    && Covers(d, r.(endCol := Min(r.endCol, hole.startCol))) && Covers(d, r.(startCol := Max(r.startCol, hole.endCol)))
  }

  /**
   When a scroll on top of what is pending leaves a client that moves cells right: of the cells it will copy the damage covers
   those that the new scroll erases and those that it fills from damaged ones; or all, if the pending scrolls cancel out.
   */
  predicate StaysRight(p: Pending, d: Rect, rect: Rect, downward: int, rightward: int) {
    var q, d' := Add(p, rect, downward, rightward), AdjustDamage(d, rect, downward, rightward);
    Nonzero(q.downward, q.rightward) ==>
      var copied := Targets(rect, q.downward, q.rightward);
      if p.PendingScroll? && !Nonzero(p.downward, p.rightward) then Covers(d', copied)
      else
        && CoversBut(d', copied, Targets(rect, downward, rightward))
        && (d.startRow != -1 ==> Covers(d', Common(copied, DamagedTargets(d, rect, downward, rightward))))
  }

  lemma CoversIs(d: Rect, r: Rect)
    ensures Covers(d, r) <==> forall i, j :: r.Has(i, j) ==> Damaged(d, i, j)
  {
    if !Covers(d, r) {
      var i := if r.startRow < d.startRow then r.startRow else r.endRow - 1;
      var j := if r.startCol < d.startCol then r.startCol else r.endCol - 1;
      assert r.Has(i, j) && !Damaged(d, i, j);
    }
  }

  lemma CoversButIs(d: Rect, r: Rect, hole: Rect)
    ensures CoversBut(d, r, hole) <==> forall i, j :: r.Has(i, j) && !hole.Has(i, j) ==> Damaged(d, i, j)
  {
    hide Covers;
    CoversIs(d, r.(endRow := Min(r.endRow, hole.startRow)));
    CoversIs(d, r.(startRow := Max(r.startRow, hole.endRow)));
    CoversIs(d, r.(endCol := Min(r.endCol, hole.startCol)));
    CoversIs(d, r.(startCol := Max(r.startCol, hole.endCol)));
    if forall i, j :: r.Has(i, j) && !hole.Has(i, j) ==> Damaged(d, i, j) {
      forall i, j | r.(endRow := Min(r.endRow, hole.startRow)).Has(i, j) ensures Damaged(d, i, j) {
        assert r.Has(i, j);
      }
      forall i, j | r.(startRow := Max(r.startRow, hole.endRow)).Has(i, j) ensures Damaged(d, i, j) {
        assert r.Has(i, j);
      }
      forall i, j | r.(endCol := Min(r.endCol, hole.startCol)).Has(i, j) ensures Damaged(d, i, j) {
        assert r.Has(i, j);
      }
      forall i, j | r.(startCol := Max(r.startCol, hole.endCol)).Has(i, j) ensures Damaged(d, i, j) {
        assert r.Has(i, j);
      }
    }
    if CoversBut(d, r, hole) {
      forall i, j | r.Has(i, j) && !hole.Has(i, j) ensures Damaged(d, i, j) {
        assert r.(endRow := Min(r.endRow, hole.startRow)).Has(i, j) || r.(startRow := Max(r.startRow, hole.endRow)).Has(i, j) ||
               r.(endCol := Min(r.endCol, hole.startCol)).Has(i, j) || r.(startCol := Max(r.startCol, hole.endCol)).Has(i, j);
      }
    }
  }

  /** The condition in rectangles is the condition on every cell. */
  lemma StaysRightIs(p: Pending, d: Rect, rect: Rect, downward: int, rightward: int)
    requires d.startRow >= -1
    ensures StaysRight(p, d, rect, downward, rightward) <==>
            CellsStayRight(p, d, AdjustDamage(d, rect, downward, rightward), rect, downward, rightward)
  {
    hide Covers, CoversBut, AdjustDamage, Targets, DamagedTargets, Common, Damaged;
    var q, d' := Add(p, rect, downward, rightward), AdjustDamage(d, rect, downward, rightward);
    var copied, kept, stale := Targets(rect, q.downward, q.rightward), Targets(rect, downward, rightward), DamagedTargets(d, rect, downward, rightward);
    CoversIs(d', copied);
    CoversButIs(d', copied, kept);
    CoversIs(d', Common(copied, stale));
    if StaysRight(p, d, rect, downward, rightward) {
      forall i, j | Copied(q, i, j) ensures CellStaysRight(p, d, d', rect, downward, rightward, i, j) {
        TargetsAre(p, d, rect, downward, rightward, i, j);
      }
    }
    if CellsStayRight(p, d, d', rect, downward, rightward) && Nonzero(q.downward, q.rightward) {
      forall i, j | copied.Has(i, j) ensures Damaged(d', i, j) || CellStaysRight(p, d, d', rect, downward, rightward, i, j) {
        TargetsAre(p, d, rect, downward, rightward, i, j);
      }
      forall i, j | copied.Has(i, j) && !kept.Has(i, j) ensures Damaged(d', i, j) {
        TargetsAre(p, d, rect, downward, rightward, i, j);
      }
      forall i, j | d.startRow != -1 && Common(copied, stale).Has(i, j) ensures Damaged(d', i, j) {
        TargetsAre(p, d, rect, downward, rightward, i, j);
      }
    }
  }

  lemma TargetsAre(p: Pending, d: Rect, rect: Rect, downward: int, rightward: int, i: int, j: int)
    ensures var q := Add(p, rect, downward, rightward);
            var copied, kept, stale := Targets(rect, q.downward, q.rightward), Targets(rect, downward, rightward), DamagedTargets(d, rect, downward, rightward);
            && (copied.Has(i, j) && Nonzero(q.downward, q.rightward) <==> Copied(q, i, j))
            && (copied.Has(i, j) ==> (kept.Has(i, j) <==> rect.Has(i + downward, j + rightward)))
            && (copied.Has(i, j) && d.startRow != -1 ==> (stale.Has(i, j) <==> kept.Has(i, j) && Damaged(d, i + downward, j + rightward)))
            && (d.startRow == -1 ==> !Damaged(d, i + downward, j + rightward))
            && (Common(copied, stale).Has(i, j) <==> copied.Has(i, j) && stale.Has(i, j))
  {
  }

  /** Adjusted damage that was inside the rectangle is on the screen exactly if it was not moved past the bottom or the right edge. */
  lemma AdjustedDamageOnScreen(d: Rect, rect: Rect, downward: int, rightward: int, rows: nat, cols: nat)
    requires rect.Within(rows, cols) && Contains(rect, d) && !IsEmpty(d)
    ensures AdjustDamage(d, rect, downward, rightward).Within(rows, cols) <==> d.startRow - downward <= rows && d.startCol - rightward <= cols
  {
  }

  // ----- where the deferral goes wrong

  /** What the mirror shows after a scroll has been reported and accepted. */
  ghost function Reported(mirror: Grid, buf: Grid, rows: nat, cols: nat, rect: Rect, downward: int, rightward: int): Grid
    requires IsGrid(mirror, rows, cols) && IsGrid(buf, rows, cols) && rect.Within(rows, cols) && OneAxis(downward, rightward)
  {
    match PlanScroll(rect, downward, rightward)
    case EraseAll => Reread(mirror, buf, rect)
    case MoveAndErase(dest, src, erased) =>
      PlanShape(rect, downward, rightward, rows, cols);
      Reread(Moved(mirror, dest, src, rows, cols), buf, erased)
  }

  /** A cell of the mirror after the report: copied where both ends lie in the rectangle, re-read in the rest of it. */
  lemma ReportedAt(mirror: Grid, buf: Grid, rows: nat, cols: nat, rect: Rect, downward: int, rightward: int, i: int, j: int)
    requires IsGrid(mirror, rows, cols) && IsGrid(buf, rows, cols) && rect.Within(rows, cols) && OneAxis(downward, rightward)
    requires 0 <= i < rows && 0 <= j < cols
    ensures IsGrid(Reported(mirror, buf, rows, cols, rect, downward, rightward), rows, cols)
    ensures Reported(mirror, buf, rows, cols, rect, downward, rightward)[i][j] ==
            if !rect.Has(i, j) then mirror[i][j]
            else if Nonzero(downward, rightward) && rect.Has(i + downward, j + rightward) then mirror[i + downward][j + rightward]
            else buf[i][j]
  {
    PlanCovers(rect, downward, rightward, i, j);
    if PlanScroll(rect, downward, rightward).MoveAndErase? {
      PlanShape(rect, downward, rightward, rows, cols);
    }
  }

  /** A scroll by this much makes the client copy nothing: it re-reads the whole rectangle. */
  predicate MovesNothing(rect: Rect, downward: int, rightward: int) {
    !Nonzero(downward, rightward) || Abs(downward) >= rect.endRow - rect.startRow || Abs(rightward) >= rect.endCol - rect.startCol
  }

  /**
   Two scrolls of one rectangle along one axis that are reported as their sum.  For a screen on which no cell looks
   erased the mirror comes out right exactly if they go the same way, cancel out, or add up to the full size.
   */
  lemma MergedScrollsAgree(m: Grid, b1: Grid, b2: Grid, rows: nat, cols: nat, rect: Rect, d1: int, r1: int, d2: int, r2: int, erased: Row)
    requires Nonzero(d1, r1) && Nonzero(d2, r2) && ((d1 == 0 && d2 == 0) || (r1 == 0 && r2 == 0 && Uniform(erased)))
    requires Scrolled(m, b1, rows, cols, rect, d1, r1, erased) && Scrolled(b1, b2, rows, cols, rect, d2, r2, erased)
    requires rect.startRow < rect.endRow && rect.startCol < rect.endCol
    requires forall i, j :: 0 <= i < rows && 0 <= j < cols ==> m[i][j] != erased[i]
    ensures Reported(m, b2, rows, cols, rect, d1 + d2, r1 + r2) == b2 <==>
            (SameDirection(d1, d2) && SameDirection(r1, r2)) || MovesNothing(rect, d1 + d2, r1 + r2)
  {
    var r := Reported(m, b2, rows, cols, rect, d1 + d2, r1 + r2);
    if (SameDirection(d1, d2) && SameDirection(r1, r2)) || MovesNothing(rect, d1 + d2, r1 + r2) {
      hide Scrolled, Reported;
      forall i, j | 0 <= i < rows && 0 <= j < cols ensures r[i][j] == b2[i][j] && IsGrid(r, rows, cols) {
        MergedCell(m, b1, b2, rows, cols, rect, d1, r1, d2, r2, erased, i, j);
      }
      ReportedGrid(m, b2, rows, cols, rect, d1 + d2, r1 + r2);
      SameGrid(r, b2, rows, cols);
    } else {
      MergedScrollsDisagree(m, b1, b2, rows, cols, rect, d1, r1, d2, r2, erased);
    }
  }

  lemma ReportedGrid(mirror: Grid, buf: Grid, rows: nat, cols: nat, rect: Rect, downward: int, rightward: int)
    requires IsGrid(mirror, rows, cols) && IsGrid(buf, rows, cols) && rect.Within(rows, cols) && OneAxis(downward, rightward)
    ensures IsGrid(Reported(mirror, buf, rows, cols, rect, downward, rightward), rows, cols)
  {
    if PlanScroll(rect, downward, rightward).MoveAndErase? {
      PlanShape(rect, downward, rightward, rows, cols);
    }
  }

  lemma MergedCell(m: Grid, b1: Grid, b2: Grid, rows: nat, cols: nat, rect: Rect, d1: int, r1: int, d2: int, r2: int, erased: Row, i: int, j: int)
    requires (d1 == 0 && d2 == 0) || (r1 == 0 && r2 == 0 && Uniform(erased))
    requires Scrolled(m, b1, rows, cols, rect, d1, r1, erased) && Scrolled(b1, b2, rows, cols, rect, d2, r2, erased)
    requires (SameDirection(d1, d2) && SameDirection(r1, r2)) || MovesNothing(rect, d1 + d2, r1 + r2)
    requires 0 <= i < rows && 0 <= j < cols
    ensures IsGrid(Reported(m, b2, rows, cols, rect, d1 + d2, r1 + r2), rows, cols)
    ensures Reported(m, b2, rows, cols, rect, d1 + d2, r1 + r2)[i][j] == b2[i][j]
  {
    hide Reported, Uniform;
    ReportedAt(m, b2, rows, cols, rect, d1 + d2, r1 + r2, i, j);
    if SameDirection(d1, d2) && SameDirection(r1, r2) {
      ScrollTwiceAt(m, b1, b2, rows, cols, rect, d1, r1, d2, r2, erased, i, j);
    }
    assert !rect.Has(i, j) ==> b2[i][j] == b1[i][j] == m[i][j];
  }

  lemma MergedScrollsDisagree(m: Grid, b1: Grid, b2: Grid, rows: nat, cols: nat, rect: Rect, d1: int, r1: int, d2: int, r2: int, erased: Row)
    requires !(SameDirection(d1, d2) && SameDirection(r1, r2)) && !MovesNothing(rect, d1 + d2, r1 + r2)
    requires (d1 == 0 && d2 == 0) || (r1 == 0 && r2 == 0 && Uniform(erased))
    requires Scrolled(m, b1, rows, cols, rect, d1, r1, erased) && Scrolled(b1, b2, rows, cols, rect, d2, r2, erased)
    requires forall i, j :: 0 <= i < rows && 0 <= j < cols ==> m[i][j] != erased[i]
    ensures Reported(m, b2, rows, cols, rect, d1 + d2, r1 + r2) != b2
  {
    // the second scroll has erased a row or a column that the client copies
    var i := ErasedAndCopied(rect.startRow, rect.endRow, d1, d2);
    var j := ErasedAndCopied(rect.startCol, rect.endCol, r1, r2);
    ReportedAt(m, b2, rows, cols, rect, d1 + d2, r1 + r2, i, j);
    assert b2[i][j] == ScrolledCell(b1, rows, cols, rect, d2, r2, erased, i, j);
  }

  function ErasedAndCopied(start: int, end: int, first: int, second: int): int {
    var net := first + second;
    if second < 0 then (if net > 0 then start else start - net)
    else if second > 0 then (if net > 0 then end - 1 - net else end - 1)
    else start
  }

  lemma SameGrid(a: Grid, b: Grid, rows: nat, cols: nat)
    requires IsGrid(a, rows, cols) && IsGrid(b, rows, cols)
    requires forall i, j :: 0 <= i < rows && 0 <= j < cols ==> a[i][j] == b[i][j]
    ensures a == b
  {
    forall i | 0 <= i < rows ensures a[i] == b[i] {
      assert |a[i]| == |b[i]|;
    }
  }

  /** What the mirror shows after the scroll has been reported and accepted and the stored damage re-read. */
  ghost function Flushed(mirror: Grid, buf: Grid, rows: nat, cols: nat, rect: Rect, downward: int, rightward: int, d: Rect): Grid
    requires IsGrid(mirror, rows, cols) && IsGrid(buf, rows, cols) && rect.Within(rows, cols) && OneAxis(downward, rightward)
  {
    var m := Reported(mirror, buf, rows, cols, rect, downward, rightward);
    ReportedGrid(mirror, buf, rows, cols, rect, downward, rightward);
    if d.startRow == -1 then m else Reread(m, buf, d)
  }

  /** The buffer after a scroll. */
  ghost function AfterScroll(buf: Grid, rows: nat, cols: nat, rect: Rect, downward: int, rightward: int, erased: Row): (b: Grid)
    requires IsGrid(buf, rows, cols) && |erased| == rows && rect.Within(rows, cols)
    ensures Scrolled(buf, b, rows, cols, rect, downward, rightward, erased)
  {
    seq(rows, i requires 0 <= i < rows =>
      seq(cols, j requires 0 <= j < cols => ScrolledCell(buf, rows, cols, rect, downward, rightward, erased, i, j)))
  }

  /**
   A scroll for which StaysRight fails leaves the mirror wrong on some screen: a client that has right all but the damaged
   cells and the pending scroll moves the cells it is told to, re-reads the damage, and still does not show the screen.  Such
   a screen is made here for any damage, any pending scroll and any new one that fail the condition.
   */
  lemma ScrollLeavesWrong(rows: nat, cols: nat, p: Pending, d: Rect, rect: Rect, downward: int, rightward: int, erased: Row)
    returns (mirror: Grid, buf: Grid)
    requires rect.Within(rows, cols) && d.startRow >= -1 && |erased| == rows && (p.PendingScroll? ==> p.rect == rect)
    requires var q := Add(p, rect, downward, rightward); OneAxis(q.downward, q.rightward)
    requires !StaysRight(p, d, rect, downward, rightward)
    ensures IsGrid(mirror, rows, cols) && IsGrid(buf, rows, cols) && Synced(buf, mirror, d, p, true, {})
    ensures var after, q := AfterScroll(buf, rows, cols, rect, downward, rightward, erased), Add(p, rect, downward, rightward);
            Flushed(mirror, after, rows, cols, rect, q.downward, q.rightward, AdjustDamage(d, rect, downward, rightward)) != after
  {
    hide AdjustDamage, StaysRight, Flushed, AfterScroll, Painted;
    var q, d' := Add(p, rect, downward, rightward), AdjustDamage(d, rect, downward, rightward);
    StaysRightIs(p, d, rect, downward, rightward);
    var i, j :| Copied(q, i, j) && !CellStaysRight(p, d, d', rect, downward, rightward, i, j);
    var i', j' := i + downward, j + rightward;
    var stale := if erased[i] == Letter(0) then Letter(1) else Letter(0);
    var changed := if rect.Has(i', j') && !Damaged(d, i', j') then rect else d;
    mirror, buf := Painted(rows, cols, Rect(-1, 0, 0, 0), stale, Letter(2)), Painted(rows, cols, changed, stale, Letter(2));
    PaintedSynced(rows, cols, p, d, changed, stale, Letter(2));
    ShowsStale(mirror, buf, rows, cols, rect, downward, rightward, q.downward, q.rightward, erased, d', i, j);
  }

  const PLAIN_PEN := ScreenPen(0, 0, PLAIN, false, false, 0)

  function Letter(n: nat): Cell { Cell([0x41 + n], PLAIN_PEN) }

  /** A screen on which only the cells of `d` are written. */
  ghost function Painted(rows: nat, cols: nat, d: Rect, stale: Cell, written: Cell): (g: Grid)
    ensures IsGrid(g, rows, cols)
    ensures forall i, j :: 0 <= i < rows && 0 <= j < cols ==> g[i][j] == if Damaged(d, i, j) then written else stale
  {
    seq(rows, i requires 0 <= i < rows => seq(cols, j requires 0 <= j < cols => if Damaged(d, i, j) then written else stale))
  }

  lemma PaintedSynced(rows: nat, cols: nat, p: Pending, d: Rect, changed: Rect, stale: Cell, written: Cell)
    requires changed == d || (p.PendingScroll? && p.rect == changed && !Nonzero(p.downward, p.rightward))
    ensures Synced(Painted(rows, cols, changed, stale, written), Painted(rows, cols, Rect(-1, 0, 0, 0), stale, written), d, p, true, {})
  {
  }

  /** A cell the client has copied stale, and does not re-read, stays wrong. */
  lemma ShowsStale(mirror: Grid, buf: Grid, rows: nat, cols: nat, rect: Rect, downward: int, rightward: int, netDown: int, netRight: int,
                   erased: Row, d': Rect, i: int, j: int)
    requires IsGrid(mirror, rows, cols) && IsGrid(buf, rows, cols) && |erased| == rows
    requires rect.Within(rows, cols) && OneAxis(netDown, netRight) && Nonzero(netDown, netRight)
    requires rect.Has(i, j) && rect.Has(i + netDown, j + netRight) && !Damaged(d', i, j)
    requires mirror[i + netDown][j + netRight] != ScrolledCell(buf, rows, cols, rect, downward, rightward, erased, i, j)
    ensures var after := AfterScroll(buf, rows, cols, rect, downward, rightward, erased);
            Flushed(mirror, after, rows, cols, rect, netDown, netRight, d') != after
  {
    hide Reported, ScrolledCell;
    var after := AfterScroll(buf, rows, cols, rect, downward, rightward, erased);
    ReportedAt(mirror, after, rows, cols, rect, netDown, netRight, i, j);
    assert Flushed(mirror, after, rows, cols, rect, netDown, netRight, d')[i][j] != after[i][j];
  }

  /**
   Outside VTERM_DAMAGE_SCROLL the stored damage is emitted after the buffer has been scrolled and before the client is told to
   move cells.  Damaged cells that the client then copies are moved twice: for any damage, scroll and screen size where there
   is such a cell, here is a screen that the client, right before the scroll, no longer shows after it.
   */
  lemma DamageIsMovedTwice(rows: nat, cols: nat, d: Rect, rect: Rect, downward: int, rightward: int, erased: Row) returns (buf: Grid)
    requires rect.Within(rows, cols) && d.startRow >= 0 && OneAxis(downward, rightward) && Nonzero(downward, rightward)
    requires |erased| == rows && forall i :: 0 <= i < rows ==> IsBlank(erased[i])
    requires !IsEmpty(DamagedTargets(d, rect, downward, rightward))
    ensures IsGrid(buf, rows, cols)
    ensures var after := AfterScroll(buf, rows, cols, rect, downward, rightward, erased);
            Reported(Reread(buf, after, d), after, rows, cols, rect, downward, rightward) != after
  {
    hide Reported, AfterScroll, Painted;
    var t := DamagedTargets(d, rect, downward, rightward);
    var i, j := t.startRow, t.startCol;
    var i', j' := i + downward, j + rightward;
    assert t.Has(i, j);
    buf := Painted(rows, cols, Rect(i', i' + 1, j', j' + 1), Cell([], PLAIN_PEN), Letter(0));
    var after := AfterScroll(buf, rows, cols, rect, downward, rightward, erased);
    assert after[i][j] == buf[i'][j'];
    assert after[i'][j'] != buf[i'][j'];
    ReportedAt(Reread(buf, after, d), after, rows, cols, rect, downward, rightward, i, j);
  }

  /** Damage moved past the bottom is an empty rectangle below the screen, and expanding it later makes damage that reaches there. */
  lemma DamageLeavesTheScreen(d: Rect, rect: Rect, downward: int, more: Rect, rows: nat, cols: nat)
    requires rect.Within(rows, cols) && Contains(rect, d) && !IsEmpty(d) && more.Within(rows, cols)
    requires d.startRow - downward > rows
    ensures var d' := AdjustDamage(d, rect, downward, 0);
            IsEmpty(d') && Expand(d', more).endRow == d.startRow - downward && !Expand(d', more).Within(rows, cols)
  {
  }
}
