/** Rectangles of cells (src/libvterm/src/rect.h) and what vterm_scroll_rect does with them. */
module Rects {
  /** Half open in both directions. */
  datatype Rect = Rect(startRow: int, endRow: int, startCol: int, endCol: int) {
    predicate Has(i: int, j: int) {
      startRow <= i < endRow && startCol <= j < endCol
    }

    predicate Within(rows: nat, cols: nat) {
      0 <= startRow <= endRow <= rows && 0 <= startCol <= endCol <= cols
    }

    ghost function Cells(): set<(int, int)> {
      set i, j | startRow <= i < endRow && startCol <= j < endCol :: (i, j)
    }
  }

  datatype Pos = Pos(row: int, col: int)

  function Min(a: int, b: int): int { if a < b then a else b }
  function Max(a: int, b: int): int { if a < b then b else a }
  function Abs(a: int): int { if a < 0 then -a else a }

  /** rect_expand */
  function Expand(dst: Rect, src: Rect): (r: Rect)
    ensures forall i, j :: dst.Has(i, j) || src.Has(i, j) ==> r.Has(i, j)
  {
    Rect(Min(dst.startRow, src.startRow), Max(dst.endRow, src.endRow),
         Min(dst.startCol, src.startCol), Max(dst.endCol, src.endCol))
  }

  /** And no more rows or columns than it has to. */
  lemma ExpandIsLeast(dst: Rect, src: Rect, r: Rect)
    requires r.startRow <= dst.startRow && r.startRow <= src.startRow && dst.endRow <= r.endRow && src.endRow <= r.endRow
    requires r.startCol <= dst.startCol && r.startCol <= src.startCol && dst.endCol <= r.endCol && src.endCol <= r.endCol
    ensures Contains(r, Expand(dst, src)) && Contains(Expand(dst, src), dst) && Contains(Expand(dst, src), src)
  {
  }

  /** rect_clip */
  function Clip(dst: Rect, bounds: Rect): (r: Rect)
    ensures forall i, j :: r.Has(i, j) <==> dst.Has(i, j) && bounds.Has(i, j)
    ensures bounds.startRow <= r.startRow <= r.endRow && bounds.startCol <= r.startCol <= r.endCol
  {
    var startRow, startCol := Max(dst.startRow, bounds.startRow), Max(dst.startCol, bounds.startCol);
    Rect(startRow, Max(Min(dst.endRow, bounds.endRow), startRow), startCol, Max(Min(dst.endCol, bounds.endCol), startCol))
  }

  /** rect_contains */
  predicate Contains(big: Rect, small: Rect) {
    && big.startRow <= small.startRow && big.startCol <= small.startCol
    && small.endRow <= big.endRow && small.endCol <= big.endCol
  }

  /** rect_intersects; rectangles that only touch count as intersecting. */
  predicate Intersects(a: Rect, b: Rect)
  {
    && a.startRow <= b.endRow && b.startRow <= a.endRow
    && a.startCol <= b.endCol && b.startCol <= a.endCol
  }

  /** For rectangles that have cells it is to share a cell, or to touch along an edge or at a corner. */
  lemma IntersectsIfTouching(a: Rect, b: Rect)
    requires a.startRow < a.endRow && a.startCol < a.endCol && b.startRow < b.endRow && b.startCol < b.endCol
    ensures Intersects(a, b) <==>
            exists i, j :: a.Has(i, j) && exists k, l :: b.Has(k, l) && Abs(i - k) <= 1 && Abs(j - l) <= 1
  {
    if Intersects(a, b) {
      var i, k := Clamped(b.startRow, a.startRow, a.endRow - 1), Clamped(a.startRow, b.startRow, b.endRow - 1);
      var j, l := Clamped(b.startCol, a.startCol, a.endCol - 1), Clamped(a.startCol, b.startCol, b.endCol - 1);
      assert a.Has(i, j) && b.Has(k, l) && Abs(i - k) <= 1 && Abs(j - l) <= 1;
    }
  }

  function Clamped(v: int, low: int, high: int): int { if v < low then low else if v > high then high else v }

  lemma IntersectsIfShared(a: Rect, b: Rect, i: int, j: int)
    requires a.Has(i, j) && b.Has(i, j)
    ensures Intersects(a, b)
  {
  }

  /** vterm_rect_move */
  function Shift(r: Rect, rows: int, cols: int): Rect {
    Rect(r.startRow + rows, r.endRow + rows, r.startCol + cols, r.endCol + cols)
  }

  /** What vterm_scroll_rect asks of its callbacks: erase everything, or move `src` onto `dest` and erase a strip. */
  datatype Plan = EraseAll | MoveAndErase(dest: Rect, src: Rect, erased: Rect)

  function PlanScroll(rect: Rect, downward: int, rightward: int): Plan {
    if Abs(downward) >= rect.endRow - rect.startRow || Abs(rightward) >= rect.endCol - rect.startCol then EraseAll
    else
      var leftward, upward := Max(-rightward, 0), Max(-downward, 0);
      var right, down := Max(rightward, 0), Max(downward, 0);
      var dest := Rect(rect.startRow + upward, rect.endRow - down, rect.startCol + leftward, rect.endCol - right);
      var src := Rect(rect.startRow + down, rect.endRow - upward, rect.startCol + right, rect.endCol - leftward);
      var startRow := if downward > 0 then rect.endRow - downward else rect.startRow;
      var endRow := if downward < 0 then rect.startRow - downward else rect.endRow;
      var startCol := if rightward > 0 then rect.endCol - rightward else rect.startCol;
      var endCol := if rightward < 0 then rect.startCol - rightward else rect.endCol;
      MoveAndErase(dest, src, Rect(startRow, endRow, startCol, endCol))
  }

  /** Every scroll the state layer asks for moves along one axis. */
  predicate OneAxis(downward: int, rightward: int) { downward == 0 || rightward == 0 }

  /** Along one axis the two parts of the plan make up the whole rectangle, whatever the distance. */
  lemma PlanCovers(rect: Rect, downward: int, rightward: int, i: int, j: int)
    requires OneAxis(downward, rightward)
    ensures var inside := rect.Has(i, j) && rect.Has(i + downward, j + rightward);
            match PlanScroll(rect, downward, rightward)
            case EraseAll => !inside
            case MoveAndErase(dest, src, erased) =>
              && (dest.Has(i, j) <==> inside)
              && (src.Has(i + downward, j + rightward) <==> inside)
              && (erased.Has(i, j) <==> rect.Has(i, j) && (!inside || (downward == 0 && rightward == 0)))
  {
  }

  lemma PlanShape(rect: Rect, downward: int, rightward: int, rows: nat, cols: nat)
    requires OneAxis(downward, rightward) && rect.Within(rows, cols) && PlanScroll(rect, downward, rightward).MoveAndErase?
    ensures var p := PlanScroll(rect, downward, rightward);
            && p.dest.Within(rows, cols) && p.src.Within(rows, cols) && p.erased.Within(rows, cols)
            && p.src.startRow == p.dest.startRow + downward && p.src.endRow == p.dest.endRow + downward
            && p.src.startCol == p.dest.startCol + rightward && p.src.endCol == p.dest.endCol + rightward
            && p.dest.startRow < p.dest.endRow && p.dest.startCol < p.dest.endCol
  {
  }
}
