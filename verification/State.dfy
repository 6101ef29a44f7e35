/**
 The state layer of src/libvterm/src/state.c: cursor, margins, tab stops and line attributes under text,
 controls, escapes and CSI functions, on a terminal of fixed size.

 What it asks of the screen layer is kept as a list of requests.
 */
module StateLayer {
  import opened Bytes
  import opened ControlSequences
  import Cells
  import opened Rects

  datatype Line = Line(doublewidth: bool, doubleheight: nat, continuation: bool)

  const PLAIN := Line(false, 0, false)

  datatype Request =
    | PutGlyph(chars: seq<nat>, width: int, at: Pos)
    | ScrollRect(rect: Rect, downward: int, rightward: int)
    | EraseRect(rect: Rect, selective: bool)

  predicate Inside(p: Pos, rows: nat, cols: nat) { 0 <= p.row < rows && 0 <= p.col < cols }

  predicate Bounded(r: Rect, rows: nat, cols: nat) {
    0 <= r.startRow && r.endRow <= rows && 0 <= r.startCol && r.endCol <= cols
  }

  /** All the cells of a glyph are in the screen; one of no width, or of less, still takes its own. */
  predicate GlyphFits(width: int, at: Pos, rows: nat, cols: nat) {
    Inside(at, rows, cols) && at.col + Max(width, 1) <= cols
  }

  /** A request that asks for nothing outside the screen. */
  predicate Proper(q: Request, rows: nat, cols: nat) {
    match q
    case PutGlyph(_, width, at) => GlyphFits(width, at, rows, cols)
    case ScrollRect(rect, _, _) => Bounded(rect, rows, cols)
    case EraseRect(rect, _) => Bounded(rect, rows, cols)
  }

  /** The text in a list of requests. */
  function GlyphText(asked: seq<Request>): seq<nat> {
    if asked == [] then []
    else
      var last := asked[|asked| - 1];
      GlyphText(asked[..|asked| - 1]) + if last.PutGlyph? then last.chars else []
  }

  lemma GlyphTextSnoc(asked: seq<Request>, q: Request)
    ensures GlyphText(asked + [q]) == GlyphText(asked) + if q.PutGlyph? then q.chars else []
  {
    assert (asked + [q])[..|asked|] == asked;
  }

  /** A code point and the combining characters after it. */
  function RunLength(combining: nat -> bool, points: seq<nat>): (n: nat)
    requires points != []
    ensures 1 <= n <= |points|
  {
    if |points| > 1 && combining(points[1]) then 1 + RunLength(combining, points[1..]) else 1
  }

  /** What is drawn of a text: of each glyph no more than a cell holds. */
  function Drawn(combining: nat -> bool, points: seq<nat>): seq<nat> {
    if points == [] then []
    else
      var n := RunLength(combining, points);
      points[..Min(n, Cells.MAX_CHARS_PER_CELL)] + Drawn(combining, points[n..])
  }

  function WidthOf(width: nat -> int, points: seq<nat>): int {
    if points == [] then 0 else WidthOf(width, points[..|points| - 1]) + width(points[|points| - 1])
  }

  /** Every glyph of the text has a width that a row has room for. */
  predicate Ordinary(width: nat -> int, combining: nat -> bool, cols: nat, points: seq<nat>) {
    points == [] ||
    var n := RunLength(combining, points);
    0 <= WidthOf(width, points[..Min(n, Cells.MAX_CHARS_PER_CELL)]) <= cols && Ordinary(width, combining, cols, points[n..])
  }

  function LastGlyph(combining: nat -> bool, points: seq<nat>): seq<nat>
    requires points != []
  {
    var n := RunLength(combining, points);
    if n == |points| then points[..Min(n, Cells.MAX_CHARS_PER_CELL)] else LastGlyph(combining, points[n..])
  }

  /** No line is double-width. */
  ghost predicate AllSingle(lines: seq<Line>) { forall r :: 0 <= r < |lines| ==> !lines[r].doublewidth }

  lemma RunIs(combining: nat -> bool, points: seq<nat>, n: nat)
    requires 1 <= n <= |points| && (forall k :: 1 <= k < n ==> combining(points[k])) && (n < |points| ==> !combining(points[n]))
    ensures RunLength(combining, points) == n
  {
    if n > 1 {
      RunIs(combining, points[1..], n - 1);
    }
  }

  /** Some request from the `from`-th on erases the cell. */
  ghost predicate Erases(asked: seq<Request>, from: nat, i: int, j: int) {
    exists k :: from <= k < |asked| && asked[k].EraseRect? && asked[k].rect.Has(i, j)
  }

  /** The cells that ED erases, with the cursor at `p`: from it on, up to it, or all. */
  predicate InErasure(which: int, p: Pos, i: int, j: int) {
    if which == CSI_ARG_MISSING || which == 0 then i > p.row || (i == p.row && j >= p.col)
    else if which == 1 then i < p.row || (i == p.row && j <= p.col)
    else which == 2
  }

  /** What ED leaves of a line's attributes: those erased are single, and continue nothing, but for the line on top. */
  function LineAfterErasure(was: Line, r: nat, which: int, p: Pos, cols: nat): Line {
    if which == CSI_ARG_MISSING || which == 0 then (if r > p.row then Line(false, 0, false) else was)
    else if which == 1 then
      if r < p.row then Line(false, 0, r == 0 && was.continuation)
      else if (r == p.row && r > 0) || (r == p.row + 1 && p.col + 1 == cols) then was.(continuation := false)
      else was
    else if which == 2 then Line(false, 0, r == 0 && was.continuation)
    else was
  }

  /** In reading order: from the cursor on, up to the cursor, all, or for anything else nothing. */
  lemma ErasureInOrder(which: int, p: Pos, i: int, j: int, cols: nat)
    requires 0 <= j < cols && 0 <= p.col < cols
    ensures InErasure(which, p, i, j) <==>
            ((which == 0 || which == 0x7fff_ffff) && i * cols + j >= p.row * cols + p.col) || (which == 1 && i * cols + j <= p.row * cols + p.col) || which == 2
    ensures InLineErasure(which, p.col, cols, j) <==> ((which == 0 || which == 0x7fff_ffff) && j >= p.col) || (which == 1 && j <= p.col) || which == 2
  {
    if i < p.row {
      LessRows(i, p.row, cols);
    } else if i > p.row {
      LessRows(p.row, i, cols);
    }
  }

  /**
   A line stops continuing the one above exactly if the last cell of that one is erased; it is made single exactly if it is
   erased, on the cursor's line only by an erasure of the whole screen.
   */
  lemma LinesFollowErasure(was: Line, r: nat, which: int, p: Pos, cols: nat)
    requires 0 <= p.row && 0 <= p.col < cols
    ensures var a := LineAfterErasure(was, r, which, p, cols);
            && (r > 0 ==> a.continuation == (was.continuation && !InErasure(which, p, r - 1, cols - 1)))
            && (r == 0 ==> a.continuation == was.continuation)
            && (if (r != p.row || which == 2) && InErasure(which, p, r, 0) then !a.doublewidth && a.doubleheight == 0
                else a.doublewidth == was.doublewidth && a.doubleheight == was.doubleheight)
  {
  }

  lemma LessRows(a: int, b: int, cols: nat)
    requires a < b
    ensures a * cols + cols <= b * cols
  {
    assert b * cols == a * cols + (b - a) * cols && (b - a) * cols == cols + (b - a - 1) * cols;
  }

  /** The columns that EL erases of a row that is `width` wide. */
  predicate InLineErasure(which: int, col: int, width: int, j: int) {
    if which == CSI_ARG_MISSING || which == 0 then col <= j < width
    else if which == 1 then 0 <= j <= col
    else which == 2 && 0 <= j < width
  }

  /** The `n` glyphs that REP draws, side by side from `at` on. */
  function Repeated(chars: seq<nat>, glyphWidth: int, at: Pos, n: nat): seq<Request> {
    if n == 0 then []
    else Repeated(chars, glyphWidth, at, n - 1) + [PutGlyph(chars, glyphWidth, at.(col := at.col + (n - 1) * glyphWidth))]
  }

  /** The k-th of them. */
  lemma {:induction false} RepeatedAt(chars: seq<nat>, glyphWidth: int, at: Pos, n: nat, k: nat)
    requires k < n
    ensures |Repeated(chars, glyphWidth, at, n)| == n && Repeated(chars, glyphWidth, at, n)[k] == PutGlyph(chars, glyphWidth, Pos(at.row, at.col + k * glyphWidth))
  {
    if n > 1 {
      RepeatedAt(chars, glyphWidth, at, n - 1, if k < n - 1 then k else 0);
    } else {
      assert Repeated(chars, glyphWidth, at, 0) == [];
    }
  }

  lemma NoneRepeated(chars: seq<nat>, glyphWidth: int, at: Pos, asked: seq<Request>)
    ensures asked + Repeated(chars, glyphWidth, at, 0) == asked
  {
  }

  lemma OneRepeatedMore(chars: seq<nat>, glyphWidth: int, at: Pos, n: nat, asked: seq<Request>)
    ensures asked + Repeated(chars, glyphWidth, at, n + 1) ==
            asked + Repeated(chars, glyphWidth, at, n) + [PutGlyph(chars, glyphWidth, at.(col := at.col + n * glyphWidth))]
  {
  }

  /** They are in the screen exactly if the last one is. */
  lemma {:induction false} RepeatedProper(asked: seq<Request>, chars: seq<nat>, glyphWidth: int, at: Pos, n: nat, rows: nat, cols: nat)
    requires Inside(at, rows, cols) && (n > 0 ==> glyphWidth >= 1)
    ensures AllProper(asked + Repeated(chars, glyphWidth, at, n), rows, cols) <==>
            AllProper(asked, rows, cols) && (n == 0 || at.col + n * glyphWidth <= cols)
  {
    hide AllProper, Repeated;
    if n == 0 {
      NoneRepeated(chars, glyphWidth, at, asked);
    } else {
      RepeatedProper(asked, chars, glyphWidth, at, n - 1, rows, cols);
      OneRepeatedMore(chars, glyphWidth, at, n - 1, asked);
      ProperSnoc(asked + Repeated(chars, glyphWidth, at, n - 1), PutGlyph(chars, glyphWidth, at.(col := at.col + (n - 1) * glyphWidth)), rows, cols);
      OneTimeMore(n, glyphWidth);
    }
  }

  lemma OneTimeMore(n: nat, w: int)
    requires n > 0 && w >= 1
    ensures n * w == (n - 1) * w + w && (n - 1) * w >= 0
  {
  }

  /** The least number of times that fills the room. */
  lemma TimesIs(room: int, w: int, n: nat)
    requires n > 0 ==> w >= 1 && (n - 1) * w < room
    requires n * w >= room && (w < 1 ==> n == 0)
    ensures n == if room <= 0 || w < 1 then 0 else (room + w - 1) / w
  {
    if room > 0 && w >= 1 {
      var q, r := (room + w - 1) / w, (room + w - 1) % w;
      assert room + w - 1 == q * w + r;
      OneTimeMore(n, w);
      if n < q {
        LessTimes(n, q, w);
      } else if n > q {
        LessTimes(q, n, w);
      }
    } else if n > 0 {
      OneTimeMore(n, w);
    }
  }

  lemma LessTimes(a: nat, b: nat, w: nat)
    requires a < b
    ensures a * w + w <= b * w
  {
    MulGrows(a + 1, b, w);
    assert (a + 1) * w == a * w + w;
  }

  lemma MulGrows(a: nat, b: nat, w: nat)
    requires a <= b
    ensures a * w <= b * w
  {
  }

  lemma ErasesNone(asked: seq<Request>)
    ensures forall i, j :: !Erases(asked, |asked|, i, j)
  {
  }

  lemma ErasesSnoc(asked: seq<Request>, from: nat, rect: Rect, selective: bool, i: int, j: int)
    requires from <= |asked|
    ensures Erases(asked + [EraseRect(rect, selective)], from, i, j) <==> Erases(asked, from, i, j) || rect.Has(i, j)
  {
    var more := asked + [EraseRect(rect, selective)];
    if Erases(asked, from, i, j) {
      var k :| from <= k < |asked| && asked[k].EraseRect? && asked[k].rect.Has(i, j);
      assert more[k] == asked[k];
    }
    if rect.Has(i, j) {
      assert more[|asked|].rect.Has(i, j);
    }
  }

  predicate AllProper(asked: seq<Request>, rows: nat, cols: nat) {
    forall i :: 0 <= i < |asked| ==> Proper(asked[i], rows, cols)
  }

  lemma ProperSnoc(asked: seq<Request>, q: Request, rows: nat, cols: nat)
    ensures AllProper(asked + [q], rows, cols) <==> AllProper(asked, rows, cols) && Proper(q, rows, cols)
  {
    var more := asked + [q];
    assert more[|asked|] == q && forall i :: 0 <= i < |asked| ==> more[i] == asked[i];
  }

  /** -1 for a bottom or right margin means the edge of the screen. */
  datatype Margins = Margins(top: int, bottom: int, left: int, right: int) {
    function Bottom(rows: nat): int { if bottom > -1 then bottom else rows }

    predicate Good(rows: nat, cols: nat) {
      && 0 <= top < Bottom(rows) <= rows && -1 <= bottom
      && 0 <= left <= cols && -1 <= right <= cols && (right > -1 ==> left < right)
    }
  }

  const OPEN := Margins(0, -1, 0, -1)

  function Bound(v: int, low: int, high: int): int { Min(Max(v, low), high) }

  /** CSI_ARG_OR and CSI_ARG_COUNT. */
  function Or(args: seq<Arg>, i: nat, default: int): int {
    if i >= |args| || args[i].value == CSI_ARG_MISSING then default else args[i].value
  }

  function Count(args: seq<Arg>): int {
    if args == [] || args[0].value == CSI_ARG_MISSING || args[0].value == 0 then 1 else args[0].value
  }

  /** What text is drawn under, and what it changes. */
  datatype Frame = Frame(rows: nat, cols: nat, region: Rect, autowrap: bool, insertMode: bool)
  datatype Drawing = Drawing(pos: Pos, atPhantom: bool, lines: seq<Line>, asked: seq<Request>)

  function WidthOn(f: Frame, d: Drawing): int {
    if 0 <= d.pos.row < |d.lines| && d.lines[d.pos.row].doublewidth then f.cols / 2 else f.cols
  }

  /** Room for a glyph that is so wide: on the next line, if it does not fit or the cursor is past the last column. */
  ghost function Wrapped(f: Frame, d: Drawing, glyphWidth: int): Drawing {
    if !d.atPhantom && d.pos.col + glyphWidth <= WidthOn(f, d) then d
    else
      var scrolls := d.pos.row == f.region.endRow - 1;
      var row := if !scrolls && d.pos.row < f.rows - 1 then d.pos.row + 1 else d.pos.row;
      var lines := if scrolls then LinesAfter(d.lines, f.region, f.cols, 1, 0) else d.lines;
      Drawing(Pos(row, 0), false, if 0 <= row < |lines| then lines[row := lines[row].(continuation := true)] else lines,
              d.asked + if scrolls then [ScrollRect(f.region, 1, 0)] else [])
  }

  /** In insert mode the rest of the row moves over by one column. */
  function Inserted(f: Frame, d: Drawing): Drawing {
    var rect := Rect(d.pos.row, d.pos.row + 1, d.pos.col, WidthOn(f, d));
    if f.insertMode then d.(asked := d.asked + [ScrollRect(rect, 0, Cut(-1, rect.endCol - rect.startCol))]) else d
  }

  /** One glyph. */
  ghost function Glyph(f: Frame, d: Drawing, chars: seq<nat>, glyphWidth: int): Drawing {
    var at := Inserted(f, Wrapped(f, d, glyphWidth));
    at.(asked := at.asked + [PutGlyph(chars, glyphWidth, at.pos)],
        pos := at.pos.(col := Advance(at.pos.col, glyphWidth, WidthOn(f, at))),
        atPhantom := f.autowrap && at.pos.col + glyphWidth >= WidthOn(f, at))
  }

  /** A glyph that fits behind the cursor is put there, after room has been made for it in insert mode. */
  lemma GlyphFollows(f: Frame, d: Drawing, chars: seq<nat>, w: int)
    requires 0 <= d.pos.row < |d.lines| && !d.atPhantom
    ensures var width := if d.lines[d.pos.row].doublewidth then f.cols / 2 else f.cols;
            var at, g := d.pos, Glyph(f, d, chars, w);
            at.col + w <= width ==>
              && g == Drawing(Pos(at.row, if at.col + w == width then at.col else at.col + w), f.autowrap && at.col + w == width, d.lines, g.asked)
              && (!f.insertMode ==> g.asked == d.asked + [PutGlyph(chars, w, at)])
              && (f.insertMode && at.col < width ==>
                    g.asked == d.asked + [ScrollRect(Rect(at.row, at.row + 1, at.col, width), 0, -1)] + [PutGlyph(chars, w, at)])
  {
  }

  /** One that does not, or that comes after the last column was filled, begins the next line, which then continues this one. */
  lemma GlyphWraps(f: Frame, d: Drawing, chars: seq<nat>, w: int)
    requires 0 <= d.pos.row < |d.lines| == f.rows && 0 <= f.region.startRow < f.region.endRow <= f.rows && !f.insertMode
    ensures var width := if d.lines[d.pos.row].doublewidth then f.cols / 2 else f.cols;
            var row, g := d.pos.row, Glyph(f, d, chars, w);
            d.atPhantom || d.pos.col + w > width ==>
              && (row != f.region.endRow - 1 && row < f.rows - 1 ==>
                    && g.lines == d.lines[row + 1 := d.lines[row + 1].(continuation := true)]
                    && g.asked == d.asked + [PutGlyph(chars, w, Pos(row + 1, 0))]
                    && g.pos.row == row + 1)
              && (row != f.region.endRow - 1 && row == f.rows - 1 ==>
                    && g.lines == d.lines[row := d.lines[row].(continuation := true)] && g.asked == d.asked + [PutGlyph(chars, w, Pos(row, 0))]
                    && g.pos.row == row)
              && (row == f.region.endRow - 1 ==>
                    && g.asked == d.asked + [ScrollRect(f.region, 1, 0)] + [PutGlyph(chars, w, Pos(row, 0))] && g.pos.row == row
                    && (f.region.startCol == 0 && f.region.endCol == f.cols ==>
                          g.lines == ScrolledUp(d.lines, f.region.startRow, f.region.endRow)[row := Line(false, 0, true)]))
              && (0 <= w < (if g.lines[g.pos.row].doublewidth then f.cols / 2 else f.cols) ==> g.pos.col == w && !g.atPhantom)
  {
    if f.region.startCol == 0 && f.region.endCol == f.cols {
      LinesAfterOne(d.lines, f.region, f.cols);
    }
    hide LinesAfter, ScrolledUp;
  }

  /** A text, glyph by glyph. */
  ghost function Glyphs(f: Frame, width: nat -> int, combining: nat -> bool, d: Drawing, points: seq<nat>): Drawing
    decreases |points|
  {
    if points == [] then d
    else
      var n := RunLength(combining, points);
      var chars := points[..Min(n, Cells.MAX_CHARS_PER_CELL)];
      Glyphs(f, width, combining, Glyph(f, d, chars, WidthOf(width, chars)), points[n..])
  }

  lemma GlyphsNext(f: Frame, width: nat -> int, combining: nat -> bool, d: Drawing, points: seq<nat>, i: nat, end: nat, next: nat)
    requires i < end <= next <= |points| && end == i + Min(next - i, Cells.MAX_CHARS_PER_CELL)
    requires (forall k :: i < k < next ==> combining(points[k])) && (next < |points| ==> !combining(points[next]))
    ensures Glyphs(f, width, combining, d, points[i..]) ==
            Glyphs(f, width, combining, Glyph(f, d, points[i..end], WidthOf(width, points[i..end])), points[next..])
  {
    hide RunLength, WidthOf, Glyph;
    var rest := points[i..];
    RunIs(combining, rest, next - i);
    assert rest[..end - i] == points[i..end] && rest[next - i..] == points[next..];
  }

  /** How many combining characters a text begins with. */
  function Leading(combining: nat -> bool, points: seq<nat>): (n: nat)
    ensures n <= |points| && (forall k :: 0 <= k < n ==> combining(points[k])) && (n < |points| ==> !combining(points[n]))
  {
    if points != [] && combining(points[0]) then 1 + Leading(combining, points[1..]) else 0
  }

  lemma LeadingIs(combining: nat -> bool, points: seq<nat>)
    ensures Leading(combining, points) == 0 <==> !(points != [] && combining(points[0]))
  {
  }

  lemma LeadingLast(combining: nat -> bool, points: seq<nat>, n: nat)
    requires n <= |points| && (forall k :: 0 <= k < n ==> combining(points[k])) && (n < |points| ==> !combining(points[n]))
    ensures Leading(combining, points) == n
  {
  }

  lemma NothingMore(f: Frame, width: nat -> int, combining: nat -> bool, d: Drawing, points: seq<nat>)
    ensures Glyphs(f, width, combining, d, points[|points|..]) == d
  {
  }

  class VTermState {
    const rows: nat
    const cols: nat
    /** Column width and combining class of a code point. */
    const width: nat -> int
    const combining: nat -> bool
    /** Whether the client's setlineinfo and settermprop callbacks agree. */
    const takesLines: bool
    const takesProps: bool
    /** Whether the client clears its scrollback when asked. */
    const clears: bool

    var pos: Pos
    var atPhantom: bool
    var saved: Pos
    var margins: Margins
    var originMode: bool
    var autowrap: bool
    var insertMode: bool
    var newlineMode: bool
    var leftright: bool

    const tabstops: array<bool>
    const primary: array<Line>
    const alternate: array<Line>
    var lineinfo: array<Line>

    var combineChars: seq<nat>
    var combineWidth: int
    var combinePos: Pos

    var asked: seq<Request>

    /** The arrays have the terminal's size. */
    ghost predicate Shape() reads `lineinfo {
      && rows >= 1 && cols >= 2
      && tabstops.Length == cols && primary.Length == rows && alternate.Length == rows && primary != alternate
      && (lineinfo == primary || lineinfo == alternate)
    }

    /** The scroll region keeps a row. */
    ghost predicate Framed() reads this {
      Shape() && margins.Good(rows, cols)
    }

    /** And the last glyph and every request so far are in the screen. */
    ghost predicate Sound() reads this {
      Framed() && GlyphFits(combineWidth, combinePos, rows, cols) && AllProper(asked, rows, cols)
    }

    /** And the cursor and the saved cursor are in the screen. */
    ghost predicate Valid() reads this {
      Sound() && Inside(pos, rows, cols) && Inside(saved, rows, cols)
    }

    ghost function Here(): Drawing reads `pos, `atPhantom, `lineinfo, lineinfo, `asked { Drawing(pos, atPhantom, lineinfo[..], asked) }

    function Under(): Frame reads `margins, `leftright, `autowrap, `insertMode {
      Frame(rows, cols, Rect(margins.top, Bottom(), Left(), Right()), autowrap, insertMode)
    }

    function Bottom(): int reads `margins { margins.Bottom(rows) }
    function Left(): int reads `margins, `leftright { if leftright then margins.left else 0 }
    function Right(): int reads `margins, `leftright { if leftright && margins.right > -1 then margins.right else cols }

    function RowWidth(row: int): int
      requires 0 <= row < lineinfo.Length
      reads `lineinfo, lineinfo
    {
      if lineinfo[row].doublewidth then cols / 2 else cols
    }

    constructor (rows: nat, cols: nat, width: nat -> int, combining: nat -> bool, takesLines: bool, takesProps: bool, clears: bool)
      requires rows >= 1 && cols >= 2
      ensures Valid() && this.rows == rows && this.cols == cols && this.width == width && this.combining == combining
      ensures pos == Pos(0, 0) && saved == Pos(0, 0) && margins == OPEN && asked == [] && AllSingle(lineinfo[..]) && !originMode && !leftright
      ensures tabstops[..] == seq(cols, c => c % 8 == 0) && autowrap && !insertMode && !newlineMode && !atPhantom
      ensures fresh(tabstops) && fresh(primary) && fresh(alternate) && lineinfo == primary
    {
      this.rows, this.cols, this.width, this.combining := rows, cols, width, combining;
      this.takesLines, this.takesProps, this.clears := takesLines, takesProps, clears;
      pos, atPhantom, saved, margins := Pos(0, 0), false, Pos(0, 0), OPEN;
      originMode, autowrap, insertMode, newlineMode, leftright := false, true, false, false, false;
      tabstops := new bool[cols](i => i % 8 == 0);
      var p := new Line[rows](_ => PLAIN);
      primary := p;
      alternate := new Line[rows](_ => PLAIN);
      lineinfo := p;
      combineChars, combineWidth, combinePos := [], 0, Pos(0, 0);
      asked := [];
    }

    method Ask(q: Request)
      modifies `asked
      ensures asked == old(asked) + [q]
      ensures GlyphText(asked) == old(GlyphText(asked)) + if q.PutGlyph? then q.chars else []
      ensures AllProper(asked, rows, cols) <==> old(AllProper(asked, rows, cols)) && Proper(q, rows, cols)
    {
      GlyphTextSnoc(asked, q);
      ProperSnoc(asked, q, rows, cols);
      asked := asked + [q];
    }

    /** The attributes of full lines move with a vertical scroll, and the lines it uncovers are plain. */
    method ScrollLines(startRow: int, endRow: int, downward: int)
      requires Shape() && 0 <= startRow <= endRow <= rows && Abs(downward) <= endRow - startRow
      modifies lineinfo
      ensures forall r :: 0 <= r < rows && !(startRow <= r < endRow) ==> lineinfo[r] == old(lineinfo[r])
      ensures forall r :: startRow <= r < endRow ==>
                lineinfo[r] == if startRow <= r + downward < endRow then old(lineinfo[r + downward]) else PLAIN
    {
      if downward > 0 {
        forall r | startRow <= r < endRow - downward {
          lineinfo[r] := lineinfo[r + downward];
        }
        PlainLines(endRow - downward, endRow);
      } else {
        forall r | startRow - downward <= r < endRow {
          lineinfo[r] := lineinfo[r + downward];
        }
        PlainLines(startRow, startRow - downward);
      }
    }

    method PlainLines(from: int, to: int)
      requires 0 <= from <= to <= lineinfo.Length
      modifies lineinfo
      ensures forall r :: 0 <= r < lineinfo.Length ==> lineinfo[r] == if from <= r < to then PLAIN else old(lineinfo[r])
    {
      for r := from to to
        invariant forall k :: 0 <= k < lineinfo.Length ==> lineinfo[k] == if from <= k < r then PLAIN else old(lineinfo[k])
      {
        lineinfo[r] := PLAIN;
      }
    }

    /** scroll: the distance is cut to the size of the rectangle. */
    method Scroll(rect: Rect, downward: int, rightward: int)
      requires Valid() && Bounded(rect, rows, cols) && rect.startRow <= rect.endRow
      modifies `asked, lineinfo
      ensures Valid()
      ensures GlyphText(asked) == old(GlyphText(asked))
      ensures lineinfo[..] == LinesAfter(old(lineinfo[..]), rect, cols, downward, rightward)
      ensures asked == old(asked) +
                if downward == 0 && rightward == 0 then []
                else [ScrollRect(rect, Cut(downward, rect.endRow - rect.startRow), Cut(rightward, rect.endCol - rect.startCol))]
    {
      hide AllProper, GlyphText;
      if downward == 0 && rightward == 0 {
        return;
      }
      var down, right := Cut(downward, rect.endRow - rect.startRow), Cut(rightward, rect.endCol - rect.startCol);
      if rect.startCol == 0 && rect.endCol == cols && right == 0 {
        ScrollLines(rect.startRow, rect.endRow, down);
      }
      Ask(ScrollRect(rect, down, right));
    }

    /** erase: a line whose end goes is not continued on the next. */
    method Erase(rect: Rect, selective: bool)
      requires Sound() && Bounded(rect, rows, cols)
      modifies `asked, lineinfo
      ensures Sound() && asked == old(asked) + [EraseRect(rect, selective)]
      ensures forall r :: 0 <= r < rows ==>
                lineinfo[r] == if rect.endCol == cols && rect.startRow < r <= rect.endRow then old(lineinfo[r]).(continuation := false) else old(lineinfo[r])
    {
      if rect.endCol == cols {
        var r := rect.startRow + 1;
        while r < rect.endRow + 1 && r < rows
          invariant rect.startRow + 1 <= r && asked == old(asked)
          invariant r <= Max(rect.startRow + 1, Min(rect.endRow + 1, rows))
          invariant forall k :: 0 <= k < rows ==>
                      lineinfo[k] == if rect.startRow < k < r then old(lineinfo[k]).(continuation := false) else old(lineinfo[k])
        {
          lineinfo[r] := lineinfo[r].(continuation := false);
          r := r + 1;
        }
      }
      Ask(EraseRect(rect, selective));
    }

    /** set_lineinfo: the client may refuse, unless it is not asked. */
    method SetLine(row: nat, force: bool, doublewidth: bool, doubleheight: nat)
      requires Shape() && row < rows
      modifies lineinfo
      ensures forall r :: 0 <= r < rows && r != row ==> lineinfo[r] == old(lineinfo[r])
      ensures lineinfo[row] == if takesLines || force then Line(doublewidth, doubleheight, old(lineinfo[row]).continuation) else old(lineinfo[row])
    {
      if takesLines || force {
        lineinfo[row] := Line(doublewidth, doubleheight, lineinfo[row].continuation);
      }
    }

    /** The lines from `from` to `to` are not double any more. */
    method SetLines(from: int, to: int)
      requires Shape() && 0 <= from && to <= rows
      modifies lineinfo
      ensures forall r :: 0 <= r < rows ==> lineinfo[r] == if from <= r < to then Line(false, 0, old(lineinfo[r]).continuation) else old(lineinfo[r])
    {
      var r := from;
      while r < to
        invariant from <= r && (r <= to || r == from)
        invariant forall k :: 0 <= k < rows ==>
                    lineinfo[k] == if from <= k < r then Line(false, 0, old(lineinfo[k]).continuation) else old(lineinfo[k])
      {
        SetLine(r, true, false, 0);
        r := r + 1;
      }
    }

    /** linefeed: at the bottom of the scroll region it scrolls the region. */
    method Linefeed()
      requires Valid()
      modifies `pos, `asked, lineinfo
      ensures Valid() && pos.col == old(pos.col) && GlyphText(asked) == old(GlyphText(asked))
      ensures pos.row == if old(pos.row) != Bottom() - 1 && old(pos.row) < rows - 1 then old(pos.row) + 1 else old(pos.row)
      ensures asked == old(asked) +
                if old(pos.row) == Bottom() - 1 then [ScrollRect(Rect(margins.top, Bottom(), Left(), Right()), 1, 0)] else []
      ensures lineinfo[..] == if old(pos.row) == Bottom() - 1
                              then LinesAfter(old(lineinfo[..]), Rect(margins.top, Bottom(), Left(), Right()), cols, 1, 0) else old(lineinfo[..])
    {
      hide AllProper, GlyphText, LinesAfter;
      if pos.row == Bottom() - 1 {
        Scroll(Rect(margins.top, Bottom(), Left(), Right()), 1, 0);
      } else if pos.row < rows - 1 {
        pos := pos.(row := pos.row + 1);
      }
    }

    /** RI: the other way. */
    method ReverseLinefeed()
      requires Valid()
      modifies `pos, `asked, lineinfo
      ensures Valid() && pos.col == old(pos.col) && GlyphText(asked) == old(GlyphText(asked))
      ensures pos.row == if old(pos.row) != margins.top && old(pos.row) > 0 then old(pos.row) - 1 else old(pos.row)
      ensures asked == old(asked) +
                if old(pos.row) == margins.top then [ScrollRect(Rect(margins.top, Bottom(), Left(), Right()), -1, 0)] else []
      ensures lineinfo[..] == if old(pos.row) == margins.top
                              then LinesAfter(old(lineinfo[..]), Rect(margins.top, Bottom(), Left(), Right()), cols, -1, 0) else old(lineinfo[..])
    {
      hide AllProper, GlyphText, LinesAfter;
      if pos.row == margins.top {
        Scroll(Rect(margins.top, Bottom(), Left(), Right()), -1, 0);
      } else if pos.row > 0 {
        pos := pos.(row := pos.row - 1);
      }
    }

    /** What scrolling the region by one does to the lines. */
    lemma LinesRolled()
      requires Framed()
      ensures var region := Rect(margins.top, Bottom(), Left(), Right());
              var full := region.startCol == 0 && region.endCol == cols;
              && LinesAfter(lineinfo[..], region, cols, 1, 0) == (if full then ScrolledUp(lineinfo[..], region.startRow, region.endRow) else lineinfo[..])
              && LinesAfter(lineinfo[..], region, cols, -1, 0) == (if full then ScrolledDown(lineinfo[..], region.startRow, region.endRow) else lineinfo[..])
    {
      if Left() == 0 && Right() == cols {
        LinesAfterOne(lineinfo[..], Rect(margins.top, Bottom(), Left(), Right()), cols);
      }
    }

    predicate InRegion() reads `pos, `margins, `leftright {
      margins.top <= pos.row < Bottom() && Left() <= pos.col < Right()
    }

    /** `to` is `count` stops to the right of `from`, or as far as the row goes. */
    ghost predicate TabbedOn(from: Pos, to: Pos, count: int)
      requires Shape() && Inside(to, rows, cols)
      reads `lineinfo, lineinfo, tabstops
    {
      var passed := Stops(tabstops[..], from.col + 1, to.col + 1);
      && to.row == from.row && from.col <= to.col
      && if passed == count then tabstops[to.col] && to.col < RowWidth(to.row)
         else passed < count && to.col == Max(from.col, RowWidth(to.row) - 1)
    }

    /** Or to the left, or the first column. */
    ghost predicate TabbedBack(from: Pos, to: Pos, count: int)
      requires Shape() && Inside(to, rows, cols)
      reads `lineinfo, tabstops
    {
      var passed := Stops(tabstops[..], to.col, from.col);
      && to.row == from.row && to.col <= from.col
      && if passed == count then tabstops[to.col] else passed < count && to.col == 0
    }

    /** One stop on: none is passed, and the cursor is on one or on the last column of its row, unless it was past that. */
    lemma NextTab(from: Pos)
      requires Shape() && Inside(pos, rows, cols) && Inside(from, rows, cols) && TabbedOn(from, pos, 1)
      ensures pos.row == from.row && from.col <= pos.col && forall c :: from.col < c < pos.col ==> !tabstops[c]
      ensures var last := RowWidth(pos.row) - 1;
              if pos.col == from.col then pos.col >= last else pos.col <= last && (tabstops[pos.col] || pos.col == last)
    {
      forall c | from.col < c < pos.col ensures !tabstops[c] {
        StopsSplit(tabstops[..], from.col + 1, c, pos.col + 1);
        StopsFromLeft(tabstops[..], c, pos.col + 1);
        StopsSplit(tabstops[..], c + 1, pos.col, pos.col + 1);
      }
    }

    /** tab, forward: to the stop that many stops on, or to the edge of the row. */
    method TabForward(count: int)
      requires Valid() && count >= 1
      modifies `pos
      ensures Valid() && TabbedOn(old(pos), pos, count)
    {
      var left := count;
      while left > 0
        invariant Valid() && pos.row == old(pos.row) && 0 <= left <= count && old(pos.col) <= pos.col
        invariant Stops(tabstops[..], old(pos.col) + 1, pos.col + 1) == count - left
        invariant pos.col == old(pos.col) || pos.col < RowWidth(pos.row)
        invariant left == 0 ==> tabstops[pos.col] && pos.col < RowWidth(pos.row)
        decreases cols - pos.col
      {
        if pos.col >= RowWidth(pos.row) - 1 {
          return;
        }
        pos := pos.(col := pos.col + 1);
        if tabstops[pos.col] {
          left := left - 1;
        }
      }
    }

    /** tab, backward: to the stop that many stops back, or to the first column. */
    method TabBackward(count: int)
      requires Valid() && count >= 1
      modifies `pos
      ensures Valid() && TabbedBack(old(pos), pos, count)
    {
      var left := count;
      while left > 0
        invariant Valid() && pos.row == old(pos.row) && 0 <= left <= count && pos.col <= old(pos.col)
        invariant Stops(tabstops[..], pos.col, old(pos.col)) == count - left
        invariant left == 0 ==> tabstops[pos.col]
        decreases pos.col
      {
        if pos.col < 1 {
          return;
        }
        StopsFromLeft(tabstops[..], pos.col - 1, old(pos.col));
        pos := pos.(col := pos.col - 1);
        if tabstops[pos.col] {
          left := left - 1;
        }
      }
    }

    /** updatecursor, as far as this layer goes: a moved cursor is not past the last column any more. */
    method Moved(from: Pos, cancelPhantom: bool)
      modifies `atPhantom
      ensures atPhantom == (old(atPhantom) && !(pos != from && cancelPhantom))
    {
      if pos != from && cancelPhantom {
        atPhantom := false;
      }
    }

    /** Text that does not fit the row goes to the next, which is then its continuation. */
    method WrapFor(glyphWidth: int)
      requires Valid()
      modifies `pos, `atPhantom, `asked, lineinfo
      ensures Valid() && GlyphText(asked) == old(GlyphText(asked)) && Here() == Wrapped(Under(), old(Here()), glyphWidth)
      ensures var wraps := old(atPhantom) || old(pos.col) + glyphWidth > old(RowWidth(pos.row));
              var down := old(pos.row) != Bottom() - 1 && old(pos.row) < rows - 1;
              && pos == (if wraps then Pos(if down then old(pos.row) + 1 else old(pos.row), 0) else old(pos))
              && (wraps ==> lineinfo[pos.row].continuation)
      ensures !atPhantom && lineinfo == old(lineinfo) && (old(AllSingle(lineinfo[..])) ==> AllSingle(lineinfo[..]))
    {
      hide AllProper, GlyphText, LinesAfter;
      if atPhantom || pos.col + glyphWidth > RowWidth(pos.row) {
        SingleAfter(lineinfo[..], Rect(margins.top, Bottom(), Left(), Right()), cols, 1, 0);
        Linefeed();
        pos := pos.(col := 0);
        atPhantom := false;
        lineinfo[pos.row] := lineinfo[pos.row].(continuation := true);
      }
    }

    /**
     One glyph of text: where it goes, and where it leaves the cursor.  It is in the screen exactly when it is no wider
     than that.  One of negative width, which U+0080 to U+009F have, takes the cursor out of the screen exactly when it
     is wider than the room to its left.
     */
    method DrawGlyph(chars: seq<nat>, glyphWidth: int) returns (at: Pos)
      requires Valid()
      modifies `pos, `atPhantom, `asked, lineinfo
      ensures Framed() && (Sound() <==> glyphWidth <= cols) && (Valid() <==> glyphWidth <= cols && at.col + glyphWidth >= 0)
      ensures lineinfo == old(lineinfo) && (old(AllSingle(lineinfo[..])) ==> AllSingle(lineinfo[..]))
      ensures GlyphText(asked) == old(GlyphText(asked)) + chars && Here() == Glyph(Under(), old(Here()), chars, glyphWidth)
      ensures Inside(at, rows, cols) && (GlyphFits(glyphWidth, at, rows, cols) <==> glyphWidth <= cols)
      ensures var wraps := old(atPhantom) || old(pos.col) + glyphWidth > old(RowWidth(pos.row));
              var down := old(pos.row) != Bottom() - 1 && old(pos.row) < rows - 1;
              var ends := at.col + glyphWidth >= RowWidth(at.row);
              && at == (if wraps then Pos(if down then old(pos.row) + 1 else old(pos.row), 0) else old(pos))
              && asked != [] && asked[|asked| - 1] == PutGlyph(chars, glyphWidth, at)
              && pos == at.(col := Advance(at.col, glyphWidth, RowWidth(at.row)))
              && atPhantom == (ends && autowrap)
              && (wraps ==> lineinfo[at.row].continuation)
    {
      hide AllProper, GlyphText, Wrapped, Inserted, LinesAfter, AllSingle;
      WrapFor(glyphWidth);
      Insert();
      at := pos;
      Draw(chars, glyphWidth);
    }

    /** Insert mode makes room for the glyph. */
    method Insert()
      requires Valid()
      modifies `asked, lineinfo
      ensures Valid() && GlyphText(asked) == old(GlyphText(asked)) && Here() == Inserted(Under(), old(Here()))
      ensures lineinfo[..] == old(lineinfo[..])
    {
      hide AllProper, GlyphText;
      if insertMode {
        Scroll(Rect(pos.row, pos.row + 1, pos.col, RowWidth(pos.row)), 0, -1);
      }
    }

    /** The glyph itself, and the cursor after it: on the last column, and past it in autowrap mode, if it ends there. */
    method Draw(chars: seq<nat>, glyphWidth: int)
      requires Valid() && !atPhantom
      modifies `pos, `atPhantom, `asked
      ensures Framed() && (Sound() <==> glyphWidth <= cols - old(pos.col) || glyphWidth <= 1)
      ensures GlyphText(asked) == old(GlyphText(asked)) + chars && asked == old(asked) + [PutGlyph(chars, glyphWidth, old(pos))]
      ensures pos == old(pos).(col := Advance(old(pos.col), glyphWidth, old(RowWidth(pos.row))))
      ensures atPhantom == (autowrap && old(pos.col) + glyphWidth >= old(RowWidth(pos.row)))
    {
      hide AllProper, GlyphText;
      Ask(PutGlyph(chars, glyphWidth, pos));
      if pos.col + glyphWidth >= RowWidth(pos.row) {
        if autowrap {
          atPhantom := true;
        }
      } else {
        pos := pos.(col := pos.col + glyphWidth);
      }
    }

    /** A combining character at the start of the text joins the last glyph, if the cursor is still behind it. */
    method Combine(points: seq<nat>) returns (i: nat)
      requires Valid()
      modifies `combineChars, `asked
      ensures Valid() && i <= |points|
      ensures i == if old(Follows()) then Leading(combining, points) else 0
      ensures if i > 0 then
                && combineChars == old(combineChars) + points[..i]
                && asked == old(asked) + [PutGlyph(combineChars, combineWidth, combinePos)]
                && GlyphText(asked) == old(GlyphText(asked)) + combineChars
              else
                combineChars == old(combineChars) && asked == old(asked)
    {
      LeadingIs(combining, points);
      i := 0;
      if points != [] && combining(points[0]) && Follows() {
        while i < |points| && combining(points[i])
          invariant i <= |points| && forall k :: 0 <= k < i ==> combining(points[k])
        {
          i := i + 1;
        }
        LeadingLast(combining, points, i);
        combineChars := combineChars + points[..i];
        Ask(PutGlyph(combineChars, combineWidth, combinePos));
      }
    }

    predicate Follows() reads `pos, `combinePos, `combineWidth {
      pos.row == combinePos.row && pos.col == combinePos.col + combineWidth
    }

    /** The end of the glyph that starts at `start`, and the end of the combining characters after it. */
    method GlyphEnds(points: seq<nat>, start: nat) returns (end: nat, next: nat, glyphWidth: int)
      requires start < |points|
      ensures start < end <= next <= |points| && end <= start + Cells.MAX_CHARS_PER_CELL
      ensures forall k :: start < k < next ==> combining(points[k])
      ensures next < |points| ==> !combining(points[next])
      ensures end == start + Min(next - start, 6)
      ensures glyphWidth == WidthOf(width, points[start..end])
    {
      end := start + 1;
      while end < |points| && end < start + Cells.MAX_CHARS_PER_CELL && combining(points[end])
        invariant start < end <= |points| && end <= start + Cells.MAX_CHARS_PER_CELL
        invariant forall k :: start < k < end ==> combining(points[k])
      {
        end := end + 1;
      }
      glyphWidth := 0;
      for k := start to end
        invariant glyphWidth == WidthOf(width, points[start..k])
      {
        assert points[start..k + 1][..k - start] == points[start..k];
        glyphWidth := glyphWidth + width(points[k]);
      }
      next := end;
      while next < |points| && combining(points[next])
        invariant end <= next <= |points| && forall k :: start < k < next ==> combining(points[k])
      {
        next := next + 1;
      }
    }

    /** A glyph that is wider than the screen, or that goes back past its left edge. */
    predicate Misfits(q: Request) { q.PutGlyph? && (q.width > cols || q.at.col + q.width < 0) }

    /** One round of the loop of on_text. */
    method NextGlyph(points: seq<nat>, i: nat) returns (stays: bool, next: nat)
      requires Valid() && i < |points|
      modifies `pos, `atPhantom, `asked, `combineChars, `combineWidth, `combinePos, lineinfo
      ensures i < next <= |points| && Framed() && (stays <==> Valid())
      ensures !stays ==> asked != [] && Misfits(asked[|asked| - 1])
      ensures Ordinary(width, combining, cols, points[i..]) ==> stays && Ordinary(width, combining, cols, points[next..])
      ensures GlyphText(asked) + Drawn(combining, points[next..]) == old(GlyphText(asked)) + Drawn(combining, points[i..])
      ensures Glyphs(Under(), width, combining, Here(), points[next..]) == Glyphs(Under(), width, combining, old(Here()), points[i..])
      ensures stays && next == |points| ==> asked != [] && asked[|asked| - 1] == PutGlyph(combineChars, combineWidth, combinePos)
      ensures stays ==>
                if next < |points| then LastGlyph(combining, points[next..]) == LastGlyph(combining, points[i..])
                else combineChars == LastGlyph(combining, points[i..]) && combineWidth == WidthOf(width, combineChars)
      ensures lineinfo == old(lineinfo) && (old(AllSingle(lineinfo[..])) ==> AllSingle(lineinfo[..]))
    {
      hide AllProper, Drawn, GlyphText, Ordinary, LastGlyph, WidthOf, AllSingle, GlyphFits, Glyph, Glyphs;
      var end, glyphWidth;
      end, next, glyphWidth := GlyphEnds(points, i);
      var chars := points[i..end];
      GlyphsNext(Under(), width, combining, Here(), points, i, end, next);
      DrawnNext(combining, points, i, end, next, GlyphText(asked));
      GlyphNext(width, combining, cols, points, i, end, next);
      var at := DrawGlyph(chars, glyphWidth);
      stays := glyphWidth <= cols && at.col + glyphWidth >= 0;
      if stays && next == |points| {
        combineChars, combineWidth, combinePos := chars, glyphWidth, at;
      }
    }

    /**
     on_text, on the code points that came of the bytes: combining characters at the start join the last glyph if the cursor
     is still behind it, and the rest is drawn glyph by glyph, but for combining characters that no longer fit their cell.  It
     stays in the screen unless a glyph is wider than that or goes back past its left edge; what is drawn after such a glyph
     is left open.
     */
    method OnText(points: seq<nat>) returns (stays: bool, drawn: nat, ghost told: Step)
      requires Valid()
      modifies `pos, `atPhantom, `asked, `combineChars, `combineWidth, `combinePos, lineinfo
      ensures told == Step.Text(points)
      ensures Framed() && (stays <==> Valid()) && drawn <= |points| && (stays ==> drawn == |points|)
      ensures !stays ==> asked != [] && Misfits(asked[|asked| - 1])
      ensures Ordinary(width, combining, cols, points) ==> stays
      ensures var i := if old(Follows()) then Leading(combining, points) else 0;
              var joined := old(combineChars) + points[..i];
              var first := if i == 0 then old(Here()) else old(Here()).(asked := old(asked) + [PutGlyph(joined, old(combineWidth), old(combinePos))]);
              && Glyphs(Under(), width, combining, Here(), points[drawn..]) == Glyphs(Under(), width, combining, first, points[i..])
              && (stays ==> Here() == Glyphs(Under(), width, combining, first, points[i..]))
              && (stays && i == |points| ==> combineChars == joined && combineWidth == old(combineWidth) && combinePos == old(combinePos))
              && (stays && i < |points| ==>
                    && combineChars == LastGlyph(combining, points[i..]) && combineWidth == WidthOf(width, combineChars)
                    && asked != [] && asked[|asked| - 1] == PutGlyph(combineChars, combineWidth, combinePos))
              && (i == 0 ==> GlyphText(asked) + Drawn(combining, points[drawn..]) == old(GlyphText(asked)) + Drawn(combining, points))
      ensures lineinfo == old(lineinfo) && (old(AllSingle(lineinfo[..])) ==> AllSingle(lineinfo[..]))
    {
      hide AllProper, Drawn, GlyphText, Ordinary, LastGlyph, WidthOf, AllSingle, GlyphFits, Misfits, Framed, Glyphs, Follows, Leading;
      told := Step.Text(points);
      var from := pos;
      drawn := Combine(points);
      OrdinaryFrom(width, combining, cols, points, drawn);
      assert drawn == 0 ==> points[drawn..] == points;
      stays, drawn := DrawFrom(points, drawn);
      Moved(from, false);
      NothingMore(Under(), width, combining, Here(), points);
    }

    /** The loop of on_text. */
    method DrawFrom(points: seq<nat>, i: nat) returns (stays: bool, drawn: nat)
      requires Valid() && i <= |points|
      modifies `pos, `atPhantom, `asked, `combineChars, `combineWidth, `combinePos, lineinfo
      ensures Framed() && (stays <==> Valid()) && drawn <= |points| && (stays ==> drawn == |points|)
      ensures !stays ==> asked != [] && Misfits(asked[|asked| - 1])
      ensures Ordinary(width, combining, cols, points[i..]) ==> stays
      ensures Glyphs(Under(), width, combining, Here(), points[drawn..]) == Glyphs(Under(), width, combining, old(Here()), points[i..])
      ensures GlyphText(asked) + Drawn(combining, points[drawn..]) == old(GlyphText(asked)) + Drawn(combining, points[i..])
      ensures stays && i == |points| ==> combineChars == old(combineChars) && combineWidth == old(combineWidth) && combinePos == old(combinePos)
      ensures stays && i < |points| ==>
                && combineChars == LastGlyph(combining, points[i..]) && combineWidth == WidthOf(width, combineChars)
                && asked != [] && asked[|asked| - 1] == PutGlyph(combineChars, combineWidth, combinePos)
      ensures lineinfo == old(lineinfo) && (old(AllSingle(lineinfo[..])) ==> AllSingle(lineinfo[..]))
    {
      hide AllProper, Drawn, GlyphText, Ordinary, LastGlyph, WidthOf, AllSingle, GlyphFits, Misfits, Framed, Glyphs, Follows, Leading;
      stays, drawn := true, i;
      while drawn < |points|
        invariant Valid() && i <= drawn <= |points| && lineinfo == old(lineinfo)
        invariant GlyphText(asked) + Drawn(combining, points[drawn..]) == old(GlyphText(asked)) + Drawn(combining, points[i..])
        invariant Glyphs(Under(), width, combining, Here(), points[drawn..]) == Glyphs(Under(), width, combining, old(Here()), points[i..])
        invariant Ordinary(width, combining, cols, points[i..]) ==> Ordinary(width, combining, cols, points[drawn..])
        invariant drawn < |points| ==> LastGlyph(combining, points[drawn..]) == LastGlyph(combining, points[i..])
        invariant i < drawn == |points| ==>
                    && combineChars == LastGlyph(combining, points[i..]) && combineWidth == WidthOf(width, combineChars)
                    && asked != [] && asked[|asked| - 1] == PutGlyph(combineChars, combineWidth, combinePos)
        invariant i == drawn == |points| ==> combineChars == old(combineChars) && combineWidth == old(combineWidth) && combinePos == old(combinePos)
        invariant old(AllSingle(lineinfo[..])) ==> AllSingle(lineinfo[..])
      {
        stays, drawn := NextGlyph(points, drawn);
        if !stays {
          return;
        }
      }
    }

    /** HTS. */
    method SetTab()
      requires Valid()
      modifies tabstops
      ensures Valid() && tabstops[..] == old(tabstops[..])[pos.col := true]
    {
      tabstops[pos.col] := true;
    }

    /** BS, HT and CR. */
    method MoveInRow(control: byte)
      requires Valid() && control in {0x08, 0x09, 0x0d}
      modifies `pos, `atPhantom
      ensures Valid() && pos.row == old(pos.row) && atPhantom == (old(atPhantom) && pos == old(pos))
      ensures control == 0x08 ==> pos.col == if old(pos.col) > 0 then old(pos.col) - 1 else 0
      ensures control == 0x0d ==> pos.col == 0
      ensures control == 0x09 ==> TabbedOn(old(pos), pos, 1)
      ensures control == 0x09 ==> old(pos.col) <= pos.col && forall c :: old(pos.col) < c < pos.col ==> !tabstops[c]
      ensures control == 0x09 ==>
                var last := (if lineinfo[pos.row].doublewidth then cols / 2 else cols) - 1;
                if pos.col == old(pos.col) then pos.col >= last else pos.col <= last && (tabstops[pos.col] || pos.col == last)
    {
      hide AllProper, GlyphText, TabbedOn, Stops;
      var from := pos;
      match control {
        case 0x08 =>
          if pos.col > 0 {
            pos := pos.(col := pos.col - 1);
          }
        case 0x09 =>
          TabForward(1);
          NextTab(from);
        case _ =>
          pos := pos.(col := 0);
      }
      Moved(from, true);
    }

    /** LF, VT, FF, IND, NEL and RI. */
    method FeedLine(control: byte)
      requires Valid() && control in {0x0a, 0x0b, 0x0c, 0x84, 0x85, 0x8d}
      modifies `pos, `atPhantom, `asked, lineinfo
      ensures Valid() && atPhantom == (old(atPhantom) && pos == old(pos))
      ensures pos ==
              (var bottom := if margins.bottom == -1 then rows else margins.bottom;
               var down := if old(pos.row) != bottom - 1 && old(pos.row) < rows - 1 then old(pos.row) + 1 else old(pos.row);
               if control == 0x8d then Pos(if old(pos.row) != margins.top && old(pos.row) > 0 then old(pos.row) - 1 else old(pos.row), old(pos.col))
               else Pos(down, if control == 0x85 || (newlineMode && control != 0x84) then 0 else old(pos.col)))
      ensures var region := Rect(margins.top, if margins.bottom == -1 then rows else margins.bottom,
                                 if leftright then margins.left else 0, if leftright && margins.right != -1 then margins.right else cols);
              var full := region.startCol == 0 && region.endCol == cols;
              if control != 0x8d && old(pos.row) == region.endRow - 1 then
                && asked == old(asked) + [ScrollRect(region, 1, 0)]
                && lineinfo[..] == if full then ScrolledUp(old(lineinfo[..]), region.startRow, region.endRow) else old(lineinfo[..])
              else if control == 0x8d && old(pos.row) == region.startRow then
                && asked == old(asked) + [ScrollRect(region, -1, 0)]
                && lineinfo[..] == if full then ScrolledDown(old(lineinfo[..]), region.startRow, region.endRow) else old(lineinfo[..])
              else asked == old(asked) && lineinfo[..] == old(lineinfo[..])
    {
      hide AllProper, GlyphText, LinesAfter, ScrolledUp, ScrolledDown;
      LinesRolled();
      var from := pos;
      if control == 0x8d {
        ReverseLinefeed();
      } else {
        Linefeed();
        if control == 0x85 || (newlineMode && control != 0x84) {
          pos := pos.(col := 0);
        }
      }
      Moved(from, true);
    }

    /**
     on_control; false for a control it does not know.  A control that moves the cursor takes it off the phantom column; LF,
     VT, FF, IND, NEL and RI scroll the region by one line at its edge and are the only ones to ask for anything.
     */
    method OnControl(control: byte) returns (known: bool, ghost told: Step)
      requires Valid()
      modifies `pos, `atPhantom, `asked, lineinfo, tabstops
      ensures Valid() && told == Step.Control(control)
      ensures known <==> control in {0x07, 0x08, 0x09, 0x0a, 0x0b, 0x0c, 0x0d, 0x0e, 0x0f, 0x84, 0x85, 0x88, 0x8d, 0x8e, 0x8f}
      ensures atPhantom == (old(atPhantom) && pos == old(pos))
      ensures tabstops[..] == if control == 0x88 then old(tabstops[..])[old(pos.col) := true] else old(tabstops[..])
      ensures control == 0x09 ==> TabbedOn(old(pos), pos, 1)
      ensures control == 0x09 ==> pos.row == old(pos.row) && old(pos.col) <= pos.col && forall c :: old(pos.col) < c < pos.col ==> !tabstops[c]
      ensures control == 0x09 ==>
                var last := (if lineinfo[pos.row].doublewidth then cols / 2 else cols) - 1;
                if pos.col == old(pos.col) then pos.col >= last else pos.col <= last && (tabstops[pos.col] || pos.col == last)
      ensures pos ==
              (var bottom := if margins.bottom == -1 then rows else margins.bottom;
               var down := if old(pos.row) != bottom - 1 && old(pos.row) < rows - 1 then old(pos.row) + 1 else old(pos.row);
               match control
               case 0x08 => Pos(old(pos.row), if old(pos.col) > 0 then old(pos.col) - 1 else 0)
               case 0x09 => pos
               case 0x0a | 0x0b | 0x0c => Pos(down, if newlineMode then 0 else old(pos.col))
               case 0x0d => Pos(old(pos.row), 0)
               case 0x84 => Pos(down, old(pos.col))
               case 0x85 => Pos(down, 0)
               case 0x8d => Pos(if old(pos.row) != margins.top && old(pos.row) > 0 then old(pos.row) - 1 else old(pos.row), old(pos.col))
               case _ => old(pos))
      ensures var region := Rect(margins.top, if margins.bottom == -1 then rows else margins.bottom,
                                 if leftright then margins.left else 0, if leftright && margins.right != -1 then margins.right else cols);
              var full := region.startCol == 0 && region.endCol == cols;
              if control in {0x0a, 0x0b, 0x0c, 0x84, 0x85} && old(pos.row) == region.endRow - 1 then
                && asked == old(asked) + [ScrollRect(region, 1, 0)]
                && lineinfo[..] == if full then ScrolledUp(old(lineinfo[..]), region.startRow, region.endRow) else old(lineinfo[..])
              else if control == 0x8d && old(pos.row) == region.startRow then
                && asked == old(asked) + [ScrollRect(region, -1, 0)]
                && lineinfo[..] == if full then ScrolledDown(old(lineinfo[..]), region.startRow, region.endRow) else old(lineinfo[..])
              else asked == old(asked) && lineinfo[..] == old(lineinfo[..])
    {
      hide AllProper, GlyphText, TabbedOn, Stops, ScrolledUp, ScrolledDown;
      told := Step.Control(control);
      known := true;
      match control {
        case 0x08 | 0x09 | 0x0d =>
          MoveInRow(control);
        case 0x0a | 0x0b | 0x0c | 0x84 | 0x85 | 0x8d =>
          FeedLine(control);
        case 0x88 =>
          SetTab();
        case 0x07 | 0x0e | 0x0f | 0x8e | 0x8f =>
        case _ =>
          known := false;
      }
    }

    /** DECSC and DECRC. */
    method SaveCursor(save: bool)
      requires Sound()
      modifies `pos, `saved, `atPhantom
      ensures Sound()
      ensures save ==> saved == pos == old(pos)
      ensures !save ==> pos == saved == old(saved)
      ensures atPhantom == (old(atPhantom) && pos == old(pos)) && Place() == SavedOr(old(Place()), save)
    {
      if save {
        saved := pos;
      } else {
        var from := pos;
        pos := saved;
        Moved(from, true);
      }
    }

    /** The switch to the other buffer's line attributes, if the client agrees; the alternate screen is erased. */
    method SetAltScreen(on: bool)
      requires Sound()
      modifies `lineinfo, `asked, alternate
      ensures Sound()
      ensures takesProps ==> lineinfo == (if on then alternate else primary)
      ensures !takesProps ==> lineinfo == old(lineinfo)
      ensures asked == old(asked) + if takesProps && on then [EraseRect(Rect(0, rows, 0, cols), false)] else []
      ensures forall r :: 0 <= r < rows ==>
                alternate[r] == if takesProps && on && r > 0 then old(alternate[r]).(continuation := false) else old(alternate[r])
      ensures Place() == Switched(old(Place()), This(), on)
    {
      hide AllProper, GlyphText;
      if takesProps {
        lineinfo := if on then alternate else primary;
        if on {
          Erase(Rect(0, rows, 0, cols), false);
          assert alternate[..] == Uncontinued(old(alternate[..]));
        }
      }
    }

    method ResetTabs()
      modifies tabstops
      ensures tabstops[..] == seq(tabstops.Length, c => c % 8 == 0)
    {
      forall c | 0 <= c < tabstops.Length {
        tabstops[c] := c % 8 == 0;
      }
    }

    /** vterm_state_reset: no margins, the modes as at the start, stops every eight columns, single lines; a hard one erases too. */
    method Reset(hard: bool)
      requires Sound()
      modifies `margins, `autowrap, `insertMode, `newlineMode, `originMode, `leftright, `pos, `atPhantom, `asked, tabstops, lineinfo
      ensures Sound() && margins == Margins(0, -1, 0, -1) && autowrap && !insertMode && !newlineMode && !originMode && !leftright
      ensures tabstops[..] == seq(cols, c => c % 8 == 0)
      ensures forall r :: 0 <= r < rows ==> lineinfo[r] == Line(false, 0, old(lineinfo[r]).continuation && !(hard && r > 0))
      ensures pos == (if hard then Pos(0, 0) else old(pos)) && atPhantom == (!hard && old(atPhantom))
      ensures asked == old(asked) + if hard then [EraseRect(Rect(0, rows, 0, cols), false)] else []
    {
      hide AllProper, GlyphText;
      margins := OPEN;
      autowrap, insertMode, newlineMode, originMode, leftright := true, false, false, false, false;
      ResetTabs();
      SetLines(0, rows);
      if hard {
        pos, atPhantom := Pos(0, 0), false;
        Erase(Rect(0, rows, 0, cols), false);
      }
    }

    /** DECALN: the whole screen in E, in reading order. */
    method FillWithE()
      requires Sound()
      modifies `asked
      ensures Sound() && asked == old(asked) + FullOfE(lineinfo[..], cols, rows)
    {
      hide AllProper, GlyphText, FullOfE, RowOfE;
      NoneOfE(lineinfo[..], cols, asked);
      for row := 0 to rows
        invariant Sound() && asked == old(asked) + FullOfE(lineinfo[..], cols, row)
      {
        ghost var before := asked;
        NoneInRow(row, asked);
        for col := 0 to RowWidth(row)
          invariant Sound() && asked == before + RowOfE(row, col)
        {
          OneMoreE(row, col, before);
          Ask(PutGlyph([0x45], 1, Pos(row, col)));
        }
        OneMoreRow(lineinfo[..], cols, row, old(asked));
      }
    }

    /** on_escape, where it touches the state kept here. */
    method OnEscape(sequence: seq<byte>) returns (ghost told: Step)
      requires Sound() && Inside(pos, rows, cols) && sequence != []
      modifies this, primary, alternate, tabstops
      ensures Sound() && (old(Inside(saved, rows, cols)) ==> Valid()) && told == Step.Escape(sequence)
      ensures sequence[0] == 0x37 ==> saved == pos == old(pos)
      ensures sequence[0] == 0x38 ==> pos == saved == old(saved)
      ensures sequence[0] == 0x63 ==> pos == Pos(0, 0) && margins == OPEN && saved == old(saved)
      ensures sequence[0] !in {0x37, 0x38, 0x63} ==> pos == old(pos) && saved == old(saved)
      ensures atPhantom == (old(atPhantom) && sequence[0] != 0x63 && pos == old(pos))
      ensures sequence[0] != 0x63 ==> margins == old(margins) && Modes() == old(Modes()) && tabstops[..] == old(tabstops[..])
      ensures sequence[0] == 0x63 ==> margins == Margins(0, -1, 0, -1) && Modes() == (false, true, false, false, false)
      ensures sequence[0] == 0x63 ==> tabstops[..] == seq(cols, c => c % 8 == 0)
      ensures lineinfo == old(lineinfo) && (if lineinfo == primary then alternate[..] == old(alternate[..]) else primary[..] == old(primary[..]))
      ensures combineChars == old(combineChars) && combineWidth == old(combineWidth) && combinePos == old(combinePos)
      ensures forall r :: 0 <= r < rows ==>
                lineinfo[r] ==
                if sequence[0] == 0x63 then Line(false, 0, r == 0 && old(lineinfo[r]).continuation)
                else if r == old(pos.row) && |sequence| == 2 && sequence[0] == 0x23 && !leftright && takesLines then
                  var was := old(lineinfo[r]);
                  match sequence[1]
                  case 0x33 => Line(true, 1, was.continuation)
                  case 0x34 => Line(true, 2, was.continuation)
                  case 0x35 => Line(false, 0, was.continuation)
                  case 0x36 => Line(true, 0, was.continuation)
                  case _ => was
                else old(lineinfo[r])
      ensures asked == old(asked) +
                if sequence == [0x23, 0x38] then FullOfE(old(lineinfo[..]), cols, rows)
                else if sequence[0] == 0x63 then [EraseRect(Rect(0, rows, 0, cols), false)]
                else []
    {
      hide AllProper, GlyphText, FullOfE;
      told := Step.Escape(sequence);
      if sequence[0] == 0x23 && |sequence| == 2 {
        if sequence[1] in {0x33, 0x34, 0x35, 0x36} {
          if !leftright {
            SetLine(pos.row, false, sequence[1] != 0x35, if sequence[1] == 0x33 then 1 else if sequence[1] == 0x34 then 2 else 0);
          }
        } else if sequence[1] == 0x38 {
          FillWithE();
        }
      } else if sequence[0] == 0x37 {
        SaveCursor(true);
      } else if sequence[0] == 0x38 {
        SaveCursor(false);
      } else if sequence[0] == 0x63 {
        Reset(true);
      }
    }

    /** DECOM, autowrap, insert, newline and left-right margins. */
    function Modes(): (bool, bool, bool, bool, bool) reads `originMode, `autowrap, `insertMode, `newlineMode, `leftright {
      (originMode, autowrap, insertMode, newlineMode, leftright)
    }

    /** Where the cursor is brought back to after a CSI function. */
    function Clamped(p: Pos): Pos
      requires lineinfo.Length == rows && rows >= 1
      reads `margins, `leftright, `originMode, `lineinfo, lineinfo
    {
      if originMode then
        Pos(Bound(p.row, margins.top, Bottom() - 1), Bound(p.col, Left(), Right() - 1))
      else
        var row := Bound(p.row, 0, rows - 1);
        Pos(row, Bound(p.col, 0, RowWidth(row) - 1))
    }

    /** The end of on_csi: wherever the function left the cursor, it comes back into the screen. */
    method ClampCursor()
      requires Framed()
      modifies `pos
      ensures Framed() && Inside(pos, rows, cols) && pos == Clamped(old(pos)) && Clamped(pos) == pos
    {
      hide AllProper;
      if originMode {
        ClampTo(margins.top, Bottom() - 1, Left(), Right() - 1);
      } else {
        ClampTo(0, rows - 1, pos.col, pos.col);
        ClampTo(pos.row, pos.row, 0, RowWidth(pos.row) - 1);
      }
    }

    /** LBOUND and UBOUND on both coordinates. */
    method ClampTo(top: int, bottom: int, left: int, right: int)
      modifies `pos
      ensures pos == Pos(Bound(old(pos.row), top, bottom), Bound(old(pos.col), left, right))
    {
      if pos.row < top {
        pos := pos.(row := top);
      }
      if pos.row > bottom {
        pos := pos.(row := bottom);
      }
      if pos.col < left {
        pos := pos.(col := left);
      }
      if pos.col > right {
        pos := pos.(col := right);
      }
    }

    /** The corner that cursor addresses count from. */
    function Origin(): Pos reads `margins, `leftright, `originMode {
      if originMode then Pos(margins.top, Left()) else Pos(0, 0)
    }

    /** CUU, CUD, CUF, CUB, CNL, CPL, CHA, CUP, HPA, HPR, VPA, VPR, HVP, HPB and VPB. */
    method MoveCursor(final: byte, args: seq<Arg>)
      requires Valid() && IsMove(final)
      modifies `pos, `atPhantom
      ensures Sound() && pos == Target(final, args, old(pos), Origin()) && !atPhantom
    {
      match final {
        case 0x41 | 0x6b => pos := pos.(row := pos.row - Count(args));
        case 0x42 | 0x65 => pos := pos.(row := pos.row + Count(args));
        case 0x43 | 0x61 => pos := pos.(col := pos.col + Count(args));
        case 0x44 | 0x6a => pos := pos.(col := pos.col - Count(args));
        case 0x45 => pos := Pos(pos.row + Count(args), 0);
        case 0x46 => pos := Pos(pos.row - Count(args), 0);
        case 0x47 | 0x60 => pos := pos.(col := Or(args, 0, 1) - 1);
        case 0x64 =>
          pos := pos.(row := Or(args, 0, 1) - 1);
          if originMode {
            pos := pos.(row := pos.row + margins.top);
          }
        case _ =>
          pos := Pos(Or(args, 0, 1) - 1, Or(args, 1, 1) - 1);
          if originMode {
            pos := Pos(pos.row + margins.top, pos.col + Left());
          }
      }
      atPhantom := false;
    }

    /** ED and DECSED; false if the client cleared its scrollback, which ends the function at once. */
    method EraseDisplay(which: int, selective: bool) returns (goesOn: bool)
      requires Valid()
      modifies `asked, lineinfo
      ensures Valid() && (goesOn <==> !(which == 3 && clears))
      ensures |asked| >= |old(asked)| && asked[..|old(asked)|] == old(asked)
      ensures forall i, j :: 0 <= i < rows && 0 <= j < cols ==> (Erases(asked, |old(asked)|, i, j) <==> InErasure(which, pos, i, j))
      ensures forall k :: |old(asked)| <= k < |asked| ==> asked[k].EraseRect? && asked[k].selective == selective
      ensures forall r :: 0 <= r < rows ==> lineinfo[r] == LineAfterErasure(old(lineinfo[r]), r, which, pos, cols)
    {
      hide AllProper, GlyphText, Erases;
      goesOn := true;
      ghost var was := asked;
      ErasesNone(was);
      if which == CSI_ARG_MISSING || which == 0 {
        EraseMore(Rect(pos.row, pos.row + 1, pos.col, cols), selective, was);
        SetLines(pos.row + 1, rows);
        if rows > pos.row + 1 {
          EraseMore(Rect(pos.row + 1, rows, 0, cols), selective, was);
        }
      } else if which == 1 {
        SetLines(0, pos.row);
        EraseMore(Rect(0, pos.row, 0, cols), selective, was);
        EraseMore(Rect(pos.row, pos.row + 1, 0, pos.col + 1), selective, was);
      } else if which == 2 {
        SetLines(0, rows);
        EraseMore(Rect(0, rows, 0, cols), selective, was);
      } else if which == 3 {
        goesOn := !clears;
      }
    }

    /** One more rectangle since `was`. */
    method EraseMore(rect: Rect, selective: bool, ghost was: seq<Request>)
      requires Valid() && Bounded(rect, rows, cols) && |was| <= |asked| && asked[..|was|] == was
      requires forall k :: |was| <= k < |asked| ==> asked[k].EraseRect? && asked[k].selective == selective
      modifies `asked, lineinfo
      ensures Valid() && |was| <= |asked| && asked[..|was|] == was
      ensures forall k :: |was| <= k < |asked| ==> asked[k].EraseRect? && asked[k].selective == selective
      ensures forall i, j :: Erases(asked, |was|, i, j) <==> old(Erases(asked, |was|, i, j)) || rect.Has(i, j)
      ensures forall r :: 0 <= r < rows ==>
                lineinfo[r] == if rect.endCol == cols && rect.startRow < r <= rect.endRow then old(lineinfo[r]).(continuation := false) else old(lineinfo[r])
    {
      hide AllProper, GlyphText, Erases;
      ghost var before := asked;
      Erase(rect, selective);
      forall i, j ensures Erases(asked, |was|, i, j) <==> Erases(before, |was|, i, j) || rect.Has(i, j) {
        ErasesSnoc(before, |was|, rect, selective, i, j);
      }
    }

    /** EL and DECSEL. */
    method EraseLine(which: int, selective: bool) returns (known: bool)
      requires Valid()
      modifies `asked, lineinfo
      ensures Valid() && (known <==> which in {CSI_ARG_MISSING, 0, 1, 2})
      ensures |asked| >= |old(asked)| && asked[..|old(asked)|] == old(asked)
      ensures forall i, j :: Erases(asked, |old(asked)|, i, j) <==> i == pos.row && InLineErasure(which, pos.col, old(RowWidth(pos.row)), j)
      ensures forall k :: |old(asked)| <= k < |asked| ==> asked[k].EraseRect? && asked[k].selective == selective
      ensures forall r :: 0 <= r < rows ==>
                lineinfo[r] ==
                if known && r == pos.row + 1 && (if which == 1 then pos.col + 1 else old(RowWidth(pos.row))) == cols
                then old(lineinfo[r]).(continuation := false) else old(lineinfo[r])
    {
      hide AllProper, GlyphText, Erases;
      known := which == CSI_ARG_MISSING || 0 <= which <= 2;
      ErasesNone(asked);
      if known {
        var start := if which == 1 || which == 2 then 0 else pos.col;
        var end := if which == 1 then pos.col + 1 else RowWidth(pos.row);
        if end > start {
          EraseMore(Rect(pos.row, pos.row + 1, start, end), selective, asked);
        }
      }
    }

    /** The rectangle that ICH, DCH, IL, DL, SU, SD, DECIC and DECDC shift: a part of the row, or rows or columns of the region. */
    function ShiftRect(final: byte): Rect
      requires 0 <= pos.row < lineinfo.Length
      reads `pos, `margins, `leftright, `lineinfo, lineinfo
    {
      if final in {0x40, 0x50} then
        Rect(pos.row, pos.row + 1, pos.col, if leftright then Right() else RowWidth(pos.row))
      else
        Rect(if final in {0x4c, 0x4d} then pos.row else margins.top, Bottom(), if final in {0x7d, 0x7e} then pos.col else Left(), Right())
    }

    /** What they ask for: nothing while the cursor is outside the region, but for SU and SD. */
    function ShiftRequests(final: byte, count: int): seq<Request>
      requires 0 <= pos.row < lineinfo.Length
      reads `pos, `margins, `leftright, `lineinfo, lineinfo
    {
      var rect := ShiftRect(final);
      if final !in {0x53, 0x54} && !InRegion() then []
      else [ScrollRect(rect, Cut(ShiftDown(final, count), rect.endRow - rect.startRow), Cut(ShiftRight(final, count), rect.endCol - rect.startCol))]
    }

    /** And the line attributes then. */
    ghost function ShiftLines(final: byte, count: int): seq<Line>
      requires 0 <= pos.row < lineinfo.Length
      reads `pos, `margins, `leftright, `lineinfo, lineinfo
    {
      if final !in {0x53, 0x54} && !InRegion() then lineinfo[..]
      else LinesAfter(lineinfo[..], ShiftRect(final), cols, ShiftDown(final, count), ShiftRight(final, count))
    }

    /** ICH, DCH, IL, DL, SU, SD, DECIC and DECDC. */
    method Shift(final: byte, count: int)
      requires Valid() && IsShift(final) && count >= 1
      modifies `asked, lineinfo
      ensures Valid() && asked == old(asked) + old(ShiftRequests(final, count))
      ensures lineinfo[..] == old(ShiftLines(final, count))
    {
      hide AllProper, GlyphText, LinesAfter, Cut;
      if final == 0x53 {
        Scroll(Rect(margins.top, Bottom(), Left(), Right()), count, 0);
      } else if final == 0x54 {
        Scroll(Rect(margins.top, Bottom(), Left(), Right()), -count, 0);
      } else if InRegion() {
        var end := if leftright then Right() else RowWidth(pos.row);
        match final {
          case 0x40 => Scroll(Rect(pos.row, pos.row + 1, pos.col, end), 0, -count);
          case 0x50 => Scroll(Rect(pos.row, pos.row + 1, pos.col, end), 0, count);
          case 0x4c => Scroll(Rect(pos.row, Bottom(), Left(), Right()), -count, 0);
          case 0x4d => Scroll(Rect(pos.row, Bottom(), Left(), Right()), count, 0);
          case 0x7d => Scroll(Rect(margins.top, Bottom(), pos.col, Right()), 0, -count);
          case _ => Scroll(Rect(margins.top, Bottom(), pos.col, Right()), 0, count);
        }
      }
    }

    /** REP ends exactly when there is nothing to fill or the last glyph takes up room. */
    predicate RepEnds(count: int)
      requires 0 <= pos.row < lineinfo.Length
      reads `pos, `combineWidth, `lineinfo, lineinfo
    {
      combineWidth >= 1 || pos.col >= Min(pos.col + count, RowWidth(pos.row))
    }

    /** How many glyphs REP draws: until the count or the row is filled. */
    function RepTimes(count: int): nat
      requires 0 <= pos.row < lineinfo.Length
      reads `pos, `combineWidth, `lineinfo, lineinfo
    {
      var room := Min(count, RowWidth(pos.row) - pos.col);
      if room <= 0 || combineWidth < 1 then 0 else (room + combineWidth - 1) / combineWidth
    }

    /** The last of them is in the screen. */
    predicate RepFits(count: int)
      requires 0 <= pos.row < lineinfo.Length
      reads `pos, `combineWidth, `lineinfo, lineinfo
    {
      RepTimes(count) == 0 || pos.col + RepTimes(count) * combineWidth <= cols
    }

    method Repeat(count: int) returns (cancelPhantom: bool)
      requires Valid() && RepEnds(count)
      modifies `pos, `atPhantom, `asked
      ensures Framed() && (Sound() <==> old(RepFits(count)))
      ensures var n := old(RepTimes(count));
              && pos == old(pos).(col := old(pos.col) + n * combineWidth)
              && asked == old(asked) + Repeated(combineChars, combineWidth, old(pos), n)
      ensures var target := Min(old(pos.col) + count, RowWidth(pos.row));
              pos.col >= target && (pos.col > old(pos.col) ==> pos.col - combineWidth < target)
      ensures cancelPhantom <==> !(autowrap && pos.col + combineWidth >= RowWidth(pos.row))
      ensures atPhantom == (!cancelPhantom || old(atPhantom))
    {
      hide AllProper, GlyphText, Repeated, GlyphFits;
      ghost var n: nat, was: Pos, far: int := 0, pos, 0;
      var rowWidth := RowWidth(pos.row);
      var col := Min(pos.col + count, rowWidth);
      NoneRepeated(combineChars, combineWidth, pos, asked);
      while pos.col < col
        invariant pos == was.(col := was.col + far) && far == n * combineWidth >= 0
        invariant atPhantom == old(atPhantom) && (n > 0 ==> combineWidth >= 1 && pos.col - combineWidth < col)
        invariant asked == old(asked) + Repeated(combineChars, combineWidth, was, n)
        decreases col - pos.col
      {
        OneRepeatedMore(combineChars, combineWidth, was, n, old(asked));
        Ask(PutGlyph(combineChars, combineWidth, pos));
        pos := pos.(col := pos.col + combineWidth);
        n, far := n + 1, far + combineWidth;
        OneTimeMore(n, combineWidth);
      }
      if n > 0 {
        OneTimeMore(n, combineWidth);
      }
      TimesIs(Min(count, rowWidth - was.col), combineWidth, n);
      RepeatedProper(old(asked), combineChars, combineWidth, was, n, rows, cols);
      cancelPhantom := true;
      if pos.col + combineWidth >= rowWidth && autowrap {
        atPhantom, cancelPhantom := true, false;
      }
    }

    /** The margins are the rows asked for, cut to the screen, or all rows if that leaves none. */
    predicate MarginRows(args: seq<Arg>) reads `margins {
      var first := Max(Or(args, 0, 1) - 1, 0);
      var last := if Or(args, 1, -1) < 0 then rows else Min(Or(args, 1, -1), rows);
      if first < last then margins.top == first && Bottom() == last else margins.top == 0 && Bottom() == rows
    }

    /** The same for columns; with no right margin asked for, the left one may be past the last column. */
    predicate MarginCols(args: seq<Arg>) reads `margins {
      var first, last := Max(Or(args, 0, 1) - 1, 0), Min(Or(args, 1, -1), cols);
      var right := if margins.right > -1 then margins.right else cols;
      if Or(args, 1, -1) < 0 then margins.left == Min(first, cols) && right == cols
      else if first < last then margins.left == first && right == last
      else margins.left == 0 && right == cols
    }

    /** DECSTBM. */
    /** Without arguments, all rows; else those numbered from the first to the second, both included. */
    lemma MarginRowsAre(args: seq<Arg>)
      requires Framed() && MarginRows(args)
      ensures args == [] ==> margins.top == 0 && Bottom() == rows
      ensures |args| == 2 && 1 <= args[0].value < args[1].value <= rows && args[1].value < CSI_ARG_MISSING ==>
                margins.top == args[0].value - 1 && Bottom() == args[1].value
    {
    }

    lemma MarginColsAre(args: seq<Arg>)
      requires Framed() && MarginCols(args)
      ensures args == [] ==> margins.left == 0 && (margins.right == -1 || margins.right == cols)
      ensures |args| == 2 && 1 <= args[0].value < args[1].value < cols && args[1].value < CSI_ARG_MISSING ==>
                margins.left == args[0].value - 1 && margins.right == args[1].value
    {
    }

    method SetVerticalMargins(args: seq<Arg>)
      requires Valid()
      modifies `margins, `pos
      ensures Sound() && pos == Origin()
      ensures MarginRows(args)
      ensures margins.left == old(margins.left) && margins.right == old(margins.right)
    {
      var top := Bound(Or(args, 0, 1) - 1, 0, rows);
      var bottom := Max(Or(args, 1, -1), -1);
      if top == 0 && bottom == rows {
        bottom := -1;
      } else {
        bottom := Min(bottom, rows);
      }
      if (if bottom > -1 then bottom else rows) <= top {
        top, bottom := 0, -1;
      }
      margins := margins.(top := top, bottom := bottom);
      pos := Origin();
    }

    /** DECSLRM. */
    method SetHorizontalMargins(args: seq<Arg>)
      requires Valid()
      modifies `margins, `pos
      ensures Sound() && pos == Origin()
      ensures MarginCols(args)
      ensures margins.left < cols <==> Or(args, 0, 1) <= cols || Or(args, 1, -1) > -1
      ensures margins.top == old(margins.top) && margins.bottom == old(margins.bottom)
    {
      var left := Bound(Or(args, 0, 1) - 1, 0, cols);
      var right := Max(Or(args, 1, -1), -1);
      if left == 0 && right == cols {
        right := -1;
      } else {
        right := Min(right, cols);
      }
      if right > -1 && right <= left {
        left, right := 0, -1;
      }
      margins := margins.(left := left, right := right);
      pos := Origin();
    }

    /** set_mode. */
    method SetMode(num: int, on: bool)
      modifies `insertMode, `newlineMode
      ensures insertMode == (if num == 4 then on else old(insertMode)) && newlineMode == (if num == 20 then on else old(newlineMode))
    {
      if num == 4 {
        insertMode := on;
      } else if num == 20 {
        newlineMode := on;
      }
    }

    /** The part of the state that moves the cursor or saves it under DECSET. */
    ghost function Place(): Placing reads this, primary, alternate {
      Placing(pos, saved, originMode, leftright, atPhantom, autowrap, lineinfo == alternate, primary[..], alternate[..], asked)
    }

    function This(): Terminal reads `margins { Terminal(margins, rows, cols, takesProps) }

    method SetOrigin(on: bool)
      requires Sound()
      modifies `originMode, `pos, `atPhantom
      ensures Sound() && Place() == AfterMode(old(Place()), This(), 6, on)
    {
      hide AllProper;
      var from := pos;
      originMode := on;
      pos := Origin();
      Moved(from, true);
    }

    method SetSides(on: bool)
      requires Sound()
      modifies `leftright, lineinfo
      ensures Sound() && Place() == AfterMode(old(Place()), This(), 69, on)
    {
      hide AllProper;
      leftright := on;
      if on {
        SetLines(0, rows);
      }
      assert primary[..] == if on && lineinfo == primary then Single(old(primary[..])) else old(primary[..]);
      assert alternate[..] == if on && lineinfo == alternate then Single(old(alternate[..])) else old(alternate[..]);
    }

    /** set_dec_mode, where it touches the state kept here.  The cursor is not brought back before all modes are set. */
    method SetDecMode(num: int, on: bool)
      requires Sound()
      modifies this, primary, alternate
      ensures Sound() && margins == old(margins)
      ensures Place() == AfterMode(old(Place()), This(), num, on)
      ensures combineChars == old(combineChars) && combineWidth == old(combineWidth) && combinePos == old(combinePos)
      ensures insertMode == old(insertMode) && newlineMode == old(newlineMode) && tabstops[..] == old(tabstops[..])
    {
      hide AllProper, Switched, SavedOr, Single, Uncontinued;
      match num {
        case 6 => SetOrigin(on);
        case 7 => autowrap := on;
        case 69 => SetSides(on);
        case 1047 => SetAltScreen(on);
        case 1048 => SaveCursor(on);
        case 1049 =>
          SetAltScreen(on);
          SaveCursor(on);
        case _ =>
      }
    }

    method SetDecModes(args: seq<Arg>, on: bool)
      requires Sound()
      modifies this, primary, alternate
      ensures Sound() && margins == old(margins)
      ensures Place() == AfterModes(old(Place()), This(), args, on)
      ensures combineChars == old(combineChars) && combineWidth == old(combineWidth) && combinePos == old(combinePos)
      ensures insertMode == old(insertMode) && newlineMode == old(newlineMode) && tabstops[..] == old(tabstops[..])
    {
      hide AllProper, AfterMode, Place;
      for i := 0 to |args|
        invariant Sound() && margins == old(margins)
        invariant Place() == AfterModes(old(Place()), This(), args[..i], on)
        invariant combineChars == old(combineChars) && combineWidth == old(combineWidth) && combinePos == old(combinePos)
        invariant insertMode == old(insertMode) && newlineMode == old(newlineMode) && tabstops[..] == old(tabstops[..])
      {
        AfterOneMore(old(Place()), This(), args, i, on);
        if args[i].value == CSI_ARG_MISSING {
          NoOtherMode(Place(), This(), CSI_ARG_MISSING, on);
        }
        if args[i].value != CSI_ARG_MISSING {
          SetDecMode(args[i].value, on);
        }
      }
      assert args[..|args|] == args;
    }

    /** DECSET saves the cursor where DECOM has just put it, outside the screen. */
    predicate SavesOutside(leader: seq<byte>, args: seq<Arg>, intermed: seq<byte>, final: byte) reads `margins, `leftright {
      leader == [0x3f] && intermed == [] && final == 0x68 && margins.left == cols && SavesCorner(args, leftright)
    }

    /** TBC. */
    method ClearTabs(which: int) returns (known: bool)
      requires Valid()
      modifies tabstops
      ensures Valid() && (known <==> 0 <= which <= 5)
      ensures tabstops[..] == if which == 0 then old(tabstops[..])[pos.col := false]
                              else if which == 3 || which == 5 then seq(cols, _ => false) else old(tabstops[..])
    {
      known := 0 <= which <= 5;
      if which == 0 {
        tabstops[pos.col] := false;
      } else if which == 3 || which == 5 {
        for col := 0 to cols
          invariant forall k :: 0 <= k < col ==> !tabstops[k]
        {
          tabstops[col] := false;
        }
      }
    }

    /** ED, EL and ECH, and DECSED and DECSEL, which spare protected cells. */
    method EraseCsi(final: byte, args: seq<Arg>, selective: bool) returns (o: Outcome)
      requires Valid() && final in {0x4a, 0x4b, 0x58}
      modifies `asked, lineinfo
      ensures Valid() && |asked| >= |old(asked)| && asked[..|old(asked)|] == old(asked)
      ensures forall k :: |old(asked)| <= k < |asked| ==> asked[k].EraseRect? && asked[k].selective == (selective && final != 0x58)
      ensures final == 0x4a ==> forall i, j :: 0 <= i < rows && 0 <= j < cols ==>
                (Erases(asked, |old(asked)|, i, j) <==> InErasure(Or(args, 0, CSI_ARG_MISSING), pos, i, j))
      ensures final == 0x4a ==> forall r :: 0 <= r < rows ==> lineinfo[r] == LineAfterErasure(old(lineinfo[r]), r, Or(args, 0, CSI_ARG_MISSING), pos, cols)
      ensures final == 0x4a ==> o == if Or(args, 0, CSI_ARG_MISSING) == 3 && clears then Ends else Acts(true)
      ensures final == 0x4b ==> forall i, j ::
                Erases(asked, |old(asked)|, i, j) <==> i == pos.row && InLineErasure(Or(args, 0, CSI_ARG_MISSING), pos.col, old(RowWidth(pos.row)), j)
      ensures final == 0x4b ==> o == if Or(args, 0, 0) in {0, 1, 2} then Acts(true) else Unknown
      ensures final == 0x58 ==>
                o == Acts(true) && asked == old(asked) + [EraseRect(Rect(pos.row, pos.row + 1, pos.col, Min(pos.col + Count(args), old(RowWidth(pos.row)))), false)]
      ensures final != 0x4a ==> forall r :: 0 <= r < rows ==>
                lineinfo[r] ==
                if r == pos.row + 1 && o == Acts(true) && ErasedTo(final, args, pos.col, old(RowWidth(pos.row))) == cols
                then old(lineinfo[r]).(continuation := false) else old(lineinfo[r])
    {
      hide AllProper, GlyphText, Erases, InErasure, InLineErasure, LineAfterErasure;
      o := Acts(true);
      match final {
        case 0x4a =>
          var goesOn := EraseDisplay(Or(args, 0, CSI_ARG_MISSING), selective);
          o := if goesOn then Acts(true) else Ends;
        case 0x4b =>
          var known := EraseLine(Or(args, 0, CSI_ARG_MISSING), selective);
          o := if known then Acts(true) else Unknown;
        case _ => Erase(Rect(pos.row, pos.row + 1, pos.col, Min(pos.col + Count(args), RowWidth(pos.row))), false);
      }
    }

    /** The functions that aim at a place: the movements, CHT, CBT, REP, DECSTBM and DECSLRM. */
    method AimCsi(final: byte, args: seq<Arg>)
      requires Valid() && Aims(final)
      requires final == 0x62 ==> RepEnds(Count(args))
      modifies `pos, `atPhantom, `asked, `margins
      ensures Framed() && Inside(pos, rows, cols) && (Sound() <==> (final == 0x62 ==> old(RepFits(Count(args)))))
      ensures IsMove(final) ==> pos == Clamped(Target(final, args, old(pos), Origin())) && !atPhantom
      ensures final == 0x49 ==> exists c :: 0 <= c < cols && TabbedOn(old(pos), Pos(old(pos.row), c), Count(args)) && pos == Clamped(Pos(old(pos.row), c))
      ensures final == 0x5a ==> exists c :: 0 <= c < cols && TabbedBack(old(pos), Pos(old(pos.row), c), Count(args)) && pos == Clamped(Pos(old(pos.row), c))
      ensures final == 0x62 ==>
                var to := old(pos).(col := old(pos.col) + old(RepTimes(Count(args))) * combineWidth);
                && pos == Clamped(to)
                && atPhantom == ((old(atPhantom) && pos == old(pos)) || (autowrap && to.col + combineWidth >= RowWidth(old(pos.row))))
      ensures final in {0x72, 0x73} ==> pos == Clamped(Origin())
      ensures !IsMove(final) && final != 0x62 ==> atPhantom == (old(atPhantom) && pos == old(pos))
      ensures final == 0x62 ==> asked == old(asked) + Repeated(combineChars, combineWidth, old(pos), old(RepTimes(Count(args))))
      ensures final != 0x62 ==> asked == old(asked)
      ensures if final == 0x72 then MarginRows(args) else margins.top == old(margins.top) && margins.bottom == old(margins.bottom)
      ensures if final == 0x73 then MarginCols(args) else margins.left == old(margins.left) && margins.right == old(margins.right)
    {
      hide AllProper, GlyphText, Stops, MarginRows, MarginCols, TabbedOn, TabbedBack, Repeated, RepTimes, RepFits, Bound, GlyphFits, Target, Clamped;
      var from, cancelPhantom := pos, true;
      match final {
        case 0x49 =>
          TabForward(Count(args));
          assert TabbedOn(from, Pos(from.row, pos.col), Count(args));
        case 0x5a =>
          TabBackward(Count(args));
          assert TabbedBack(from, Pos(from.row, pos.col), Count(args));
        case 0x62 => cancelPhantom := Repeat(Count(args));
        case 0x72 => SetVerticalMargins(args);
        case 0x73 => SetHorizontalMargins(args);
        case _ => MoveCursor(final, args);
      }
      Settle(Acts(cancelPhantom), from);
    }

    /** The other functions without a leader or an intermediate byte. */
    method PlainCsi(final: byte, args: seq<Arg>) returns (known: bool)
      requires Valid() && !Aims(final)
      modifies `pos, `atPhantom, `asked, `insertMode, `newlineMode, lineinfo, tabstops
      ensures Sound() && Inside(pos, rows, cols) && (known <==> PlainOutcome(final, args, clears) != Unknown)
      ensures pos == (if PlainOutcome(final, args, clears).Acts? then Clamped(old(pos)) else old(pos)) && atPhantom == (old(atPhantom) && pos == old(pos))
      ensures Shifts([], [], final) ==> asked == old(asked) + old(ShiftRequests(final, Count(args)))
      ensures final in {0x4a, 0x4b} ==> |asked| >= |old(asked)| && asked[..|old(asked)|] == old(asked)
      ensures final in {0x4a, 0x4b} ==> forall k :: |old(asked)| <= k < |asked| ==> asked[k].EraseRect? && !asked[k].selective
      ensures final == 0x4a ==> forall i, j :: 0 <= i < rows && 0 <= j < cols ==>
                (Erases(asked, |old(asked)|, i, j) <==> InErasure(Or(args, 0, CSI_ARG_MISSING), old(pos), i, j))
      ensures final == 0x4b ==> forall i, j ::
                Erases(asked, |old(asked)|, i, j) <==>
                i == old(pos.row) && InLineErasure(Or(args, 0, CSI_ARG_MISSING), old(pos.col), old(RowWidth(pos.row)), j)
      ensures final == 0x58 ==>
                asked == old(asked) + [EraseRect(Rect(old(pos.row), old(pos.row) + 1, old(pos.col), Min(old(pos.col) + Count(args), old(RowWidth(pos.row)))), false)]
      ensures !Asks([], [], final) ==> asked == old(asked)
      ensures Shifts([], [], final) ==> lineinfo[..] == old(ShiftLines(final, Count(args)))
      ensures final == 0x4a ==> forall r :: 0 <= r < rows ==> lineinfo[r] == LineAfterErasure(old(lineinfo[r]), r, Or(args, 0, CSI_ARG_MISSING), old(pos), cols)
      ensures final in {0x4b, 0x58} ==> forall r :: 0 <= r < rows ==>
                lineinfo[r] ==
                if r == old(pos.row) + 1 && known && ErasedTo(final, args, old(pos.col), old(RowWidth(pos.row))) == cols
                then old(lineinfo[r]).(continuation := false) else old(lineinfo[r])
      ensures !Asks([], [], final) ==> lineinfo[..] == old(lineinfo[..])
      ensures Others() == old(Others())
      ensures insertMode == (if final in {0x68, 0x6c} && Or(args, 0, 0) == 4 then final == 0x68 else old(insertMode))
      ensures newlineMode == (if final in {0x68, 0x6c} && Or(args, 0, 0) == 20 then final == 0x68 else old(newlineMode))
      ensures tabstops[..] ==
              if final == 0x67 && Or(args, 0, 0) == 0 then old(tabstops[..])[old(pos.col) := false]
              else if final == 0x67 && Or(args, 0, 0) in {3, 5} then seq(cols, _ => false) else old(tabstops[..])
    {
      hide AllProper, GlyphText, Erases, InErasure, InLineErasure, ShiftRect, ShiftRequests, ShiftLines, Bound, GlyphFits, LineAfterErasure, LinesAfter,
           Clamped;
      var from := pos;
      var o := Acts(true);
      match final {
        case 0x40 | 0x4c | 0x4d | 0x50 | 0x53 | 0x54 => Shift(final, Count(args));
        case 0x4a | 0x4b | 0x58 => o := EraseCsi(final, args, false);
        case 0x67 =>
          var clearable := ClearTabs(Or(args, 0, 0));
          o := if clearable then Acts(true) else Unknown;
        case 0x68 => SetMode(Or(args, 0, CSI_ARG_MISSING), true);
        case 0x6c => SetMode(Or(args, 0, CSI_ARG_MISSING), false);
        case 0x63 | 0x6d | 0x6e =>
        case _ => o := Unknown;
      }
      known := o != Unknown;
      Settle(o, from);
    }

    /** The lines of the buffer that is not in use. */
    function Others(): seq<Line> reads `lineinfo, primary, alternate { if lineinfo == alternate then primary[..] else alternate[..] }

    /** What neither DECSET, DECRST nor DECSTR does anything to. */
    ghost function Kept(): (Pos, Margins, (bool, bool, bool, bool, bool), seq<bool>)
      reads this, tabstops
    {
      (saved, margins, Modes(), tabstops[..])
    }

    /** DECSET and DECRST. */
    method ModesCsi(args: seq<Arg>, on: bool)
      requires Valid()
      modifies this, primary, alternate, tabstops
      ensures Sound() && Inside(pos, rows, cols)
      ensures Inside(saved, rows, cols) <==> !(on && margins.left == cols && SavesCorner(args, old(leftright)))
      ensures combineChars == old(combineChars) && combineWidth == old(combineWidth) && combinePos == old(combinePos)
      ensures var c := AfterModes(old(Place()), This(), args, on);
              Place() == c.(at := pos, phantom := atPhantom) && pos == Clamped(c.at) && atPhantom == (c.phantom && pos == old(pos))
      ensures margins == old(margins) && insertMode == old(insertMode) && newlineMode == old(newlineMode) && tabstops[..] == old(tabstops[..])
    {
      hide AllProper, GlyphText, AfterModes, SavesCorner, Clamped;
      ModesSaved(Place(), This(), args, on);
      var from := pos;
      SetDecModes(args, on);
      Settle(Acts(true), from);
    }

    /** The other functions with a leader or an intermediate byte. */
    method MarkedCsi(leader: seq<byte>, args: seq<Arg>, intermed: seq<byte>, final: byte) returns (known: bool)
      requires Valid() && !(leader == [] && intermed == []) && !SetsModes(leader, intermed, final)
      modifies `pos, `atPhantom, `asked, `margins, `originMode, `autowrap, `insertMode, `newlineMode, `leftright, lineinfo, tabstops
      ensures Sound() && Inside(pos, rows, cols) && (known <==> MarkedOutcome(leader, args, intermed, final, clears) != Unknown)
      ensures pos == (if MarkedOutcome(leader, args, intermed, final, clears).Acts? then Clamped(old(pos)) else old(pos))
      ensures atPhantom == (old(atPhantom) && pos == old(pos))
      ensures Resets(leader, intermed, final) ==>
                && margins == Margins(0, -1, 0, -1) && Modes() == (false, true, false, false, false)
                && tabstops[..] == seq(cols, c => c % 8 == 0)
                && asked == old(asked) && forall r :: 0 <= r < rows ==> lineinfo[r] == Line(false, 0, old(lineinfo[r]).continuation)
      ensures Others() == old(Others())
      ensures !Resets(leader, intermed, final) ==> Kept() == old(Kept())
      ensures Shifts(leader, intermed, final) ==>
                asked == old(asked) + old(ShiftRequests(final, Count(args))) && lineinfo[..] == old(ShiftLines(final, Count(args)))
      ensures leader == [0x3f] && intermed == [] && final in {0x4a, 0x4b} ==>
                && |asked| >= |old(asked)| && asked[..|old(asked)|] == old(asked)
                && forall k :: |old(asked)| <= k < |asked| ==> asked[k].EraseRect? && asked[k].selective
      ensures leader == [0x3f] && intermed == [] && final == 0x4a ==>
                && (forall i, j :: 0 <= i < rows && 0 <= j < cols ==>
                      (Erases(asked, |old(asked)|, i, j) <==> InErasure(Or(args, 0, CSI_ARG_MISSING), old(pos), i, j)))
                && forall r :: 0 <= r < rows ==> lineinfo[r] == LineAfterErasure(old(lineinfo[r]), r, Or(args, 0, CSI_ARG_MISSING), old(pos), cols)
      ensures leader == [0x3f] && intermed == [] && final == 0x4b ==>
                && (forall i, j :: Erases(asked, |old(asked)|, i, j) <==>
                      i == old(pos.row) && InLineErasure(Or(args, 0, CSI_ARG_MISSING), old(pos.col), old(RowWidth(pos.row)), j))
                && forall r :: 0 <= r < rows ==>
                     lineinfo[r] ==
                     if r == old(pos.row) + 1 && known && ErasedTo(final, args, old(pos.col), old(RowWidth(pos.row))) == cols
                     then old(lineinfo[r]).(continuation := false) else old(lineinfo[r])
      ensures !Asks(leader, intermed, final) ==> asked == old(asked)
      ensures !Asks(leader, intermed, final) && !Resets(leader, intermed, final) ==> lineinfo[..] == old(lineinfo[..])
    {
      hide AllProper, GlyphText, Erases, InErasure, InLineErasure, ShiftRect, ShiftRequests, ShiftLines, LineAfterErasure, LinesAfter, Clamped;
      var from := pos;
      var o := Acts(true);
      if leader == [0x3f] && intermed == [] {
        match final {
          case 0x4a | 0x4b => o := EraseCsi(final, args, true);
          case 0x6d | 0x6e =>
          case _ => o := Unknown;
        }
      } else if leader == [] && intermed == [0x27] && final in {0x7d, 0x7e} {
        Shift(final, Count(args));
      } else if leader == [] && intermed == [0x21] && final == 0x70 {
        Reset(false);
      } else if !(leader == [0x3e] && intermed == [] && final in {0x63, 0x71}) &&
                !(leader == [0x3f] && intermed == [0x24] && final == 0x70) &&
                !(leader == [] && intermed in {[0x20], [0x22]} && final == 0x71)
      {
        o := Unknown;
      }
      known := o != Unknown;
      Settle(o, from);
    }

    /** REP that would not end is not asked for. */
    predicate Ending(leader: seq<byte>, args: seq<Arg>, intermed: seq<byte>, final: byte)
      requires 0 <= pos.row < lineinfo.Length
      reads `pos, `combineWidth, `lineinfo, lineinfo
    {
      leader == [] && intermed == [] && final == 0x62 ==> RepEnds(Count(args))
    }

    /** REP asks for a glyph that does not end in the screen. */
    predicate RepeatsOutside(leader: seq<byte>, args: seq<Arg>, intermed: seq<byte>, final: byte)
      requires 0 <= pos.row < lineinfo.Length
      reads `pos, `combineWidth, `lineinfo, lineinfo
    {
      leader == [] && intermed == [] && final == 0x62 && !RepFits(Count(args))
    }

    /** The end of on_csi: the cursor is brought back, and is off the phantom column if it has moved. */
    method Settle(o: Outcome, from: Pos)
      requires Framed()
      modifies `pos, `atPhantom
      ensures Framed() && pos == if o.Acts? then Clamped(old(pos)) else old(pos)
      ensures o.Acts? ==> Inside(pos, rows, cols)
      ensures atPhantom == (old(atPhantom) && (!o.Acts? || !o.cancelPhantom || pos == from))
    {
      hide AllProper;
      if o.Acts? {
        ClampCursor();
        Moved(from, o.cancelPhantom);
      }
    }

    /**
     on_csi.  The cursor comes back into the screen; the saved one is left outside exactly by SavesOutside, and a glyph is
     asked for outside exactly by RepeatsOutside.  Each function moves the cursor, asks, and changes lines, modes, margins and
     tab stops as is said here for it, and nothing else.
     */
    method OnCsi(leader: seq<byte>, args: seq<Arg>, intermed: seq<byte>, final: byte) returns (known: bool, ghost told: Step)
      requires Valid() && Ending(leader, args, intermed, final)
      modifies this, primary, alternate, tabstops
      ensures Framed() && Inside(pos, rows, cols)
      ensures Sound() <==> !old(RepeatsOutside(leader, args, intermed, final))
      ensures Inside(saved, rows, cols) <==> !old(SavesOutside(leader, args, intermed, final))
      ensures combineChars == old(combineChars) && combineWidth == old(combineWidth) && combinePos == old(combinePos)
      ensures told == Step.Csi(leader, args, intermed, final)
      ensures known <==> CsiOutcome(leader, args, intermed, final, clears) != Unknown
      // the cursor
      ensures leader == [] && intermed == [] && IsMove(final) ==> pos == Clamped(Target(final, args, old(pos), Origin())) && !atPhantom
      ensures leader == [] && intermed == [] && final == 0x49 ==>
                exists c :: 0 <= c < cols && TabbedOn(old(pos), Pos(old(pos.row), c), Count(args)) && pos == Clamped(Pos(old(pos.row), c))
      ensures leader == [] && intermed == [] && final == 0x5a ==>
                exists c :: 0 <= c < cols && TabbedBack(old(pos), Pos(old(pos.row), c), Count(args)) && pos == Clamped(Pos(old(pos.row), c))
      ensures leader == [] && intermed == [] && final == 0x62 ==>
                var to := old(pos).(col := old(pos.col) + old(RepTimes(Count(args))) * combineWidth);
                && pos == Clamped(to)
                && atPhantom == ((old(atPhantom) && pos == old(pos)) || (autowrap && to.col + combineWidth >= RowWidth(old(pos.row))))
      ensures leader == [] && intermed == [] && final in {0x72, 0x73} ==> pos == Clamped(Origin())
      ensures SetsModes(leader, intermed, final) ==>
                var c := AfterModes(old(Place()), This(), args, final == 0x68);
                Place() == c.(at := pos, phantom := atPhantom) && pos == Clamped(c.at) && atPhantom == (c.phantom && pos == old(pos))
      ensures !SetsModes(leader, intermed, final) && !(leader == [] && intermed == [] && Aims(final)) ==>
                pos == if CsiOutcome(leader, args, intermed, final, clears).Acts? then Clamped(old(pos)) else old(pos)
      ensures !SetsModes(leader, intermed, final) && !(leader == [] && intermed == [] && (IsMove(final) || final == 0x62)) ==>
                atPhantom == (old(atPhantom) && pos == old(pos))
      // what is asked for
      ensures leader == [] && intermed == [] && final == 0x62 ==>
                asked == old(asked) + Repeated(combineChars, combineWidth, old(pos), old(RepTimes(Count(args))))
      ensures Shifts(leader, intermed, final) ==> asked == old(asked) + old(ShiftRequests(final, Count(args)))
      ensures (leader == [] || leader == [0x3f]) && intermed == [] && final in {0x4a, 0x4b} ==>
                && |asked| >= |old(asked)| && asked[..|old(asked)|] == old(asked)
                && forall k :: |old(asked)| <= k < |asked| ==> asked[k].EraseRect? && asked[k].selective == (leader == [0x3f])
      ensures (leader == [] || leader == [0x3f]) && intermed == [] && final == 0x4a ==> forall i, j :: 0 <= i < rows && 0 <= j < cols ==>
                (Erases(asked, |old(asked)|, i, j) <==> InErasure(Or(args, 0, CSI_ARG_MISSING), old(pos), i, j))
      ensures (leader == [] || leader == [0x3f]) && intermed == [] && final == 0x4b ==> forall i, j ::
                Erases(asked, |old(asked)|, i, j) <==>
                i == old(pos.row) && InLineErasure(Or(args, 0, CSI_ARG_MISSING), old(pos.col), old(RowWidth(pos.row)), j)
      ensures leader == [] && intermed == [] && final == 0x58 ==>
                asked == old(asked) + [EraseRect(Rect(old(pos.row), old(pos.row) + 1, old(pos.col), Min(old(pos.col) + Count(args), old(RowWidth(pos.row)))), false)]
      ensures !Asks(leader, intermed, final) ==> asked == old(asked)
      // the lines
      ensures Shifts(leader, intermed, final) ==> lineinfo[..] == old(ShiftLines(final, Count(args)))
      ensures (leader == [] || leader == [0x3f]) && intermed == [] && final == 0x4a ==>
                forall r :: 0 <= r < rows ==> lineinfo[r] == LineAfterErasure(old(lineinfo[r]), r, Or(args, 0, CSI_ARG_MISSING), old(pos), cols)
      ensures ((leader == [] || leader == [0x3f]) && intermed == [] && final == 0x4b) || (leader == [] && intermed == [] && final == 0x58) ==>
                forall r :: 0 <= r < rows ==>
                  lineinfo[r] ==
                  if r == old(pos.row) + 1 && known && ErasedTo(final, args, old(pos.col), old(RowWidth(pos.row))) == cols
                  then old(lineinfo[r]).(continuation := false) else old(lineinfo[r])
      ensures !Asks(leader, intermed, final) && !Resets(leader, intermed, final) ==> lineinfo[..] == old(lineinfo[..])
      ensures leader == [] && intermed == [] && Aims(final) ==> lineinfo[..] == old(lineinfo[..])
      ensures !SetsModes(leader, intermed, final) ==>
                lineinfo == old(lineinfo) && Others() == old(Others())
      // modes, margins, tab stops and the saved cursor
      ensures Resets(leader, intermed, final) ==>
                && margins == Margins(0, -1, 0, -1) && Modes() == (false, true, false, false, false) && saved == old(saved)
                && tabstops[..] == seq(cols, c => c % 8 == 0) && forall r :: 0 <= r < rows ==> lineinfo[r] == Line(false, 0, old(lineinfo[r]).continuation)
      ensures SetsModes(leader, intermed, final) ==>
                margins == old(margins) && insertMode == old(insertMode) && newlineMode == old(newlineMode) && tabstops[..] == old(tabstops[..])
      ensures leader == [] && intermed == [] ==>
                saved == old(saved) && originMode == old(originMode) && autowrap == old(autowrap) && leftright == old(leftright)
      ensures leader == [] && intermed == [] ==>
                && insertMode == (if final in {0x68, 0x6c} && Or(args, 0, 0) == 4 then final == 0x68 else old(insertMode))
                && newlineMode == (if final in {0x68, 0x6c} && Or(args, 0, 0) == 20 then final == 0x68 else old(newlineMode))
                && tabstops[..] ==
                   (if final == 0x67 && Or(args, 0, 0) == 0 then old(tabstops[..])[old(pos.col) := false]
                    else if final == 0x67 && Or(args, 0, 0) in {3, 5} then seq(cols, _ => false) else old(tabstops[..]))
                && (if final == 0x72 then MarginRows(args) else margins.top == old(margins.top) && margins.bottom == old(margins.bottom))
                && (if final == 0x73 then MarginCols(args) else margins.left == old(margins.left) && margins.right == old(margins.right))
      ensures !(leader == [] && intermed == []) && !SetsModes(leader, intermed, final) && !Resets(leader, intermed, final) ==> Kept() == old(Kept())
    {
      hide AllProper, GlyphText, Erases, InErasure, InLineErasure, ShiftRect, Stops, ShiftRequests, ShiftLines, MarginRows, MarginCols, Target, RowWidth,
           RepTimes, RepFits, Repeated, GlyphFits, LineAfterErasure, LinesAfter, AfterModes, Clamped, Bound, TabbedOn, TabbedBack,
           SetsModes, Resets, Shifts, Asks, Others, Kept, Modes, Place;
      KindsApart(leader, intermed, final);
      told := Step.Csi(leader, args, intermed, final);
      known := true;
      if leader == [] && intermed == [] && Aims(final) {
        AimCsi(final, args);
      } else if leader == [] && intermed == [] {
        known := PlainCsi(final, args);
      } else if SetsModes(leader, intermed, final) {
        ModesCsi(args, final == 0x68);
      } else {
        known := MarkedCsi(leader, args, intermed, final);
      }
    }

    /**
     The shifting functions, one by one: ICH and DCH move the rest of the row, IL and DL the rows from the cursor's to the end
     of the region, SU and SD the region, DECIC and DECDC its columns from the cursor's on; away from the cursor for the first of
     each pair but SU, by no more than there is to move, and but for SU and SD only while the cursor is in the region.
     */
    lemma ShiftTable(n: int)
      requires Framed() && Inside(pos, rows, cols) && n >= 1
      ensures var top, bottom := margins.top, if margins.bottom == -1 then rows else margins.bottom;
              var left, right := if leftright then margins.left else 0, if leftright && margins.right != -1 then margins.right else cols;
              var end := if leftright then right else if lineinfo[pos.row].doublewidth then cols / 2 else cols;
              var inside := top <= pos.row < bottom && left <= pos.col < right;
              && (inside && n <= end - pos.col ==>
                    && ShiftRequests(0x40, n) == [ScrollRect(Rect(pos.row, pos.row + 1, pos.col, end), 0, -n)]
                    && ShiftRequests(0x50, n) == [ScrollRect(Rect(pos.row, pos.row + 1, pos.col, end), 0, n)])
              && (inside && 0 <= end - pos.col < n ==>
                    && ShiftRequests(0x40, n) == [ScrollRect(Rect(pos.row, pos.row + 1, pos.col, end), 0, pos.col - end)]
                    && ShiftRequests(0x50, n) == [ScrollRect(Rect(pos.row, pos.row + 1, pos.col, end), 0, end - pos.col)])
              && (inside ==>
                    && ShiftRequests(0x4c, n) == [ScrollRect(Rect(pos.row, bottom, left, right), -Min(n, bottom - pos.row), 0)]
                    && ShiftRequests(0x4d, n) == [ScrollRect(Rect(pos.row, bottom, left, right), Min(n, bottom - pos.row), 0)]
                    && ShiftRequests(0x7d, n) == [ScrollRect(Rect(top, bottom, pos.col, right), 0, -Min(n, right - pos.col))]
                    && ShiftRequests(0x7e, n) == [ScrollRect(Rect(top, bottom, pos.col, right), 0, Min(n, right - pos.col))])
              && (!inside ==> forall final: byte :: final in {0x40, 0x4c, 0x4d, 0x50, 0x7d, 0x7e} ==> ShiftRequests(final, n) == [])
              && (left <= right ==>
                    && ShiftRequests(0x53, n) == [ScrollRect(Rect(top, bottom, left, right), Min(n, bottom - top), 0)]
                    && ShiftRequests(0x54, n) == [ScrollRect(Rect(top, bottom, left, right), -Min(n, bottom - top), 0)])
    {
      hide AllProper, LinesAfter;
    }

    /** REP draws as few glyphs as fill what is asked for, or the row. */
    lemma RepTimesFill(count: int)
      requires Framed() && Inside(pos, rows, cols) && combineWidth >= 1 && count >= 1
      ensures var n, room := RepTimes(count), Min(count, RowWidth(pos.row) - pos.col);
              && (room <= 0 <==> n == 0) && n * combineWidth >= room && (n > 0 ==> (n - 1) * combineWidth < room)
              && (combineWidth == 1 && room > 0 ==> n == room)
    {
      var room, w := Min(count, RowWidth(pos.row) - pos.col), combineWidth;
      if room > 0 {
        var n, rest := (room + w - 1) / w, (room + w - 1) % w;
        assert room + w - 1 == n * w + rest;
        OneTimeMore(n, w);
      }
    }

    /** The place in the screen, or in the region in origin mode, that is nearest; a cursor there stays. */
    lemma ClampedIsNearest(p: Pos, q: Pos)
      requires Framed()
      requires if originMode then margins.top <= q.row < Bottom() && Left() <= q.col < Right() else 0 <= q.row < rows && 0 <= q.col < RowWidth(q.row)
      ensures var c := Clamped(p);
              && 0 <= c.row < rows
              && (if originMode then margins.top <= c.row < Bottom() else true)
              && Abs(c.row - p.row) <= Abs(q.row - p.row)
              && (c.row == q.row || originMode ==> Abs(c.col - p.col) <= Abs(q.col - p.col))
              && (!originMode ==> 0 <= c.col < RowWidth(c.row))
              && (originMode ==> Left() <= c.col < Right())
    {
      hide AllProper;
    }

    /** A REP that would not end is not followed. */
    predicate Followed(step: Step)
      requires 0 <= pos.row < lineinfo.Length
      reads `pos, `combineWidth, `lineinfo, lineinfo
    {
      match step
      case Escape(sequence) => sequence != []
      case Csi(leader, args, intermed, final) => Ending(leader, args, intermed, final)
      case _ => true
    }

    /** A step that cannot leave the screen wherever the cursor is. */
    predicate Harmless(step: Step) {
      match step
      case Text(points) => Ordinary(width, combining, cols, points)
      case Control(_) => true
      case Escape(sequence) => sequence != []
      case Csi(leader, args, intermed, final) =>
        && !(leader == [] && intermed == [] && final == 0x62)
        && !(leader == [0x3f] && intermed == [] && final == 0x68 && SavesCorner(args, true))
    }

    /**
     Any run, up to the first step that takes the cursor or the saved cursor out of the screen or asks for something
     outside: until then both stay, the scroll region keeps at least one row, and all of every glyph is inside.  Which steps
     do that is said at OnText and OnCsi; a harmless one never does.  `told` are the steps that the terminal was given, each by
     the method that it says.
     */
    method Run(steps: seq<Step>) returns (done: nat, ghost told: seq<Step>)
      requires Valid()
      modifies this, primary, alternate, tabstops
      ensures Framed() && done <= |steps| && (done == |steps| ==> Valid())
      ensures told == steps[..if Valid() then done else done + 1]
      ensures done < |steps| && Valid() ==> !Followed(steps[done])
      ensures done < |steps| && !Valid() ==>
                !Inside(saved, rows, cols) || (asked != [] && (!Proper(asked[|asked| - 1], rows, cols) || Misfits(asked[|asked| - 1])))
      ensures (forall k :: 0 <= k < |steps| ==> Harmless(steps[k])) ==> done == |steps|
    {
      hide AllProper, GlyphText, Followed, Harmless, GlyphFits, Misfits;
      done, told := 0, [];
      while done < |steps| && Followed(steps[done])
        invariant Valid() && done <= |steps| && told == steps[..done]
      {
        assert steps[..done + 1] == steps[..done] + [steps[done]];
        var stays;
        ghost var one;
        stays, one := Perform(steps[done]);
        told := told + [one];
        if !stays {
          return;
        }
        done := done + 1;
      }
      if done < |steps| && Harmless(steps[done]) {
        HarmlessIsFollowed(steps[done]);
      }
    }

    lemma HarmlessIsFollowed(step: Step)
      requires Valid() && Harmless(step)
      ensures Followed(step)
    {
    }

    /** One step goes to the method for it, which does its work: the main part of that is said here again. */
    method Perform(step: Step) returns (stays: bool, ghost told: Step)
      requires Valid() && Followed(step)
      modifies this, primary, alternate, tabstops
      ensures Framed() && (stays <==> Valid()) && told == step
      ensures Harmless(step) ==> stays
      ensures !stays ==>
                !Inside(saved, rows, cols) || (asked != [] && (!Proper(asked[|asked| - 1], rows, cols) || Misfits(asked[|asked| - 1])))
      ensures step.Text? && stays ==>
                var i := if old(Follows()) then Leading(combining, step.points) else 0;
                var joined := PutGlyph(old(combineChars) + step.points[..i], old(combineWidth), old(combinePos));
                Here() == Glyphs(Under(), width, combining, if i == 0 then old(Here()) else old(Here()).(asked := old(asked) + [joined]), step.points[i..])
      ensures step.Control? ==>
                && (step.control == 0x09 ==> TabbedOn(old(pos), pos, 1)) && (step.control in {0x0d, 0x85} ==> pos.col == 0)
                && (step.control == 0x08 ==> pos == Pos(old(pos.row), if old(pos.col) > 0 then old(pos.col) - 1 else 0))
                && (step.control in {0x0a, 0x0b, 0x0c, 0x84, 0x85, 0x8d} ==>
                      asked == old(asked) +
                        if step.control != 0x8d && old(pos.row) == Bottom() - 1 then [ScrollRect(Rect(margins.top, Bottom(), Left(), Right()), 1, 0)]
                        else if step.control == 0x8d && old(pos.row) == margins.top then [ScrollRect(Rect(margins.top, Bottom(), Left(), Right()), -1, 0)]
                        else [])
                && tabstops[..] == if step.control == 0x88 then old(tabstops[..])[old(pos.col) := true] else old(tabstops[..])
      ensures step.Escape? ==>
                && saved == (if step.sequence[0] == 0x37 then old(pos) else old(saved))
                && asked == old(asked) +
                     (if step.sequence == [0x23, 0x38] then FullOfE(old(lineinfo[..]), cols, rows)
                      else if step.sequence[0] == 0x63 then [EraseRect(Rect(0, rows, 0, cols), false)]
                      else [])
      ensures step.Csi? && step.leader == [] && step.intermed == [] && IsMove(step.final) ==>
                pos == Clamped(Target(step.final, step.args, old(pos), Origin()))
      ensures step.Csi? && Shifts(step.leader, step.intermed, step.final) ==> asked == old(asked) + old(ShiftRequests(step.final, Count(step.args)))
      ensures step.Csi? && SetsModes(step.leader, step.intermed, step.final) ==>
                Place() == AfterModes(old(Place()), This(), step.args, step.final == 0x68).(at := pos, phantom := atPhantom)
    {
      hide AllProper, GlyphText, Ending, Misfits, Ordinary, Repeated, RepTimes, SavesCorner, Glyphs, FullOfE, AfterModes, ShiftRequests, ShiftLines, Target,
           Clamped, TabbedOn, TabbedBack, Drawn, LastGlyph, InErasure, InLineErasure, Erases, LineAfterErasure, MarginRows, MarginCols, Place,
           Shifts, SetsModes, Resets, Asks, CsiOutcome, ScrolledUp, ScrolledDown, Leading;
      stays := true;
      match step {
        case Text(points) =>
          var drawn;
          stays, drawn, told := OnText(points);
        case Control(control) =>
          var known;
          known, told := OnControl(control);
        case Escape(sequence) => told := OnEscape(sequence);
        case Csi(leader, args, intermed, final) =>
          stays := !SavesOutside(leader, args, intermed, final) && !RepeatsOutside(leader, args, intermed, final);
          CornerWithMargins(args, leftright);
          ghost var times := if RepeatsOutside(leader, args, intermed, final) then RepTimes(Count(args)) else 0;
          var known;
          known, told := OnCsi(leader, args, intermed, final);
          if times > 0 {
            OneRepeatedMore(combineChars, combineWidth, old(pos), times - 1, old(asked));
            OneTimeMore(times, combineWidth);
          }
      }
    }

    /**
     Exactly when the position that a cursor report gives, sent back as CUP, puts the cursor where it was: reports
     are absolute, addresses count from the origin.
     */
    lemma ReportRestores(p: Pos, from: Pos)
      requires Valid() && Inside(p, rows, cols)
      ensures var args := [Arg(p.row + 1, false), Arg(p.col + 1, false)];
              p.row + 1 < CSI_ARG_MISSING && p.col + 1 < CSI_ARG_MISSING ==>
                (Clamped(Target(0x48, args, from, Origin())) == p <==>
                 if originMode then
                   && ((margins.top == 0 && p.row < Bottom()) || p.row == Bottom() - 1)
                   && ((Left() == 0 && p.col < Right()) || p.col == Right() - 1)
                 else p.col < RowWidth(p.row))
    {
      hide AllProper;
    }
  }

  datatype Step =
    | Text(points: seq<nat>)
    | Control(control: byte)
    | Escape(sequence: seq<byte>)
    | Csi(leader: seq<byte>, args: seq<Arg>, intermed: seq<byte>, final: byte)

  /** Where a glyph leaves the cursor in a row it fits. */
  function Advance(col: int, glyphWidth: int, rowWidth: int): int {
    if col + glyphWidth >= rowWidth then col else col + glyphWidth
  }

  /** What DECSET and DECRST change: the cursors, the modes, the lines of both buffers, and what has been asked for. */
  datatype Placing = Placing(at: Pos, saved: Pos, origin: bool, leftright: bool, phantom: bool, autowrap: bool,
                             onAlternate: bool, primary: seq<Line>, alternate: seq<Line>, asked: seq<Request>) {
    function Goes(to: Pos): Placing { this.(at := to, phantom := phantom && to == at) }
  }

  /** The terminal: its margins and size, and whether it has an alternate screen. */
  datatype Terminal = Terminal(m: Margins, rows: nat, cols: nat, takesProps: bool)

  function Single(lines: seq<Line>): seq<Line> {
    seq(|lines|, r requires 0 <= r < |lines| => Line(false, 0, lines[r].continuation))
  }

  function Uncontinued(lines: seq<Line>): seq<Line> {
    seq(|lines|, r requires 0 <= r < |lines| => if r > 0 then lines[r].(continuation := false) else lines[r])
  }

  /** To the alternate screen, which is erased, or back. */
  function Switched(c: Placing, t: Terminal, on: bool): Placing {
    if !t.takesProps then c
    else if on then c.(onAlternate := true, alternate := Uncontinued(c.alternate), asked := c.asked + [EraseRect(Rect(0, t.rows, 0, t.cols), false)])
    else c.(onAlternate := false)
  }

  function SavedOr(c: Placing, on: bool): Placing { if on then c.(saved := c.at) else c.Goes(c.saved) }

  function AfterMode(c: Placing, t: Terminal, num: int, on: bool): Placing {
    match num
    case 6 => c.(origin := on).Goes(if on then Pos(t.m.top, if c.leftright then t.m.left else 0) else Pos(0, 0))
    case 7 => c.(autowrap := on)
    case 69 =>
      if !on then c.(leftright := false)
      else if c.onAlternate then c.(leftright := true, alternate := Single(c.alternate))
      else c.(leftright := true, primary := Single(c.primary))
    case 1047 => Switched(c, t, on)
    case 1048 => SavedOr(c, on)
    case 1049 => SavedOr(Switched(c, t, on), on)
    case _ => c
  }

  function AfterModes(c: Placing, t: Terminal, args: seq<Arg>, on: bool): Placing {
    if args == [] then c else AfterMode(AfterModes(c, t, args[..|args| - 1], on), t, args[|args| - 1].value, on)
  }

  /** Origin mode puts the cursor on the corner that addresses then count from; autowrap and origin mode are switched on and off. */
  lemma OriginAndWrap(c: Placing, t: Terminal)
    ensures var a := AfterMode(c, t, 6, true);
            var corner := Pos(t.m.top, if c.leftright then t.m.left else 0);
            a == c.(origin := true, at := corner, phantom := c.phantom && c.at == corner)
    ensures AfterMode(c, t, 6, false) == c.(origin := false, at := Pos(0, 0), phantom := c.phantom && c.at == Pos(0, 0))
    ensures AfterMode(c, t, 7, true) == c.(autowrap := true) && AfterMode(c, t, 7, false) == c.(autowrap := false)
  {
  }

  /** Side margins make every line of the buffer in use single; going back without them leaves the lines. */
  lemma SideMargins(c: Placing, t: Terminal)
    ensures AfterMode(c, t, 69, false) == c.(leftright := false)
    ensures var a := AfterMode(c, t, 69, true);
            && a == c.(leftright := true, primary := a.primary, alternate := a.alternate)
            && |a.primary| == |c.primary| && |a.alternate| == |c.alternate|
            && (if c.onAlternate then a.primary == c.primary else a.alternate == c.alternate)
            && (c.onAlternate ==> forall r :: 0 <= r < |c.alternate| ==> a.alternate[r] == Line(false, 0, c.alternate[r].continuation))
            && (!c.onAlternate ==> forall r :: 0 <= r < |c.primary| ==> a.primary[r] == Line(false, 0, c.primary[r].continuation))
  {
  }

  /** 1047 switches screens, 1048 saves and restores the cursor, 1049 does both; setting 1047 or 1049 erases the alternate screen. */
  lemma AlternateScreen(c: Placing, t: Terminal)
    ensures AfterMode(c, t, 1048, true) == c.(saved := c.at)
    ensures AfterMode(c, t, 1048, false) == c.(at := c.saved, phantom := c.phantom && c.at == c.saved)
    ensures t.takesProps ==>
              && AfterMode(c, t, 1047, false) == c.(onAlternate := false)
              && AfterMode(c, t, 1049, false) == c.(onAlternate := false, at := c.saved, phantom := c.phantom && c.at == c.saved)
    ensures t.takesProps ==>
              var a := AfterMode(c, t, 1047, true);
              && a == c.(onAlternate := true, alternate := a.alternate, asked := c.asked + [EraseRect(Rect(0, t.rows, 0, t.cols), false)])
              && AfterMode(c, t, 1049, true) == a.(saved := c.at)
              && |a.alternate| == |c.alternate|
              && forall r :: 0 <= r < |c.alternate| ==> a.alternate[r] == if r > 0 then c.alternate[r].(continuation := false) else c.alternate[r]
    ensures !t.takesProps ==> forall on: bool ::
              AfterMode(c, t, 1047, on) == c && AfterMode(c, t, 1049, on) == AfterMode(c, t, 1048, on)
  {
  }

  lemma NoOtherMode(c: Placing, t: Terminal, num: int, on: bool)
    requires num !in {6, 7, 69, 1047, 1048, 1049}
    ensures AfterMode(c, t, num, on) == c
  {
  }

  lemma AfterOneMore(c: Placing, t: Terminal, args: seq<Arg>, i: nat, on: bool)
    requires i < |args|
    ensures AfterModes(c, t, args[..i + 1], on) == AfterMode(AfterModes(c, t, args[..i], on), t, args[i].value, on)
  {
    assert args[..i + 1][..i] == args[..i];
  }

  predicate SetsMargins(args: seq<Arg>) { exists h :: 0 <= h < |args| && args[h].value == 69 }

  /** Among the modes set, DECOM puts the cursor on the left margin, with left and right margins on before or by then. */
  predicate GoesToCorner(args: seq<Arg>, leftright: bool) {
    exists i :: 0 <= i < |args| && args[i].value == 6 && (leftright || SetsMargins(args[..i]))
  }

  /** And the cursor is saved after that. */
  predicate SavesCorner(args: seq<Arg>, leftright: bool) {
    exists k :: 0 <= k < |args| && args[k].value in {1048, 1049} && GoesToCorner(args[..k], leftright)
  }

  lemma CornerWithMargins(args: seq<Arg>, leftright: bool)
    ensures SavesCorner(args, leftright) ==> SavesCorner(args, true)
  {
    if SavesCorner(args, leftright) {
      var k :| 0 <= k < |args| && args[k].value in {1048, 1049} && GoesToCorner(args[..k], leftright);
      assert GoesToCorner(args[..k], true);
    }
  }

  lemma OneModeMore(args: seq<Arg>, leftright: bool)
    requires args != []
    ensures var less, last := args[..|args| - 1], args[|args| - 1].value;
            && (SetsMargins(args) <==> SetsMargins(less) || last == 69)
            && (GoesToCorner(args, leftright) <==> GoesToCorner(less, leftright) || (last == 6 && (leftright || SetsMargins(less))))
            && (SavesCorner(args, leftright) <==> SavesCorner(less, leftright) || (last in {1048, 1049} && GoesToCorner(less, leftright)))
  {
    hide GoesToCorner;
    var n := |args| - 1;
    assert forall h :: 0 <= h < n ==> args[h] == args[..n][h] && args[..h] == args[..n][..h];
    OneCornerMore(args, leftright);
  }

  lemma OneCornerMore(args: seq<Arg>, leftright: bool)
    requires args != []
    ensures var less, last := args[..|args| - 1], args[|args| - 1].value;
            GoesToCorner(args, leftright) <==> GoesToCorner(less, leftright) || (last == 6 && (leftright || SetsMargins(less)))
  {
    hide SetsMargins;
    var n := |args| - 1;
    assert forall h :: 0 <= h < n ==> args[h] == args[..n][h] && args[..h] == args[..n][..h];
  }

  /**
   The saved cursor leaves the screen exactly when, with the left margin past the last column, one DECSET puts the cursor
   on that margin and then saves it.
   */
  lemma ModesSaved(c: Placing, t: Terminal, args: seq<Arg>, on: bool)
    requires t.m.Good(t.rows, t.cols) && t.rows >= 1 && t.cols >= 2 && Inside(c.at, t.rows, t.cols) && Inside(c.saved, t.rows, t.cols)
    ensures Inside(AfterModes(c, t, args, on).saved, t.rows, t.cols) <==> !(on && t.m.left == t.cols && SavesCorner(args, c.leftright))
  {
    ModesPlace(c, t, args, on);
  }

  lemma NoModesYet(args: seq<Arg>, leftright: bool)
    requires args == []
    ensures !SetsMargins(args) && !GoesToCorner(args, leftright) && !SavesCorner(args, leftright)
  {
  }

  lemma OnePlace(c: Placing, t: Terminal, num: int, on: bool)
    ensures AfterMode(c, t, num, on).leftright == if num == 69 then on else c.leftright
    ensures AfterMode(c, t, num, on).saved == if on && (num == 1048 || num == 1049) then c.at else c.saved
    ensures AfterMode(c, t, num, on).at ==
            if num == 6 then (if on then Pos(t.m.top, if c.leftright then t.m.left else 0) else Pos(0, 0))
            else if !on && (num == 1048 || num == 1049) then c.saved
            else c.at
  {
    hide AfterMode;
    if num == 6 || num == 7 {
      OriginAndWrap(c, t);
    } else if num == 69 {
      SideMargins(c, t);
    } else if num == 1047 || num == 1048 || num == 1049 {
      AlternateScreen(c, t);
    } else {
      NoOtherMode(c, t, num, on);
    }
  }

  lemma CornerAfterMargins(args: seq<Arg>, leftright: bool)
    ensures GoesToCorner(args, leftright) ==> leftright || SetsMargins(args)
  {
    if GoesToCorner(args, leftright) && !leftright {
      var i :| 0 <= i < |args| && args[i].value == 6 && SetsMargins(args[..i]);
      var h :| 0 <= h < i && args[..i][h].value == 69;
      assert args[h].value == 69;
    }
  }

  lemma SavedAfterCorner(args: seq<Arg>, leftright: bool)
    ensures SavesCorner(args, leftright) ==> GoesToCorner(args, leftright)
  {
    hide SetsMargins;
    if SavesCorner(args, leftright) {
      var k :| 0 <= k < |args| && args[k].value in {1048, 1049} && GoesToCorner(args[..k], leftright);
      var i :| 0 <= i < k && args[..k][i].value == 6 && (leftright || SetsMargins(args[..k][..i]));
      assert args[..k][..i] == args[..i];
    }
  }

  lemma {:induction false} ModesPlace(c: Placing, t: Terminal, args: seq<Arg>, on: bool)
    requires t.m.Good(t.rows, t.cols) && t.rows >= 1 && t.cols >= 2 && Inside(c.at, t.rows, t.cols) && Inside(c.saved, t.rows, t.cols)
    ensures var c' := AfterModes(c, t, args, on);
            && (on ==> (c'.leftright <==> c.leftright || SetsMargins(args)))
            && (Inside(c'.at, t.rows, t.cols) <==> !(on && t.m.left == t.cols && GoesToCorner(args, c.leftright)))
            && (Inside(c'.saved, t.rows, t.cols) <==> !(on && t.m.left == t.cols && SavesCorner(args, c.leftright)))
  {
    hide SetsMargins, GoesToCorner, SavesCorner, AfterMode;
    if args != [] {
      ModesPlace(c, t, args[..|args| - 1], on);
      OneModeMore(args, c.leftright);
      SavedAfterCorner(args[..|args| - 1], c.leftright);
      CornerAfterMargins(args[..|args| - 1], c.leftright);
      OnePlace(AfterModes(c, t, args[..|args| - 1], on), t, args[|args| - 1].value, on);
    } else {
      NoModesYet(args, c.leftright);
    }
  }

  /** How a CSI function ends: not known, ended at once, or with the cursor to bring back. */
  datatype Outcome = Unknown | Ends | Acts(cancelPhantom: bool)

  /**
   It does happen: left and right margins on, a left margin past the last column, origin mode and saving in one DECSET, and
   ESC 8 puts the cursor outside the screen.
   */
  method SavedCornerLeaves() returns (s: VTermState)
    ensures s.Sound() && s.pos == s.saved == Pos(0, 80) && s.cols == 80 && !Inside(s.pos, s.rows, s.cols)
  {
    hide Erases, InErasure, InLineErasure, LinesAfter, Repeated, LineAfterErasure, GlyphText, AllProper, GlyphFits, CsiOutcome, ErasedTo, Stops,
         Single, Uncontinued, VTermState.ShiftRequests, VTermState.ShiftLines, VTermState.RepFits, VTermState.RepTimes, VTermState.MarginRows,
         VTermState.Kept, VTermState.Modes, VTermState.Others, VTermState.TabbedOn, VTermState.TabbedBack;
    s := MarginPastLast();
    var both := [Arg(6, false), Arg(1048, false)];
    AfterTwo(s.Place(), s.This(), both[0], both[1], true);
    var _, _ := s.OnCsi([0x3f], both, [], 0x68);
    var _ := s.OnEscape([0x38]);
  }

  method MarginPastLast() returns (s: VTermState)
    ensures s.Valid() && s.rows == 25 && s.cols == 80 && s.leftright && s.margins.top == 0 && s.margins.left == 80
    ensures fresh(s) && fresh(s.tabstops) && fresh(s.primary) && fresh(s.alternate)
  {
    hide Erases, InErasure, InLineErasure, LinesAfter, Repeated, LineAfterErasure, GlyphText, AllProper, GlyphFits, CsiOutcome, ErasedTo, Stops,
         Single, Uncontinued, VTermState.ShiftRequests, VTermState.ShiftLines, VTermState.RepFits, VTermState.RepTimes, VTermState.MarginRows,
         VTermState.Kept, VTermState.Modes, VTermState.Others, VTermState.TabbedOn, VTermState.TabbedBack;
    s := new VTermState(25, 80, _ => 1, _ => false, true, true, true);
    AfterTwo(s.Place(), s.This(), Arg(69, false), Arg(69, false), true);
    var _, _ := s.OnCsi([0x3f], [Arg(69, false)], [], 0x68);
    var _, _ := s.OnCsi([], [Arg(81, false)], [], 0x73);
  }

  method AtColumnThree() returns (s: VTermState)
    ensures s.Valid() && s.rows == 25 && s.cols == 80 && s.pos == Pos(0, 3) && s.tabstops[..] == seq(80, c => c % 8 == 0)
    ensures s.asked == [] && !s.lineinfo[0].doublewidth
    ensures fresh(s) && fresh(s.tabstops) && fresh(s.primary) && fresh(s.alternate)
  {
    hide Erases, InErasure, InLineErasure, LinesAfter, AfterModes, SavesCorner, Repeated, LineAfterErasure, GlyphText, AllProper, GlyphFits, CsiOutcome,
         Resets, ErasedTo, Stops, VTermState.ShiftRequests, VTermState.ShiftLines, VTermState.RepFits, VTermState.RepTimes,
         VTermState.MarginRows, VTermState.MarginCols, VTermState.Place, VTermState.Kept, VTermState.Modes, VTermState.Others, VTermState.TabbedOn,
         VTermState.TabbedBack;
    s := new VTermState(25, 80, _ => 1, _ => false, true, true, true);
    SingleWidth(s.lineinfo[..]);
    var _, _ := s.OnCsi([], [Arg(4, false)], [], 0x47);
  }

  /** From column 3 of a terminal as it starts, HT leads to column 8 and one more to column 16. */
  method TabsOfEight() returns (s: VTermState)
    ensures s.pos == Pos(0, 16) && s.asked == []
  {
    hide GlyphText, AllProper, Stops, VTermState.TabbedOn, ScrolledUp, ScrolledDown;
    s := AtColumnThree();
    assert s.tabstops[..][8] && s.tabstops[..][16];
    var _, _ := s.OnControl(0x09);
    assert s.pos == Pos(0, 8);
    var _, _ := s.OnControl(0x09);
  }

  /** It does happen: a glyph of width 2, the cursor to the last column, and REP asks for a glyph that ends past it. */
  method WideRepeatLeaves() returns (s: VTermState)
    ensures s.cols == 80 && s.asked != [] && s.asked[|s.asked| - 1] == PutGlyph([0x4e00], 2, Pos(0, 79))
    ensures !Proper(s.asked[|s.asked| - 1], s.rows, s.cols)
  {
    hide GlyphText, AllProper, Erases, InErasure, InLineErasure, LinesAfter, Stops, Repeated;
    s := WideGlyphDrawn();
    NoneRepeated([0x4e00], 2, Pos(0, 79), s.asked);
    OneRepeatedMore([0x4e00], 2, Pos(0, 79), 0, s.asked);
    var _, _ := s.OnCsi([], [Arg(1, false)], [], 0x62);
  }

  method WideGlyphDrawn() returns (s: VTermState)
    ensures s.Valid() && s.rows == 25 && s.cols == 80 && s.pos == Pos(0, 79) && s.RowWidth(0) == 80
    ensures s.combineChars == [0x4e00] && s.combineWidth == 2
    ensures fresh(s) && fresh(s.tabstops) && fresh(s.primary) && fresh(s.alternate)
  {
    s := WideGlyphAtHome();
    SingleWidth(s.lineinfo[..]);
    ToLastColumn(s);
  }

  /** CUP to column 80. */
  method ToLastColumn(s: VTermState)
    requires s.Valid() && s.rows == 25 && s.cols == 80 && !s.originMode && !s.lineinfo[0].doublewidth
    modifies s, s.primary, s.alternate, s.tabstops
    ensures s.Valid() && s.pos == Pos(0, 79) && s.RowWidth(0) == 80
    ensures s.combineChars == old(s.combineChars) && s.combineWidth == old(s.combineWidth)
  {
    MovesAre(s.pos, s.Origin(), 1, 80);
    hide Target, Or, Count, AllSingle, Erases, InErasure, InLineErasure, LinesAfter, AfterModes, SavesCorner, Repeated, LineAfterErasure, GlyphText, AllProper, GlyphFits, CsiOutcome,
         Resets, ErasedTo, Stops, VTermState.ShiftRequests, VTermState.ShiftLines, VTermState.RepFits, VTermState.RepTimes,
         VTermState.MarginRows, VTermState.MarginCols, VTermState.Place, VTermState.Kept, VTermState.Modes, VTermState.Others, VTermState.TabbedOn,
         VTermState.TabbedBack;
    var _, _ := s.OnCsi([], [Arg(1, false), Arg(80, false)], [], 0x48);
  }

  method WideGlyphAtHome() returns (s: VTermState)
    ensures s.Valid() && s.rows == 25 && s.cols == 80 && !s.originMode && AllSingle(s.lineinfo[..])
    ensures s.combineChars == [0x4e00] && s.combineWidth == 2
    ensures fresh(s) && fresh(s.tabstops) && fresh(s.primary) && fresh(s.alternate)
  {
    hide Drawn, GlyphText, AllProper, Ordinary, LastGlyph, WidthOf, Glyphs, Leading, AllSingle, GlyphFits, VTermState.Misfits, VTermState.Follows,
         VTermState.Here, VTermState.Under, VTermState.Framed, VTermState.Sound, VTermState.Valid;
    s := new VTermState(25, 80, x => if x == 0x4e00 then 2 else 1, _ => false, true, true, true);
    var points := [0x4e00];
    OneWideGlyph(s.width, s.combining, points);
    LeadingIs(s.combining, points);
    assert points[0..] == points && 0 < |points|;
    hide *;
    var _, _, _ := s.OnText(points);
  }

  lemma SingleWidth(lines: seq<Line>)
    requires AllSingle(lines)
    ensures forall r :: 0 <= r < |lines| ==> !lines[r].doublewidth
  {
  }

  lemma OneWideGlyph(width: nat -> int, combining: nat -> bool, points: seq<nat>)
    requires |points| == 1 && width(points[0]) == 2
    ensures Ordinary(width, combining, 80, points) && LastGlyph(combining, points) == points && WidthOf(width, points) == 2
  {
    assert points[..1] == points && points[1..] == [] && points[..0] == [];
    assert WidthOf(width, []) == 0;
  }

  lemma AfterTwo(c: Placing, t: Terminal, first: Arg, second: Arg, on: bool)
    ensures AfterModes(c, t, [first], on) == AfterMode(c, t, first.value, on)
    ensures AfterModes(c, t, [first, second], on) == AfterMode(AfterMode(c, t, first.value, on), t, second.value, on)
  {
    assert [first][..0] == [] && [first, second][..1] == [first];
    assert AfterModes(c, t, [], on) == c;
  }

  function RowOfE(row: int, n: nat): seq<Request> { seq(n, col => PutGlyph([0x45], 1, Pos(row, col))) }

  /** An E in every cell of the first rows. */
  function FullOfE(lines: seq<Line>, cols: nat, rows: nat): seq<Request>
    requires rows <= |lines|
  {
    if rows == 0 then [] else FullOfE(lines, cols, rows - 1) + RowOfE(rows - 1, if lines[rows - 1].doublewidth then cols / 2 else cols)
  }

  lemma NoneOfE(lines: seq<Line>, cols: nat, asked: seq<Request>)
    ensures asked + FullOfE(lines, cols, 0) == asked
  {
  }

  lemma NoneInRow(row: int, asked: seq<Request>)
    ensures asked + RowOfE(row, 0) == asked
  {
  }

  lemma OneMoreE(row: int, col: nat, asked: seq<Request>)
    ensures asked + RowOfE(row, col + 1) == asked + RowOfE(row, col) + [PutGlyph([0x45], 1, Pos(row, col))]
  {
  }

  lemma OneMoreRow(lines: seq<Line>, cols: nat, row: nat, asked: seq<Request>)
    requires row < |lines|
    ensures asked + FullOfE(lines, cols, row + 1) == asked + FullOfE(lines, cols, row) + RowOfE(row, if lines[row].doublewidth then cols / 2 else cols)
  {
  }

  /** On single lines the glyph of each cell is where reading order has it. */
  lemma {:induction false} FullOfEAt(lines: seq<Line>, cols: nat, rows: nat, row: nat, col: nat)
    requires rows <= |lines| && (forall r :: 0 <= r < rows ==> !lines[r].doublewidth) && row < rows && col < cols
    ensures |FullOfE(lines, cols, rows)| == rows * cols && row * cols + col < rows * cols
    ensures FullOfE(lines, cols, rows)[row * cols + col] == PutGlyph([0x45], 1, Pos(row, col))
  {
    FullOfELength(lines, cols, rows - 1);
    LessTimes(row, rows, cols);
    assert rows * cols == (rows - 1) * cols + cols;
    if row < rows - 1 {
      FullOfEAt(lines, cols, rows - 1, row, col);
    }
  }

  lemma {:induction false} FullOfELength(lines: seq<Line>, cols: nat, rows: nat)
    requires rows <= |lines| && forall r :: 0 <= r < rows ==> !lines[r].doublewidth
    ensures |FullOfE(lines, cols, rows)| == rows * cols
  {
    if rows > 0 {
      FullOfELength(lines, cols, rows - 1);
    }
  }

  /** The column up to which EL or ECH erases. */
  function ErasedTo(final: byte, args: seq<Arg>, col: int, width: int): int {
    if final == 0x58 then Min(col + Count(args), width) else if Or(args, 0, 0) == 1 then col + 1 else width
  }

  /** The functions that aim at a place. */
  predicate Aims(final: byte) { IsMove(final) || final in {0x49, 0x5a, 0x62, 0x72, 0x73} }

  /** How the other functions without leader or intermediate bytes end. */
  function PlainOutcome(final: byte, args: seq<Arg>, clears: bool): Outcome {
    if final == 0x4a && Or(args, 0, 0) == 3 && clears then Ends
    else if final == 0x4b && Or(args, 0, 0) !in {0, 1, 2} then Unknown
    else if final == 0x67 && Or(args, 0, 0) !in {0, 1, 2, 3, 4, 5} then Unknown
    else if final in {0x40, 0x4a, 0x4b, 0x4c, 0x4d, 0x50, 0x53, 0x54, 0x58, 0x63, 0x67, 0x68, 0x6c, 0x6d, 0x6e} then Acts(true)
    else Unknown
  }

  /** DECSET and DECRST. */
  predicate SetsModes(leader: seq<byte>, intermed: seq<byte>, final: byte) { leader == [0x3f] && intermed == [] && final in {0x68, 0x6c} }

  /** DECSTR. */
  predicate Resets(leader: seq<byte>, intermed: seq<byte>, final: byte) { leader == [] && intermed == [0x21] && final == 0x70 }

  /** ICH, DCH, IL, DL, SU and SD; DECIC and DECDC. */
  predicate Shifts(leader: seq<byte>, intermed: seq<byte>, final: byte) {
    leader == [] && if intermed == [] then final in {0x40, 0x4c, 0x4d, 0x50, 0x53, 0x54} else intermed == [0x27] && final in {0x7d, 0x7e}
  }

  /** The functions that ask for anything, or change lines as they do. */
  predicate Asks(leader: seq<byte>, intermed: seq<byte>, final: byte) {
    || SetsModes(leader, intermed, final) || Shifts(leader, intermed, final)
    || ((leader == [] || leader == [0x3f]) && intermed == [] && final in {0x4a, 0x4b})
    || (leader == [] && intermed == [] && final in {0x58, 0x62})
  }

  /**
   The functions there are, by their bytes: those without leader and intermediate bytes, of which EL and TBC know only some
   arguments; those with; which of them move the cursor by their arguments; and which ask the screen for anything.
   */
  lemma FunctionTable(leader: seq<byte>, args: seq<Arg>, intermed: seq<byte>, final: byte, clears: bool)
    ensures var first := if args == [] || args[0].value == 0x7fff_ffff then 0 else args[0].value;
            && (CsiOutcome([], args, [], final, clears) != Unknown <==>
                  && final in {0x40, 0x41, 0x42, 0x43, 0x44, 0x45, 0x46, 0x47, 0x48, 0x49, 0x4a, 0x4b, 0x4c, 0x4d, 0x50, 0x53, 0x54, 0x58, 0x5a, 0x60,
                               0x61, 0x62, 0x63, 0x64, 0x65, 0x66, 0x67, 0x68, 0x6a, 0x6b, 0x6c, 0x6d, 0x6e, 0x72, 0x73}
                  && (final == 0x4b ==> first <= 2) && (final == 0x67 ==> first <= 5))
            && (CsiOutcome([0x3f], args, [], final, clears) != Unknown <==>
                  final in {0x4a, 0x4b, 0x68, 0x6c, 0x6d, 0x6e} && (final == 0x4b ==> first <= 2))
            && (intermed != [] && leader == [] ==>
                  (CsiOutcome(leader, args, intermed, final, clears) != Unknown <==>
                     (intermed[0], |intermed|, final) in {(0x20, 1, 0x71), (0x21, 1, 0x70), (0x22, 1, 0x71), (0x27, 1, 0x7d), (0x27, 1, 0x7e)}))
            && (CsiOutcome(leader, args, intermed, final, clears) == Ends <==>
                  clears && first == 3 && final == 0x4a && intermed == [] && (leader == [] || leader == [0x3f]))
    ensures IsMove(final) <==> final in {0x41, 0x42, 0x43, 0x44, 0x45, 0x46, 0x47, 0x48, 0x60, 0x61, 0x64, 0x65, 0x66, 0x6a, 0x6b}
    ensures Asks([], [], final) <==> final in {0x40, 0x4a, 0x4b, 0x4c, 0x4d, 0x50, 0x53, 0x54, 0x58, 0x62}
    ensures Asks([0x3f], [], final) <==> final in {0x4a, 0x4b, 0x68, 0x6c}
    ensures intermed != [] ==> (Asks(leader, intermed, final) <==> leader == [] && intermed == [0x27] && final in {0x7d, 0x7e})
  {
  }

  function CsiOutcome(leader: seq<byte>, args: seq<Arg>, intermed: seq<byte>, final: byte, clears: bool): Outcome {
    if leader == [] && intermed == [] then (if Aims(final) then Acts(true) else PlainOutcome(final, args, clears))
    else MarkedOutcome(leader, args, intermed, final, clears)
  }

  lemma KindsApart(leader: seq<byte>, intermed: seq<byte>, final: byte)
    ensures leader == [] && intermed == [] ==> !SetsModes(leader, intermed, final) && !Resets(leader, intermed, final)
    ensures SetsModes(leader, intermed, final) ==> leader == [0x3f] && intermed == [] && final in {0x68, 0x6c} && !Resets(leader, intermed, final) && Asks(leader, intermed, final)
    ensures Resets(leader, intermed, final) ==> leader == []
    ensures !(leader == [] && intermed == []) && Shifts(leader, intermed, final) ==> leader == [] && intermed == [0x27]
    ensures leader == [0x3f] && intermed == [] && final == 0x68 ==> SetsModes(leader, intermed, final)
    ensures Aims(final) ==> !Shifts([], [], final) && (Asks([], [], final) <==> final == 0x62)
  {
  }

  function MarkedOutcome(leader: seq<byte>, args: seq<Arg>, intermed: seq<byte>, final: byte, clears: bool): Outcome {
    if leader == [0x3f] && intermed == [] && final == 0x4a && Or(args, 0, 0) == 3 && clears then Ends
    else if leader == [0x3f] && intermed == [] && final == 0x4b && Or(args, 0, 0) !in {0, 1, 2} then Unknown
    else if
      || (leader == [0x3f] && intermed == [] && final in {0x4a, 0x4b, 0x68, 0x6c, 0x6d, 0x6e})
      || (leader == [0x3e] && intermed == [] && final in {0x63, 0x71})
      || (leader == [0x3f] && intermed == [0x24] && final == 0x70)
      || (leader == [] && intermed == [0x21] && final == 0x70)
      || (leader == [] && intermed == [0x27] && final in {0x7d, 0x7e})
      || (leader == [] && (intermed == [0x20] || intermed == [0x22]) && final == 0x71)
    then Acts(true)
    else Unknown
  }

  predicate IsShift(final: byte) { final in {0x40, 0x4c, 0x4d, 0x50, 0x53, 0x54, 0x7d, 0x7e} }

  function ShiftDown(final: byte, count: int): int {
    if final == 0x4d || final == 0x53 then count else if final == 0x4c || final == 0x54 then -count else 0
  }

  function ShiftRight(final: byte, count: int): int {
    if final == 0x50 || final == 0x7e then count else if final == 0x40 || final == 0x7d then -count else 0
  }

  predicate IsMove(final: byte) {
    0x41 <= final <= 0x48 || final in {0x60, 0x61, 0x64, 0x65, 0x66, 0x6a, 0x6b}
  }

  /** A count left out, or 0, is 1; an address left out is 1, and addresses count from 1. */
  lemma MovesAre(p: Pos, o: Pos, n: nat, k: nat)
    requires 0 < n < 0x7fff_ffff && 0 < k < 0x7fff_ffff
    ensures var arg := [Arg(n, false)];
            && Target(0x41, arg, p, o) == Pos(p.row - n, p.col) && Target(0x42, arg, p, o) == Pos(p.row + n, p.col)
            && Target(0x43, arg, p, o) == Pos(p.row, p.col + n) && Target(0x44, arg, p, o) == Pos(p.row, p.col - n)
            && Target(0x45, arg, p, o) == Pos(p.row + n, 0) && Target(0x46, arg, p, o) == Pos(p.row - n, 0)
            && Target(0x47, arg, p, o) == Pos(p.row, n - 1) && Target(0x60, arg, p, o) == Pos(p.row, n - 1)
            && Target(0x61, arg, p, o) == Pos(p.row, p.col + n) && Target(0x64, arg, p, o) == Pos(o.row + n - 1, p.col)
            && Target(0x65, arg, p, o) == Pos(p.row + n, p.col) && Target(0x6a, arg, p, o) == Pos(p.row, p.col - n)
            && Target(0x6b, arg, p, o) == Pos(p.row - n, p.col)
    ensures var to := [Arg(n, false), Arg(k, false)];
            Target(0x48, to, p, o) == Target(0x66, to, p, o) == Pos(o.row + n - 1, o.col + k - 1)
    ensures Target(0x48, [], p, o) == Target(0x66, [Arg(0x7fff_ffff, false)], p, o) == o
    ensures forall final: byte :: final in {0x41, 0x42, 0x43, 0x44, 0x45, 0x46, 0x61, 0x65, 0x6a, 0x6b} ==>
              Target(final, [], p, o) == Target(final, [Arg(0, false)], p, o) == Target(final, [Arg(0x7fff_ffff, false)], p, o) == Target(final, [Arg(1, false)], p, o)
    ensures forall final: byte :: final in {0x47, 0x60, 0x64} ==>
              Target(final, [], p, o) == Target(final, [Arg(0x7fff_ffff, false)], p, o) == Target(final, [Arg(1, false)], p, o)
  {
  }

  /** Where a movement aims, before it is brought back into the screen. */
  function Target(final: byte, args: seq<Arg>, p: Pos, origin: Pos): Pos {
    match final
    case 0x41 | 0x6b => p.(row := p.row - Count(args))
    case 0x42 | 0x65 => p.(row := p.row + Count(args))
    case 0x43 | 0x61 => p.(col := p.col + Count(args))
    case 0x44 | 0x6a => p.(col := p.col - Count(args))
    case 0x45 => Pos(p.row + Count(args), 0)
    case 0x46 => Pos(p.row - Count(args), 0)
    case 0x47 | 0x60 => p.(col := Or(args, 0, 1) - 1)
    case 0x64 => p.(row := Or(args, 0, 1) - 1 + origin.row)
    case _ => Pos(Or(args, 0, 1) - 1 + origin.row, Or(args, 1, 1) - 1 + origin.col)
  }

  lemma OrdinaryFrom(width: nat -> int, combining: nat -> bool, cols: nat, points: seq<nat>, i: nat)
    requires i <= |points| && (forall k :: 0 <= k < i ==> combining(points[k])) && (i < |points| && i > 0 ==> !combining(points[i]))
    ensures Ordinary(width, combining, cols, points) ==> Ordinary(width, combining, cols, points[i..])
  {
    if i == 0 {
      assert points[0..] == points;
    } else {
      RunIs(combining, points, i);
    }
  }

  lemma GlyphNext(width: nat -> int, combining: nat -> bool, cols: nat, points: seq<nat>, i: nat, end: nat, next: nat)
    requires i < end <= next <= |points| && end == i + Min(next - i, Cells.MAX_CHARS_PER_CELL)
    requires (forall k :: i < k < next ==> combining(points[k])) && (next < |points| ==> !combining(points[next]))
    ensures Ordinary(width, combining, cols, points[i..]) ==>
              0 <= WidthOf(width, points[i..end]) <= cols && Ordinary(width, combining, cols, points[next..])
    ensures LastGlyph(combining, points[i..]) == if next == |points| then points[i..end] else LastGlyph(combining, points[next..])
  {
    hide RunLength, WidthOf;
    var rest := points[i..];
    RunIs(combining, rest, next - i);
    assert rest[..end - i] == points[i..end] && rest[next - i..] == points[next..];
  }

  lemma DrawnFirst(combining: nat -> bool, points: seq<nat>)
    requires points != []
    ensures var n := RunLength(combining, points);
            Drawn(combining, points) == points[..Min(n, Cells.MAX_CHARS_PER_CELL)] + Drawn(combining, points[n..])
  {
  }

  lemma DrawnNext(combining: nat -> bool, points: seq<nat>, i: nat, end: nat, next: nat, text: seq<nat>)
    requires i < end <= next <= |points| && end == i + Min(next - i, Cells.MAX_CHARS_PER_CELL)
    requires (forall k :: i < k < next ==> combining(points[k])) && (next < |points| ==> !combining(points[next]))
    ensures text + Drawn(combining, points[i..]) == text + points[i..end] + Drawn(combining, points[next..])
  {
    hide Drawn, RunLength;
    var rest := points[i..];
    RunIs(combining, rest, next - i);
    DrawnFirst(combining, rest);
    assert rest[..end - i] == points[i..end] && rest[next - i..] == points[next..];
    assert text + (points[i..end] + Drawn(combining, points[next..])) == text + points[i..end] + Drawn(combining, points[next..]);
  }

  /** The distance is at most the size; on an inverted rectangle it is the size. */
  function Cut(distance: int, size: int): int {
    if distance > size then size else if distance < -size then -size else distance
  }

  /** The attributes of the lines after a scroll: full lines that move take them along, and those uncovered are plain. */
  ghost function LinesAfter(lines: seq<Line>, rect: Rect, cols: nat, downward: int, rightward: int): (r: seq<Line>)
    ensures |r| == |lines|
  {
    var down, right := Cut(downward, rect.endRow - rect.startRow), Cut(rightward, rect.endCol - rect.startCol);
    if rect.startCol != 0 || rect.endCol != cols || right != 0 || down == 0 then lines
    else
      seq(|lines|, r requires 0 <= r < |lines| =>
        if !(rect.startRow <= r < rect.endRow) then lines[r]
        else if rect.startRow <= r + down < rect.endRow && 0 <= r + down < |lines| then lines[r + down]
        else PLAIN)
  }

  /** The lines from `top` to `bottom` move up by one, and a plain one comes below. */
  function ScrolledUp(lines: seq<Line>, top: nat, bottom: nat): (r: seq<Line>)
    requires top < bottom <= |lines|
    ensures |r| == |lines| && r[bottom - 1] == Line(false, 0, false)
    ensures forall k :: 0 <= k < |lines| && k != bottom - 1 ==> r[k] == lines[if top <= k < bottom then k + 1 else k]
  {
    lines[..top] + (lines[top + 1..bottom] + [PLAIN]) + lines[bottom..]
  }

  /** Or down, and one comes above. */
  function ScrolledDown(lines: seq<Line>, top: nat, bottom: nat): (r: seq<Line>)
    requires top < bottom <= |lines|
    ensures |r| == |lines| && r[top] == Line(false, 0, false)
    ensures forall k :: 0 <= k < |lines| && k != top ==> r[k] == lines[if top < k < bottom then k - 1 else k]
  {
    lines[..top] + ([PLAIN] + lines[top..bottom - 1]) + lines[bottom..]
  }

  /** A scroll by one, of full lines: the first or the last of them goes and a plain one comes. */
  lemma LinesAfterOne(lines: seq<Line>, rect: Rect, cols: nat)
    requires 0 <= rect.startRow < rect.endRow <= |lines| && rect.startCol == 0 && rect.endCol == cols
    ensures LinesAfter(lines, rect, cols, 1, 0) == ScrolledUp(lines, rect.startRow, rect.endRow)
    ensures LinesAfter(lines, rect, cols, -1, 0) == ScrolledDown(lines, rect.startRow, rect.endRow)
  {
    assert LinesAfter(lines, rect, cols, 1, 0) == ScrolledUp(lines, rect.startRow, rect.endRow);
    assert LinesAfter(lines, rect, cols, -1, 0) == ScrolledDown(lines, rect.startRow, rect.endRow);
  }

  /** Two scrolls in one direction are one. */
  lemma LinesAfterTwice(lines: seq<Line>, rect: Rect, cols: nat, a: int, b: int)
    requires 0 <= rect.startRow <= rect.endRow <= |lines| && rect.startCol == 0 && rect.endCol == cols
    requires (a >= 0 && b >= 0) || (a <= 0 && b <= 0)
    ensures LinesAfter(LinesAfter(lines, rect, cols, a, 0), rect, cols, b, 0) == LinesAfter(lines, rect, cols, a + b, 0)
  {
  }

  lemma SingleAfter(lines: seq<Line>, rect: Rect, cols: nat, downward: int, rightward: int)
    ensures AllSingle(lines) ==> AllSingle(LinesAfter(lines, rect, cols, downward, rightward))
  {
  }

  /** How many tab stops there are in the columns from `a` to `b`. */
  function Stops(tabstops: seq<bool>, a: int, b: int): nat
    decreases b - a
  {
    if a >= b then 0 else Stops(tabstops, a, b - 1) + if 0 <= b - 1 < |tabstops| && tabstops[b - 1] then 1 else 0
  }

  lemma {:induction false} StopsSplit(tabstops: seq<bool>, a: int, b: int, c: int)
    requires a <= b <= c
    ensures Stops(tabstops, a, c) == Stops(tabstops, a, b) + Stops(tabstops, b, c)
    decreases c - b
  {
    if b < c {
      StopsSplit(tabstops, a, b, c - 1);
    }
  }

  /** It is how many there are. */
  lemma {:induction false} StopsCount(tabstops: seq<bool>, a: nat, b: nat)
    requires b <= |tabstops|
    ensures Stops(tabstops, a, b) == |set c | a <= c < b && tabstops[c]|
    decreases b - a
  {
    var all := set c | a <= c < b && tabstops[c];
    if a < b {
      StopsCount(tabstops, a, b - 1);
      assert Stops(tabstops, a, b) == Stops(tabstops, a, b - 1) + if tabstops[b - 1] then 1 else 0;
      hide Stops;
      var less := set c | a <= c < b - 1 && tabstops[c];
      assert all == if tabstops[b - 1] then less + {b - 1} else less;
    } else {
      assert all == {};
    }
  }

  /** The same from the other end. */
  lemma {:induction false} StopsFromLeft(tabstops: seq<bool>, a: int, b: int)
    requires a < b
    ensures Stops(tabstops, a, b) == Stops(tabstops, a + 1, b) + if 0 <= a < |tabstops| && tabstops[a] then 1 else 0
    decreases b - a
  {
    if a < b - 1 {
      StopsFromLeft(tabstops, a, b - 1);
    }
  }
}
