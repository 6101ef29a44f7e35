/**
 What resizing means: logical lines, and how they are laid out at a new width.

 A logical line is a row together with the continuation rows under it.  With reflow on, resizing lays
 each logical line out again at the new width; with reflow off, every row stands alone and is clipped.
 */
module Reflow {
  import opened Cells

  /** One row of a buffer with its line info. */
  datatype Line = Line(cells: Row, continuation: bool)

  datatype Layout = Layout(reflow: bool, cols: nat, blank: Cell)

  ghost predicate ValidLayout(lay: Layout) { lay.cols > 0 && IsBlank(lay.blank) }

  function Flat(lines: seq<Line>): Row {
    if lines == [] then [] else Flat(lines[..|lines| - 1]) + lines[|lines| - 1].cells
  }

  /** The number of rows in the logical line that starts at the first row. */
  function ChainLength(reflow: bool, lines: seq<Line>): (n: nat)
    requires lines != []
    ensures 0 < n <= |lines|
    ensures !reflow ==> n == 1
    ensures forall i :: 0 < i < n ==> lines[i].continuation
    ensures reflow && n < |lines| ==> !lines[n].continuation
  {
    if reflow && |lines| > 1 && lines[1].continuation then 1 + ChainLength(reflow, lines[1..]) else 1
  }

  /** The logical lines of a buffer, each without the blank cells at its end. */
  function LogicalLines(reflow: bool, lines: seq<Line>): seq<Row>
    decreases |lines|
  {
    if lines == [] then []
    else
      var n := ChainLength(reflow, lines);
      [Trim(Flat(lines[..n]))] + LogicalLines(reflow, lines[n..])
  }

  /** The rows of one logical line joined, up to the last non-blank cell of its last row. */
  function ChainText(chain: seq<Line>): Row
    requires chain != []
  {
    Flat(chain[..|chain| - 1]) + Trim(chain[|chain| - 1].cells)
  }

  function Pad(lay: Layout, text: Row): Row {
    if |text| < lay.cols then text + Blanks(lay.blank, lay.cols - |text|) else text
  }

  function Wrap(lay: Layout, text: Row, continuation: bool): (r: seq<Line>)
    requires lay.cols > 0
    ensures r != []
    decreases |text|
  {
    if |text| <= lay.cols then [Line(Pad(lay, text), continuation)]
    else [Line(text[..lay.cols], continuation)] + Wrap(lay, text[lay.cols..], true)
  }

  /** With reflow off a row wider than the new screen is clipped. */
  function Fit(lay: Layout, text: Row): Row {
    if lay.reflow || |text| <= lay.cols then text else text[..lay.cols]
  }

  function Place(lay: Layout, text: Row): (r: seq<Line>)
    requires lay.cols > 0
    ensures r != []
    ensures !lay.reflow ==> |r| == 1
  {
    if lay.reflow then Wrap(lay, text, false) else [Line(Pad(lay, Fit(lay, text)), false)]
  }

  /** Every logical line laid out at the new width, one under the other. */
  function PlaceAll(lay: Layout, lines: seq<Line>): seq<Line>
    requires lay.cols > 0
    decreases |lines|
  {
    if lines == [] then []
    else
      var n := ChainLength(lay.reflow, lines);
      Place(lay, ChainText(lines[..n])) + PlaceAll(lay, lines[n..])
  }

  function BlankLine(lay: Layout): Line { Line(Blanks(lay.blank, lay.cols), false) }

  function BlankLines(lay: Layout, n: nat): seq<Line> { seq(n, _ => BlankLine(lay)) }

  /** A logical line may start here: the buffer ends, or the next row does not continue this one. */
  predicate Boundary(reflow: bool, lines: seq<Line>) {
    reflow && lines != [] ==> !lines[0].continuation
  }

  predicate IsBlankLine(reflow: bool, line: Line) {
    Trim(line.cells) == [] && (reflow ==> !line.continuation)
  }

  function Empties(n: nat): seq<Row> { seq(n, _ => []) }

  // ----- joining rows

  lemma {:induction false} FlatConcat(a: seq<Line>, b: seq<Line>)
    ensures Flat(a + b) == Flat(a) + Flat(b)
  {
    if b == [] {
      assert a + b == a;
    } else {
      FlatConcat(a, b[..|b| - 1]);
      assert (a + b)[..|a + b| - 1] == a + b[..|b| - 1];
    }
  }

  lemma FlatOne(line: Line)
    ensures Flat([line]) == line.cells
  {
    assert [line][..0] == [];
    assert Flat([]) == [];
  }

  /** Cutting a chain off at its last non-blank cell only drops blank cells. */
  lemma ChainTextTrims(chain: seq<Line>)
    requires chain != []
    ensures Trim(Flat(chain)) == Trim(ChainText(chain))
    ensures ChainText(chain) == Flat(chain)[..|ChainText(chain)|]
  {
    var front, last := Flat(chain[..|chain| - 1]), chain[|chain| - 1].cells;
    var rest := TrimSplits(last);
    assert Flat(chain) == ChainText(chain) + rest by {
      RowAssoc(front, Trim(last), rest);
    }
    TrimPadded(ChainText(chain), rest);
  }

  lemma ChainTextLength(chain: seq<Line>)
    requires chain != []
    ensures |ChainText(chain)| == |Flat(chain[..|chain| - 1])| + |Trim(chain[|chain| - 1].cells)|
  {
  }

  lemma TrimSplits(row: Row) returns (rest: Row)
    ensures row == Trim(row) + rest
    ensures forall i :: 0 <= i < |rest| ==> IsBlank(rest[i])
  {
    rest := row[|Trim(row)|..];
  }

  lemma RowAssoc(a: Row, b: Row, c: Row)
    ensures (a + b) + c == a + (b + c)
  {
  }

  // ----- walking along a chain

  lemma {:induction false} FlatPrefix(chain: seq<Line>, i: nat)
    requires i < |chain|
    ensures Flat(chain[..i + 1]) == Flat(chain[..i]) + chain[i].cells
    ensures |Flat(chain[..i + 1])| <= |Flat(chain)|
    ensures Flat(chain)[..|Flat(chain[..i + 1])|] == Flat(chain[..i + 1])
  {
    assert chain[..i + 1][..i] == chain[..i];
    FlatConcat(chain[..i + 1], chain[i + 1..]);
    assert chain == chain[..i + 1] + chain[i + 1..];
  }

  /** The cell a walk along the rows of a chain reads is the next cell of its text. */
  lemma ChainTextAt(chain: seq<Line>, i: nat, c: nat)
    requires chain != [] && i < |chain| && c < |chain[i].cells|
    requires |Flat(chain[..i])| + c < |ChainText(chain)|
    ensures ChainText(chain)[|Flat(chain[..i])| + c] == chain[i].cells[c]
  {
    hide Trim, Flat, ChainText;
    ChainTextTrims(chain);
    FlatPrefix(chain, i);
    var p := |Flat(chain[..i])| + c;
    assert ChainText(chain)[p] == Flat(chain)[p] == Flat(chain[..i + 1])[p];
  }

  /** Rows further down start further along, by at least a row's width. */
  lemma {:induction false} FlatMonotone(chain: seq<Line>, cols: nat, i: nat, j: nat)
    requires i < j <= |chain|
    requires forall k :: 0 <= k < |chain| ==> |chain[k].cells| == cols
    ensures |Flat(chain[..i])| + cols <= |Flat(chain[..j])|
  {
    FlatPrefix(chain, j - 1);
    if i < j - 1 {
      FlatMonotone(chain, cols, i, j - 1);
    }
  }

  // ----- laying out one logical line

  lemma PadTrims(lay: Layout, text: Row)
    requires ValidLayout(lay)
    ensures Trim(Pad(lay, text)) == Trim(text)
  {
    if |text| < lay.cols {
      TrimPadded(text, Blanks(lay.blank, lay.cols - |text|));
    }
  }

  /** Wrapping keeps every cell in order and only pads the last row. */
  lemma {:induction false} WrapKeepsCells(lay: Layout, text: Row, continuation: bool) returns (padding: nat)
    requires ValidLayout(lay)
    ensures Flat(Wrap(lay, text, continuation)) == text + Blanks(lay.blank, padding)
    decreases |text|
  {
    if |text| <= lay.cols {
      FlatOne(Line(Pad(lay, text), continuation));
      padding := lay.cols - |text|;
    } else {
      var head, tail := text[..lay.cols], text[lay.cols..];
      padding := WrapKeepsCells(lay, tail, true);
      FlatOne(Line(head, continuation));
      FlatConcat([Line(head, continuation)], Wrap(lay, tail, true));
      assert text + Blanks(lay.blank, padding) == head + (tail + Blanks(lay.blank, padding));
    }
  }

  lemma {:induction false} WrapContinues(lay: Layout, text: Row, continuation: bool)
    requires lay.cols > 0
    ensures Wrap(lay, text, continuation)[0].continuation == continuation
    ensures forall i :: 0 < i < |Wrap(lay, text, continuation)| ==> Wrap(lay, text, continuation)[i].continuation
    ensures forall i :: 0 <= i < |Wrap(lay, text, continuation)| ==> |Wrap(lay, text, continuation)[i].cells| == lay.cols
    decreases |text|
  {
    if |text| > lay.cols {
      WrapContinues(lay, text[lay.cols..], true);
    }
  }

  /** The height the source computes is the number of rows the text takes. */
  lemma {:induction false} WrapHeight(lay: Layout, text: Row, continuation: bool)
    requires lay.cols > 0
    ensures |Wrap(lay, text, continuation)| == if text == [] then 1 else (|text| + lay.cols - 1) / lay.cols
    decreases |text|
  {
    if |text| > lay.cols {
      WrapHeight(lay, text[lay.cols..], true);
      DivStep(|text| - 1, lay.cols);
    } else if text != [] {
      DivOne(|text| - 1, lay.cols);
    }
  }

  lemma DivStep(n: nat, d: nat)
    requires d > 0
    ensures (n + d) / d == n / d + 1
  {
    assert n + d == (n / d + 1) * d + n % d;
    DivUnique(n + d, d, n / d + 1, n % d);
  }

  lemma DivOne(n: nat, d: nat)
    requires n < d
    ensures (n + d) / d == 1
  {
    DivUnique(n + d, d, 1, n);
  }

  lemma DivUnique(n: nat, d: nat, q: nat, r: nat)
    requires r < d && n == q * d + r
    ensures n / d == q
  {
    var q', r' := n / d, n % d;
    if q < q' {
      MulAtLeast(q + 1, q', d);
    } else if q' < q {
      MulAtLeast(q' + 1, q, d);
    }
  }

  lemma MulAtLeast(a: nat, b: nat, d: nat)
    requires a <= b
    ensures a * d <= b * d && a * d == (a - 1) * d + d
  {
    assert b * d == a * d + (b - a) * d;
  }

  lemma {:induction false} ChainLengthIs(reflow: bool, lines: seq<Line>, n: nat)
    requires 0 < n <= |lines|
    requires if reflow then (forall i :: 0 < i < n ==> lines[i].continuation) && Boundary(reflow, lines[n..]) else n == 1
    ensures ChainLength(reflow, lines) == n
    decreases n
  {
    if reflow && n > 1 {
      assert lines[1..][n - 1..] == lines[n..];
      ChainLengthIs(reflow, lines[1..], n - 1);
    }
  }

  lemma PlaceContinues(lay: Layout, text: Row)
    requires lay.cols > 0
    ensures !Place(lay, text)[0].continuation
    ensures lay.reflow ==> forall i :: 0 < i < |Place(lay, text)| ==> Place(lay, text)[i].continuation
    ensures forall i :: 0 <= i < |Place(lay, text)| ==> |Place(lay, text)[i].cells| == lay.cols
  {
    if lay.reflow {
      WrapContinues(lay, text, false);
    }
  }

  lemma PlaceKeepsText(lay: Layout, text: Row)
    requires ValidLayout(lay)
    ensures Trim(Flat(Place(lay, text))) == Trim(Fit(lay, text))
  {
    if lay.reflow {
      var padding := WrapKeepsCells(lay, text, false);
      TrimPadded(text, Blanks(lay.blank, padding));
    } else {
      FlatOne(Line(Pad(lay, Fit(lay, text)), false));
      PadTrims(lay, Fit(lay, text));
    }
  }

  // ----- laying out a whole buffer

  function FitAll(lay: Layout, lines: seq<Row>): seq<Row> {
    seq(|lines|, i requires 0 <= i < |lines| => Trim(Fit(lay, lines[i])))
  }

  lemma FitAllCons(lay: Layout, line: Row, lines: seq<Row>)
    ensures FitAll(lay, [line] + lines) == [Trim(Fit(lay, line))] + FitAll(lay, lines)
  {
  }

  /** The logical line at the top of a buffer comes first. */
  lemma LogicalLinesCons(reflow: bool, chain: seq<Line>, rest: seq<Line>)
    requires chain != [] && Boundary(reflow, rest)
    requires if reflow then forall i :: 0 < i < |chain| ==> chain[i].continuation else |chain| == 1
    ensures LogicalLines(reflow, chain + rest) == [Trim(Flat(chain))] + LogicalLines(reflow, rest)
  {
    assert (chain + rest)[..|chain|] == chain && (chain + rest)[|chain|..] == rest;
    ChainLengthIs(reflow, chain + rest, |chain|);
  }

  lemma PlaceAllCons(lay: Layout, chain: seq<Line>, rest: seq<Line>)
    requires lay.cols > 0 && chain != [] && Boundary(lay.reflow, rest)
    requires if lay.reflow then forall i :: 0 < i < |chain| ==> chain[i].continuation else |chain| == 1
    ensures PlaceAll(lay, chain + rest) == Place(lay, ChainText(chain)) + PlaceAll(lay, rest)
  {
    assert (chain + rest)[..|chain|] == chain && (chain + rest)[|chain|..] == rest;
    ChainLengthIs(lay.reflow, chain + rest, |chain|);
  }

  lemma PlaceAllStarts(lay: Layout, lines: seq<Line>)
    requires lay.cols > 0
    ensures Boundary(lay.reflow, PlaceAll(lay, lines))
  {
    if lines != [] {
      PlaceContinues(lay, ChainText(lines[..ChainLength(lay.reflow, lines)]));
    }
  }

  /** Fitting twice or trimming first makes no difference. */
  lemma FitTrim(lay: Layout, chain: seq<Line>)
    requires chain != [] && (!lay.reflow ==> |chain| == 1)
    ensures Trim(Fit(lay, ChainText(chain))) == Trim(Fit(lay, Trim(Flat(chain))))
  {
    hide Trim;
    ChainTextTrims(chain);
    if lay.reflow {
      TrimTrim(Flat(chain));
    } else {
      FlatOne(chain[0]);
      assert chain == [chain[0]];
      assert Flat(chain[..0]) == [];
      assert ChainText(chain) == Trim(Flat(chain));
    }
  }

  lemma TrimTrim(row: Row)
    ensures Trim(Trim(row)) == Trim(row)
  {
  }

  /**
   Laying a buffer out at a new width keeps its logical lines: with reflow on, cell for cell up to
   blank cells at line ends; with reflow off, each clipped to the new width.
   */
  lemma {:induction false} PlaceAllKeepsLogicalLines(lay: Layout, lines: seq<Line>)
    requires ValidLayout(lay)
    ensures LogicalLines(lay.reflow, PlaceAll(lay, lines)) == FitAll(lay, LogicalLines(lay.reflow, lines))
    decreases |lines|
  {
    if lines != [] {
      var n := ChainLength(lay.reflow, lines);
      var chain, rest := lines[..n], lines[n..];
      var placed := Place(lay, ChainText(chain));
      calc {
        LogicalLines(lay.reflow, PlaceAll(lay, lines));
        LogicalLines(lay.reflow, placed + PlaceAll(lay, rest));
        { PlaceAllStarts(lay, rest); PlaceContinues(lay, ChainText(chain));
          LogicalLinesCons(lay.reflow, placed, PlaceAll(lay, rest)); }
        [Trim(Flat(placed))] + LogicalLines(lay.reflow, PlaceAll(lay, rest));
        { PlaceAllKeepsLogicalLines(lay, rest); }
        [Trim(Flat(placed))] + FitAll(lay, LogicalLines(lay.reflow, rest));
        { PlaceKeepsText(lay, ChainText(chain)); FitTrim(lay, chain); }
        [Trim(Fit(lay, Trim(Flat(chain))))] + FitAll(lay, LogicalLines(lay.reflow, rest));
        { FitAllCons(lay, Trim(Flat(chain)), LogicalLines(lay.reflow, rest)); }
        FitAll(lay, [Trim(Flat(chain))] + LogicalLines(lay.reflow, rest));
        FitAll(lay, LogicalLines(lay.reflow, lines));
      }
    }
  }

  lemma LineAssoc(a: seq<Line>, b: seq<Line>, c: seq<Line>)
    ensures (a + b) + c == a + (b + c)
  {
  }

  /** Laying out two parts separately is laying out the whole, when the cut is between logical lines. */
  lemma {:induction false} PlaceAllConcat(lay: Layout, a: seq<Line>, b: seq<Line>)
    requires lay.cols > 0 && Boundary(lay.reflow, b)
    ensures PlaceAll(lay, a + b) == PlaceAll(lay, a) + PlaceAll(lay, b)
    decreases |a|
  {
    hide Flat, Trim, Place, ChainText, ChainLength;
    if a == [] {
      assert a + b == b;
    } else {
      var n := ChainLength(lay.reflow, a);
      var chain, rest := a[..n], a[n..];
      assert a == chain + rest && a + b == chain + (rest + b);
      PlaceAllConcat(lay, rest, b);
      PlaceAllCons(lay, chain, rest + b);
      LineAssoc(Place(lay, ChainText(chain)), PlaceAll(lay, rest), PlaceAll(lay, b));
    }
  }

  lemma ChainTextOne(line: Line)
    ensures ChainText([line]) == Trim(line.cells)
  {
    assert [line][..0] == [];
    assert Flat([]) == [];
  }

  lemma PlaceBlank(lay: Layout, line: Line)
    requires ValidLayout(lay) && IsBlankLine(lay.reflow, line)
    ensures Place(lay, ChainText([line])) == [BlankLine(lay)]
  {
    ChainTextOne(line);
    assert Pad(lay, []) == Blanks(lay.blank, lay.cols);
  }

  lemma {:induction false} PlaceAllBlanks(lay: Layout, lines: seq<Line>)
    requires ValidLayout(lay)
    requires forall i :: 0 <= i < |lines| ==> IsBlankLine(lay.reflow, lines[i])
    ensures PlaceAll(lay, lines) == BlankLines(lay, |lines|)
    decreases |lines|
  {
    if lines != [] {
      calc {
        PlaceAll(lay, lines);
        { assert lines == [lines[0]] + lines[1..]; PlaceAllCons(lay, [lines[0]], lines[1..]); }
        Place(lay, ChainText([lines[0]])) + PlaceAll(lay, lines[1..]);
        { PlaceBlank(lay, lines[0]); PlaceAllBlanks(lay, lines[1..]); }
        [BlankLine(lay)] + BlankLines(lay, |lines| - 1);
        BlankLines(lay, |lines|);
      }
    }
  }

  lemma {:induction false} LogicalLinesConcat(reflow: bool, a: seq<Line>, b: seq<Line>)
    requires Boundary(reflow, b)
    ensures LogicalLines(reflow, a + b) == LogicalLines(reflow, a) + LogicalLines(reflow, b)
    decreases |a|
  {
    hide Flat, Trim, ChainLength;
    if a == [] {
      assert a + b == b;
    } else {
      var n := ChainLength(reflow, a);
      var chain, rest := a[..n], a[n..];
      assert a == chain + rest && a + b == chain + (rest + b);
      LogicalLinesConcat(reflow, rest, b);
      LogicalLinesCons(reflow, chain, rest + b);
    }
  }

  lemma {:induction false} LogicalLinesBlanks(reflow: bool, lines: seq<Line>)
    requires forall i :: 0 <= i < |lines| ==> IsBlankLine(reflow, lines[i])
    ensures LogicalLines(reflow, lines) == Empties(|lines|)
    decreases |lines|
  {
    hide Trim, ChainLength;
    if lines != [] {
      LogicalLinesBlanks(reflow, lines[1..]);
      assert lines == [lines[0]] + lines[1..];
      LogicalLinesCons(reflow, [lines[0]], lines[1..]);
      FlatOne(lines[0]);
      assert Empties(|lines|) == [[]] + Empties(|lines| - 1);
    }
  }

  /** Logical lines are already trimmed, so with reflow on fitting changes none of them. */
  lemma {:induction false} LogicalLinesFit(lay: Layout, lines: seq<Line>)
    requires lay.reflow
    ensures FitAll(lay, LogicalLines(true, lines)) == LogicalLines(true, lines)
    decreases |lines|
  {
    if lines != [] {
      var n := ChainLength(true, lines);
      LogicalLinesFit(lay, lines[n..]);
      TrimTrim(Flat(lines[..n]));
      FitAllCons(lay, Trim(Flat(lines[..n])), LogicalLines(true, lines[n..]));
    }
  }

  /** With reflow off every row stays one row: clipped or padded, without its blank cells at the end. */
  lemma {:induction false} PlaceAllClips(lay: Layout, lines: seq<Line>)
    requires lay.cols > 0 && !lay.reflow
    ensures |PlaceAll(lay, lines)| == |lines|
    ensures forall i :: 0 <= i < |lines| ==>
              PlaceAll(lay, lines)[i] == Line(Pad(lay, Fit(lay, Trim(lines[i].cells))), false)
    decreases |lines|
  {
    hide Trim, Flat, ChainText, ChainLength, Pad;
    if lines != [] {
      PlaceAllClips(lay, lines[1..]);
      assert lines == [lines[0]] + lines[1..];
      PlaceAllCons(lay, [lines[0]], lines[1..]);
      ChainTextOne(lines[0]);
    }
  }
}
