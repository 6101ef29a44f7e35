/**
 Select Graphic Rendition (ECMA-48 section 8.3.117) in src/libvterm/src/pen.c: the interpreter of SGR
 arguments, the reporter that DECRQSS answers with, and the text that goes between them.
 */
module Sgr {
  import opened Bytes
  import opened ControlSequences
  import opened Grammar

  datatype Colour = Default | Indexed(index: byte) | Rgb(red: byte, green: byte, blue: byte)

  datatype Underline = UnderlineOff | Single | Double | Curly

  datatype Baseline = Normal | Raise | Lower

  /** The attributes that are on or off. */
  datatype Marks = Marks(bold: bool, italic: bool, blink: bool, reverse: bool, conceal: bool, strike: bool)

  datatype Pen = Pen(fg: Colour, bg: Colour, marks: Marks, underline: Underline, font: nat, small: bool, baseline: Baseline)

  const PLAIN := Marks(false, false, false, false, false, false)
  const RESET := Pen(Default, Default, PLAIN, UnderlineOff, 0, false, Normal)

  predicate WellFormed(pen: Pen) {
    pen.font <= 9 && (pen.small <==> pen.baseline != Normal)
  }

  /** An argument past the last is taken to be missing. */
  function At(args: seq<Arg>, i: nat): Arg {
    if i < |args| then args[i] else MISSING
  }

  datatype Lookup = Lookup(colour: Colour, used: nat)

  /** lookup_colour: the arguments after 38 or 48. */
  function LookupColour(palette: nat, args: seq<Arg>, colour: Colour): Lookup {
    if palette == 2 then
      if |args| < 3 then Lookup(colour, |args|)
      else Lookup(Rgb(args[0].value % 0x100, args[1].value % 0x100, args[2].value % 0x100), 3)
    else if palette == 5 then
      if args == [] then Lookup(colour, 0)
      else if args[0].value == CSI_ARG_MISSING then Lookup(colour, 1)
      else Lookup(Indexed(args[0].value % 0x100), 1)
    else Lookup(colour, 0)
  }

  function From(args: seq<Arg>, i: nat): seq<Arg> {
    if i <= |args| then args[i..] else []
  }

  /** Which argument ends the group that `i` is in: the first from there without a ':' after it. */
  function GroupEnd(args: seq<Arg>, i: nat): (k: nat)
    ensures k > i
    decreases |args| - i
  {
    if i < |args| && args[i].more then GroupEnd(args, i + 1) else i + 1
  }

  datatype Effect = Effect(pen: Pen, last: nat)

  function UnderlineStyle(n: nat): Underline {
    if n == 0 then UnderlineOff else if n == 2 then Double else if n == 3 then Curly else Single
  }

  /** 1 to 9: an attribute goes on. */
  function TurnOn(marks: Marks, v: nat): Marks {
    match v
    case 1 => marks.(bold := true)
    case 3 => marks.(italic := true)
    case 5 => marks.(blink := true)
    case 7 => marks.(reverse := true)
    case 8 => marks.(conceal := true)
    case 9 => marks.(strike := true)
    case _ => marks
  }

  /** 22 to 29: an attribute goes off. */
  function TurnOff(marks: Marks, v: nat): Marks {
    match v
    case 22 => marks.(bold := false)
    case 23 => marks.(italic := false)
    case 25 => marks.(blink := false)
    case 27 => marks.(reverse := false)
    case 28 => marks.(conceal := false)
    case 29 => marks.(strike := false)
    case _ => marks
  }

  /** Bold makes a dark foreground bright, if the terminal is set up that way. */
  function Raised(highbright: bool, c: Colour): Colour {
    if highbright && c.Indexed? && c.index < 8 then Indexed(c.index + 8) else c
  }

  /** 73 to 75. */
  function Script(pen: Pen, v: nat): Pen {
    match v
    case 73 => pen.(small := true, baseline := Raise)
    case 74 => pen.(small := true, baseline := Lower)
    case 75 => pen.(small := false, baseline := Normal)
    case _ => pen
  }

  /** The foreground that an argument names on its own. */
  function Foreground(highbright: bool, pen: Pen, v: nat): Colour {
    if 30 <= v <= 37 then Indexed(v - 30 + if pen.marks.bold && highbright then 8 else 0)
    else if 90 <= v <= 97 then Indexed(v - 90 + 8)
    else if v == 39 then Default
    else pen.fg
  }

  function Background(pen: Pen, v: nat): Colour {
    if 40 <= v <= 47 then Indexed(v - 40)
    else if 100 <= v <= 107 then Indexed(v - 100 + 8)
    else if v == 49 then Default
    else pen.bg
  }

  /** What the argument at the front does to the pen, and the last argument it looks at. */
  function One(highbright: bool, pen: Pen, args: seq<Arg>): Effect
    requires args != []
  {
    var v := args[0].value;
    if v == CSI_ARG_MISSING || v == 0 then Effect(RESET, 0)
    else if v == 4 then
      if args[0].more then Effect(pen.(underline := UnderlineStyle(At(args, 1).value)), 1)
      else Effect(pen.(underline := Single), 0)
    else if v < 10 then
      Effect(pen.(marks := TurnOn(pen.marks, v), fg := if v == 1 then Raised(highbright, pen.fg) else pen.fg), 0)
    else if v < 20 then Effect(pen.(font := v - 10), 0)
    else if v == 21 then Effect(pen.(underline := Double), 0)
    else if v == 24 then Effect(pen.(underline := UnderlineOff), 0)
    else if v < 30 then Effect(pen.(marks := TurnOff(pen.marks, v)), 0)
    else if v == 38 then
      var found := LookupColour(At(args, 1).value, From(args, 2), pen.fg);
      Effect(pen.(fg := found.colour), 1 + found.used)
    else if v == 48 then
      var found := LookupColour(At(args, 1).value, From(args, 2), pen.bg);
      Effect(pen.(bg := found.colour), 1 + found.used)
    else Effect(Script(pen.(fg := Foreground(highbright, pen, v), bg := Background(pen, v)), v), 0)
  }

  /** What a whole SGR sequence makes of a pen. */
  function Interpret(highbright: bool, pen: Pen, args: seq<Arg>): Pen
    decreases |args|
  {
    if args == [] then pen
    else
      var one := One(highbright, pen, args);
      Interpret(highbright, one.pen, From(args, GroupEnd(args, one.last)))
  }

  lemma OneKeepsWellFormed(highbright: bool, pen: Pen, args: seq<Arg>)
    requires WellFormed(pen) && args != []
    ensures WellFormed(One(highbright, pen, args).pen)
  {
    hide LookupColour, Foreground, Background, UnderlineStyle, TurnOn, TurnOff, Raised;
  }

  /** Whatever the arguments, the pen stays one that can be reported. */
  lemma {:induction false} InterpretKeepsWellFormed(highbright: bool, pen: Pen, args: seq<Arg>)
    requires WellFormed(pen)
    ensures WellFormed(Interpret(highbright, pen, args))
    decreases |args|
  {
    hide One, WellFormed, GroupEnd;
    if args != [] {
      var one := One(highbright, pen, args);
      OneKeepsWellFormed(highbright, pen, args);
      InterpretKeepsWellFormed(highbright, one.pen, From(args, GroupEnd(args, one.last)));
    }
  }

  // ----- the table of codes

  lemma InterpretOne(highbright: bool, pen: Pen, v: nat)
    ensures Interpret(highbright, pen, [Arg(v, false)]) == One(highbright, pen, [Arg(v, false)]).pen
  {
    hide One;
    var args := [Arg(v, false)];
    var one := One(highbright, pen, args);
    assert From(args, GroupEnd(args, one.last)) == [];
    assert Interpret(highbright, one.pen, []) == one.pen;
  }

  /** 0, and an argument left out, reset the pen; 1 to 9 and 21 to 29 set and clear one attribute each, 10 to 19 select a font. */
  lemma AttributeCodes(highbright: bool, pen: Pen, v: nat)
    ensures var p, m := Interpret(highbright, pen, [Arg(v, false)]), pen.marks;
            && (v == 0 || v == 0x7fff_ffff ==>
                  p == Pen(Default, Default, Marks(false, false, false, false, false, false), UnderlineOff, 0, false, Normal))
            && (v == 1 ==> p == pen.(marks := Marks(true, m.italic, m.blink, m.reverse, m.conceal, m.strike), fg := p.fg))
            && (v == 1 && highbright && pen.fg.Indexed? && pen.fg.index < 8 ==> p.fg == Indexed(pen.fg.index + 8))
            && (v == 1 && !(highbright && pen.fg.Indexed? && pen.fg.index < 8) ==> p.fg == pen.fg)
            && (v == 22 ==> p == pen.(marks := Marks(false, m.italic, m.blink, m.reverse, m.conceal, m.strike)))
            && (v == 3 ==> p == pen.(marks := Marks(m.bold, true, m.blink, m.reverse, m.conceal, m.strike)))
            && (v == 23 ==> p == pen.(marks := Marks(m.bold, false, m.blink, m.reverse, m.conceal, m.strike)))
            && (v == 4 ==> p == pen.(underline := Single))
            && (v == 21 ==> p == pen.(underline := Double))
            && (v == 24 ==> p == pen.(underline := UnderlineOff))
            && (v == 5 ==> p == pen.(marks := Marks(m.bold, m.italic, true, m.reverse, m.conceal, m.strike)))
            && (v == 25 ==> p == pen.(marks := Marks(m.bold, m.italic, false, m.reverse, m.conceal, m.strike)))
            && (v == 7 ==> p == pen.(marks := Marks(m.bold, m.italic, m.blink, true, m.conceal, m.strike)))
            && (v == 27 ==> p == pen.(marks := Marks(m.bold, m.italic, m.blink, false, m.conceal, m.strike)))
            && (v == 8 ==> p == pen.(marks := Marks(m.bold, m.italic, m.blink, m.reverse, true, m.strike)))
            && (v == 28 ==> p == pen.(marks := Marks(m.bold, m.italic, m.blink, m.reverse, false, m.strike)))
            && (v == 9 ==> p == pen.(marks := Marks(m.bold, m.italic, m.blink, m.reverse, m.conceal, true)))
            && (v == 29 ==> p == pen.(marks := Marks(m.bold, m.italic, m.blink, m.reverse, m.conceal, false)))
            && (10 <= v <= 19 ==> p == pen.(font := v - 10))
            && (v in {2, 6, 20, 26} ==> p == pen)
  {
    InterpretOne(highbright, pen, v);
  }

  /** Colours by number: eight of each ground, eight bright ones, the default; super- and subscript; all else has no effect. */
  lemma ColourCodes(highbright: bool, pen: Pen, v: nat)
    ensures var p := Interpret(highbright, pen, [Arg(v, false)]);
            && (30 <= v <= 37 ==> p == pen.(fg := Indexed(if pen.marks.bold && highbright then v - 22 else v - 30)))
            && (v == 39 ==> p == pen.(fg := Default))
            && (40 <= v <= 47 ==> p == pen.(bg := Indexed(v - 40)))
            && (v == 49 ==> p == pen.(bg := Default))
            && (90 <= v <= 97 ==> p == pen.(fg := Indexed(v - 82)))
            && (100 <= v <= 107 ==> p == pen.(bg := Indexed(v - 92)))
            && (v == 73 ==> p == pen.(small := true, baseline := Raise))
            && (v == 74 ==> p == pen.(small := true, baseline := Lower))
            && (v == 75 ==> p == pen.(small := false, baseline := Normal))
            && (v == 38 || v == 48 || 50 <= v <= 72 || 76 <= v <= 89 || 98 <= v <= 99 || 108 <= v < 0x7fff_ffff ==> p == pen)
  {
    InterpretOne(highbright, pen, v);
  }

  /** Any other argument than 38 and 48 has its effect whatever comes after it. */
  lemma CodeByCode(highbright: bool, pen: Pen, v: nat, rest: seq<Arg>)
    requires v != 38 && v != 48
    ensures Interpret(highbright, pen, [Arg(v, false)] + rest) == Interpret(highbright, Interpret(highbright, pen, [Arg(v, false)]), rest)
  {
    hide One, Interpret;
    InterpretOne(highbright, pen, v);
    DoesPlain(highbright, pen, v);
    assert Plain(v) == [Arg(v, false)];
  }

  /** The sub-arguments of any other code than 4, 38 and 48 are passed over. */
  lemma {:induction false} SubArgumentsSkipped(highbright: bool, pen: Pen, v: nat, subs: seq<Arg>, last: nat, rest: seq<Arg>)
    requires v !in {4, 38, 48} && forall i :: 0 <= i < |subs| ==> subs[i].more
    ensures Interpret(highbright, pen, [Arg(v, true)] + subs + [Arg(last, false)] + rest) == Interpret(highbright, Interpret(highbright, pen, [Arg(v, false)]), rest)
  {
    hide One, Interpret;
    var args := [Arg(v, true)] + subs + [Arg(last, false)] + rest;
    InterpretOne(highbright, pen, v);
    FirstOnly(highbright, pen, args, v);
    GroupRuns(args, 0, |subs| + 1);
    assert From(args, |subs| + 2) == rest;
    InterpretStep(highbright, pen, args, 0);
    assert args[0..] == args && From(args, 0) == args;
  }

  lemma FirstOnly(highbright: bool, pen: Pen, args: seq<Arg>, v: nat)
    requires args != [] && args[0].value == v && v !in {4, 38, 48}
    ensures One(highbright, pen, args) == Effect(One(highbright, pen, [Arg(v, false)]).pen, 0)
  {
  }

  lemma {:induction false} GroupRuns(args: seq<Arg>, i: nat, k: nat)
    requires i <= k < |args| && !args[k].more && forall j :: i <= j < k ==> args[j].more
    ensures GroupEnd(args, i) == k + 1
    decreases k - i
  {
    if i < k {
      GroupRuns(args, i + 1, k);
    }
  }

  /** 4 with a sub-argument: the style of the underline. */
  lemma UnderlineCodes(highbright: bool, pen: Pen, n: nat, rest: seq<Arg>)
    ensures var style := if n == 0 then UnderlineOff else if n == 2 then Double else if n == 3 then Curly else Single;
            Interpret(highbright, pen, [Arg(4, true), Arg(n, false)] + rest) == Interpret(highbright, pen.(underline := style), rest)
  {
    hide Interpret;
    var args := [Arg(4, true), Arg(n, false)] + rest;
    GroupRuns(args, 1, 1);
    assert From(args, 2) == rest && From(args, 0) == args[0..] == args;
    InterpretStep(highbright, pen, args, 0);
  }

  /** 38 and 48, whether ':' or ';' goes between: a colour of the palette of 256, or of red, green and blue; each is cut to a byte. */
  lemma LongColourCodes(highbright: bool, pen: Pen, mores: (bool, bool, bool, bool), r: nat, g: nat, b: nat, rest: seq<Arg>)
    ensures r < 0x7fff_ffff ==>
              && Interpret(highbright, pen, [Arg(38, mores.0), Arg(5, mores.1), Arg(r, false)] + rest) ==
                 Interpret(highbright, pen.(fg := Indexed(r % 256)), rest)
              && Interpret(highbright, pen, [Arg(48, mores.0), Arg(5, mores.1), Arg(r, false)] + rest) ==
                 Interpret(highbright, pen.(bg := Indexed(r % 256)), rest)
    ensures Interpret(highbright, pen, [Arg(38, mores.0), Arg(2, mores.1), Arg(r, mores.2), Arg(g, mores.3), Arg(b, false)] + rest) ==
            Interpret(highbright, pen.(fg := Rgb(r % 256, g % 256, b % 256)), rest)
    ensures Interpret(highbright, pen, [Arg(48, mores.0), Arg(2, mores.1), Arg(r, mores.2), Arg(g, mores.3), Arg(b, false)] + rest) ==
            Interpret(highbright, pen.(bg := Rgb(r % 256, g % 256, b % 256)), rest)
  {
    hide Interpret;
    if r < 0x7fff_ffff {
      PaletteCode(highbright, pen, 38, mores.0, mores.1, r, rest);
      PaletteCode(highbright, pen, 48, mores.0, mores.1, r, rest);
    }
    RgbCode(highbright, pen, 38, mores, r, g, b, rest);
    RgbCode(highbright, pen, 48, mores, r, g, b, rest);
  }

  lemma PaletteCode(highbright: bool, pen: Pen, code: nat, m0: bool, m1: bool, n: nat, rest: seq<Arg>)
    requires code in {38, 48} && n < 0x7fff_ffff
    ensures Interpret(highbright, pen, [Arg(code, m0), Arg(5, m1), Arg(n, false)] + rest) ==
            Interpret(highbright, if code == 38 then pen.(fg := Indexed(n % 256)) else pen.(bg := Indexed(n % 256)), rest)
  {
    hide Interpret;
    var args := [Arg(code, m0), Arg(5, m1), Arg(n, false)] + rest;
    assert From(args, 2)[0] == Arg(n, false);
    GroupRuns(args, 2, 2);
    assert From(args, 3) == rest && From(args, 0) == args[0..] == args;
    InterpretStep(highbright, pen, args, 0);
  }

  lemma RgbCode(highbright: bool, pen: Pen, code: nat, mores: (bool, bool, bool, bool), r: nat, g: nat, b: nat, rest: seq<Arg>)
    requires code in {38, 48}
    ensures Interpret(highbright, pen, [Arg(code, mores.0), Arg(2, mores.1), Arg(r, mores.2), Arg(g, mores.3), Arg(b, false)] + rest) ==
            Interpret(highbright, if code == 38 then pen.(fg := Rgb(r % 256, g % 256, b % 256)) else pen.(bg := Rgb(r % 256, g % 256, b % 256)), rest)
  {
    hide Interpret;
    var args := [Arg(code, mores.0), Arg(2, mores.1), Arg(r, mores.2), Arg(g, mores.3), Arg(b, false)] + rest;
    assert From(args, 2)[0] == Arg(r, mores.2) && From(args, 2)[1] == Arg(g, mores.3) && From(args, 2)[2] == Arg(b, false);
    GroupRuns(args, 4, 4);
    assert From(args, 5) == rest && From(args, 0) == args[0..] == args;
    InterpretStep(highbright, pen, args, 0);
  }

  /** A palette that is neither takes up its own argument only, and a colour that is not all there changes nothing. */
  lemma NoColour(highbright: bool, pen: Pen, code: nat, more: bool, palette: nat, rest: seq<Arg>)
    requires code in {38, 48}
    ensures palette !in {2, 5} ==> Interpret(highbright, pen, [Arg(code, more), Arg(palette, false)] + rest) == Interpret(highbright, pen, rest)
    ensures Interpret(highbright, pen, [Arg(code, more), Arg(5, false)]) == pen
    ensures Interpret(highbright, pen, [Arg(code, more), Arg(5, false), Arg(0x7fff_ffff, false)] + rest) == Interpret(highbright, pen, rest)
    ensures |rest| < 3 && (rest != [] ==> !rest[|rest| - 1].more) ==> Interpret(highbright, pen, [Arg(code, more), Arg(2, false)] + rest) == pen
  {
    NoPalette(highbright, pen, code, more, palette, rest);
    NoPalette(highbright, pen, code, more, 2, rest);
    NoPalette(highbright, pen, code, more, 5, []);
    NoPalette(highbright, pen, code, more, 5, [Arg(0x7fff_ffff, false)] + rest);
    assert [Arg(code, more), Arg(5, false)] + [] == [Arg(code, more), Arg(5, false)];
    assert [Arg(code, more), Arg(5, false)] + ([Arg(0x7fff_ffff, false)] + rest) == [Arg(code, more), Arg(5, false), Arg(0x7fff_ffff, false)] + rest;
  }

  /** What an incomplete colour uses up. */
  function Used(palette: nat, rest: seq<Arg>): (n: nat)
    ensures n <= |rest|
  {
    if palette == 2 then Least(|rest|, 3) else if palette == 5 then Least(|rest|, 1) else 0
  }

  predicate Incomplete(palette: nat, rest: seq<Arg>) {
    (palette == 2 ==> |rest| < 3) && (palette == 5 && rest != [] ==> rest[0].value == 0x7fff_ffff)
  }

  lemma NoPalette(highbright: bool, pen: Pen, code: nat, more: bool, palette: nat, rest: seq<Arg>)
    requires code in {38, 48}
    ensures Incomplete(palette, rest) && (Used(palette, rest) > 0 ==> !rest[Used(palette, rest) - 1].more) ==>
              Interpret(highbright, pen, [Arg(code, more), Arg(palette, false)] + rest) == Interpret(highbright, pen, rest[Used(palette, rest)..])
  {
    hide Interpret;
    var args, used := [Arg(code, more), Arg(palette, false)] + rest, Used(palette, rest);
    if Incomplete(palette, rest) && (used > 0 ==> !rest[used - 1].more) {
      OneIncomplete(highbright, pen, code, more, palette, rest);
      hide One, Used, Incomplete;
      assert args[1 + used] == if used > 0 then rest[used - 1] else Arg(palette, false);
      GroupRuns(args, 1 + used, 1 + used);
      assert From(args, 2 + used) == rest[used..] && From(args, 0) == args[0..] == args;
      InterpretStep(highbright, pen, args, 0);
    }
  }

  lemma OneIncomplete(highbright: bool, pen: Pen, code: nat, more: bool, palette: nat, rest: seq<Arg>)
    requires code in {38, 48} && Incomplete(palette, rest)
    ensures One(highbright, pen, [Arg(code, more), Arg(palette, false)] + rest) == Effect(pen, 1 + Used(palette, rest))
  {
    assert From([Arg(code, more), Arg(palette, false)] + rest, 2) == rest;
  }

  function Least(a: nat, b: nat): nat { if a < b then a else b }

  function Plain(v: nat): seq<Arg> { [Arg(v, false)] }

  function If(on: bool, args: seq<Arg>): (r: seq<Arg>)
    ensures |r| <= |args|
  {
    if on then args else []
  }

  /** The arguments for one colour; `base` is 30 for the foreground and 40 for the background. */
  function ReportColour(c: Colour, base: nat): (r: seq<Arg>)
    ensures |r| <= 5
  {
    match c
    case Default => []
    case Indexed(n) =>
      if n < 8 then Plain(base + n)
      else if n < 16 then Plain(base + 60 + (n - 8))
      else [Arg(base + 8, true), Arg(5, true), Arg(n, false)]
    case Rgb(r, g, b) => [Arg(base + 8, true), Arg(2, true), Arg(r, true), Arg(g, true), Arg(b, false)]
  }

  function ReportUnderline(u: Underline): (r: seq<Arg>)
    ensures |r| <= 2
  {
    match u
    case Single => Plain(4)
    case Curly => [Arg(4, true), Arg(3, false)]
    case _ => []
  }

  function ReportBaseline(pen: Pen): (r: seq<Arg>)
    ensures |r| <= 1
  {
    If(pen.small && pen.baseline != Normal, Plain(if pen.baseline == Raise then 73 else 74))
  }

  function FirstMarks(m: Marks): seq<Arg> {
    If(m.bold, Plain(1)) + If(m.italic, Plain(3))
  }

  function LaterMarks(m: Marks): seq<Arg> {
    If(m.blink, Plain(5)) + (If(m.reverse, Plain(7)) + (If(m.conceal, Plain(8)) + If(m.strike, Plain(9))))
  }

  /** What comes before the colours. */
  function ReportFlags(pen: Pen): seq<Arg> {
    FirstMarks(pen.marks) + (ReportUnderline(pen.underline) + (LaterMarks(pen.marks) +
    (If(pen.font != 0, Plain(10 + pen.font)) + If(pen.underline == Double, Plain(21)))))
  }

  /** vterm_state_getpen. */
  function Report(pen: Pen): seq<Arg> {
    ReportFlags(pen) + (ReportColour(pen.fg, 30) + (ReportColour(pen.bg, 40) + ReportBaseline(pen)))
  }

  /** The 20 entries of the caller's array are enough, and a pen with everything set needs them all. */
  lemma ReportFits(pen: Pen)
    ensures |Report(pen)| <= 20
    ensures |Report(pen)| == 20 <==>
            pen.marks == Marks(true, true, true, true, true, true) && pen.underline == Curly &&
            pen.font != 0 && pen.fg.Rgb? && pen.bg.Rgb? && pen.small && pen.baseline != Normal
  {
  }

  /** The shortest codes are chosen: what a pen with one thing set is reported as. */
  lemma SingleReports(n: byte)
    ensures Report(RESET) == []
    ensures Report(RESET.(fg := Indexed(n))) ==
            if n < 8 then [Arg(30 + n, false)] else if n < 16 then [Arg(82 + n, false)] else [Arg(38, true), Arg(5, true), Arg(n, false)]
    ensures Report(RESET.(bg := Indexed(n))) ==
            if n < 8 then [Arg(40 + n, false)] else if n < 16 then [Arg(92 + n, false)] else [Arg(48, true), Arg(5, true), Arg(n, false)]
    ensures Report(RESET.(underline := Single)) == [Arg(4, false)] && Report(RESET.(underline := Double)) == [Arg(21, false)]
    ensures Report(RESET.(small := true, baseline := Lower)) == [Arg(74, false)]
  {
    assert ReportFlags(RESET) == [] && ReportFlags(RESET.(fg := Indexed(n))) == [] && ReportFlags(RESET.(bg := Indexed(n))) == [];
    assert ReportFlags(RESET.(small := true, baseline := Lower)) == [];
    assert ReportFlags(RESET.(underline := Single)) == [Arg(4, false)] && ReportFlags(RESET.(underline := Double)) == [Arg(21, false)];
    hide ReportFlags;
  }

  /** And in this order: a pen with everything set. */
  lemma FullReport()
    ensures Report(Pen(Rgb(1, 2, 3), Rgb(4, 5, 6), Marks(true, true, true, true, true, true), Curly, 9, true, Raise)) ==
            [Arg(1, false), Arg(3, false), Arg(4, true), Arg(3, false), Arg(5, false), Arg(7, false), Arg(8, false), Arg(9, false), Arg(19, false)] +
            [Arg(38, true), Arg(2, true), Arg(1, true), Arg(2, true), Arg(3, false)] +
            [Arg(48, true), Arg(2, true), Arg(4, true), Arg(5, true), Arg(6, false)] + [Arg(73, false)]
  {
    var m, pen := Marks(true, true, true, true, true, true), Pen(Rgb(1, 2, 3), Rgb(4, 5, 6), Marks(true, true, true, true, true, true), Curly, 9, true, Raise);
    assert FirstMarks(m) == [Arg(1, false), Arg(3, false)];
    assert LaterMarks(m) == [Arg(5, false), Arg(7, false), Arg(8, false), Arg(9, false)];
    hide FirstMarks, LaterMarks;
    assert ReportFlags(pen) ==
           [Arg(1, false), Arg(3, false), Arg(4, true), Arg(3, false), Arg(5, false), Arg(7, false), Arg(8, false), Arg(9, false), Arg(19, false)];
    hide ReportFlags;
    assert ReportColour(pen.fg, 30) == [Arg(38, true), Arg(2, true), Arg(1, true), Arg(2, true), Arg(3, false)];
    assert ReportColour(pen.bg, 40) == [Arg(48, true), Arg(2, true), Arg(4, true), Arg(5, true), Arg(6, false)];
  }

  /** A group that is interpreted on its own, whatever follows it. */
  ghost predicate Does(highbright: bool, pen: Pen, group: seq<Arg>, pen': Pen) {
    forall rest :: Interpret(highbright, pen, group + rest) == Interpret(highbright, pen', rest)
  }

  lemma DoesPlain(highbright: bool, pen: Pen, v: nat)
    requires v !in {38, 48}
    ensures Does(highbright, pen, Plain(v), One(highbright, pen, Plain(v)).pen)
  {
    hide One;
    forall rest ensures Interpret(highbright, pen, Plain(v) + rest) == Interpret(highbright, One(highbright, pen, Plain(v)).pen, rest) {
      var args := Plain(v) + rest;
      OnePlain(highbright, pen, args);
      OnePlain(highbright, pen, Plain(v));
      assert args[0] == Arg(v, false) && Plain(v)[0] == Arg(v, false);
      assert args[1..] == rest;
      assert GroupEnd(args, 0) == 1;
    }
  }

  lemma OnePlain(highbright: bool, pen: Pen, args: seq<Arg>)
    requires args != [] && !args[0].more && args[0].value !in {38, 48}
    ensures One(highbright, pen, args).last == 0
    ensures One(highbright, pen, args) == One(highbright, pen, [args[0]])
  {
  }

  lemma DoesCurly(highbright: bool, pen: Pen)
    ensures Does(highbright, pen, ReportUnderline(Curly), pen.(underline := Curly))
  {
    forall rest ensures Interpret(highbright, pen, ReportUnderline(Curly) + rest) == Interpret(highbright, pen.(underline := Curly), rest) {
      var args := ReportUnderline(Curly) + rest;
      assert args[2..] == rest;
      assert GroupEnd(args, 1) == 2;
    }
  }

  predicate IsBase(base: nat) { base == 30 || base == 40 }

  function Coloured(pen: Pen, base: nat, c: Colour): Pen {
    if base == 30 then pen.(fg := c) else pen.(bg := c)
  }

  lemma DoesLongIndexed(highbright: bool, pen: Pen, base: nat, n: byte)
    requires IsBase(base) && n >= 16
    ensures Does(highbright, pen, ReportColour(Indexed(n), base), Coloured(pen, base, Indexed(n)))
  {
    var group := ReportColour(Indexed(n), base);
    forall rest ensures Interpret(highbright, pen, group + rest) == Interpret(highbright, Coloured(pen, base, Indexed(n)), rest) {
      var args := group + rest;
      assert args[0] == group[0] && args[1] == group[1] && args[2] == group[2];
      assert From(args, 2)[0] == Arg(n, false);
      assert One(highbright, pen, args) == Effect(Coloured(pen, base, Indexed(n)), 2);
      assert args[3..] == rest;
      assert GroupEnd(args, 2) == 3;
    }
  }

  lemma DoesRgb(highbright: bool, pen: Pen, base: nat, r: byte, g: byte, b: byte)
    requires IsBase(base)
    ensures Does(highbright, pen, ReportColour(Rgb(r, g, b), base), Coloured(pen, base, Rgb(r, g, b)))
  {
    var group := ReportColour(Rgb(r, g, b), base);
    forall rest ensures Interpret(highbright, pen, group + rest) == Interpret(highbright, Coloured(pen, base, Rgb(r, g, b)), rest) {
      var args := group + rest;
      assert From(args, 2)[0] == Arg(r, true) && From(args, 2)[1] == Arg(g, true) && From(args, 2)[2] == Arg(b, false);
      assert One(highbright, pen, args) == Effect(Coloured(pen, base, Rgb(r, g, b)), 4);
      assert args[5..] == rest;
      assert GroupEnd(args, 4) == 5;
    }
  }

  /** Where a colour report goes wrong: bold turns a dark foreground bright. */
  function Brightened(highbright: bool, pen: Pen, base: nat, c: Colour): Colour {
    if base == 30 && highbright && pen.marks.bold && c.Indexed? && c.index < 8 then Indexed(c.index + 8) else c
  }

  lemma DoesShortIndexed(highbright: bool, pen: Pen, base: nat, n: byte)
    requires IsBase(base) && n < 16
    ensures Does(highbright, pen, ReportColour(Indexed(n), base), Coloured(pen, base, Brightened(highbright, pen, base, Indexed(n))))
  {
    hide Does;
    var v := if n < 8 then base + n else base + 60 + (n - 8);
    DoesPlain(highbright, pen, v);
    assert One(highbright, pen, Plain(v)).pen == Coloured(pen, base, Brightened(highbright, pen, base, Indexed(n)));
  }

  lemma DoesColour(highbright: bool, pen: Pen, base: nat, c: Colour)
    requires IsBase(base) && (if base == 30 then pen.fg else pen.bg) == Default
    ensures Does(highbright, pen, ReportColour(c, base), Coloured(pen, base, Brightened(highbright, pen, base, c)))
  {
    hide Does;
    match c
    case Default =>
      DoesNothing(highbright, pen);
      assert Coloured(pen, base, Default) == pen;
    case Indexed(n) =>
      if n < 16 {
        DoesShortIndexed(highbright, pen, base, n);
      } else {
        DoesLongIndexed(highbright, pen, base, n);
      }
    case Rgb(r, g, b) =>
      DoesRgb(highbright, pen, base, r, g, b);
  }

  lemma DoesNothing(highbright: bool, pen: Pen)
    ensures Does(highbright, pen, [], pen)
  {
    forall rest: seq<Arg> ensures Interpret(highbright, pen, [] + rest) == Interpret(highbright, pen, rest) {
      assert [] + rest == rest;
    }
  }

  lemma DoesIf(highbright: bool, pen: Pen, on: bool, v: nat)
    requires v !in {38, 48}
    ensures Does(highbright, pen, If(on, Plain(v)), if on then One(highbright, pen, Plain(v)).pen else pen)
  {
    hide One;
    DoesPlain(highbright, pen, v);
    DoesNothing(highbright, pen);
  }

  lemma DoesApply(highbright: bool, pen: Pen, a: seq<Arg>, pen': Pen, rest: seq<Arg>)
    requires Does(highbright, pen, a, pen')
    ensures Interpret(highbright, pen, a + rest) == Interpret(highbright, pen', rest)
  {
    hide Interpret;
  }

  lemma DoesIntro(highbright: bool, pen: Pen, a: seq<Arg>, pen': Pen)
    requires forall rest :: Interpret(highbright, pen, a + rest) == Interpret(highbright, pen', rest)
    ensures Does(highbright, pen, a, pen')
  {
    hide Interpret;
  }

  lemma DoesThen(highbright: bool, pen: Pen, a: seq<Arg>, mid: Pen, b: seq<Arg>, last: Pen)
    requires Does(highbright, pen, a, mid) && Does(highbright, mid, b, last)
    ensures Does(highbright, pen, a + b, last)
  {
    hide Does, Interpret;
    forall rest ensures Interpret(highbright, pen, (a + b) + rest) == Interpret(highbright, last, rest) {
      assert (a + b) + rest == a + (b + rest);
      DoesApply(highbright, pen, a, mid, b + rest);
      DoesApply(highbright, mid, b, last, rest);
    }
    DoesIntro(highbright, pen, a + b, last);
  }

  lemma DoesMark(highbright: bool, pen: Pen, on: bool, v: nat)
    requires v in {1, 3, 5, 7, 8, 9} && pen.fg == Default
    ensures Does(highbright, pen, If(on, Plain(v)), pen.(marks := if on then TurnOn(pen.marks, v) else pen.marks))
  {
    hide Does, TurnOn;
    DoesIf(highbright, pen, on, v);
  }

  lemma DoesUnderline(highbright: bool, pen: Pen, u: Underline)
    requires pen.underline == UnderlineOff
    ensures Does(highbright, pen, ReportUnderline(u), pen.(underline := if u == Double then UnderlineOff else u))
  {
    hide Does;
    match u
    case Single => DoesPlain(highbright, pen, 4);
    case Curly => DoesCurly(highbright, pen);
    case _ => DoesNothing(highbright, pen);
  }

  lemma DoesDouble(highbright: bool, pen: Pen, u: Underline)
    requires pen.underline == if u == Double then UnderlineOff else u
    ensures Does(highbright, pen, If(u == Double, Plain(21)), pen.(underline := u))
  {
    hide Does;
    DoesIf(highbright, pen, u == Double, 21);
  }

  lemma DoesFont(highbright: bool, pen: Pen, font: nat)
    requires pen.font == 0 && font <= 9
    ensures Does(highbright, pen, If(font != 0, Plain(10 + font)), pen.(font := font))
  {
    hide Does;
    DoesIf(highbright, pen, font != 0, 10 + font);
  }

  lemma DoesBaseline(highbright: bool, pen: Pen, wanted: Pen)
    requires WellFormed(wanted) && !pen.small && pen.baseline == Normal
    ensures Does(highbright, pen, ReportBaseline(wanted), pen.(small := wanted.small, baseline := wanted.baseline))
  {
    hide Does;
    DoesIf(highbright, pen, wanted.small && wanted.baseline != Normal, if wanted.baseline == Raise then 73 else 74);
  }

  /** A mark that was off is on exactly when it is reported. */
  lemma TurnOnEach(m: Marks, on: bool)
    ensures !m.bold ==> (if on then TurnOn(m, 1) else m) == m.(bold := on)
    ensures !m.italic ==> (if on then TurnOn(m, 3) else m) == m.(italic := on)
    ensures !m.blink ==> (if on then TurnOn(m, 5) else m) == m.(blink := on)
    ensures !m.reverse ==> (if on then TurnOn(m, 7) else m) == m.(reverse := on)
    ensures !m.conceal ==> (if on then TurnOn(m, 8) else m) == m.(conceal := on)
    ensures !m.strike ==> (if on then TurnOn(m, 9) else m) == m.(strike := on)
  {
  }

  lemma DoesLaterMarks(highbright: bool, pen: Pen, m: Marks)
    requires pen.fg == Default && !pen.marks.blink && !pen.marks.reverse && !pen.marks.conceal && !pen.marks.strike
    ensures Does(highbright, pen, LaterMarks(m), pen.(marks := pen.marks.(blink := m.blink, reverse := m.reverse, conceal := m.conceal, strike := m.strike)))
  {
    hide Does, TurnOn, If, Plain;
    var a := pen.(marks := pen.marks.(blink := m.blink));
    var b := a.(marks := a.marks.(reverse := m.reverse));
    var c := b.(marks := b.marks.(conceal := m.conceal));
    var d := c.(marks := c.marks.(strike := m.strike));
    TurnOnEach(pen.marks, m.blink);
    TurnOnEach(a.marks, m.reverse);
    TurnOnEach(b.marks, m.conceal);
    TurnOnEach(c.marks, m.strike);
    DoesMark(highbright, pen, m.blink, 5);
    DoesMark(highbright, a, m.reverse, 7);
    DoesMark(highbright, b, m.conceal, 8);
    DoesMark(highbright, c, m.strike, 9);
    DoesThen(highbright, b, If(m.conceal, Plain(8)), c, If(m.strike, Plain(9)), d);
    DoesThen(highbright, a, If(m.reverse, Plain(7)), b, If(m.conceal, Plain(8)) + If(m.strike, Plain(9)), d);
    DoesThen(highbright, pen, If(m.blink, Plain(5)), a, If(m.reverse, Plain(7)) + (If(m.conceal, Plain(8)) + If(m.strike, Plain(9))), d);
  }

  lemma DoesFirstMarks(highbright: bool, pen: Pen, m: Marks)
    requires pen.fg == Default && !pen.marks.bold && !pen.marks.italic
    ensures Does(highbright, pen, FirstMarks(m), pen.(marks := pen.marks.(bold := m.bold, italic := m.italic)))
  {
    hide Does, TurnOn, If, Plain;
    var a := pen.(marks := pen.marks.(bold := m.bold));
    TurnOnEach(pen.marks, m.bold);
    TurnOnEach(a.marks, m.italic);
    DoesMark(highbright, pen, m.bold, 1);
    DoesMark(highbright, a, m.italic, 3);
    DoesThen(highbright, pen, If(m.bold, Plain(1)), a, If(m.italic, Plain(3)), a.(marks := a.marks.(italic := m.italic)));
  }

  lemma DoesFlags(highbright: bool, pen: Pen)
    requires WellFormed(pen)
    ensures Does(highbright, RESET, ReportFlags(pen), RESET.(marks := pen.marks, underline := pen.underline, font := pen.font))
  {
    hide Does, If, Plain, ReportUnderline;
    var m := pen.marks;
    var a := RESET.(marks := PLAIN.(bold := m.bold, italic := m.italic));
    var b := a.(underline := if pen.underline == Double then UnderlineOff else pen.underline);
    var c := b.(marks := m);
    var d := c.(font := pen.font);
    var e := d.(underline := pen.underline);
    DoesFirstMarks(highbright, RESET, m);
    DoesUnderline(highbright, a, pen.underline);
    DoesLaterMarks(highbright, b, m);
    DoesFont(highbright, c, pen.font);
    DoesDouble(highbright, d, pen.underline);
    var font, twice := If(pen.font != 0, Plain(10 + pen.font)), If(pen.underline == Double, Plain(21));
    DoesThen(highbright, c, font, d, twice, e);
    DoesThen(highbright, b, LaterMarks(m), c, font + twice, e);
    DoesThen(highbright, a, ReportUnderline(pen.underline), b, LaterMarks(m) + (font + twice), e);
    DoesThen(highbright, RESET, FirstMarks(m), a, ReportUnderline(pen.underline) + (LaterMarks(m) + (font + twice)), e);
  }

  /** The report does to a reset pen what the pen says, but for a foreground that bold has brightened. */
  lemma ReportInterpreted(highbright: bool, pen: Pen)
    requires WellFormed(pen)
    ensures Interpret(highbright, RESET, Report(pen)) ==
            pen.(fg := if pen.marks.bold then Raised(highbright, pen.fg) else pen.fg)
  {
    hide Does, ReportFlags, ReportColour, ReportBaseline;
    var a := RESET.(marks := pen.marks, underline := pen.underline, font := pen.font);
    var b := Coloured(a, 30, Brightened(highbright, a, 30, pen.fg));
    var c := Coloured(b, 40, pen.bg);
    var d := c.(small := pen.small, baseline := pen.baseline);
    DoesFlags(highbright, pen);
    DoesColour(highbright, a, 30, pen.fg);
    DoesColour(highbright, b, 40, pen.bg);
    DoesBaseline(highbright, c, pen);
    DoesThen(highbright, b, ReportColour(pen.bg, 40), c, ReportBaseline(pen), d);
    DoesThen(highbright, a, ReportColour(pen.fg, 30), b, ReportColour(pen.bg, 40) + ReportBaseline(pen), d);
    DoesThen(highbright, RESET, ReportFlags(pen), a, ReportColour(pen.fg, 30) + (ReportColour(pen.bg, 40) + ReportBaseline(pen)), d);
    DoesApply(highbright, RESET, Report(pen), d, []);
    assert Report(pen) + [] == Report(pen);
  }

  /** Exactly which pens the report rebuilds. */
  lemma ReportRoundTrip(highbright: bool, pen: Pen)
    requires WellFormed(pen)
    ensures Interpret(highbright, RESET, Report(pen)) == pen <==>
            !(highbright && pen.marks.bold && pen.fg.Indexed? && pen.fg.index < 8)
  {
    hide Interpret, Report;
    ReportInterpreted(highbright, pen);
  }

  function SgrText(args: seq<Arg>): seq<byte> {
    [0x1b, 0x5b] + (Print(args) + [0x6d])
  }

  /** The parser reads the printed arguments back; printing none is read as one missing. */
  lemma PrintedIsRead(cfg: Config, args: seq<Arg>)
    requires Printable(args)
    ensures Run(cfg, Ground, SgrText(args)) == Out(Ground, [Csi([], if args == [] then [MISSING] else args, [], 0x6d)])
  {
    hide Run, Print;
    var read := if args == [] then [MISSING] else args;
    NothingPrinted();
    CsiIsRead(cfg, false, [], read, [], 0x6d);
    assert CsiText(false, [], read, [], 0x6d) == SgrText(args);
  }

  lemma NothingPrinted()
    ensures Print([]) == [] == Print([MISSING])
  {
  }

  /** The arguments are printed and all numbers. */
  ghost predicate Numbers(args: seq<Arg>) {
    Printable(args) && forall i :: 0 <= i < |args| ==> args[i].value < CSI_ARG_MISSING
  }

  lemma PrintedNumber(args: seq<Arg>, i: nat)
    requires Numbers(args) && i < |args|
    ensures Written(args[i].value) == Digits(args[i].value)
  {
  }

  lemma NumbersConcat(a: seq<Arg>, b: seq<Arg>)
    requires Numbers(a) && Numbers(b)
    ensures Numbers(a + b)
  {
  }

  lemma NumbersIf(on: bool, v: nat)
    requires v < CSI_ARG_MISSING
    ensures Numbers(If(on, Plain(v)))
  {
  }

  lemma NumbersMarks(m: Marks)
    ensures Numbers(FirstMarks(m)) && Numbers(LaterMarks(m))
  {
    hide If, Plain, Numbers;
    NumbersIf(m.bold, 1);
    NumbersIf(m.italic, 3);
    NumbersIf(m.blink, 5);
    NumbersIf(m.reverse, 7);
    NumbersIf(m.conceal, 8);
    NumbersIf(m.strike, 9);
    NumbersConcat(If(m.bold, Plain(1)), If(m.italic, Plain(3)));
    NumbersConcat(If(m.conceal, Plain(8)), If(m.strike, Plain(9)));
    NumbersConcat(If(m.reverse, Plain(7)), If(m.conceal, Plain(8)) + If(m.strike, Plain(9)));
    NumbersConcat(If(m.blink, Plain(5)), If(m.reverse, Plain(7)) + (If(m.conceal, Plain(8)) + If(m.strike, Plain(9))));
  }

  lemma NumbersColour(c: Colour, base: nat)
    requires IsBase(base)
    ensures Numbers(ReportColour(c, base))
  {
  }

  lemma NumbersUnderline(u: Underline)
    ensures Numbers(ReportUnderline(u))
  {
  }

  lemma ReportNumbers(pen: Pen)
    requires WellFormed(pen)
    ensures Numbers(Report(pen))
  {
    hide If, Plain, Numbers, FirstMarks, LaterMarks, ReportUnderline, ReportColour;
    var font, twice := If(pen.font != 0, Plain(10 + pen.font)), If(pen.underline == Double, Plain(21));
    NumbersIf(pen.font != 0, 10 + pen.font);
    NumbersIf(pen.underline == Double, 21);
    NumbersMarks(pen.marks);
    NumbersUnderline(pen.underline);
    NumbersColour(pen.fg, 30);
    NumbersColour(pen.bg, 40);
    NumbersIf(pen.small && pen.baseline != Normal, if pen.baseline == Raise then 73 else 74);
    NumbersConcat(font, twice);
    NumbersConcat(LaterMarks(pen.marks), font + twice);
    NumbersConcat(ReportUnderline(pen.underline), LaterMarks(pen.marks) + (font + twice));
    NumbersConcat(FirstMarks(pen.marks), ReportUnderline(pen.underline) + (LaterMarks(pen.marks) + (font + twice)));
    NumbersConcat(ReportColour(pen.bg, 40), ReportBaseline(pen));
    NumbersConcat(ReportColour(pen.fg, 30), ReportColour(pen.bg, 40) + ReportBaseline(pen));
    NumbersConcat(ReportFlags(pen), ReportColour(pen.fg, 30) + (ReportColour(pen.bg, 40) + ReportBaseline(pen)));
  }

  /**
   The round trip that DECRQSS promises: the printed report, read by the byte parser and interpreted from a
   reset pen, gives the pen, unless bold brightens its foreground.
   */
  lemma PrintedReportRoundTrip(cfg: Config, highbright: bool, pen: Pen)
    requires WellFormed(pen)
    ensures exists args ::
              && Run(cfg, Ground, SgrText(Report(pen))) == Out(Ground, [Csi([], args, [], 0x6d)])
              && (Interpret(highbright, RESET, args) == pen <==> !(highbright && pen.marks.bold && pen.fg.Indexed? && pen.fg.index < 8))
  {
    hide Run, Report;
    ReportNumbers(pen);
    PrintedIsRead(cfg, Report(pen));
    ReportRoundTrip(highbright, pen);
    MissingResets(highbright);
  }

  lemma MissingResets(highbright: bool)
    ensures Interpret(highbright, RESET, [MISSING]) == RESET == Interpret(highbright, RESET, [])
  {
    assert GroupEnd([MISSING], 0) == 1;
  }

  /** The answer to DECRQSS. */
  function Reply(ctrl8bit: bool, pen: Pen): seq<byte> {
    (if ctrl8bit then [0x90] else [0x1b, 0x50]) + [0x31, 0x24, 0x72] + Print(Report(pen)) + [0x6d] + (if ctrl8bit then [0x9c] else [0x1b, 0x5c])
  }

  /** To a parser the answer is one control string, DCS 1 $ r, of the report and the final byte of SGR. */
  lemma ReplyIsRead(cfg: Config, ctrl8bit: bool, pen: Pen)
    requires ctrl8bit ==> !cfg.utf8
    ensures Run(cfg, Ground, Reply(ctrl8bit, pen)) == Out(Ground, StringEvents(Dcs([0x31, 0x24, 0x72]), Print(Report(pen)) + [0x6d]))
  {
    hide Run, Print, Report, StringEvents;
    var k, payload, end := Dcs([0x31, 0x24, 0x72]), Print(Report(pen)) + [0x6d], if ctrl8bit then [0x9c] else [0x1b, 0x5c];
    forall i | 0 <= i < |payload| ensures IsPayload(cfg, k, payload[i]) {
      if i < |payload| - 1 {
        PrintedBytes(Report(pen), i);
      }
    }
    StringIsRead(cfg, ctrl8bit, k, payload, end);
    assert Head(ctrl8bit, k) + (payload + end) == Reply(ctrl8bit, pen);
  }

  class PenState {
    var pen: Pen
    var boldIsHighbright: bool

    constructor ()
      ensures pen == RESET && !boldIsHighbright
    {
      pen, boldIsHighbright := RESET, false;
    }

    /** vterm_state_setpen. */
    method SetPen(args: seq<Arg>)
      modifies `pen
      ensures pen == Interpret(boldIsHighbright, old(pen), args)
      ensures old(WellFormed(pen)) ==> WellFormed(pen)
    {
      hide One, Interpret, WellFormed, GroupEnd, From;
      PenStaysWellFormed(boldIsHighbright, pen, args);
      FromStart(args);
      var argi := 0;
      while argi < |args|
        invariant Interpret(boldIsHighbright, pen, From(args, argi)) == Interpret(boldIsHighbright, old(pen), args)
      {
        InterpretStep(boldIsHighbright, pen, args, argi);
        var one := One(boldIsHighbright, pen, args[argi..]);
        pen := one.pen;
        argi := SkipGroup(args, argi + one.last);
      }
      InterpretNothing(boldIsHighbright, pen, args, argi);
    }

    /** The loop that ends each turn: past the arguments that a ':' joins to this one. */
    method SkipGroup(args: seq<Arg>, start: nat) returns (argi: nat)
      ensures argi == GroupEnd(args, start) && start < argi
    {
      argi := start;
      while At(args, argi).more
        invariant start <= argi && GroupEnd(args, argi) == GroupEnd(args, start)
        decreases |args| - argi
      {
        argi := argi + 1;
      }
      argi := argi + 1;
    }

    /** One attribute, if it is on. */
    method Put(args: array<Arg>, start: nat, on: bool, v: nat) returns (argi: nat)
      requires start <= args.Length && (on ==> start < args.Length)
      modifies args
      ensures argi == (if on then start + 1 else start) && args[..argi] == old(args[..start]) + If(on, Plain(v))
    {
      argi := start;
      if on {
        args[argi] := Arg(v, false);
        argi := argi + 1;
      }
    }

    method PutLaterMarks(args: array<Arg>, start: nat) returns (argi: nat)
      requires start + 4 <= args.Length
      modifies args
      ensures start <= argi <= start + 4 && args[..argi] == old(args[..start]) + LaterMarks(pen.marks)
    {
      hide If, Plain;
      var m := pen.marks;
      argi := Put(args, start, m.blink, 5);
      argi := Put(args, argi, m.reverse, 7);
      argi := Put(args, argi, m.conceal, 8);
      argi := Put(args, argi, m.strike, 9);
      Regroup(old(args[..start]), If(m.blink, Plain(5)), If(m.reverse, Plain(7)), If(m.conceal, Plain(8)), If(m.strike, Plain(9)));
    }

    method PutFirstMarks(args: array<Arg>) returns (argi: nat)
      requires 2 <= args.Length
      modifies args
      ensures argi <= 2 && args[..argi] == FirstMarks(pen.marks)
    {
      hide If, Plain;
      argi := Put(args, 0, pen.marks.bold, 1);
      argi := Put(args, argi, pen.marks.italic, 3);
    }

    method PutFlags(args: array<Arg>) returns (argi: nat)
      requires args.Length == 20 && WellFormed(pen)
      modifies args
      ensures argi <= 9 && args[..argi] == ReportFlags(pen)
    {
      hide If, Plain, ReportUnderline, FirstMarks, LaterMarks;
      argi := PutFirstMarks(args);
      ghost var first := args[..argi];
      argi := PutUnderline(args, argi);
      argi := PutLaterMarks(args, argi);
      argi := Put(args, argi, pen.font != 0, 10 + pen.font);
      argi := Put(args, argi, pen.underline == Double, 21);
      Regroup(first, ReportUnderline(pen.underline), LaterMarks(pen.marks),
              If(pen.font != 0, Plain(10 + pen.font)), If(pen.underline == Double, Plain(21)));
    }

    /** vterm_state_getpen, into the caller's array. */
    method GetPen(args: array<Arg>) returns (argi: nat)
      requires args.Length == 20 && WellFormed(pen)
      modifies args
      ensures argi <= 20 && args[..argi] == Report(pen)
    {
      hide If, Plain, ReportFlags, ReportColour;
      argi := PutFlags(args);
      ghost var flags := args[..argi];
      argi := PutColour(args, argi, pen.fg, 30);
      argi := PutColour(args, argi, pen.bg, 40);
      argi := Put(args, argi, pen.small && pen.baseline != Normal, if pen.baseline == Raise then 73 else 74);
      Regroup(flags, [], ReportColour(pen.fg, 30), ReportColour(pen.bg, 40), ReportBaseline(pen));
    }

    /** The answer to DECRQSS for SGR: the report as text, in a DCS string. */
    method ReplySgr(ctrl8bit: bool) returns (reply: seq<byte>)
      requires WellFormed(pen)
      ensures reply == Reply(ctrl8bit, pen)
    {
      hide Report, Print, Numbers, WellFormed;
      ReportNumbers(pen);
      var args := new Arg[20](_ => MISSING);
      var argc := GetPen(args);
      var text: seq<byte> := [];
      ghost var report := args[..argc];
      NothingPrinted();
      for argi := 0 to argc
        invariant args[..argc] == report
        invariant text == if argi == argc then Print(report) else PrintOpen(report[..argi])
      {
        var a := args[argi];
        assert report[argi] == a && report[..argi + 1][..argi] == report[..argi];
        PrintOpenSnoc(report[..argi], a);
        assert report[..argi] + [a] == report[..argi + 1];
        PrintedNumber(report, argi);
        assert argi + 1 == argc ==> report[..argi + 1] == report;
        text := text + Digits(a.value) + if argi == argc - 1 then [] else [Separator(a)];
      }
      reply := (if ctrl8bit then [0x90] else [0x1b, 0x50]) + [0x31, 0x24, 0x72] + text + [0x6d] +
               (if ctrl8bit then [0x9c] else [0x1b, 0x5c]);
    }

    method PutUnderline(args: array<Arg>, start: nat) returns (argi: nat)
      requires start + 2 <= args.Length
      modifies args
      ensures start <= argi <= start + (if pen.underline == Double then 0 else 2)
      ensures args[..argi] == old(args[..start]) + ReportUnderline(pen.underline)
    {
      argi := start;
      if pen.underline == Single {
        args[argi], argi := Arg(4, false), argi + 1;
      }
      if pen.underline == Curly {
        args[argi], args[argi + 1], argi := Arg(4, true), Arg(3, false), argi + 2;
      }
    }

    /** vterm_state_getpen_color. */
    method PutColour(args: array<Arg>, start: nat, c: Colour, base: nat) returns (argi: nat)
      requires start + 5 <= args.Length
      modifies args
      ensures start <= argi <= start + 5 && args[..argi] == old(args[..start]) + ReportColour(c, base)
    {
      argi := start;
      match c {
        case Default =>
        case Indexed(n) =>
          if n < 8 {
            args[argi], argi := Arg(base + n, false), argi + 1;
          } else if n < 16 {
            args[argi], argi := Arg(n - 8 + base + 60, false), argi + 1;
          } else {
            args[argi], args[argi + 1], args[argi + 2] := Arg(base + 8, true), Arg(5, true), Arg(n, false);
            argi := argi + 3;
          }
        case Rgb(r, g, b) =>
          args[argi], args[argi + 1] := Arg(base + 8, true), Arg(2, true);
          args[argi + 2], args[argi + 3], args[argi + 4] := Arg(r, true), Arg(g, true), Arg(b, false);
          argi := argi + 5;
      }
    }
  }

  lemma Regroup(x: seq<Arg>, a: seq<Arg>, b: seq<Arg>, c: seq<Arg>, d: seq<Arg>)
    ensures x + a + b + c + d == x + (a + (b + (c + d)))
    ensures a == [] ==> x + b + c + d == x + (b + (c + d))
  {
    assert x + a + b + c + d == x + (a + (b + (c + d)));
  }

  lemma FromStart(args: seq<Arg>)
    ensures From(args, 0) == args
  {
  }

  lemma InterpretNothing(highbright: bool, pen: Pen, args: seq<Arg>, i: nat)
    requires i >= |args|
    ensures Interpret(highbright, pen, From(args, i)) == pen
  {
  }

  lemma {:induction false} GroupEndFrom(args: seq<Arg>, start: nat, k: nat)
    requires start <= |args|
    ensures start + GroupEnd(args[start..], k) == GroupEnd(args, start + k)
    decreases |args| - k
  {
    if start + k < |args| && args[start + k].more {
      GroupEndFrom(args, start, k + 1);
    }
  }

  lemma InterpretStep(highbright: bool, pen: Pen, args: seq<Arg>, i: nat)
    requires i < |args|
    ensures var one := One(highbright, pen, args[i..]);
            Interpret(highbright, pen, From(args, i)) == Interpret(highbright, one.pen, From(args, GroupEnd(args, i + one.last)))
  {
    hide One, GroupEnd;
    var one := One(highbright, pen, args[i..]);
    GroupEndFrom(args, i, one.last);
    var k := GroupEnd(args[i..], one.last);
    assert From(args[i..], k) == From(args, i + k);
  }

  lemma PenStaysWellFormed(highbright: bool, pen: Pen, args: seq<Arg>)
    ensures WellFormed(pen) ==> WellFormed(Interpret(highbright, pen, args))
  {
    if WellFormed(pen) {
      InterpretKeepsWellFormed(highbright, pen, args);
    }
  }
}
