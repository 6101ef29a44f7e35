/**
 The sequences of ECMA-48 as byte strings, and how the byte parser reads each of them whole.

 The reference machine goes byte by byte; here every form of sequence, with any leader, arguments, intermediate
 bytes, payload and either form of introducer and terminator, is said to be read as the one event or the one control
 string that it stands for.
 */
module Grammar {
  import opened Bytes
  import opened ControlSequences
  import Cuts
  import opened Parser

  /** A C1 control in its 8-bit form, or as ESC and a letter. */
  function C1Bytes(eight: bool, c: byte): seq<byte>
    requires 0x80 <= c < 0xa0
  {
    if eight then [c] else [0x1b, c - 0x40]
  }

  /** At most the first n. */
  function First(s: seq<byte>, n: nat): seq<byte> { if |s| <= n then s else s[..n] }

  // ----- numbers and arguments

  /** A number as "%ld" prints it. */
  function Digits(n: nat): (text: seq<byte>)
    ensures text != [] && forall i :: 0 <= i < |text| ==> IsDigit(text[i])
  {
    if n < 10 then [0x30 + n] else Digits(n / 10) + [0x30 + n % 10]
  }

  /** An argument that is missing is written as nothing. */
  function Written(value: nat): seq<byte> { if value == CSI_ARG_MISSING then [] else Digits(value) }

  function Separator(a: Arg): byte { if a.more then 0x3a else 0x3b }

  /** The arguments as text, each but the last with ':' or ';' after it. */
  function Print(args: seq<Arg>): seq<byte> {
    if args == [] then []
    else if |args| == 1 then Written(args[0].value)
    else Print(args[..|args| - 1]) + [Separator(args[|args| - 2])] + Written(args[|args| - 1].value)
  }

  /** The same with a separator after the last argument too. */
  function PrintOpen(args: seq<Arg>): seq<byte> {
    if args == [] then [] else Print(args) + [Separator(args[|args| - 1])]
  }

  lemma PrintOpenSnoc(args: seq<Arg>, a: Arg)
    ensures Print(args + [a]) == PrintOpen(args) + Written(a.value)
    ensures PrintOpen(args + [a]) == PrintOpen(args) + Written(a.value) + [Separator(a)]
  {
    assert (args + [a])[..|args|] == args;
  }

  /** Every argument is a number or missing, and the last has no ':' after it. */
  predicate Printable(args: seq<Arg>) {
    && (args != [] ==> !args[|args| - 1].more)
    && forall i :: 0 <= i < |args| ==> args[i].value <= CSI_ARG_MISSING
  }

  /** A number's digits fill in the argument that is open. */
  lemma {:induction false} ReadDigits(cfg: Config, leader: seq<byte>, args: seq<Arg>, n: nat)
    requires n < CSI_ARG_MISSING
    ensures Run(cfg, CsiArgs(leader, args + [MISSING]), Digits(n)) == Out(CsiArgs(leader, args + [Arg(n, false)]), [])
  {
    hide Step, Run;
    var m := CsiArgs(leader, args + [MISSING]);
    if n < 10 {
      RunOne(cfg, m, 0x30 + n);
      DigitStep(cfg, leader, args, MISSING, 0x30 + n);
    } else {
      ReadDigits(cfg, leader, args, n / 10);
      RunSnoc(cfg, m, Digits(n / 10), 0x30 + n % 10);
      DigitStep(cfg, leader, args, Arg(n / 10, false), 0x30 + n % 10);
    }
  }

  lemma ReadWritten(cfg: Config, leader: seq<byte>, args: seq<Arg>, n: nat)
    requires n <= CSI_ARG_MISSING
    ensures Run(cfg, CsiArgs(leader, args + [MISSING]), Written(n)) == Out(CsiArgs(leader, args + [Arg(n, false)]), [])
  {
    hide Step, Run;
    if n == CSI_ARG_MISSING {
      RunNothing(cfg, CsiArgs(leader, args + [MISSING]));
    } else {
      ReadDigits(cfg, leader, args, n);
    }
  }

  lemma DigitStep(cfg: Config, leader: seq<byte>, args: seq<Arg>, a: Arg, b: byte)
    requires IsDigit(b)
    ensures Step(cfg, CsiArgs(leader, args + [a]), b) == Out(CsiArgs(leader, args + [AddDigit(a, b)]), [])
  {
    assert (args + [a])[|args| := AddDigit(a, b)] == args + [AddDigit(a, b)];
  }

  lemma SeparatorStep(cfg: Config, leader: seq<byte>, args: seq<Arg>, a: Arg)
    ensures Step(cfg, CsiArgs(leader, args + [Arg(a.value, false)]), Separator(a)) == Out(CsiArgs(leader, args + [a] + [MISSING]), [])
  {
    assert (args + [Arg(a.value, false)])[|args| := a] == args + [a];
  }

  /** The text leads the parser through the arguments; the last is still open. */
  lemma {:induction false} ReadArgs(cfg: Config, leader: seq<byte>, args: seq<Arg>)
    requires args != [] && forall i :: 0 <= i < |args| ==> args[i].value <= CSI_ARG_MISSING
    ensures var k := |args| - 1;
            Run(cfg, CsiArgs(leader, [MISSING]), Print(args)) == Out(CsiArgs(leader, args[..k] + [Arg(args[k].value, false)]), [])
  {
    hide Step, Run;
    var k := |args| - 1;
    var m := CsiArgs(leader, [MISSING]);
    if k == 0 {
      ReadWritten(cfg, leader, [], args[0].value);
      assert [] + [MISSING] == [MISSING];
    } else {
      var before := args[..k];
      ReadArgs(cfg, leader, before);
      assert before[..k - 1] + [args[k - 1]] == before;
      SeparatorStep(cfg, leader, before[..k - 1], args[k - 1]);
      RunSnoc(cfg, m, Print(before), Separator(args[k - 1]));
      ReadWritten(cfg, leader, before, args[k].value);
      RunConcat(cfg, m, Print(before) + [Separator(args[k - 1])], Written(args[k].value));
    }
  }

  lemma {:induction false} PrintedBytes(args: seq<Arg>, i: nat)
    requires i < |Print(args)|
    ensures 0x30 <= Print(args)[i] <= 0x3b
  {
    if |args| > 1 && i < |Print(args[..|args| - 1])| {
      PrintedBytes(args[..|args| - 1], i);
    }
  }

  // ----- control functions

  /** CSI, private leader bytes, arguments, intermediate bytes, final byte. */
  function CsiText(eight: bool, leader: seq<byte>, args: seq<Arg>, intermed: seq<byte>, final: byte): seq<byte> {
    C1Bytes(eight, 0x9b) + (leader + (Print(args) + (intermed + [final])))
  }

  /** ESC and a letter, or its 8-bit form, puts the parser where the C1 control does. */
  lemma C1Opens(cfg: Config, eight: bool, c: byte)
    requires 0x80 <= c < 0xa0 && (eight ==> !cfg.utf8)
    ensures Run(cfg, Ground, C1Bytes(eight, c)) == C1Step(c)
  {
    hide Run, C1Step;
    if eight {
      RunOne(cfg, Ground, c);
    } else {
      assert [0x1b, c - 0x40] == [0x1b] + [c - 0x40];
      RunOne(cfg, Ground, 0x1b);
      RunSnoc(cfg, Ground, [0x1b], c - 0x40);
    }
  }

  lemma FirstPush(s: seq<byte>, b: byte, n: nat)
    ensures Push(First(s, n), b, n) == First(s + [b], n)
  {
  }

  lemma LeaderByteStep(cfg: Config, leader: seq<byte>, b: byte)
    requires 0x3c <= b <= 0x3f
    ensures Step(cfg, CsiLeader(First(leader, 15)), b) == Out(CsiLeader(First(leader + [b], 15)), [])
  {
    FirstPush(leader, b, 15);
  }

  lemma {:induction false} ReadLeader(cfg: Config, leader: seq<byte>)
    requires forall i :: 0 <= i < |leader| ==> 0x3c <= leader[i] <= 0x3f
    ensures Run(cfg, CsiLeader([]), leader) == Out(CsiLeader(First(leader, 15)), [])
  {
    hide Run, Step;
    if leader == [] {
      RunNothing(cfg, CsiLeader([]));
    } else {
      var most, last := leader[..|leader| - 1], leader[|leader| - 1];
      ReadLeader(cfg, most);
      RunSnoc(cfg, CsiLeader([]), most, last);
      LeaderByteStep(cfg, most, last);
      assert leader == most + [last];
    }
  }

  lemma LeaderFalls(cfg: Config, leader: seq<byte>, b: byte)
    requires 0x20 <= b && b != 0x7f && !(0x3c <= b <= 0x3f)
    ensures Step(cfg, CsiLeader(leader), b) == Step(cfg, CsiArgs(leader, [MISSING]), b)
  {
  }

  /** The first byte after the leader decides nothing about how the rest is read. */
  lemma RunFromLeader(cfg: Config, leader: seq<byte>, text: seq<byte>)
    requires text != [] && 0x20 <= text[0] && text[0] != 0x7f && !(0x3c <= text[0] <= 0x3f)
    ensures Run(cfg, CsiLeader(leader), text) == Run(cfg, CsiArgs(leader, [MISSING]), text)
  {
    hide Run, Step;
    var b := text[0];
    assert text == [b] + text[1..];
    LeaderFalls(cfg, leader, b);
    RunOne(cfg, CsiLeader(leader), b);
    RunOne(cfg, CsiArgs(leader, [MISSING]), b);
    RunConcat(cfg, CsiLeader(leader), [b], text[1..]);
    RunConcat(cfg, CsiArgs(leader, [MISSING]), [b], text[1..]);
  }

  ghost predicate AllIntermed(s: seq<byte>) { forall i :: 0 <= i < |s| ==> 0x20 <= s[i] <= 0x2f }

  lemma IntermedByteStep(cfg: Config, leader: seq<byte>, args: seq<Arg>, intermed: seq<byte>, b: byte)
    requires 0x20 <= b <= 0x2f && args != []
    ensures Step(cfg, CsiIntermed(leader, args, First(intermed, 15)), b) == Out(CsiIntermed(leader, args, First(intermed + [b], 15)), [])
    ensures Step(cfg, CsiArgs(leader, args), b) == Out(CsiIntermed(leader, args, [b]), [])
  {
    FirstPush(intermed, b, 15);
    assert [] + [b] == [b];
  }

  lemma {:induction false} ReadIntermed(cfg: Config, leader: seq<byte>, args: seq<Arg>, intermed: seq<byte>)
    requires args != [] && AllIntermed(intermed)
    ensures intermed == [] ==> Run(cfg, CsiArgs(leader, args), intermed) == Out(CsiArgs(leader, args), [])
    ensures intermed != [] ==> Run(cfg, CsiArgs(leader, args), intermed) == Out(CsiIntermed(leader, args, First(intermed, 15)), [])
  {
    hide Run, Step;
    var m := CsiArgs(leader, args);
    if intermed == [] {
      RunNothing(cfg, m);
    } else {
      var most, last := intermed[..|intermed| - 1], intermed[|intermed| - 1];
      ReadIntermed(cfg, leader, args, most);
      RunSnoc(cfg, m, most, last);
      IntermedByteStep(cfg, leader, args, most, last);
      assert intermed == most + [last];
      if most == [] {
        assert intermed == [last] && First(intermed, 15) == [last];
      }
    }
  }

  /** A final byte reports the function; any other byte that cannot go on drops it. */
  lemma FinalStep(cfg: Config, leader: seq<byte>, args: seq<Arg>, intermed: seq<byte>, b: byte)
    requires args != [] && (0x40 <= b <= 0x7e || b >= 0x80 || (intermed != [] && 0x30 <= b <= 0x3f) || 0x3c <= b <= 0x3f)
    ensures Step(cfg, if intermed == [] then CsiArgs(leader, args) else CsiIntermed(leader, args, intermed), b) ==
            Out(Ground, if 0x40 <= b <= 0x7e then [Csi(leader, args, intermed, b)] else [])
  {
  }

  /**
   A whole CSI function is read as itself, of its leader and of its intermediate bytes the first fifteen; with a byte in
   place of the final one that can neither end it nor go on, nothing is reported.
   */
  lemma CsiIsRead(cfg: Config, eight: bool, leader: seq<byte>, args: seq<Arg>, intermed: seq<byte>, final: byte)
    requires eight ==> !cfg.utf8
    requires forall i :: 0 <= i < |leader| ==> 0x3c <= leader[i] <= 0x3f
    requires forall i :: 0 <= i < |intermed| ==> 0x20 <= intermed[i] <= 0x2f
    requires args != [] && Printable(args)
    requires 0x40 <= final <= 0x7e || 0x80 <= final || (intermed != [] && 0x30 <= final <= 0x3f) || (Print(args) != [] && 0x3c <= final <= 0x3f)
    ensures Run(cfg, Ground, CsiText(eight, leader, args, intermed, final)) ==
            Out(Ground, if 0x40 <= final <= 0x7e then [Csi(First(leader, 15), args, First(intermed, 15), final)] else [])
  {
    hide Run, Step, Print, First;
    var lead, rest := First(leader, 15), Print(args) + (intermed + [final]);
    C1Opens(cfg, eight, 0x9b);
    RunConcat(cfg, Ground, C1Bytes(eight, 0x9b), leader + rest);
    ReadLeader(cfg, leader);
    RunConcat(cfg, CsiLeader([]), leader, rest);
    if Print(args) != [] {
      PrintedBytes(args, 0);
      assert rest[0] == Print(args)[0];
    }
    RunFromLeader(cfg, lead, rest);
    ReadArgs(cfg, lead, args);
    assert args[..|args| - 1] + [Arg(args[|args| - 1].value, false)] == args;
    RunConcat(cfg, CsiArgs(lead, [MISSING]), Print(args), intermed + [final]);
    ReadIntermed(cfg, lead, args, intermed);
    FirstNone(intermed);
    RunSnoc(cfg, CsiArgs(lead, args), intermed, final);
    FinalStep(cfg, lead, args, First(intermed, 15), final);
  }

  lemma FirstNone(s: seq<byte>)
    ensures First(s, 15) == [] <==> s == []
    ensures First([], 16) == []
  {
  }

  /** ESC, intermediate bytes, final byte: reported as an escape of the first fifteen and the final one. */
  lemma EscapeIsRead(cfg: Config, intermed: seq<byte>, final: byte)
    requires forall i :: 0 <= i < |intermed| ==> 0x20 <= intermed[i] <= 0x2f
    requires 0x30 <= final <= 0x7e && (intermed == [] ==> !(0x40 <= final <= 0x5f))
    ensures Run(cfg, Ground, [0x1b] + (intermed + [final])) == Out(Ground, [Escape(First(intermed, 15) + [final])])
  {
    hide Run, Step, First;
    RunOne(cfg, Ground, 0x1b);
    RunConcat(cfg, Ground, [0x1b], intermed + [final]);
    EscOpens(cfg);
    ReadEscaped(cfg, intermed);
    FirstNone(intermed);
    RunSnoc(cfg, Escaped([]), intermed, final);
    EscapeEnds(cfg, First(intermed, 15), final);
  }

  lemma EscOpens(cfg: Config)
    ensures Step(cfg, Ground, 0x1b) == Out(Escaped([]), [])
  {
  }

  lemma EscapeEnds(cfg: Config, intermed: seq<byte>, final: byte)
    requires 0x30 <= final <= 0x7e && (intermed == [] ==> !(0x40 <= final <= 0x5f))
    ensures Step(cfg, Escaped(intermed), final) == Out(Ground, [Escape(intermed + [final])])
  {
  }

  lemma EscapeGoesOn(cfg: Config, intermed: seq<byte>, b: byte)
    requires 0x20 <= b <= 0x2f
    ensures Step(cfg, Escaped(First(intermed, 15)), b) == Out(Escaped(First(intermed + [b], 15)), [])
  {
    FirstPush(intermed, b, 15);
  }

  lemma {:induction false} ReadEscaped(cfg: Config, intermed: seq<byte>)
    requires forall i :: 0 <= i < |intermed| ==> 0x20 <= intermed[i] <= 0x2f
    ensures Run(cfg, Escaped([]), intermed) == Out(Escaped(First(intermed, 15)), [])
  {
    hide Run, Step;
    if intermed == [] {
      RunNothing(cfg, Escaped([]));
    } else {
      var most, last := intermed[..|intermed| - 1], intermed[|intermed| - 1];
      ReadEscaped(cfg, most);
      RunSnoc(cfg, Escaped([]), most, last);
      EscapeGoesOn(cfg, most, last);
      assert intermed == most + [last];
    }
  }

  /** Every other C1 control, in either form, is reported as the 8-bit one. */
  lemma C1IsRead(cfg: Config, eight: bool, c: byte)
    requires 0x80 <= c < 0xa0 && c !in {0x90, 0x98, 0x9b, 0x9d, 0x9e, 0x9f} && (eight ==> !cfg.utf8)
    ensures Run(cfg, Ground, C1Bytes(eight, c)) == Out(Ground, [Control(c)])
  {
    hide Run;
    C1Opens(cfg, eight, c);
  }

  // ----- control strings

  /** A byte that is data in a string of this kind. */
  predicate IsPayload(cfg: Config, k: StringKind, b: byte) {
    if b < 0x20 then k == Sos && b !in {0x00, 0x07, 0x18, 0x1a, 0x1b} else b != 0x7f && (cfg.utf8 || b != 0x9c)
  }

  /** The bytes that open a string of this kind. */
  function Head(eight: bool, k: StringKind): seq<byte> {
    match k
    case Osc(number) => C1Bytes(eight, 0x9d) + ((if number < 0 then [] else Digits(number)) + [0x3b])
    case Dcs(command) => C1Bytes(eight, 0x90) + command
    case Sos => C1Bytes(eight, 0x98)
    case Pm => C1Bytes(eight, 0x9e)
    case Apc => C1Bytes(eight, 0x9f)
  }

  /** A DCS command ends at its first byte from 0x40 to 0x7e; an OSC that has no number counts as -1. */
  predicate IsKind(k: StringKind) {
    match k
    case Osc(number) => number >= -1
    case Dcs(command) =>
      && command != [] && 0x40 <= command[|command| - 1] <= 0x7e
      && forall i :: 0 <= i < |command| - 1 ==> 0x20 <= command[i] && !(0x40 <= command[i] <= 0x7f)
    case _ => true
  }

  /** ST, in either form, and BEL. */
  predicate IsEnd(cfg: Config, end: seq<byte>) {
    end == [0x1b, 0x5c] || end == [0x07] || (!cfg.utf8 && end == [0x9c])
  }

  /** Of a DCS command the first sixteen bytes are kept. */
  function Kept(k: StringKind): StringKind { if k.Dcs? then Dcs(First(k.dcsCommand, 16)) else k }

  function StringEvents(k: StringKind, payload: seq<byte>): seq<Event> {
    [Fragment(k, [], true, false)] +
    seq(|payload|, i requires 0 <= i < |payload| => Fragment(k, [payload[i]], false, false)) +
    [Fragment(k, [], false, true)]
  }

  lemma {:induction false} ReadNumber(cfg: Config, n: nat)
    ensures Run(cfg, OscCommand(-1, false, true), Digits(n)) == Out(OscCommand(n, false, true), [])
  {
    hide Run, Step;
    var m := OscCommand(-1, false, true);
    if n < 10 {
      RunOne(cfg, m, 0x30 + n);
      NumberStep(cfg, -1, n);
    } else {
      ReadNumber(cfg, n / 10);
      RunSnoc(cfg, m, Digits(n / 10), 0x30 + n % 10);
      NumberStep(cfg, n / 10, n % 10);
    }
  }

  /** The number of an OSC is decimal. */
  lemma NumberStep(cfg: Config, number: int, digit: nat)
    requires number >= -1 && digit < 10
    ensures Step(cfg, OscCommand(number, false, true), 0x30 + digit) ==
            Out(OscCommand(if number == -1 then digit else number * 10 + digit, false, true), [])
  {
  }

  lemma ReadOscHead(cfg: Config, eight: bool, number: int)
    requires number >= -1 && (eight ==> !cfg.utf8)
    ensures Run(cfg, Ground, C1Bytes(eight, 0x9d) + (if number < 0 then [] else Digits(number))) == Out(OscCommand(number, false, true), [])
  {
    hide Run, Step;
    var text, m := if number < 0 then [] else Digits(number), OscCommand(-1, false, true);
    C1Opens(cfg, eight, 0x9d);
    RunConcat(cfg, Ground, C1Bytes(eight, 0x9d), text);
    if number < 0 {
      RunNothing(cfg, m);
    } else {
      ReadNumber(cfg, number);
    }
  }

  lemma DcsByteStep(cfg: Config, command: seq<byte>, b: byte)
    requires 0x20 <= b && b != 0x7f
    ensures var kept := First(command + [b], 16);
            Step(cfg, DcsCommand(First(command, 16)), b) ==
            if 0x40 <= b <= 0x7e then Out(InString(Dcs(kept), false), [Fragment(Dcs(kept), [], true, false)]) else Out(DcsCommand(kept), [])
  {
    FirstPush(command, b, 16);
  }

  lemma {:induction false} ReadCommand(cfg: Config, command: seq<byte>)
    requires forall i :: 0 <= i < |command| ==> 0x20 <= command[i] && !(0x40 <= command[i] <= 0x7f)
    ensures Run(cfg, DcsCommand([]), command) == Out(DcsCommand(First(command, 16)), [])
  {
    hide Run, Step, First;
    FirstNone([]);
    if command == [] {
      RunNothing(cfg, DcsCommand([]));
    } else {
      var most, last := command[..|command| - 1], command[|command| - 1];
      ReadCommand(cfg, most);
      RunSnoc(cfg, DcsCommand([]), most, last);
      DcsByteStep(cfg, most, last);
      assert command == most + [last];
    }
  }

  lemma ReadDcsHead(cfg: Config, eight: bool, command: seq<byte>)
    requires IsKind(Dcs(command)) && (eight ==> !cfg.utf8)
    ensures var k := Dcs(First(command, 16));
            Run(cfg, Ground, C1Bytes(eight, 0x90) + command) == Out(InString(k, false), [Fragment(k, [], true, false)])
  {
    hide Run, Step, First;
    var most, last := command[..|command| - 1], command[|command| - 1];
    assert command == most + [last];
    C1Opens(cfg, eight, 0x90);
    RunConcat(cfg, Ground, C1Bytes(eight, 0x90), command);
    ReadCommand(cfg, most);
    RunSnoc(cfg, DcsCommand([]), most, last);
    DcsByteStep(cfg, most, last);
  }

  lemma ReadHead(cfg: Config, eight: bool, k: StringKind)
    requires IsKind(k) && (eight ==> !cfg.utf8)
    ensures Run(cfg, Ground, Head(eight, k)) == Out(InString(Kept(k), false), [Fragment(Kept(k), [], true, false)])
  {
    hide Run, First, Digits;
    match k {
      case Osc(number) =>
        var text := C1Bytes(eight, 0x9d) + (if number < 0 then [] else Digits(number));
        ReadOscHead(cfg, eight, number);
        RunSnoc(cfg, Ground, text, 0x3b);
        assert Head(eight, k) == text + [0x3b];
      case Dcs(command) => ReadDcsHead(cfg, eight, command);
      case Sos => C1Opens(cfg, eight, 0x98);
      case Pm => C1Opens(cfg, eight, 0x9e);
      case Apc => C1Opens(cfg, eight, 0x9f);
    }
  }

  lemma PayloadStep(cfg: Config, k: StringKind, b: byte)
    requires IsPayload(cfg, k, b)
    ensures Step(cfg, InString(k, false), b) == Out(InString(k, false), [Data(k, b)])
  {
  }

  lemma {:induction false} ReadPayload(cfg: Config, k: StringKind, payload: seq<byte>)
    requires forall i :: 0 <= i < |payload| ==> IsPayload(cfg, k, payload[i])
    ensures Run(cfg, InString(k, false), payload) == Out(InString(k, false), DataRun(k, payload))
  {
    hide Run, Step, IsPayload;
    var m := InString(k, false);
    if payload == [] {
      RunNothing(cfg, m);
    } else {
      var most, last := payload[..|payload| - 1], payload[|payload| - 1];
      ReadPayload(cfg, k, most);
      RunSnoc(cfg, m, most, last);
      PayloadStep(cfg, k, last);
      assert payload == most + [last];
      DataRunSnoc(k, most, last);
    }
  }

  lemma ReadEnd(cfg: Config, k: StringKind, end: seq<byte>)
    requires IsEnd(cfg, end)
    ensures Run(cfg, InString(k, false), end) == Out(Ground, [Fragment(k, [], false, true)])
  {
    hide Run;
    var m := InString(k, false);
    if end == [0x1b, 0x5c] {
      assert end == [0x1b] + [0x5c];
      RunOne(cfg, m, 0x1b);
      RunSnoc(cfg, m, [0x1b], 0x5c);
    } else {
      RunOne(cfg, m, end[0]);
    }
  }

  /** A whole control string is read as its opening, its payload byte by byte, and its end, whichever forms are used. */
  lemma StringIsRead(cfg: Config, eight: bool, k: StringKind, payload: seq<byte>, end: seq<byte>)
    requires IsKind(k) && IsEnd(cfg, end) && (eight ==> !cfg.utf8)
    requires forall i :: 0 <= i < |payload| ==> IsPayload(cfg, k, payload[i])
    ensures Run(cfg, Ground, Head(eight, k) + (payload + end)) == Out(Ground, StringEvents(Kept(k), payload))
  {
    hide Run, Head, DataRun, IsEnd, IsKind, First;
    var k', m := Kept(k), InString(Kept(k), false);
    ReadHead(cfg, eight, k);
    RunConcat(cfg, Ground, Head(eight, k), payload + end);
    forall i | 0 <= i < |payload| ensures IsPayload(cfg, k', payload[i]) {
      assert IsPayload(cfg, k, payload[i]);
    }
    ReadPayload(cfg, k', payload);
    RunConcat(cfg, m, payload, end);
    ReadEnd(cfg, k', end);
    RunIs(k', payload);
    AppendAssoc([Fragment(k', [], true, false)], DataRun(k', payload), [Fragment(k', [], false, true)]);
  }

  lemma RunIs(k: StringKind, payload: seq<byte>)
    ensures DataRun(k, payload) == seq(|payload|, i requires 0 <= i < |payload| => Fragment(k, [payload[i]], false, false))
  {
  }

  /** An OSC whose number is not followed by ';': what follows is its payload, or its end. */
  lemma OscWithoutSemicolon(cfg: Config, eight: bool, number: int, payload: seq<byte>, end: seq<byte>)
    requires number >= -1 && IsEnd(cfg, end) && (eight ==> !cfg.utf8)
    requires forall i :: 0 <= i < |payload| ==> IsPayload(cfg, Osc(number), payload[i])
    requires payload != [] ==> !(0x30 <= payload[0] <= 0x39) && payload[0] != 0x3b
    ensures Run(cfg, Ground, C1Bytes(eight, 0x9d) + (if number < 0 then [] else Digits(number)) + (payload + end)) ==
            Out(Ground, StringEvents(Osc(number), payload))
  {
    hide Run, DataRun;
    var text, k, m := C1Bytes(eight, 0x9d) + (if number < 0 then [] else Digits(number)), Osc(number), OscCommand(number, false, true);
    ReadOscHead(cfg, eight, number);
    RunConcat(cfg, Ground, text, payload + end);
    if payload == [] {
      assert payload + end == end;
      EndsAtOnce(cfg, number, end);
    } else {
      FirstOfPayload(cfg, number, payload[0]);
      RunOne(cfg, m, payload[0]);
      RunConcat(cfg, m, [payload[0]], payload[1..] + end);
      assert payload + end == [payload[0]] + (payload[1..] + end);
      ReadPayload(cfg, k, payload[1..]);
      RunConcat(cfg, InString(k, false), payload[1..], end);
      ReadEnd(cfg, k, end);
      RunIs(k, payload[1..]);
    }
  }

  lemma FirstOfPayload(cfg: Config, number: int, b: byte)
    requires IsPayload(cfg, Osc(number), b) && !(0x30 <= b <= 0x39) && b != 0x3b
    ensures Step(cfg, OscCommand(number, false, true), b) ==
            Out(InString(Osc(number), false), [Fragment(Osc(number), [], true, false), Fragment(Osc(number), [b], false, false)])
  {
  }

  lemma EndsAtOnce(cfg: Config, number: int, end: seq<byte>)
    requires IsEnd(cfg, end)
    ensures Run(cfg, OscCommand(number, false, true), end) ==
            Out(Ground, [Fragment(Osc(number), [], true, false), Fragment(Osc(number), [], false, true)])
  {
    hide Run;
    var m := OscCommand(number, false, true);
    if end == [0x1b, 0x5c] {
      assert end == [0x1b] + [0x5c];
      RunOne(cfg, m, 0x1b);
      RunSnoc(cfg, m, [0x1b], 0x5c);
    } else {
      RunOne(cfg, m, end[0]);
    }
  }

  // ----- text, and bytes that act anywhere

  /** Printable bytes outside any sequence are text: from 0xa0 up, and in UTF-8 mode from 0x80 up. */
  lemma TextIsRead(cfg: Config, text: seq<byte>)
    requires forall i :: 0 <= i < |text| ==> 0x20 <= text[i] < 0x7f || 0xa0 <= text[i] || (cfg.utf8 && 0x80 <= text[i])
    ensures Run(cfg, Ground, text) == Out(Ground, seq(|text|, i requires 0 <= i < |text| => Text([text[i]])))
  {
    hide Run;
    RunText(cfg, text);
    assert TextRun(text) == seq(|text|, i requires 0 <= i < |text| => Text([text[i]]));
  }

  /**
   In any state: NUL and DEL change nothing, CAN and SUB lead back to the ground state, ESC begins an escape sequence or may
   end a string, and every other C0 control is reported at once, apart from BEL in a string and all of them in SOS.
   */
  lemma ActsAnywhere(cfg: Config, m: Mode, b: byte)
    ensures b in {0x00, 0x7f} && !m.OscCommand? ==> Step(cfg, m, b) == Out(m, if cfg.emitNul then [Control(b)] else [])
    ensures b in {0x18, 0x1a} ==> Step(cfg, m, b) == Out(Ground, if cfg.emitNul then [Control(b)] else [])
    ensures b == 0x1b && !m.OscCommand? && !m.InString? ==> Step(cfg, m, b) == Out(Escaped([]), [])
    ensures b == 0x1b && m.InString? ==> Step(cfg, m, b) == Out(InString(m.kind, true), [])
    ensures b in {0x01, 0x02, 0x03, 0x04, 0x05, 0x06, 0x08, 0x09, 0x0a, 0x0b, 0x0c, 0x0d, 0x0e, 0x0f, 0x10, 0x11, 0x12, 0x13, 0x14,
                  0x15, 0x16, 0x17, 0x19, 0x1c, 0x1d, 0x1e, 0x1f} && !m.OscCommand? && !(m.InString? && m.kind == Sos) ==>
              Step(cfg, m, b) == Out(m, [Control(b)])
    ensures b == 0x07 && !m.OscCommand? && !m.InString? ==> Step(cfg, m, b) == Out(m, [Control(b)])
    ensures m.OscCommand? && b in {0x00, 0x7f} ==> Step(cfg, m, b) == Out(m.(untouched := false), if cfg.emitNul then [Control(b)] else [])
    ensures m.OscCommand? && b < 0x20 && b !in {0x00, 0x07, 0x18, 0x1a, 0x1b} ==> Step(cfg, m, b) == Out(m.(untouched := false), [Control(b)])
    ensures m.OscCommand? && b == 0x1b ==> Step(cfg, m, b) == Out(OscCommand(m.number, true, m.untouched), [])
  {
    hide GraphicStep;
  }

  /** An ESC in a control string that is not followed by '\\' drops the string and begins an escape sequence, in which no letter is a C1. */
  lemma EscLeavesString(cfg: Config, m: Mode, b: byte)
    requires (m.InString? || m.OscCommand?) && m.inEsc && (0x20 <= b || b == 0x07) && b != 0x7f && b != 0x5c
    ensures Step(cfg, m, b) ==
            if 0x20 <= b <= 0x2f then Out(Escaped([b]), [])
            else if 0x30 <= b <= 0x7e then Out(Ground, [Escape([b])])
            else Out(Escaped([]), [])
  {
    assert [] + [b] == [b];
  }

  // ----- strings that are dropped

  lemma BeforeString(cfg: Config, m: Mode, b: byte)
    requires !m.InString? && (m.OscCommand? ==> m.untouched) && (b == 0x1b || (0x20 <= b && b != 0x7f)) && Step(cfg, m, b).events == []
    ensures var m' := Step(cfg, m, b).mode; !m'.InString? && (m'.OscCommand? ==> m'.untouched)
  {
  }

  /** Until the string has begun nothing is held back. */
  lemma {:induction false} HearOpening(cfg: Config, bytes: seq<byte>)
    requires Run(cfg, Ground, bytes).events == [] && forall i :: 0 <= i < |bytes| ==> Opens(bytes[i])
    ensures var m := Run(cfg, Ground, bytes).mode;
            !m.InString? && (m.OscCommand? ==> m.untouched) && Cuts.HearAll(cfg, Cuts.Fresh(Ground), bytes) == Cuts.Fresh(m)
  {
    hide Run, Step;
    if bytes == [] {
      RunNothing(cfg, Ground);
    } else {
      var most, last := bytes[..|bytes| - 1], bytes[|bytes| - 1];
      RunSnoc(cfg, Ground, most, last);
      assert bytes == most + [last];
      HearOpening(cfg, most);
      BeforeString(cfg, Run(cfg, Ground, most).mode, last);
    }
  }

  ghost predicate Opens(b: byte) { b == 0x1b || (0x20 <= b && b != 0x7f) }

  lemma C1Is(eight: bool, c: byte)
    requires 0x80 <= c < 0xa0
    ensures C1Bytes(eight, c) != [] && forall i :: 0 <= i < |C1Bytes(eight, c)| ==> Opens(C1Bytes(eight, c)[i])
  {
  }

  lemma HeadEnds(eight: bool, k: StringKind)
    requires IsKind(k)
    ensures Head(eight, k) != [] && forall i :: 0 <= i < |Head(eight, k)| ==> Opens(Head(eight, k)[i])
  {
    match k {
      case Osc(number) =>
        C1Is(eight, 0x9d);
        hide C1Bytes;
        if number >= 0 {
          assert forall i :: 0 <= i < |Digits(number)| ==> Opens(Digits(number)[i]);
        }
      case Dcs(command) =>
        C1Is(eight, 0x90);
        hide C1Bytes;
        assert forall i :: 0 <= i < |command| ==> Opens(command[i]);
      case _ =>
    }
  }

  lemma HearHead(cfg: Config, eight: bool, k: StringKind)
    requires IsKind(k) && (eight ==> !cfg.utf8)
    ensures Cuts.HearAll(cfg, Cuts.Fresh(Ground), Head(eight, k)) == Cuts.Heard(InString(Kept(k), false), [], [Begin(Kept(k))], false)
  {
    hide Run, Step, Head, IsKind;
    HeadEnds(eight, k);
    ReadHead(cfg, eight, k);
    var head := Head(eight, k);
    var most, last := head[..|head| - 1], head[|head| - 1];
    assert head == most + [last];
    RunSnoc(cfg, Ground, most, last);
    HeadSilent(cfg, eight, k);
    HearOpening(cfg, most);
    HearSnoc(cfg, Cuts.Fresh(Ground), most, last);
    Begins(cfg, Run(cfg, Ground, most).mode, last);
  }

  lemma Begins(cfg: Config, m: Mode, b: byte)
    requires !m.InString? && Step(cfg, m, b).mode.InString?
    ensures Cuts.Hear(cfg, Cuts.Fresh(m), b) == Cuts.Heard(Step(cfg, m, b).mode, [], Step(cfg, m, b).events, Step(cfg, m, b).mode.inEsc)
  {
    hide Step;
  }

  lemma HearSnoc(cfg: Config, h: Cuts.Heard, bytes: seq<byte>, b: byte)
    ensures Cuts.HearAll(cfg, h, bytes + [b]) == Cuts.Hear(cfg, Cuts.HearAll(cfg, h, bytes), b)
  {
    assert (bytes + [b])[..|bytes|] == bytes;
  }

  lemma HeadSilent(cfg: Config, eight: bool, k: StringKind)
    requires IsKind(k) && (eight ==> !cfg.utf8)
    ensures Head(eight, k) != [] && Run(cfg, Ground, Head(eight, k)[..|Head(eight, k)| - 1]).events == []
  {
    hide Run, First, Digits;
    var head := Head(eight, k);
    match k {
      case Osc(number) =>
        ReadOscHead(cfg, eight, number);
        assert head[..|head| - 1] == C1Bytes(eight, 0x9d) + (if number < 0 then [] else Digits(number));
      case Dcs(command) =>
        var most := command[..|command| - 1];
        C1Opens(cfg, eight, 0x90);
        ReadCommand(cfg, most);
        RunConcat(cfg, Ground, C1Bytes(eight, 0x90), most);
        assert head[..|head| - 1] == C1Bytes(eight, 0x90) + most;
      case _ =>
        RunNothing(cfg, Ground);
        RunOne(cfg, Ground, 0x1b);
        assert head[..|head| - 1] == if eight then [] else [0x1b];
    }
  }

  lemma HearPayloadByte(cfg: Config, k: StringKind, told: seq<Event>, pending: seq<Event>, b: byte)
    requires IsPayload(cfg, k, b)
    ensures Cuts.Hear(cfg, Cuts.Heard(InString(k, false), told, pending, false), b) == Cuts.Heard(InString(k, false), told, pending + [Data(k, b)], false)
  {
  }

  /** Data is held back. */
  lemma {:induction false} HearPayload(cfg: Config, k: StringKind, told: seq<Event>, pending: seq<Event>, payload: seq<byte>)
    requires forall i :: 0 <= i < |payload| ==> IsPayload(cfg, k, payload[i])
    ensures Cuts.HearAll(cfg, Cuts.Heard(InString(k, false), told, pending, false), payload) ==
            Cuts.Heard(InString(k, false), told, pending + DataRun(k, payload), false)
  {
    hide Step, IsPayload, Cuts.Hear;
    if payload == [] {
      assert pending + DataRun(k, []) == pending;
    } else {
      var most, last := payload[..|payload| - 1], payload[|payload| - 1];
      HearPayload(cfg, k, told, pending, most);
      HearPayloadByte(cfg, k, told, pending + DataRun(k, most), last);
      assert payload == most + [last];
      DataRunSnoc(k, most, last);
      AppendAssoc(pending, DataRun(k, most), [Data(k, last)]);
    }
  }

  /** The bytes of one write that open a string and give it data are all held back. */
  lemma HearOpen(cfg: Config, eight: bool, k: StringKind, payload: seq<byte>)
    requires IsKind(k) && (eight ==> !cfg.utf8) && forall i :: 0 <= i < |payload| ==> IsPayload(cfg, k, payload[i])
    ensures Cuts.HearAll(cfg, Cuts.Fresh(Ground), Head(eight, k) + payload) ==
            Cuts.Heard(InString(Kept(k), false), [], [Begin(Kept(k))] + DataRun(Kept(k), payload), false)
  {
    hide Step, Head, IsKind, Cuts.HearAll, First;
    HearHead(cfg, eight, k);
    Cuts.HearConcat(cfg, Cuts.Fresh(Ground), Head(eight, k), payload);
    forall i | 0 <= i < |payload| ensures IsPayload(cfg, Kept(k), payload[i]) {
      assert IsPayload(cfg, k, payload[i]);
    }
    HearPayload(cfg, Kept(k), [], [Begin(Kept(k))], payload);
  }

  /** CAN or SUB in the write that opened the string: nothing of the string is reported. */
  lemma CancelDrops(cfg: Config, eight: bool, k: StringKind, payload: seq<byte>, b: byte)
    requires IsKind(k) && (eight ==> !cfg.utf8) && forall i :: 0 <= i < |payload| ==> IsPayload(cfg, k, payload[i])
    requires b == 0x18 || b == 0x1a
    ensures Cuts.HearWrite(cfg, Ground, Head(eight, k) + payload + [b]) == Out(Ground, if cfg.emitNul then [Control(b)] else [])
  {
    hide GraphicStep, Head, IsKind, Cuts.HearAll;
    HearOpen(cfg, eight, k, payload);
    HearSnoc(cfg, Cuts.Fresh(Ground), Head(eight, k) + payload, b);
  }

  /** So it is when an ESC other than that of ST comes; the escape sequence it begins goes on as outside. */
  lemma EscDrops(cfg: Config, eight: bool, k: StringKind, payload: seq<byte>, b: byte)
    requires IsKind(k) && (eight ==> !cfg.utf8) && forall i :: 0 <= i < |payload| ==> IsPayload(cfg, k, payload[i])
    requires 0x20 <= b && b != 0x5c && b != 0x7f
    ensures Cuts.HearWrite(cfg, Ground, Head(eight, k) + payload + [0x1b] + [b]) ==
            if 0x20 <= b <= 0x2f then Out(Escaped([b]), []) else if b <= 0x7e then Out(Ground, [Escape([b])]) else Out(Escaped([]), [])
  {
    hide Step, Head, IsKind, Cuts.HearAll;
    var text, k' := Head(eight, k) + payload, Kept(k);
    HearOpen(cfg, eight, k, payload);
    HearSnoc(cfg, Cuts.Fresh(Ground), text, 0x1b);
    HearSnoc(cfg, Cuts.Fresh(Ground), text + [0x1b], b);
    ActsAnywhere(cfg, InString(k', false), 0x1b);
    EscLeavesString(cfg, InString(k', true), b);
  }

  /** A C0 control hands out what is held back, and is reported after it; what comes later is dropped by itself. */
  lemma ControlHandsOut(cfg: Config, eight: bool, k: StringKind, payload: seq<byte>, control: byte, more: seq<byte>)
    requires IsKind(k) && k != Sos && (eight ==> !cfg.utf8)
    requires forall i :: 0 <= i < |payload| ==> IsPayload(cfg, k, payload[i])
    requires forall i :: 0 <= i < |more| ==> IsPayload(cfg, k, more[i])
    requires 0 < control < 0x20 && control !in {0x07, 0x18, 0x1a, 0x1b}
    ensures Cuts.HearWrite(cfg, Ground, Head(eight, k) + payload + [control] + more + [0x18]) ==
            Out(Ground, [Begin(Kept(k))] + DataRun(Kept(k), payload) + [Control(control)] + if cfg.emitNul then [Control(0x18)] else [])
  {
    hide GraphicStep, Head, IsKind, Cuts.HearAll, First, DataRun;
    var text, k' := Head(eight, k) + payload, Kept(k);
    HearOpen(cfg, eight, k, payload);
    HearSnoc(cfg, Cuts.Fresh(Ground), text, control);
    var told := [Begin(k')] + DataRun(k', payload) + [Control(control)];
    assert [] + ([Begin(k')] + DataRun(k', payload)) + [Control(control)] == told;
    assert Cuts.HearAll(cfg, Cuts.Fresh(Ground), text + [control]) == Cuts.Heard(InString(k', false), told, [], false);
    Cuts.HearConcat(cfg, Cuts.Fresh(Ground), text + [control], more);
    forall i | 0 <= i < |more| ensures IsPayload(cfg, k', more[i]) {
      assert IsPayload(cfg, k, more[i]);
    }
    HearPayload(cfg, k', told, [], more);
    HearSnoc(cfg, Cuts.Fresh(Ground), text + [control] + more, 0x18);
  }

  // ----- through the parser itself

  /** No CAN, no SUB, and every ESC but one that opens the input is the start of an ST. */
  ghost predicate EscClosed(bytes: seq<byte>) {
    && (forall i :: 0 <= i < |bytes| ==> bytes[i] != 0x18 && bytes[i] != 0x1a)
    && (forall i {:trigger bytes[i]} :: 1 < i < |bytes| && bytes[i - 1] == 0x1b ==> bytes[i] == 0x5c)
  }

  lemma {:induction false} EscPending(cfg: Config, bytes: seq<byte>, i: nat)
    requires EscClosed(bytes) && i <= |bytes|
    ensures var m := Run(cfg, Ground, bytes[..i]).mode;
            (m.InString? || m.OscCommand?) && m.inEsc ==> i > 1 && bytes[i - 1] == 0x1b
  {
    hide Run, Step;
    if i == 0 {
      RunNothing(cfg, Ground);
    } else {
      var before := Run(cfg, Ground, bytes[..i - 1]).mode;
      EscPending(cfg, bytes, i - 1);
      RunSnoc(cfg, Ground, bytes[..i - 1], bytes[i - 1]);
      assert bytes[..i] == bytes[..i - 1] + [bytes[i - 1]];
      if i == 1 {
        RunNothing(cfg, Ground);
        FromGround(cfg, bytes[0]);
      } else {
        EscArises(cfg, before, bytes[i - 1]);
      }
    }
  }

  lemma FromGround(cfg: Config, b: byte)
    ensures var m := Step(cfg, Ground, b).mode; !((m.InString? || m.OscCommand?) && m.inEsc)
  {
  }

  lemma EscArises(cfg: Config, m: Mode, b: byte)
    requires (m.InString? || m.OscCommand?) && m.inEsc ==> b == 0x5c
    ensures var m' := Step(cfg, m, b).mode; (m'.InString? || m'.OscCommand?) && m'.inEsc ==> b == 0x1b
  {
  }

  lemma EscClosedIsClean(cfg: Config, bytes: seq<byte>)
    requires EscClosed(bytes)
    ensures Clean(cfg, Ground, bytes)
  {
    hide Run;
    forall i | 0 <= i < |bytes| ensures !Abandons(Run(cfg, Ground, bytes[..i]).mode, bytes[i]) {
      EscPending(cfg, bytes, i);
    }
  }

  /** What the parser itself reports of such an input, in whatever pieces it is written. */
  method WritesReport(p: VTermParser, writes: seq<seq<byte>>)
    requires p.Idle() && p.Live() == Ground && NoneEmpty(writes) && EscClosed(Flatten(writes))
    modifies p
    ensures p.Idle() && p.Live() == Run(p.cfg, Ground, Flatten(writes)).mode
    ensures ExplodeAll(p.events) == old(ExplodeAll(p.events)) + Run(p.cfg, Ground, Flatten(writes)).events
  {
    hide ExplodeAll, Run, Cuts.HearWrites, Orderly, Clean, EscClosed, NoneEmpty;
    EscClosedIsClean(p.cfg, Flatten(writes));
    CleanIsOrderly(p.cfg, Ground, Flatten(writes));
    Cuts.CleanShowsNothing(p.cfg, Ground, Flatten(writes));
    Cuts.CutsDoNotShow(p.cfg, Ground, writes);
    p.WriteAll(writes);
  }

  lemma CsiClosed(eight: bool, leader: seq<byte>, args: seq<Arg>, intermed: seq<byte>, final: byte)
    requires forall i :: 0 <= i < |leader| ==> 0x3c <= leader[i] <= 0x3f
    requires forall i :: 0 <= i < |intermed| ==> 0x20 <= intermed[i] <= 0x2f
    requires 0x40 <= final <= 0x7e
    ensures EscClosed(CsiText(eight, leader, args, intermed, final))
  {
    hide Print;
    var text, intro := CsiText(eight, leader, args, intermed, final), C1Bytes(eight, 0x9b);
    forall i | |intro| <= i < |text| ensures text[i] >= 0x20 {
      if |intro| + |leader| <= i < |intro| + |leader| + |Print(args)| {
        PrintedBytes(args, i - |intro| - |leader|);
      }
    }
  }

  /** A CSI function written to the parser in any pieces is reported as that function and nothing else. */
  method CsiReported(p: VTermParser, writes: seq<seq<byte>>, eight: bool, leader: seq<byte>, args: seq<Arg>, intermed: seq<byte>, final: byte)
    requires p.Idle() && p.Live() == Ground && NoneEmpty(writes) && (eight ==> !p.cfg.utf8)
    requires |leader| < 16 && forall i :: 0 <= i < |leader| ==> 0x3c <= leader[i] <= 0x3f
    requires |intermed| < 16 && forall i :: 0 <= i < |intermed| ==> 0x20 <= intermed[i] <= 0x2f
    requires args != [] && Printable(args) && 0x40 <= final <= 0x7e
    requires Flatten(writes) == CsiText(eight, leader, args, intermed, final)
    modifies p
    ensures p.Idle() && p.Live() == Ground
    ensures ExplodeAll(p.events) == old(ExplodeAll(p.events)) + [Csi(leader, args, intermed, final)]
  {
    hide ExplodeAll, Run, EscClosed, NoneEmpty, CsiText, Printable;
    CsiClosed(eight, leader, args, intermed, final);
    CsiIsRead(p.cfg, eight, leader, args, intermed, final);
    WritesReport(p, writes);
  }

  lemma StringClosed(cfg: Config, eight: bool, k: StringKind, payload: seq<byte>, end: seq<byte>)
    requires IsKind(k) && IsEnd(cfg, end) && forall i :: 0 <= i < |payload| ==> IsPayload(cfg, k, payload[i])
    ensures EscClosed(Head(eight, k) + (payload + end))
  {
    var head, text := Head(eight, k), Head(eight, k) + (payload + end);
    var n := if eight then 1 else 2;
    forall i | n <= i < |text| - |end| ensures text[i] !in {0x18, 0x1a, 0x1b} {
      if i >= |head| {
        assert text[i] == payload[i - |head|];
      } else if k.Dcs? {
        assert text[i] == k.dcsCommand[i - n];
      }
    }
  }

  /** A control string written to the parser in any pieces is reported as its opening, its payload and its end. */
  method StringReported(p: VTermParser, writes: seq<seq<byte>>, eight: bool, k: StringKind, payload: seq<byte>, end: seq<byte>)
    requires p.Idle() && p.Live() == Ground && NoneEmpty(writes) && (eight ==> !p.cfg.utf8)
    requires IsKind(k) && (k.Dcs? ==> |k.dcsCommand| <= 16) && IsEnd(p.cfg, end)
    requires forall i :: 0 <= i < |payload| ==> IsPayload(p.cfg, k, payload[i])
    requires Flatten(writes) == Head(eight, k) + (payload + end)
    modifies p
    ensures p.Idle() && p.Live() == Ground
    ensures ExplodeAll(p.events) == old(ExplodeAll(p.events)) + StringEvents(k, payload)
  {
    hide ExplodeAll, Run, EscClosed, NoneEmpty, Head, IsKind, IsEnd, IsPayload, StringEvents;
    StringClosed(p.cfg, eight, k, payload, end);
    StringIsRead(p.cfg, eight, k, payload, end);
    WritesReport(p, writes);
  }

  lemma FourPrinted()
    ensures Print([Arg(38, true), Arg(5, false), MISSING, Arg(1, false)]) == [0x33, 0x38, 0x3a, 0x35, 0x3b, 0x3b, 0x31]
  {
    var a, b, c, d := Arg(38, true), Arg(5, false), MISSING, Arg(1, false);
    assert Digits(3) == [0x33] && Digits(38) == [0x33, 0x38] && Digits(5) == [0x35] && Digits(1) == [0x31];
    assert [a, b] == [a] + [b] && [a, b, c] == [a, b] + [c] && [a, b, c, d] == [a, b, c] + [d];
    PrintOpenSnoc([a], b);
    PrintOpenSnoc([a, b], c);
    PrintOpenSnoc([a, b, c], d);
  }

  /** DECSET 25 in bytes, and an SGR with a sub-argument and a missing one. */
  lemma FunctionsInBytes(cfg: Config)
    ensures Run(cfg, Ground, [0x1b, 0x5b, 0x3f, 0x32, 0x35, 0x68]) == Out(Ground, [Csi([0x3f], [Arg(25, false)], [], 0x68)])
    ensures Run(cfg, Ground, [0x1b, 0x5b, 0x33, 0x38, 0x3a, 0x35, 0x3b, 0x3b, 0x31, 0x6d]) ==
            Out(Ground, [Csi([], [Arg(38, true), Arg(5, false), Arg(0x7fff_ffff, false), Arg(1, false)], [], 0x6d)])
  {
    hide Run;
    var one, four := [Arg(25, false)], [Arg(38, true), Arg(5, false), MISSING, Arg(1, false)];
    assert Digits(2) == [0x32] && Digits(25) == [0x32, 0x35] && Print(one) == [0x32, 0x35];
    FourPrinted();
    hide Print, Digits;
    CsiIsRead(cfg, false, [0x3f], one, [], 0x68);
    CsiIsRead(cfg, false, [], four, [], 0x6d);
    assert CsiText(false, [0x3f], one, [], 0x68) == [0x1b, 0x5b, 0x3f, 0x32, 0x35, 0x68];
    assert CsiText(false, [], four, [], 0x6d) == [0x1b, 0x5b, 0x33, 0x38, 0x3a, 0x35, 0x3b, 0x3b, 0x31, 0x6d];
  }

  /** A title in bytes, and what joined callbacks are taken apart to. */
  lemma TitleInBytes(cfg: Config)
    ensures Run(cfg, Ground, [0x1b, 0x5d, 0x32, 0x3b, 0x41, 0x07]) ==
            Out(Ground, [Fragment(Osc(2), [], true, false), Fragment(Osc(2), [0x41], false, false), Fragment(Osc(2), [], false, true)])
    ensures Explode(Fragment(Osc(2), [0x41, 0x42], true, true)) ==
            [Fragment(Osc(2), [], true, false), Fragment(Osc(2), [0x41], false, false), Fragment(Osc(2), [0x42], false, false), Fragment(Osc(2), [], false, true)]
    ensures Explode(Text([0x41, 0x42])) == [Text([0x41]), Text([0x42])] && Explode(Control(7)) == [Control(7)]
  {
    hide Run;
    assert Digits(2) == [0x32];
    StringIsRead(cfg, false, Osc(2), [0x41], [0x07]);
    assert Head(false, Osc(2)) + ([0x41] + [0x07]) == [0x1b, 0x5d, 0x32, 0x3b, 0x41, 0x07];
    assert StringEvents(Osc(2), [0x41]) == [Fragment(Osc(2), [], true, false), Fragment(Osc(2), [0x41], false, false), Fragment(Osc(2), [], false, true)];
  }
}
