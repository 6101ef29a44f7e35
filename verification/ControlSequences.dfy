/**
 The reference machine for the byte parser: what one byte means after what came before it.

 It knows nothing about writes, buffers or fragments.  A control string is a `Begin`, one `Data` per
 byte and an `End`; printable input is one text event per byte.  `Explode` takes the events the real
 parser hands to its callbacks down to that grain, so two lists of callbacks explode to the same thing
 exactly when they agree after joining adjacent text runs and adjacent string fragments.
 */
module ControlSequences {
  import opened Bytes

  const CSI_ARG_MISSING := 0x7fff_ffff
  const INTERMED_MAX := 16
  const CSI_LEADER_MAX := 16

  /** One CSI argument; `more` is CSI_ARG_FLAG_MORE, set when a ':' follows. */
  datatype Arg = Arg(value: nat, more: bool)

  const MISSING := Arg(CSI_ARG_MISSING, false)

  datatype StringKind = Osc(command: int) | Dcs(dcsCommand: seq<byte>) | Apc | Pm | Sos

  datatype Event =
    | Text(bytes: seq<byte>)
    | Control(control: byte)
    | Csi(leader: seq<byte>, args: seq<Arg>, intermed: seq<byte>, final: byte)
    | Escape(sequence: seq<byte>)
    | Fragment(kind: StringKind, payload: seq<byte>, initial: bool, isFinal: bool)

  function Begin(k: StringKind): Event { Fragment(k, [], true, false) }
  function Data(k: StringKind, b: byte): Event { Fragment(k, [b], false, false) }
  function End(k: StringKind): Event { Fragment(k, [], false, true) }

  function TextRun(bs: seq<byte>): seq<Event> {
    seq(|bs|, i requires 0 <= i < |bs| => Text([bs[i]]))
  }

  function DataRun(k: StringKind, bs: seq<byte>): seq<Event> {
    seq(|bs|, i requires 0 <= i < |bs| => Data(k, bs[i]))
  }

  function BeginIf(initial: bool, k: StringKind): seq<Event> {
    if initial then [Begin(k)] else []
  }

  function Explode(e: Event): seq<Event> {
    match e
    case Text(bs) => TextRun(bs)
    case Fragment(k, bs, initial, isFinal) =>
      BeginIf(initial, k) + DataRun(k, bs) + if isFinal then [End(k)] else []
    case _ => [e]
  }

  function ExplodeAll(es: seq<Event>): seq<Event> {
    if es == [] then [] else ExplodeAll(es[..|es| - 1]) + Explode(es[|es| - 1])
  }

  /** `utf8` turns the 8-bit C1 controls off; `emitNul` reports NUL, DEL, CAN and SUB as controls. */
  datatype Config = Config(utf8: bool, emitNul: bool)

  /** Everything about the past that can still matter. */
  datatype Mode =
    | Ground
    | Escaped(intermed: seq<byte>)
    | CsiLeader(leader: seq<byte>)
    | CsiArgs(leader: seq<byte>, args: seq<Arg>)
    | CsiIntermed(leader: seq<byte>, args: seq<Arg>, intermed: seq<byte>)
    | DcsCommand(command: seq<byte>)
    | OscCommand(number: int, inEsc: bool, untouched: bool)
    | InString(kind: StringKind, inEsc: bool)

  datatype Out = Out(mode: Mode, events: seq<Event>)

  predicate IsStringMode(m: Mode) { m.OscCommand? || m.InString? }

  predicate IsIntermed(b: byte) { 0x20 <= b <= 0x2f }

  /** Bytes that are plain text in the ground state. */
  predicate IsText(cfg: Config, b: byte) {
    0x20 <= b && b != 0x7f && (cfg.utf8 || b < 0x80 || 0xa0 <= b)
  }

  function Push(s: seq<byte>, b: byte, limit: nat): seq<byte> {
    if |s| < limit then s + [b] else s
  }

  function C1Step(c: byte): Out {
    match c
    case 0x90 => Out(DcsCommand([]), [])
    case 0x98 => Out(InString(Sos, false), [Begin(Sos)])
    case 0x9b => Out(CsiLeader([]), [])
    case 0x9d => Out(OscCommand(-1, false, true), [])
    case 0x9e => Out(InString(Pm, false), [Begin(Pm)])
    case 0x9f => Out(InString(Apc, false), [Begin(Apc)])
    case _ => Out(Ground, [Control(c)])
  }

  /** An escape sequence whose byte was not read as a C1 control. */
  function EscapeStep(intermed: seq<byte>, b: byte): Out {
    if IsIntermed(b) then Out(Escaped(Push(intermed, b, INTERMED_MAX - 1)), [])
    else if 0x30 <= b < 0x7f then Out(Ground, [Escape(intermed + [b])])
    else Out(Escaped(intermed), [])
  }

  predicate Hoists(intermed: seq<byte>, b: byte) {
    intermed == [] && 0x40 <= b < 0x60
  }

  function IntermedStep(leader: seq<byte>, args: seq<Arg>, intermed: seq<byte>, b: byte): Out {
    if IsIntermed(b) then Out(CsiIntermed(leader, args, Push(intermed, b, INTERMED_MAX - 1)), [])
    else if 0x40 <= b <= 0x7e then Out(Ground, [Csi(leader, args, intermed, b)])
    else Out(Ground, [])
  }

  function AddDigit(a: Arg, b: byte): Arg
    requires IsDigit(b)
  {
    Arg((if a == MISSING then 0 else a.value) * 10 + (b - 0x30), a.more)
  }

  function ArgsStep(leader: seq<byte>, args: seq<Arg>, b: byte): Out {
    if args == [] then Out(Ground, [])
    else
      var last := |args| - 1;
      if IsDigit(b) then Out(CsiArgs(leader, args[last := AddDigit(args[last], b)]), [])
      else if b == 0x3a then Out(CsiArgs(leader, args[last := args[last].(more := true)] + [MISSING]), [])
      else if b == 0x3b then Out(CsiArgs(leader, args + [MISSING]), [])
      else IntermedStep(leader, args, [], b)
  }

  function LeaderStep(leader: seq<byte>, b: byte): Out {
    if 0x3c <= b <= 0x3f then Out(CsiLeader(Push(leader, b, CSI_LEADER_MAX - 1)), [])
    else ArgsStep(leader, [MISSING], b)
  }

  function DcsStep(command: seq<byte>, b: byte): Out {
    var command' := Push(command, b, CSI_LEADER_MAX);
    if 0x40 <= b <= 0x7e then Out(InString(Dcs(command'), false), [Begin(Dcs(command'))])
    else Out(DcsCommand(command'), [])
  }

  predicate Terminates(cfg: Config, b: byte) {
    b == 0x07 || (!cfg.utf8 && b == 0x9c)
  }

  function Follow(before: Out, now: Out): Out {
    Out(now.mode, before.events + now.events)
  }

  function StringStep(cfg: Config, k: StringKind, b: byte): Out {
    if Terminates(cfg, b) then Out(Ground, [End(k)]) else Out(InString(k, false), [Data(k, b)])
  }

  function OscStep(cfg: Config, number: int, untouched: bool, b: byte): Out {
    var k := Osc(number);
    if IsDigit(b) then Out(OscCommand((if number == -1 then 0 else number * 10) + (b - 0x30), false, untouched), [])
    else if b == 0x3b then Out(InString(k, false), BeginIf(untouched, k))
    else Follow(Out(InString(k, false), BeginIf(untouched, k)), StringStep(cfg, k, b))
  }

  function StringEnd(m: Mode): seq<Event> {
    match m
    case OscCommand(number, _, untouched) => BeginIf(untouched, Osc(number)) + [End(Osc(number))]
    case InString(k, _) => [End(k)]
    case _ => []
  }

  /** Bytes from 0x20 up (DEL apart), and BEL inside a control string. */
  function GraphicStep(cfg: Config, m: Mode, b: byte): Out {
    match m
    case Ground => if IsText(cfg, b) then Out(Ground, [Text([b])]) else C1Step(b)
    case Escaped(intermed) => if Hoists(intermed, b) then C1Step(b + 0x40) else EscapeStep(intermed, b)
    case CsiLeader(leader) => LeaderStep(leader, b)
    case CsiArgs(leader, args) => ArgsStep(leader, args, b)
    case CsiIntermed(leader, args, intermed) => IntermedStep(leader, args, intermed, b)
    case DcsCommand(command) => DcsStep(command, b)
    case OscCommand(number, inEsc, untouched) =>
      if !inEsc then OscStep(cfg, number, untouched, b)
      else if b == 0x5c then Out(Ground, StringEnd(m))
      else EscapeStep([], b)
    case InString(k, inEsc) =>
      if inEsc then (if b == 0x5c then Out(Ground, StringEnd(m)) else EscapeStep([], b))
      else StringStep(cfg, k, b)
  }

  /** A control byte or discarded byte inside the number of an OSC spends its `initial` mark. */
  function Touch(m: Mode): Mode {
    if m.OscCommand? then m.(untouched := false) else m
  }

  function Enter(m: Mode): Mode {
    match m
    case OscCommand(number, _, untouched) => OscCommand(number, true, untouched)
    case InString(k, _) => InString(k, true)
    case _ => Escaped([])
  }

  function Step(cfg: Config, m: Mode, b: byte): Out {
    var nulEvents := if cfg.emitNul then [Control(b)] else [];
    if b == 0x00 || b == 0x7f then Out(Touch(m), nulEvents)
    else if b == 0x18 || b == 0x1a then Out(Ground, nulEvents)
    else if b == 0x1b then Out(Enter(m), [])
    else if 0x20 <= b || (b == 0x07 && IsStringMode(m)) then GraphicStep(cfg, m, b)
    else if m.InString? && m.kind == Sos then Out(m, [Data(Sos, b)])
    else Out(Touch(m), [Control(b)])
  }

  /** What a machine that takes `step` on each byte reports over a whole input. */
  function RunWith(step: (Mode, byte) -> Out, m: Mode, bs: seq<byte>): Out {
    if bs == [] then Out(m, [])
    else
      var before := RunWith(step, m, bs[..|bs| - 1]);
      Follow(before, step(before.mode, bs[|bs| - 1]))
  }

  function Run(cfg: Config, m: Mode, bs: seq<byte>): Out {
    RunWith((m': Mode, b: byte) => Step(cfg, m', b), m, bs)
  }

  /** The byte drops a control string before its terminator: CAN or SUB, or an ESC not followed by '\'. */
  predicate Abandons(m: Mode, b: byte) {
    m.InString? && (b == 0x18 || b == 0x1a || (m.inEsc && b != 0x5c))
  }

  /** No control string is abandoned anywhere in the input. */
  predicate Clean(cfg: Config, m: Mode, bs: seq<byte>) {
    forall i :: 0 <= i < |bs| ==> !Abandons(Run(cfg, m, bs[..i]).mode, bs[i])
  }

  /** A C0 control or NUL between an ESC in a control string and the byte that shows what the ESC was. */
  predicate Strays(m: Mode, b: byte) {
    m.InString? && m.inEsc && (b == 0x7f || (b < 0x20 && b !in {0x07, 0x18, 0x1a, 0x1b}))
  }

  predicate Orderly(cfg: Config, m: Mode, bs: seq<byte>) {
    forall i :: 0 <= i < |bs| ==> !Strays(Run(cfg, m, bs[..i]).mode, bs[i])
  }

  lemma CleanIsOrderly(cfg: Config, m: Mode, bs: seq<byte>)
    requires Clean(cfg, m, bs)
    ensures Orderly(cfg, m, bs)
  {
    hide Run;
  }

  /** What is reported apart from control strings: text, controls, escapes and CSI functions. */
  function NotStrings(es: seq<Event>): seq<Event> {
    if es == [] then []
    else NotStrings(es[..|es| - 1]) + if es[|es| - 1].Fragment? then [] else [es[|es| - 1]]
  }

  lemma {:induction false} NotStringsConcat(a: seq<Event>, b: seq<Event>)
    ensures NotStrings(a + b) == NotStrings(a) + NotStrings(b)
  {
    if b == [] {
      assert a + b == a;
    } else {
      NotStringsConcat(a, b[..|b| - 1]);
      assert (a + b)[..|a + b| - 1] == a + b[..|b| - 1];
    }
  }

  lemma {:induction false} NoneButStrings(es: seq<Event>)
    requires forall i :: 0 <= i < |es| ==> es[i].Fragment?
    ensures NotStrings(es) == []
  {
    if es != [] {
      NoneButStrings(es[..|es| - 1]);
    }
  }

  lemma {:induction false} RunWithConcat(step: (Mode, byte) -> Out, m: Mode, a: seq<byte>, b: seq<byte>)
    ensures RunWith(step, m, a + b) == Follow(RunWith(step, m, a), RunWith(step, RunWith(step, m, a).mode, b))
  {
    if b == [] {
      assert a + b == a;
    } else {
      RunWithConcat(step, m, a, b[..|b| - 1]);
      assert (a + b)[..|a + b| - 1] == a + b[..|b| - 1];
    }
  }

  /** The machine does not see where one write ends and the next begins. */
  lemma RunConcat(cfg: Config, m: Mode, a: seq<byte>, b: seq<byte>)
    ensures Run(cfg, m, a + b) == Follow(Run(cfg, m, a), Run(cfg, Run(cfg, m, a).mode, b))
  {
    RunWithConcat((m': Mode, b: byte) => Step(cfg, m', b), m, a, b);
  }

  lemma RunSnoc(cfg: Config, m: Mode, bs: seq<byte>, b: byte)
    ensures Run(cfg, m, bs + [b]) == Follow(Run(cfg, m, bs), Step(cfg, Run(cfg, m, bs).mode, b))
  {
    assert (bs + [b])[..|bs|] == bs;
  }

  lemma CleanConcat(cfg: Config, m: Mode, a: seq<byte>, b: seq<byte>)
    requires Clean(cfg, m, a + b)
    ensures Clean(cfg, m, a)
    ensures Clean(cfg, Run(cfg, m, a).mode, b)
  {
    forall i | 0 <= i < |a| ensures !Abandons(Run(cfg, m, a[..i]).mode, a[i]) {
      assert (a + b)[..i] == a[..i] && (a + b)[i] == a[i];
    }
    forall i | 0 <= i < |b| ensures !Abandons(Run(cfg, Run(cfg, m, a).mode, b[..i]).mode, b[i]) {
      assert (a + b)[..|a| + i] == a + b[..i] && (a + b)[|a| + i] == b[i];
      RunConcat(cfg, m, a, b[..i]);
    }
  }

  lemma OrderlyConcat(cfg: Config, m: Mode, a: seq<byte>, b: seq<byte>)
    requires Orderly(cfg, m, a + b)
    ensures Orderly(cfg, m, a)
    ensures Orderly(cfg, Run(cfg, m, a).mode, b)
  {
    forall i | 0 <= i < |a| ensures !Strays(Run(cfg, m, a[..i]).mode, a[i]) {
      assert (a + b)[..i] == a[..i] && (a + b)[i] == a[i];
    }
    forall i | 0 <= i < |b| ensures !Strays(Run(cfg, Run(cfg, m, a).mode, b[..i]).mode, b[i]) {
      assert (a + b)[..|a| + i] == a + b[..i] && (a + b)[|a| + i] == b[i];
      RunConcat(cfg, m, a, b[..i]);
    }
  }

  lemma RunNothing(cfg: Config, m: Mode)
    ensures Run(cfg, m, []) == Out(m, [])
  {
  }

  lemma RunOne(cfg: Config, m: Mode, b: byte)
    ensures Run(cfg, m, [b]) == Step(cfg, m, b)
  {
    RunSnoc(cfg, m, [], b);
    assert [] + [b] == [b];
  }

  /** Text bytes in the ground state stay there and are reported one by one. */
  lemma {:induction false} RunText(cfg: Config, bs: seq<byte>)
    requires forall i :: 0 <= i < |bs| ==> IsText(cfg, bs[i])
    ensures Run(cfg, Ground, bs) == Out(Ground, TextRun(bs))
  {
    if bs != [] {
      RunText(cfg, bs[..|bs| - 1]);
      RunSnoc(cfg, Ground, bs[..|bs| - 1], bs[|bs| - 1]);
      assert bs == bs[..|bs| - 1] + [bs[|bs| - 1]];
      assert TextRun(bs) == TextRun(bs[..|bs| - 1]) + [Text([bs[|bs| - 1]])];
    }
  }

  /** Printable bytes in a control string stay in it and are its data, one by one. */
  lemma {:induction false} RunPayload(cfg: Config, k: StringKind, bs: seq<byte>)
    requires forall i :: 0 <= i < |bs| ==> 0x20 <= bs[i] < 0x7f
    ensures Run(cfg, InString(k, false), bs) == Out(InString(k, false), DataRun(k, bs))
  {
    if bs != [] {
      var most, last := bs[..|bs| - 1], bs[|bs| - 1];
      RunPayload(cfg, k, most);
      RunSnoc(cfg, InString(k, false), most, last);
      assert bs == most + [last];
      DataRunSnoc(k, most, last);
    }
  }

  lemma DataRunSnoc(k: StringKind, bs: seq<byte>, b: byte)
    ensures DataRun(k, bs + [b]) == DataRun(k, bs) + [Data(k, b)]
  {
  }

  lemma AppendAssoc(a: seq<Event>, b: seq<Event>, c: seq<Event>)
    ensures (a + b) + c == a + (b + c)
  {
  }

  lemma ExplodeSnoc(es: seq<Event>, e: Event)
    ensures ExplodeAll(es + [e]) == ExplodeAll(es) + Explode(e)
  {
    assert (es + [e])[..|es|] == es;
  }
}
