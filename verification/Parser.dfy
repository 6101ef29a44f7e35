/**
 The byte parser of src/libvterm/src/parser.c: one loop over each write that updates the parser's
 fields in place and hands out text runs and string fragments as slices of the write.

 Every method is proved against the reference machine of ControlSequences.
 */
module Parser {
  import opened Bytes
  import opened ControlSequences
  import opened Cuts

  datatype ParserState =
    | StNormal | StCsiLeader | StCsiArgs | StCsiIntermed | StDcsCommand
    | StOscCommand | StOsc | StDcs | StApc | StPm | StSos

  class VTermParser {
    const cfg: Config

    var state: ParserState
    var inEsc: bool
    var intermed: seq<byte>
    var leader: seq<byte>
    var args: seq<Arg>
    var oscCommand: int
    var dcsCommand: seq<byte>
    var stringInitial: bool

    /** What the callbacks have been handed so far. */
    var events: seq<Event>

    predicate IsStringState() reads `state {
      state in {StOscCommand, StOsc, StDcs, StApc, StPm, StSos}
    }

    predicate IsPayloadState() reads `state {
      state in {StOsc, StDcs, StApc, StPm, StSos}
    }

    function Kind(): StringKind reads `state, `oscCommand, `dcsCommand {
      match state
      case StDcs => Dcs(dcsCommand)
      case StApc => Apc
      case StPm => Pm
      case StSos => Sos
      case _ => Osc(oscCommand)
    }

    ghost predicate Valid() reads this {
      && (state == StCsiArgs ==> args != [])
      && (inEsc ==> state == StNormal || (IsStringState() && intermed == []))
      && (state == StDcsCommand ==> stringInitial)
    }

    /** The live part of the fields: what the reference machine would remember. */
    function Live(): Mode reads this {
      match state
      case StNormal => if inEsc then Escaped(intermed) else Ground
      case StCsiLeader => CsiLeader(leader)
      case StCsiArgs => CsiArgs(leader, args)
      case StCsiIntermed => CsiIntermed(leader, args, intermed)
      case StDcsCommand => DcsCommand(dcsCommand)
      case StOscCommand => OscCommand(oscCommand, inEsc, stringInitial)
      case _ => InString(Kind(), inEsc)
    }

    /** Where the pending fragment ends: an ESC that may begin ESC \ is not part of it. */
    ghost function PayloadEnd(start: nat, pos: nat): nat reads `inEsc
      requires start <= pos
    {
      if inEsc && start < pos then pos - 1 else pos
    }

    /** The part of a control string that has been read but not handed out yet. */
    ghost function Pending(bytes: seq<byte>, start: int, pos: nat): seq<Event>
      reads `state, `inEsc, `stringInitial, `oscCommand, `dcsCommand
      requires start <= pos <= |bytes|
    {
      if IsPayloadState() && start >= 0
      then BeginIf(stringInitial, Kind()) + DataRun(Kind(), bytes[start..PayloadEnd(start, pos)])
      else []
    }

    ghost function Delivered(bytes: seq<byte>, start: int, pos: nat): seq<Event>
      reads `state, `inEsc, `stringInitial, `oscCommand, `dcsCommand, `events
      requires start <= pos <= |bytes|
    {
      ExplodeAll(events) + Pending(bytes, start, pos)
    }

    /** Where the callbacks and the part that has not been handed out stand. */
    ghost function Hearing(bytes: seq<byte>, start: int, pos: nat): Heard
      reads this
      requires start <= pos <= |bytes|
    {
      Heard(Live(), ExplodeAll(events), Pending(bytes, start, pos), IsPayloadState() && inEsc && start < pos)
    }

    /** `start` is string_start as an index into the write, -1 for NULL. */
    ghost predicate Scanning(bytes: seq<byte>, start: int, pos: nat) reads this {
      && Valid()
      && -1 <= start <= pos <= |bytes|
      && (IsPayloadState() ==> 0 <= start && (inEsc ==> if start < pos then bytes[pos - 1] == 0x1b else pos == 0))
      && (start >= 0 ==> IsPayloadState() || (state == StOscCommand && !stringInitial))
    }

    constructor (cfg: Config)
      ensures Valid() && Live() == Ground && events == [] && this.cfg == cfg
    {
      this.cfg := cfg;
      state, inEsc := StNormal, false;
      intermed, leader, args := [], [], [];
      oscCommand, dcsCommand := -1, [];
      stringInitial := false;
      events := [];
    }

    method Emit(e: Event)
      modifies this`events
      ensures events == old(events) + [e]
      ensures ExplodeAll(events) == old(ExplodeAll(events)) + Explode(e)
    {
      hide ExplodeAll, Explode;
      ExplodeSnoc(events, e);
      events := events + [e];
    }

    method DoControl(control: byte)
      modifies this`events
      ensures ExplodeAll(events) == old(ExplodeAll(events)) + [Control(control)]
    {
      hide ExplodeAll;
      Emit(Control(control));
    }

    method DoControlIf(control: byte)
      modifies this`events
      ensures ExplodeAll(events) == old(ExplodeAll(events)) + if cfg.emitNul then [Control(control)] else []
    {
      if cfg.emitNul {
        DoControl(control);
      }
    }

    /** Hands out one slice of a control string; in OSC_COMMAND there is nothing to hand out yet. */
    method StringFragment(str: seq<byte>, isFinal: bool)
      modifies this`events, this`stringInitial
      ensures !stringInitial
      ensures ExplodeAll(events) == old(ExplodeAll(events)) +
              if IsPayloadState() then old(BeginIf(stringInitial, Kind())) + DataRun(Kind(), str) + (if isFinal then [End(Kind())] else [])
              else []
    {
      hide ExplodeAll, DataRun, BeginIf;
      if IsPayloadState() {
        Emit(Fragment(Kind(), str, stringInitial, isFinal));
      }
      stringInitial := false;
    }

    /** Outside a payload nothing is pending. */
    lemma NothingPending(bytes: seq<byte>, start: int, pos: nat)
      requires start <= pos <= |bytes|
      requires IsPayloadState() ==> start < 0
      ensures Delivered(bytes, start, pos) == ExplodeAll(events)
    {
      hide ExplodeAll, DataRun, BeginIf;
    }

    /** A C1 control in NORMAL: the introducers of CSI and of the control strings, or a plain control. */
    method C1(bytes: seq<byte>, pos: nat, c: byte) returns (start: int)
      requires Valid() && state == StNormal && !inEsc && pos < |bytes|
      requires 0x80 <= c < 0xa0
      modifies this
      ensures Scanning(bytes, start, pos + 1) && Live() == C1Step(c).mode && !inEsc
      ensures Delivered(bytes, start, pos + 1) == old(ExplodeAll(events)) + C1Step(c).events
      ensures IsPayloadState() ==> events == old(events)
    {
      hide ExplodeAll, Explode, DataRun;
      start := -1;
      match c {
        case 0x90 =>
          stringInitial, dcsCommand := true, [];
          state := StDcsCommand;
        case 0x98 =>
          stringInitial := true;
          state := StSos;
          start := pos + 1;
        case 0x9b =>
          leader := [];
          state := StCsiLeader;
        case 0x9d =>
          oscCommand, stringInitial := -1, true;
          state := StOscCommand;
        case 0x9e =>
          stringInitial := true;
          state := StPm;
          start := pos + 1;
        case 0x9f =>
          stringInitial := true;
          state := StApc;
          start := pos + 1;
        case _ =>
          DoControl(c);
      }
      if IsPayloadState() {
        PendingStarts(bytes, pos + 1);
      } else {
        NothingPending(bytes, start, pos + 1);
      }
    }

    method CsiIntermedByte(c: byte)
      requires Valid() && state == StCsiIntermed
      modifies `intermed, `state, `events
      ensures Valid() && !IsStringState()
      ensures Live() == IntermedStep(leader, args, old(intermed), c).mode
      ensures ExplodeAll(events) == old(ExplodeAll(events)) + IntermedStep(leader, args, old(intermed), c).events
    {
      hide ExplodeAll;
      if IsIntermed(c) {
        if |intermed| < INTERMED_MAX - 1 {
          intermed := intermed + [c];
        }
        return;
      }
      if 0x40 <= c <= 0x7e {
        Emit(Csi(leader, args, intermed, c));
      }
      state := StNormal;
    }

    method CsiArgsByte(c: byte)
      requires Valid() && state == StCsiArgs
      modifies `args, `intermed, `state, `events
      ensures Valid() && !IsStringState()
      ensures Live() == ArgsStep(leader, old(args), c).mode
      ensures ExplodeAll(events) == old(ExplodeAll(events)) + ArgsStep(leader, old(args), c).events
    {
      hide ExplodeAll;
      var argi := |args| - 1;
      if IsDigit(c) {
        var value := if args[argi] == MISSING then 0 else args[argi].value;
        args := args[argi := Arg(value * 10 + (c - 0x30), args[argi].more)];
        return;
      }
      if c == 0x3a {
        args := args[argi := args[argi].(more := true)];
      }
      if c == 0x3a || c == 0x3b {
        args := args + [MISSING];
        return;
      }
      intermed := [];
      state := StCsiIntermed;
      CsiIntermedByte(c);
    }

    method CsiLeaderByte(c: byte)
      requires Valid() && state == StCsiLeader
      modifies `leader, `args, `intermed, `state, `events
      ensures Valid() && !IsStringState()
      ensures Live() == LeaderStep(old(leader), c).mode
      ensures ExplodeAll(events) == old(ExplodeAll(events)) + LeaderStep(old(leader), c).events
    {
      hide ExplodeAll;
      if 0x3c <= c <= 0x3f {
        if |leader| < CSI_LEADER_MAX - 1 {
          leader := leader + [c];
        }
        return;
      }
      args := [MISSING];
      state := StCsiArgs;
      CsiArgsByte(c);
    }

    /** NORMAL with in_esc set, after the byte could not be hoisted into a C1 control. */
    method EscapeByte(c: byte)
      requires Valid() && state == StNormal && inEsc
      modifies this
      ensures Valid() && Live() == EscapeStep(old(intermed), c).mode && !IsStringState()
      ensures ExplodeAll(events) == old(ExplodeAll(events)) + EscapeStep(old(intermed), c).events
    {
      hide ExplodeAll;
      if IsIntermed(c) {
        if |intermed| < INTERMED_MAX - 1 {
          intermed := intermed + [c];
        }
      } else if 0x30 <= c < 0x7f {
        Emit(Escape(intermed + [c]));
        inEsc := false;
      }
    }

    /** DCS_COMMAND. */
    method DcsCommandByte(bytes: seq<byte>, pos: nat) returns (start: int)
      requires Valid() && state == StDcsCommand && pos < |bytes|
      modifies `dcsCommand, `state
      ensures Scanning(bytes, start, pos + 1) && Live() == GraphicStep(cfg, old(Live()), bytes[pos]).mode
      ensures Delivered(bytes, start, pos + 1) == ExplodeAll(events) + GraphicStep(cfg, old(Live()), bytes[pos]).events
    {
      hide ExplodeAll, Explode, DataRun;
      start := -1;
      var c := bytes[pos];
      if |dcsCommand| < CSI_LEADER_MAX {
        dcsCommand := dcsCommand + [c];
      }
      if 0x40 <= c <= 0x7e {
        start := pos + 1;
        state := StDcs;
        PendingStarts(bytes, pos + 1);
      }
    }

    /** The terminator of a control string: everything pending goes out as the final fragment. */
    method FinishString(bytes: seq<byte>, start: nat, end: nat)
      requires Valid() && IsPayloadState() && !inEsc && start <= end <= |bytes|
      modifies `events, `stringInitial, `state
      ensures Valid() && state == StNormal
      ensures ExplodeAll(events) == old(Delivered(bytes, start, end)) + [End(old(Kind()))]
    {
      hide ExplodeAll, Explode, DataRun;
      ghost var before, pending, k := ExplodeAll(events), Pending(bytes, start, end), Kind();
      StringFragment(bytes[start..end], true);
      state := StNormal;
      AppendAssoc(before, pending, [End(k)]);
    }

    /** One more byte of a control string stays pending. */
    lemma PendingGrows(bytes: seq<byte>, start: nat, pos: nat)
      requires start <= pos < |bytes| && IsPayloadState() && !inEsc
      ensures Delivered(bytes, start, pos + 1) == Delivered(bytes, start, pos) + [Data(Kind(), bytes[pos])]
    {
      hide ExplodeAll, Explode;
      DataRunSnoc(Kind(), bytes[start..pos], bytes[pos]);
      assert bytes[start..pos + 1] == bytes[start..pos] + [bytes[pos]];
      AppendAssoc(BeginIf(stringInitial, Kind()), DataRun(Kind(), bytes[start..pos]), [Data(Kind(), bytes[pos])]);
      AppendAssoc(ExplodeAll(events), Pending(bytes, start, pos), [Data(Kind(), bytes[pos])]);
    }

    /** Where a payload begins there is at most its beginning to hand out. */
    lemma PendingStarts(bytes: seq<byte>, pos: nat)
      requires pos <= |bytes| && IsPayloadState() && !inEsc
      ensures Delivered(bytes, pos, pos) == ExplodeAll(events) + BeginIf(stringInitial, Kind())
    {
      hide ExplodeAll, Explode;
      assert DataRun(Kind(), bytes[pos..pos]) == [];
    }

    /** The payload cases: OSC, DCS, APC, PM and SOS share one arm of the switch. */
    method StringByte(bytes: seq<byte>, pos: nat, start: int) returns (start': int)
      requires Scanning(bytes, start, pos) && pos < |bytes| && !inEsc && IsPayloadState()
      modifies `events, `stringInitial, `state
      ensures Scanning(bytes, start', pos + 1)
      ensures Live() == GraphicStep(cfg, old(Live()), bytes[pos]).mode
      ensures Delivered(bytes, start', pos + 1) ==
              old(Delivered(bytes, start, pos)) + GraphicStep(cfg, old(Live()), bytes[pos]).events
      ensures IsPayloadState() ==> events == old(events)
    {
      hide ExplodeAll, Explode, DataRun, Delivered, Pending;
      start' := start;
      if Terminates(cfg, bytes[pos]) {
        FinishString(bytes, start, pos);
        start' := -1;
        NothingPending(bytes, start', pos + 1);
      } else {
        PendingGrows(bytes, start, pos);
      }
    }

    /** The `goto string_state`: the byte that ends the number of an OSC is the first of its payload. */
    method FirstStringByte(bytes: seq<byte>, pos: nat) returns (start: int)
      requires Valid() && state == StOsc && !inEsc && pos < |bytes|
      modifies `state, `events, `stringInitial
      ensures Scanning(bytes, start, pos + 1)
      ensures Live() == StringStep(cfg, old(Kind()), bytes[pos]).mode
      ensures Delivered(bytes, start, pos + 1) ==
              old(ExplodeAll(events)) + (old(BeginIf(stringInitial, Kind())) + StringStep(cfg, old(Kind()), bytes[pos]).events)
      ensures IsPayloadState() ==> events == old(events)
    {
      hide ExplodeAll, Explode, DataRun;
      PendingStarts(bytes, pos);
      AppendAssoc(ExplodeAll(events), BeginIf(stringInitial, Kind()), StringStep(cfg, Kind(), bytes[pos]).events);
      start := StringByte(bytes, pos, pos);
    }

    /** OSC_COMMAND; the byte after the number already belongs to the payload unless it is ';'. */
    method OscCommandByte(bytes: seq<byte>, pos: nat, start: int) returns (start': int)
      requires Scanning(bytes, start, pos) && state == StOscCommand && !inEsc && pos < |bytes|
      modifies `oscCommand, `state, `events, `stringInitial
      ensures Scanning(bytes, start', pos + 1)
      ensures Live() == OscStep(cfg, old(oscCommand), old(stringInitial), bytes[pos]).mode
      ensures Delivered(bytes, start', pos + 1) ==
              old(ExplodeAll(events)) + OscStep(cfg, old(oscCommand), old(stringInitial), bytes[pos]).events
      ensures IsPayloadState() ==> events == old(events)
    {
      hide ExplodeAll, Explode, DataRun, Delivered, Pending;
      var c := bytes[pos];
      start' := start;
      if IsDigit(c) {
        oscCommand := (if oscCommand == -1 then 0 else oscCommand * 10) + (c - 0x30);
        NothingPending(bytes, start', pos + 1);
      } else if c == 0x3b {
        state := StOsc;
        start' := pos + 1;
        PendingStarts(bytes, pos + 1);
      } else {
        state := StOsc;
        start' := FirstStringByte(bytes, pos);
      }
    }

    /** The three CSI cases of the switch; each falls through to the next. */
    method CsiByte(c: byte)
      requires Valid() && state in {StCsiLeader, StCsiArgs, StCsiIntermed}
      modifies `leader, `args, `intermed, `state, `events
      ensures Valid() && !IsStringState()
      ensures Live() == GraphicStep(cfg, old(Live()), c).mode
      ensures ExplodeAll(events) == old(ExplodeAll(events)) + GraphicStep(cfg, old(Live()), c).events
    {
      hide ExplodeAll, Explode, IntermedStep, ArgsStep, LeaderStep;
      if state == StCsiLeader {
        CsiLeaderByte(c);
      } else if state == StCsiArgs {
        CsiArgsByte(c);
      } else {
        CsiIntermedByte(c);
      }
    }

    /** A byte that is neither a C0 control nor NUL or DEL (or BEL inside a string), with in_esc clear. */
    method PlainByte(bytes: seq<byte>, pos: nat, start: int) returns (start': int)
      requires Scanning(bytes, start, pos) && pos < |bytes| && !inEsc && state != StNormal
      modifies this
      ensures Scanning(bytes, start', pos + 1)
      ensures Live() == GraphicStep(cfg, old(Live()), bytes[pos]).mode
      ensures Delivered(bytes, start', pos + 1) ==
              old(Delivered(bytes, start, pos)) + GraphicStep(cfg, old(Live()), bytes[pos]).events
      ensures IsPayloadState() ==> events == old(events)
    {
      hide ExplodeAll, Explode, DataRun, Delivered, Pending, OscStep, DcsStep, StringStep;
      start' := start;
      if state in {StCsiLeader, StCsiArgs, StCsiIntermed} {
        NothingPending(bytes, start, pos);
        CsiByte(bytes[pos]);
        NothingPending(bytes, start, pos + 1);
      } else if state == StDcsCommand {
        NothingPending(bytes, start, pos);
        start' := DcsCommandByte(bytes, pos);
      } else if state == StOscCommand {
        NothingPending(bytes, start, pos);
        assert GraphicStep(cfg, Live(), bytes[pos]) == OscStep(cfg, oscCommand, stringInitial, bytes[pos]);
        start' := OscCommandByte(bytes, pos, start);
      } else {
        start' := StringByte(bytes, pos, start);
      }
    }

    /**
     The same with in_esc set: ESC plus a letter is hoisted into a C1 control, ESC \ ends a string, and ESC before anything
     else in a string drops what was pending of it.
     */
    method EscapedByte(bytes: seq<byte>, pos: nat, start: int) returns (start': int)
      requires Scanning(bytes, start, pos) && pos < |bytes| && inEsc
      modifies this
      ensures Scanning(bytes, start', pos + 1)
      ensures Live() == GraphicStep(cfg, old(Live()), bytes[pos]).mode
      ensures Delivered(bytes, start', pos + 1) ==
              old(if IsPayloadState() && bytes[pos] != 0x5c then ExplodeAll(events) else Delivered(bytes, start, pos)) +
              GraphicStep(cfg, old(Live()), bytes[pos]).events
      ensures IsPayloadState() ==> events == old(events)
    {
      hide ExplodeAll, Explode, DataRun, Delivered, Pending, C1Step, EscapeStep;
      var c := bytes[pos];
      start' := -1;
      if intermed == [] && 0x40 <= c < 0x60 && (!IsStringState() || c == 0x5c) {
        if state == StNormal {
          NothingPending(bytes, start, pos);
          inEsc := false;
          start' := C1(bytes, pos, c + 0x40);
        } else if state == StOscCommand {
          NothingPending(bytes, start, pos);
          NumberTerminator();
          NothingPending(bytes, -1, pos + 1);
        } else {
          PayloadTerminator(bytes, pos, start);
          NothingPending(bytes, -1, pos + 1);
        }
      } else {
        if !IsPayloadState() {
          NothingPending(bytes, start, pos);
        }
        state := StNormal;
        EscapeByte(c);
        NothingPending(bytes, -1, pos + 1);
      }
    }

    /** ESC \ in a control string; the ESC itself may have come in an earlier write. */
    method PayloadTerminator(bytes: seq<byte>, pos: nat, start: int)
      requires Scanning(bytes, start, pos) && pos < |bytes| && inEsc && IsPayloadState()
      modifies `state, `inEsc, `events, `stringInitial
      ensures Valid() && state == StNormal && !inEsc
      ensures ExplodeAll(events) == old(Delivered(bytes, start, pos)) + [End(old(Kind()))]
    {
      hide ExplodeAll, Explode, DataRun;
      var len := if start < pos then pos - start - 1 else 0;
      ghost var delivered := Delivered(bytes, start, pos);
      inEsc := false;
      assert Delivered(bytes, start, start + len) == delivered;
      FinishString(bytes, start, start + len);
    }

    /** ESC \ while still in the number of an OSC. */
    method NumberTerminator()
      requires Valid() && inEsc && state == StOscCommand
      modifies `state, `inEsc, `events, `stringInitial
      ensures Valid() && state == StNormal && !inEsc
      ensures ExplodeAll(events) == old(ExplodeAll(events)) + StringEnd(old(Live()))
    {
      hide ExplodeAll, Explode, DataRun;
      inEsc, state := false, StOsc;
      PendingStarts([], 0);
      FinishString([], 0, 0);
    }

    /** Text: as much as the callback eats, which is taken to be text, and at least one byte. */
    method TextBytes(bytes: seq<byte>, pos: nat) returns (next: nat)
      requires state == StNormal && pos < |bytes| && IsText(cfg, bytes[pos])
      modifies `events
      ensures pos < next <= |bytes| && forall i :: 0 <= i < next - pos ==> IsText(cfg, bytes[pos..next][i])
      ensures ExplodeAll(events) == old(ExplodeAll(events)) + TextRun(bytes[pos..next])
    {
      hide ExplodeAll;
      var eaten: nat :| pos + eaten <= |bytes| && forall i :: pos <= i < pos + eaten ==> IsText(cfg, bytes[i]);
      if eaten == 0 {
        eaten := 1;
      }
      next := pos + eaten;
      Emit(Text(bytes[pos..next]));
    }

    /** NORMAL outside an escape: a C1 control or text. */
    method NormalByte(bytes: seq<byte>, pos: nat) returns (start: int, next: nat)
      requires Valid() && state == StNormal && !inEsc && pos < |bytes|
      requires 0x20 <= bytes[pos] && bytes[pos] != 0x7f
      modifies this
      ensures pos < next <= |bytes| && Scanning(bytes, start, next)
      ensures Hearing(bytes, start, next) == HearAll(cfg, Heard(Ground, old(ExplodeAll(events)), [], false), bytes[pos..next])
    {
      hide ExplodeAll, Explode, DataRun, Delivered, Pending, C1Step;
      ghost var h := Heard(Ground, ExplodeAll(events), [], false);
      if IsText(cfg, bytes[pos]) {
        start := -1;
        next := TextBytes(bytes, pos);
        HearText(cfg, h, bytes[pos..next]);
        NonePending(bytes, start, next);
      } else {
        next := pos + 1;
        HearOne(cfg, h, bytes[pos]);
        assert bytes[pos..next] == [bytes[pos]];
        start := C1(bytes, pos, bytes[pos]);
        assert h.told + h.pending == h.told;
        HearTells(bytes, start, next, h, bytes[pos]);
      }
    }

    lemma NonePending(bytes: seq<byte>, start: int, pos: nat)
      requires start <= pos <= |bytes| && !IsPayloadState()
      ensures Pending(bytes, start, pos) == []
    {
    }

    /** What was delivered, told apart into what was handed out and what is pending. */
    lemma HearTells(bytes: seq<byte>, start: int, pos: nat, h: Heard, b: byte)
      requires Scanning(bytes, start, pos) && pos > 0 && !Doubles(h.mode, b) && !Strays(h.mode, b)
      requires Live() == Step(cfg, h.mode, b).mode
      requires Delivered(bytes, start, pos) == (if Drops(h.mode, b) then h.told else h.told + h.pending) + Step(cfg, h.mode, b).events
      requires if HandsOut(h.mode, b) then Pending(bytes, start, pos) == [] else IsPayloadState() ==> ExplodeAll(events) == h.told
      ensures Hearing(bytes, start, pos) == Hear(cfg, h, b)
    {
      hide ExplodeAll, DataRun, Pending, Step;
      var out, pending := Step(cfg, h.mode, b), Pending(bytes, start, pos);
      PayloadIsString();
      if !IsPayloadState() || HandsOut(h.mode, b) {
        if !IsPayloadState() {
          NonePending(bytes, start, pos);
        }
        assert ExplodeAll(events) + [] == ExplodeAll(events);
      } else {
        if Drops(h.mode, b) {
          DropsLeave(cfg, h.mode, b);
        }
        AppendAssoc(h.told, h.pending, out.events);
        assert pending == (h.told + pending)[|h.told|..] == (h.told + (h.pending + out.events))[|h.told|..];
      }
      if HandsOut(h.mode, b) {
        HandsOutStays(cfg, h.mode, b);
      }
    }

    lemma PayloadIsString()
      ensures IsPayloadState() <==> Live().InString?
      ensures IsPayloadState() ==> Live().inEsc == inEsc && (Live().kind == Sos <==> state == StSos)
    {
    }

    static lemma DropsLeave(cfg: Config, m: Mode, b: byte)
      requires Drops(m, b) && !Strays(m, b)
      ensures !Step(cfg, m, b).mode.InString?
    {
    }

    static lemma HandsOutStays(cfg: Config, m: Mode, b: byte)
      requires HandsOut(m, b) && !Strays(m, b)
      ensures !Drops(m, b) && Step(cfg, m, b).mode == m && !m.inEsc
    {
    }

    /** Where a stretch of input leads, in the reference machine's terms. */
    ghost predicate Reached(bytes: seq<byte>, start: int, pos: nat, before: seq<Event>, out: Out)
      requires start <= pos <= |bytes|
      reads this
    {
      Live() == out.mode && Delivered(bytes, start, pos) == before + out.events
    }

    /** A byte that interrupts a control string sends out what is pending; nothing is in OSC_COMMAND. */
    method Interrupt(bytes: seq<byte>, start: int, pos: nat)
      requires Scanning(bytes, start, pos) && IsStringState() && !(IsPayloadState() && inEsc)
      modifies `events, `stringInitial
      ensures !stringInitial && Live() == Touch(old(Live()))
      ensures ExplodeAll(events) == old(Delivered(bytes, start, pos))
    {
      hide ExplodeAll, Explode, DataRun;
      if !IsPayloadState() {
        NothingPending(bytes, start, pos);
      }
      StringFragment(if start >= 0 then bytes[start..pos] else [], false);
    }

    /** NUL and DEL are dropped from wherever they are. */
    method NulByte(bytes: seq<byte>, pos: nat, start: int) returns (start': int)
      requires Scanning(bytes, start, pos) && pos < |bytes| && (bytes[pos] == 0 || bytes[pos] == 0x7f)
      requires !Abandons(Live(), bytes[pos])
      modifies this
      ensures Scanning(bytes, start', pos + 1)
      ensures Reached(bytes, start', pos + 1, old(Delivered(bytes, start, pos)), Step(cfg, old(Live()), bytes[pos]))
      ensures Pending(bytes, start', pos + 1) == []
    {
      hide ExplodeAll, Explode, DataRun, Delivered, Pending;
      start' := start;
      if IsStringState() {
        Interrupt(bytes, start, pos);
        start' := pos + 1;
      } else {
        NothingPending(bytes, start, pos);
      }
      DoControlIf(bytes[pos]);
      NothingPendingYet(bytes, start', pos + 1);
    }

    lemma NothingPendingYet(bytes: seq<byte>, start: int, pos: nat)
      requires start <= pos <= |bytes|
      requires IsPayloadState() ==> !stringInitial && start == pos
      ensures Delivered(bytes, start, pos) == ExplodeAll(events) && Pending(bytes, start, pos) == []
    {
      hide ExplodeAll, Explode;
      if IsPayloadState() && start >= 0 {
        assert DataRun(Kind(), bytes[start..PayloadEnd(start, pos)]) == [];
      }
    }

    /** The other C0 controls act at once, in the middle of a control string too, except in SOS. */
    method ControlByte(bytes: seq<byte>, pos: nat, start: int) returns (start': int)
      requires Scanning(bytes, start, pos) && pos < |bytes| && 0 < bytes[pos] < 0x20
      requires bytes[pos] !in {0x18, 0x1a, 0x1b} && !(bytes[pos] == 0x07 && IsStringState())
      requires !Abandons(Live(), bytes[pos])
      modifies this
      ensures Scanning(bytes, start', pos + 1)
      ensures Reached(bytes, start', pos + 1, old(Delivered(bytes, start, pos)), Step(cfg, old(Live()), bytes[pos]))
      ensures if old(state) == StSos then events == old(events) else Pending(bytes, start', pos + 1) == []
    {
      hide ExplodeAll, Explode, DataRun, Delivered, Pending, GraphicStep;
      start' := start;
      if state == StSos {
        PendingGrows(bytes, start, pos);
        return;
      }
      if IsStringState() {
        Interrupt(bytes, start, pos);
      } else {
        NothingPending(bytes, start, pos);
      }
      DoControl(bytes[pos]);
      if IsStringState() {
        start' := pos + 1;
      }
      NothingPendingYet(bytes, start', pos + 1);
    }

    /** CAN and SUB drop what was pending of a string. */
    method CancelByte(bytes: seq<byte>, pos: nat, start: int) returns (start': int)
      requires Scanning(bytes, start, pos) && pos < |bytes| && bytes[pos] in {0x18, 0x1a}
      modifies this
      ensures Scanning(bytes, start', pos + 1) && Live() == Ground
      ensures Delivered(bytes, start', pos + 1) == old(ExplodeAll(events)) + Step(cfg, old(Live()), bytes[pos]).events
    {
      hide ExplodeAll, Explode, DataRun, GraphicStep;
      inEsc, state, start' := false, StNormal, -1;
      DoControlIf(bytes[pos]);
      NothingPending(bytes, start', pos + 1);
    }

    /** ESC stays in a control string until the next byte shows what it was. */
    method EscByte(bytes: seq<byte>, pos: nat, start: int)
      requires Scanning(bytes, start, pos) && pos < |bytes| && bytes[pos] == 0x1b
      modifies `intermed, `state, `inEsc
      ensures Scanning(bytes, start, pos + 1)
      ensures Hearing(bytes, start, pos + 1) == Hear(cfg, old(Hearing(bytes, start, pos)), bytes[pos])
    {
      hide ExplodeAll, Explode, DataRun, GraphicStep;
      ghost var h := Hearing(bytes, start, pos);
      if IsPayloadState() {
        PendingAtEsc(bytes, start, pos);
      }
      intermed := [];
      if !IsStringState() {
        state := StNormal;
      }
      inEsc := true;
      assert h.pending + [] == h.pending && h.told + [] + [] == h.told;
    }

    /** The ESC itself is not pending; an ESC before it is. */
    lemma PendingAtEsc(bytes: seq<byte>, start: nat, pos: nat)
      requires Scanning(bytes, start, pos) && pos < |bytes| && IsPayloadState()
      ensures BeginIf(stringInitial, Kind()) + DataRun(Kind(), bytes[start..pos]) ==
              Pending(bytes, start, pos) + if inEsc && start < pos then [Data(Kind(), 0x1b)] else []
    {
      hide DataRun, BeginIf;
      if inEsc && start < pos {
        assert bytes[start..pos] == bytes[start..pos - 1] + [bytes[pos - 1]];
        DataRunSnoc(Kind(), bytes[start..pos - 1], bytes[pos - 1]);
        AppendAssoc(BeginIf(stringInitial, Kind()), DataRun(Kind(), bytes[start..pos - 1]), [Data(Kind(), 0x1b)]);
      }
    }

    /** One turn of the loop of vterm_input_write. */
    method InputByte(bytes: seq<byte>, pos: nat, start: int) returns (start': int, next: nat)
      requires Scanning(bytes, start, pos) && pos < |bytes| && !Strays(Live(), bytes[pos])
      modifies this
      ensures pos < next <= |bytes| && Scanning(bytes, start', next)
      ensures Hearing(bytes, start', next) == HearAll(cfg, old(Hearing(bytes, start, pos)), bytes[pos..next])
    {
      hide ExplodeAll, Explode, DataRun, Pending, C1Step, EscapeStep, Step, GraphicStep;
      ghost var h := Hearing(bytes, start, pos);
      var c := bytes[pos];
      next := pos + 1;
      assert bytes[pos..next] == [c];
      HearOne(cfg, h, c);
      StepIs(cfg, h.mode, c);
      PayloadIsString();
      if !IsPayloadState() {
        NonePending(bytes, start, pos);
        assert h.told + [] == h.told;
      }
      if c == 0x00 || c == 0x7f {
        start' := NulByte(bytes, pos, start);
        PayloadIsString();
        HearTells(bytes, start', next, h, c);
      } else if c == 0x18 || c == 0x1a {
        start' := CancelByte(bytes, pos, start);
        PayloadIsString();
        assert !IsPayloadState();
        HearTells(bytes, start', next, h, c);
      } else if c == 0x1b {
        start' := start;
        EscByte(bytes, pos, start);
      } else if c < 0x20 && !(c == 0x07 && IsStringState()) {
        start' := ControlByte(bytes, pos, start);
        PayloadIsString();
        HearTells(bytes, start', next, h, c);
      } else if inEsc {
        start' := EscapedByte(bytes, pos, start);
        HearTells(bytes, start', next, h, c);
      } else if state == StNormal {
        NonePending(bytes, start, pos);
        start', next := NormalByte(bytes, pos);
      } else {
        start' := PlainByte(bytes, pos, start);
        HearTells(bytes, start', next, h, c);
      }
    }

    static lemma StepIs(cfg: Config, m: Mode, b: byte)
      ensures (0x20 <= b && b != 0x7f) || (b == 0x07 && IsStringMode(m)) ==> Step(cfg, m, b) == GraphicStep(cfg, m, b)
      ensures b == 0x18 || b == 0x1a ==> Step(cfg, m, b).mode == Ground
      ensures !m.InString? && (b < 0x20 || b == 0x7f) && !(b == 0x07 && IsStringMode(m)) ==> !Step(cfg, m, b).mode.InString?
    {
    }

    /** Between two writes nothing is pending. */
    ghost predicate Idle() reads this {
      Valid() && (IsPayloadState() ==> !stringInitial)
    }

    /** The loop of vterm_input_write, up to the end of the bytes. */
    method Scan(bytes: seq<byte>) returns (start: int)
      requires Idle() && Orderly(cfg, Live(), bytes)
      requires bytes != [] || !(IsPayloadState() && inEsc)
      modifies this
      ensures Scanning(bytes, start, |bytes|) && (IsPayloadState() && inEsc ==> start < |bytes|)
      ensures Hearing(bytes, start, |bytes|) == HearAll(cfg, Heard(old(Live()), old(ExplodeAll(events)), [], false), bytes)
    {
      hide ExplodeAll, Explode, DataRun, Delivered, Pending, Run, Hear;
      ghost var h := Heard(Live(), ExplodeAll(events), [], false);
      var pos: nat := 0;
      start := if IsPayloadState() then 0 else -1;
      NothingPendingYet(bytes, start, 0);
      assert bytes[..0] == [];
      while pos < |bytes|
        invariant Scanning(bytes, start, pos)
        invariant Hearing(bytes, start, pos) == HearAll(cfg, h, bytes[..pos])
        invariant bytes != [] || !(IsPayloadState() && inEsc)
      {
        HearMode(cfg, h, bytes[..pos]);
        ghost var soFar := pos;
        start, pos := InputByte(bytes, pos, start);
        HearConcat(cfg, h, bytes[..soFar], bytes[soFar..pos]);
        assert bytes[..pos] == bytes[..soFar] + bytes[soFar..pos];
      }
      assert bytes[..pos] == bytes;
    }

    /** vterm_input_write. */
    method Write(bytes: seq<byte>) returns (len: nat)
      requires Idle() && Orderly(cfg, Live(), bytes)
      requires bytes != [] || !(IsPayloadState() && inEsc)
      modifies this
      ensures Idle() && len == |bytes|
      ensures Live() == HearWrite(cfg, old(Live()), bytes).mode
      ensures ExplodeAll(events) == old(ExplodeAll(events)) + HearWrite(cfg, old(Live()), bytes).events
    {
      hide ExplodeAll, Explode, DataRun, Pending, Run, Orderly, HearAll;
      ghost var m, before := Live(), ExplodeAll(events);
      var start := Scan(bytes);
      HearOnTop(cfg, before, Fresh(m), bytes);
      assert before + [] == before;
      ghost var h := HearAll(cfg, Fresh(m), bytes);
      AppendAssoc(before, h.told, h.pending);
      if start >= 0 {
        EndOfWrite(bytes, start);
      } else {
        NonePending(bytes, start, |bytes|);
        assert h.told + [] == h.told;
      }
      len := |bytes|;
    }

    /** A control string goes on into the next write; an ESC at the very end is not part of it. */
    method EndOfWrite(bytes: seq<byte>, start: nat)
      requires Scanning(bytes, start, |bytes|)
      requires IsPayloadState() && inEsc ==> start < |bytes|
      modifies `events, `stringInitial
      ensures Idle() && Live() == old(Live())
      ensures ExplodeAll(events) == old(Delivered(bytes, start, |bytes|))
    {
      hide ExplodeAll, Explode, DataRun;
      var end := if inEsc then |bytes| - 1 else |bytes|;
      if !IsPayloadState() {
        NothingPending(bytes, start, |bytes|);
      }
      StringFragment(if start <= end then bytes[start..end] else [], false);
    }

    /** Any number of writes, none of them empty. */
    method WriteAll(writes: seq<seq<byte>>)
      requires Idle() && Orderly(cfg, Live(), Flatten(writes)) && NoneEmpty(writes)
      modifies this
      ensures Idle()
      ensures Live() == HearWrites(cfg, old(Live()), writes).mode
      ensures ExplodeAll(events) == old(ExplodeAll(events)) + HearWrites(cfg, old(Live()), writes).events
    {
      hide ExplodeAll, Explode, Run, Orderly, HearWrite;
      ghost var before, m := ExplodeAll(events), Live();
      assert writes[..0] == [] && before + [] == before;
      for i := 0 to |writes|
        invariant Idle()
        invariant Live() == HearWrites(cfg, m, writes[..i]).mode
        invariant ExplodeAll(events) == before + HearWrites(cfg, m, writes[..i]).events
      {
        ghost var soFar := HearWrites(cfg, m, writes[..i]);
        FlattenPrefix(writes, i);
        CutsOutside(cfg, m, writes[..i]);
        OrderlyConcat(cfg, m, Flatten(writes[..i + 1]), Flatten(writes[i + 1..]));
        OrderlyConcat(cfg, m, Flatten(writes[..i]), writes[i]);
        HearWritesSnoc(cfg, m, writes[..i], writes[i]);
        assert writes[..i + 1] == writes[..i] + [writes[i]];
        AppendAssoc(before, soFar.events, HearWrite(cfg, soFar.mode, writes[i]).events);
        var _ := Write(writes[i]);
      }
      assert writes[..|writes|] == writes;
    }
  }

  /**
   Write-splitting independence: two parsers in the same live state that read the same bytes, cut into
   writes in any two ways and with any answers of the text callback, end in the same live state after the same text,
   controls, escapes and CSI functions; and after the same callbacks altogether, adjacent text runs and adjacent
   string fragments joined, for every input on which no two cuts can differ.
   */
  method CutsDoNotShow(p: VTermParser, q: VTermParser, cuts: seq<seq<byte>>, otherCuts: seq<seq<byte>>)
    requires p != q && p.cfg == q.cfg && p.Idle() && q.Idle() && p.Live() == q.Live()
    requires Flatten(cuts) == Flatten(otherCuts) && NoneEmpty(cuts) && NoneEmpty(otherCuts)
    requires Orderly(p.cfg, p.Live(), Flatten(cuts))
    requires ExplodeAll(p.events) == ExplodeAll(q.events)
    modifies p, q
    ensures p.Live() == q.Live()
    ensures NotStrings(ExplodeAll(p.events)) == NotStrings(ExplodeAll(q.events))
    ensures !old(CutsShow(p.cfg, p.Live(), Flatten(cuts))) ==> ExplodeAll(p.events) == ExplodeAll(q.events)
  {
    hide ExplodeAll, Run, HearWrites, CutsShow, Orderly;
    ghost var cfg, m, before := p.cfg, p.Live(), ExplodeAll(p.events);
    p.WriteAll(cuts);
    q.WriteAll(otherCuts);
    CutsOutside(cfg, m, cuts);
    CutsOutside(cfg, m, otherCuts);
    NotStringsConcat(before, HearWrites(cfg, m, cuts).events);
    NotStringsConcat(before, HearWrites(cfg, m, otherCuts).events);
    if !CutsShow(cfg, m, Flatten(cuts)) {
      Cuts.CutsDoNotShow(cfg, m, cuts);
      Cuts.CutsDoNotShow(cfg, m, otherCuts);
    }
  }

  /** On every other input some two ways to cut it end after different callbacks. */
  method CutsCanShow(p: VTermParser, q: VTermParser, bytes: seq<byte>) returns (cuts: seq<seq<byte>>, otherCuts: seq<seq<byte>>)
    requires p != q && p.cfg == q.cfg && p.Idle() && q.Idle() && p.Live() == q.Live()
    requires Orderly(p.cfg, p.Live(), bytes) && CutsShow(p.cfg, p.Live(), bytes)
    requires ExplodeAll(p.events) == ExplodeAll(q.events)
    modifies p, q
    ensures Flatten(cuts) == bytes == Flatten(otherCuts)
    ensures p.Live() == q.Live() && ExplodeAll(p.events) != ExplodeAll(q.events)
  {
    hide ExplodeAll, Orderly, HearWrites, Run, CutsShow;
    ghost var cfg, m := p.cfg, p.Live();
    cuts, otherCuts := DifferentCuts(p.cfg, p.Live(), bytes);
    p.WriteAll(cuts);
    q.WriteAll(otherCuts);
    CutsOutside(cfg, m, otherCuts);
  }
}
