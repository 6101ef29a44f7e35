/**
 What cutting the input into writes does to a control string that is abandoned.

 Within one write the parser holds back what it has read of a string.  It hands that out at a C0 control, NUL or DEL, at
 the terminator and at the end of the write; CAN, SUB, or an ESC not followed by '\' drop it.  `Hear` says what one write
 reports.  `Part` says the same of the bytes alone, without writes: in each abandoned string it tells apart what every cut
 hands out and what a cut may or may not.
 */
module Cuts {
  import opened Bytes
  import opened ControlSequences

  /** The byte hands out what is held back of a string and does not end it. */
  predicate HandsOut(m: Mode, b: byte) {
    m.InString? && (b == 0x00 || b == 0x7f || (b < 0x20 && b !in {0x07, 0x18, 0x1a, 0x1b} && m.kind != Sos))
  }

  /** A second ESC in a control string: the string goes on, and the first ESC may be taken for data. */
  predicate Doubles(m: Mode, b: byte) { m.InString? && m.inEsc && b == 0x1b }

  predicate Drops(m: Mode, b: byte) { Abandons(m, b) && !Doubles(m, b) }

  /** Within a write: what has been told, what is held back, and whether the ESC the parser has seen is of this write. */
  datatype Heard = Heard(mode: Mode, told: seq<Event>, pending: seq<Event>, escHere: bool)

  function Hear(cfg: Config, h: Heard, b: byte): Heard {
    var out := Step(cfg, h.mode, b);
    if Doubles(h.mode, b) then Heard(out.mode, h.told, h.pending + if h.escHere then [Data(h.mode.kind, 0x1b)] else [], true)
    else if Drops(h.mode, b) then Heard(out.mode, h.told + out.events, [], false)
    else if out.mode.InString? && !HandsOut(h.mode, b) then Heard(out.mode, h.told, h.pending + out.events, out.mode.inEsc)
    else Heard(out.mode, h.told + h.pending + out.events, [], false)
  }

  function HearAll(cfg: Config, h: Heard, bytes: seq<byte>): Heard {
    if bytes == [] then h else Hear(cfg, HearAll(cfg, h, bytes[..|bytes| - 1]), bytes[|bytes| - 1])
  }

  function Fresh(m: Mode): Heard { Heard(m, [], [], false) }

  /** What one write reports. */
  function HearWrite(cfg: Config, m: Mode, bytes: seq<byte>): Out {
    var h := HearAll(cfg, Fresh(m), bytes);
    Out(h.mode, h.told + h.pending)
  }

  /** What any number of writes report. */
  function HearWrites(cfg: Config, m: Mode, writes: seq<seq<byte>>): Out {
    if writes == [] then Out(m, [])
    else
      var before := HearWrites(cfg, m, writes[..|writes| - 1]);
      Follow(before, HearWrite(cfg, before.mode, writes[|writes| - 1]))
  }

  lemma {:induction false} HearConcat(cfg: Config, h: Heard, a: seq<byte>, b: seq<byte>)
    ensures HearAll(cfg, h, a + b) == HearAll(cfg, HearAll(cfg, h, a), b)
  {
    hide Hear;
    if b == [] {
      assert a + b == a;
    } else {
      HearConcat(cfg, h, a, b[..|b| - 1]);
      assert (a + b)[..|a + b| - 1] == a + b[..|b| - 1];
    }
  }

  lemma HearOne(cfg: Config, h: Heard, b: byte)
    ensures HearAll(cfg, h, [b]) == Hear(cfg, h, b)
  {
    assert [b][..0] == [];
    assert HearAll(cfg, h, []) == h;
  }

  /** The mode is the reference machine's. */
  lemma {:induction false} HearMode(cfg: Config, h: Heard, bytes: seq<byte>)
    ensures HearAll(cfg, h, bytes).mode == Run(cfg, h.mode, bytes).mode
  {
    hide Step;
    if bytes == [] {
      RunNothing(cfg, h.mode);
    } else {
      var k := |bytes| - 1;
      HearMode(cfg, h, bytes[..k]);
      RunSnoc(cfg, h.mode, bytes[..k], bytes[k]);
      assert bytes == bytes[..k] + [bytes[k]];
    }
  }

  /** What was told before stays in front. */
  lemma {:induction false} HearOnTop(cfg: Config, before: seq<Event>, h: Heard, bytes: seq<byte>)
    ensures var h' := HearAll(cfg, h, bytes);
            HearAll(cfg, Heard(h.mode, before + h.told, h.pending, h.escHere), bytes) == Heard(h'.mode, before + h'.told, h'.pending, h'.escHere)
  {
    if bytes != [] {
      var k := |bytes| - 1;
      HearOnTop(cfg, before, h, bytes[..k]);
      var h' := HearAll(cfg, h, bytes[..k]);
      var out := Step(cfg, h'.mode, bytes[k]);
      hide Step, HearAll;
      AppendAssoc(before, h'.told, out.events);
      AppendAssoc(before, h'.told, h'.pending);
      AppendAssoc(before, h'.told + h'.pending, out.events);
    }
  }

  lemma {:induction false} HearText(cfg: Config, h: Heard, bytes: seq<byte>)
    requires h.mode == Ground && h.pending == [] && !h.escHere && forall i :: 0 <= i < |bytes| ==> IsText(cfg, bytes[i])
    ensures HearAll(cfg, h, bytes) == Heard(Ground, h.told + TextRun(bytes), [], false)
  {
    if bytes == [] {
      assert h.told + TextRun([]) == h.told;
    } else {
      var k := |bytes| - 1;
      HearText(cfg, h, bytes[..k]);
      assert Step(cfg, Ground, bytes[k]) == Out(Ground, [Text([bytes[k]])]);
      assert TextRun(bytes) == TextRun(bytes[..k]) + [Text([bytes[k]])];
      hide Step, HearAll, TextRun;
      AppendAssoc(h.told, TextRun(bytes[..k]), [Text([bytes[k]])]);
      assert h.told + TextRun(bytes[..k]) + [] == h.told + TextRun(bytes[..k]);
    }
  }

  // ----- apart from control strings

  /** What is held back is all of a string. */
  ghost predicate AllOfStrings(es: seq<Event>) { forall i :: 0 <= i < |es| ==> es[i].Fragment? }

  lemma HeldBackIsOfStrings(cfg: Config, m: Mode, b: byte)
    requires Step(cfg, m, b).mode.InString? && !HandsOut(m, b) && !Drops(m, b)
    ensures AllOfStrings(Step(cfg, m, b).events)
  {
  }

  lemma HearOutside(cfg: Config, h: Heard, b: byte, events: seq<Event>)
    requires AllOfStrings(h.pending) && NotStrings(h.told) == NotStrings(events)
    ensures var h' := Hear(cfg, h, b);
            AllOfStrings(h'.pending) && NotStrings(h'.told) == NotStrings(events + Step(cfg, h.mode, b).events)
  {
    hide Step, NotStrings;
    var out := Step(cfg, h.mode, b);
    NotStringsConcat(events, out.events);
    NotStringsConcat(h.told, out.events);
    NotStringsConcat(h.told, h.pending);
    NotStringsConcat(h.told + h.pending, out.events);
    NoneButStrings(h.pending);
    if Doubles(h.mode, b) {
      DoublesSilent(cfg, h.mode, b);
      NoneButStrings(out.events);
    } else if !Drops(h.mode, b) && out.mode.InString? && !HandsOut(h.mode, b) {
      HeldBackIsOfStrings(cfg, h.mode, b);
      NoneButStrings(out.events);
    }
  }

  lemma DoublesSilent(cfg: Config, m: Mode, b: byte)
    requires Doubles(m, b)
    ensures Step(cfg, m, b) == Out(m, [])
  {
  }

  lemma {:induction false} WriteOutside(cfg: Config, m: Mode, bytes: seq<byte>)
    ensures var h := HearAll(cfg, Fresh(m), bytes);
            AllOfStrings(h.pending) && NotStrings(h.told) == NotStrings(Run(cfg, m, bytes).events)
  {
    hide Step, Hear, NotStrings;
    if bytes == [] {
      RunNothing(cfg, m);
    } else {
      var k := |bytes| - 1;
      WriteOutside(cfg, m, bytes[..k]);
      HearMode(cfg, Fresh(m), bytes[..k]);
      RunSnoc(cfg, m, bytes[..k], bytes[k]);
      assert bytes == bytes[..k] + [bytes[k]];
      HearOutside(cfg, HearAll(cfg, Fresh(m), bytes[..k]), bytes[k], Run(cfg, m, bytes[..k]).events);
    }
  }

  /** However the input is cut, the mode and all that is not of control strings are the reference machine's. */
  lemma {:induction false} CutsOutside(cfg: Config, m: Mode, writes: seq<seq<byte>>)
    ensures HearWrites(cfg, m, writes).mode == Run(cfg, m, Flatten(writes)).mode
    ensures NotStrings(HearWrites(cfg, m, writes).events) == NotStrings(Run(cfg, m, Flatten(writes)).events)
  {
    hide Run, HearAll, NotStrings;
    if writes == [] {
      RunNothing(cfg, m);
    } else {
      var front, last := writes[..|writes| - 1], writes[|writes| - 1];
      CutsOutside(cfg, m, front);
      var before := HearWrites(cfg, m, front);
      var h := HearAll(cfg, Fresh(before.mode), last);
      HearMode(cfg, Fresh(before.mode), last);
      WriteOutside(cfg, before.mode, last);
      RunConcat(cfg, m, Flatten(front), last);
      NotStringsConcat(before.events, h.told + h.pending);
      NotStringsConcat(h.told, h.pending);
      NoneButStrings(h.pending);
      NotStringsConcat(Run(cfg, m, Flatten(front)).events, Run(cfg, before.mode, last).events);
    }
  }

  // ----- what a cut may change

  /** Up to where a string is abandoned: what every cut reports, and what a cut may hand out the beginning of. */
  datatype Block = Block(kept: seq<Event>, dropped: seq<Event>)

  datatype Parts = Parts(mode: Mode, blocks: seq<Block>, kept: seq<Event>, pending: seq<Event>)

  function Part(cfg: Config, p: Parts, b: byte): Parts {
    var out := Step(cfg, p.mode, b);
    if Drops(p.mode, b) then Parts(out.mode, p.blocks + [Block(p.kept, p.pending)], out.events, [])
    else if out.mode.InString? && !HandsOut(p.mode, b) then Parts(out.mode, p.blocks, p.kept, p.pending + out.events)
    else Parts(out.mode, p.blocks, p.kept + p.pending + out.events, [])
  }

  function PartAll(cfg: Config, m: Mode, bytes: seq<byte>): Parts {
    if bytes == [] then Parts(m, [], [], []) else Part(cfg, PartAll(cfg, m, bytes[..|bytes| - 1]), bytes[|bytes| - 1])
  }

  /** What is reported if of the i-th abandoned string lens[i] of the events that may be dropped are handed out. */
  function Joined(blocks: seq<Block>, lens: seq<nat>): seq<Event>
    requires |lens| == |blocks|
  {
    if blocks == [] then []
    else
      var k := |blocks| - 1;
      Joined(blocks[..k], lens[..k]) + blocks[k].kept + blocks[k].dropped[..Least(lens[k], |blocks[k].dropped|)]
  }

  function Least(a: nat, b: nat): nat { if a < b then a else b }

  /** All of them, or none. */
  function Full(blocks: seq<Block>): seq<nat> { seq(|blocks|, i requires 0 <= i < |blocks| => |blocks[i].dropped|) }

  function Zeros(blocks: seq<Block>): seq<nat> { seq(|blocks|, _ => 0) }

  function Told(p: Parts, lens: seq<nat>): seq<Event>
    requires |lens| == |p.blocks|
  {
    Joined(p.blocks, lens) + p.kept + p.pending
  }

  lemma JoinedSnoc(blocks: seq<Block>, lens: seq<nat>, b: Block, n: nat)
    requires |lens| == |blocks| && n <= |b.dropped|
    ensures Joined(blocks + [b], lens + [n]) == Joined(blocks, lens) + b.kept + b.dropped[..n]
  {
    assert (blocks + [b])[..|blocks|] == blocks && (lens + [n])[..|lens|] == lens;
  }

  lemma Assoc4(a: seq<Event>, b: seq<Event>, c: seq<Event>, d: seq<Event>)
    ensures a + b + c + d == a + (b + c) + d == a + (b + c + d) == a + b + (c + d)
  {
  }

  lemma FullSnoc(blocks: seq<Block>, b: Block)
    ensures Full(blocks + [b]) == Full(blocks) + [|b.dropped|] && Zeros(blocks + [b]) == Zeros(blocks) + [0]
  {
  }

  /** With nothing dropped it is what the reference machine reports. */
  lemma {:induction false} RunIsFull(cfg: Config, m: Mode, bytes: seq<byte>)
    ensures var p := PartAll(cfg, m, bytes); Run(cfg, m, bytes) == Out(p.mode, Told(p, Full(p.blocks)))
  {
    hide Step, Joined, Run, Drops, HandsOut;
    if bytes == [] {
      RunNothing(cfg, m);
      NothingJoined();
    } else {
      var k := |bytes| - 1;
      var p := PartAll(cfg, m, bytes[..k]);
      RunIsFull(cfg, m, bytes[..k]);
      RunSnoc(cfg, m, bytes[..k], bytes[k]);
      assert bytes == bytes[..k] + [bytes[k]];
      var out := Step(cfg, p.mode, bytes[k]);
      FullSnoc(p.blocks, Block(p.kept, p.pending));
      JoinedSnoc(p.blocks, Full(p.blocks), Block(p.kept, p.pending), |p.pending|);
      Assoc4(Joined(p.blocks, Full(p.blocks)), p.kept, p.pending, out.events);
      assert p.pending[..|p.pending|] == p.pending;
      assert p.kept + p.pending + out.events + [] == p.kept + p.pending + out.events;
    }
  }

  lemma NothingJoined()
    ensures Joined([], []) == [] && Full([]) == [] && Zeros([]) == []
  {
  }

  /** No ESC follows another in a control string, but for one that came before the input. */
  predicate NoDoubles(cfg: Config, m: Mode, bytes: seq<byte>) {
    forall k :: 0 < k < |bytes| ==> !Doubles(Run(cfg, m, bytes[..k]).mode, bytes[k])
  }

  lemma NoDoublesPart(cfg: Config, m: Mode, a: seq<byte>, b: seq<byte>)
    requires NoDoubles(cfg, m, a + b)
    ensures NoDoubles(cfg, m, a)
    ensures a != [] && b != [] ==> !Doubles(Run(cfg, m, a).mode, b[0])
  {
    hide Run;
    forall k | 0 < k < |a| ensures !Doubles(Run(cfg, m, a[..k]).mode, a[k]) {
      assert (a + b)[..k] == a[..k] && (a + b)[k] == a[k];
    }
    if a != [] && b != [] {
      assert (a + b)[..|a|] == a && (a + b)[|a|] == b[0];
    }
  }

  /** A cut run in terms of the parts: of what is still pending in them its writes have told the first so many events. */
  ghost predicate HeardAs(p: Parts, h: Heard, before: seq<Event>, lens: seq<nat>, n: nat) {
    && |lens| == |p.blocks| && n <= |p.pending| && h.mode == p.mode
    && before + h.told == Joined(p.blocks, lens) + p.kept + p.pending[..n] && h.pending == p.pending[n..]
  }

  lemma HeardAsNext(cfg: Config, p: Parts, h: Heard, before: seq<Event>, lens: seq<nat>, n: nat, b: byte) returns (lens': seq<nat>, n': nat)
    requires HeardAs(p, h, before, lens, n) && (Doubles(h.mode, b) ==> !h.escHere)
    ensures HeardAs(Part(cfg, p, b), Hear(cfg, h, b), before, lens', n')
    ensures n == 0 && (forall i :: 0 <= i < |lens| ==> lens[i] == 0) ==> n' == 0 && forall i :: 0 <= i < |lens'| ==> lens'[i] == 0
  {
    hide Step, Joined, HandsOut, Abandons;
    var out := Step(cfg, h.mode, b);
    lens', n' := lens, n;
    AppendAssoc(before, h.told, out.events);
    if Doubles(h.mode, b) {
      DoublesSilent(cfg, h.mode, b);
      DoublesStay(cfg, h.mode, b);
      assert p.pending + [] == p.pending && h.pending + [] == h.pending;
    } else if Drops(h.mode, b) {
      JoinedSnoc(p.blocks, lens, Block(p.kept, p.pending), n);
      lens', n' := lens + [n], 0;
      assert before + (h.told + out.events) == Joined(p.blocks + [Block(p.kept, p.pending)], lens') + out.events + [];
    } else if out.mode.InString? && !HandsOut(h.mode, b) {
      assert (p.pending + out.events)[..n] == p.pending[..n] && (p.pending + out.events)[n..] == p.pending[n..] + out.events;
    } else {
      n' := 0;
      AllTold(before, h.told, Joined(p.blocks, lens), p.kept, p.pending, n, out.events);
    }
  }

  lemma DoublesStay(cfg: Config, m: Mode, b: byte)
    requires Doubles(m, b)
    ensures !HandsOut(m, b)
  {
  }

  lemma AllTold(before: seq<Event>, told: seq<Event>, joined: seq<Event>, kept: seq<Event>, pending: seq<Event>, n: nat, more: seq<Event>)
    requires n <= |pending| && before + told == joined + kept + pending[..n]
    ensures before + (told + pending[n..] + more) == joined + (kept + pending + more) + ([] + [])
  {
    var first, rest := pending[..n], pending[n..];
    assert pending == first + rest;
    Assoc4(before, told, rest, more);
    Assoc4(joined, kept, pending, more);
    AppendAssoc(joined + kept, first, rest);
    assert joined + (kept + pending + more) + ([] + []) == joined + (kept + pending + more);
  }

  /** One write, on top of what has been told before. */
  lemma {:induction false} WriteAs(cfg: Config, m: Mode, done: seq<byte>, bytes: seq<byte>, before: seq<Event>, lens0: seq<nat>)
    returns (lens: seq<nat>, n: nat)
    requires var p := PartAll(cfg, m, done); HeardAs(p, Fresh(p.mode), before, lens0, |p.pending|)
    requires NoDoubles(cfg, m, done + bytes)
    ensures HeardAs(PartAll(cfg, m, done + bytes), HearAll(cfg, Fresh(PartAll(cfg, m, done).mode), bytes), before, lens, n)
    ensures done == [] ==> n == 0 && forall i :: 0 <= i < |lens| ==> lens[i] == 0
  {
    hide Step, Joined, Part, Hear, NoDoubles, HeardAs;
    if bytes == [] {
      lens, n := lens0, |PartAll(cfg, m, done).pending|;
      assert done + bytes == done;
      NothingYet(cfg, m, done, before, lens0);
    } else {
      var k := |bytes| - 1;
      var sofar := done + bytes[..k];
      assert done + bytes == sofar + [bytes[k]];
      assert (done + bytes)[..|done + bytes| - 1] == sofar;
      NoDoublesPart(cfg, m, sofar, [bytes[k]]);
      var h := HearAll(cfg, Fresh(PartAll(cfg, m, done).mode), bytes[..k]);
      lens, n := WriteAs(cfg, m, done, bytes[..k], before, lens0);
      HeardAsMode(PartAll(cfg, m, sofar), h, before, lens, n);
      RunIsFull(cfg, m, sofar);
      if sofar == [] {
        assert bytes[..k] == [];
      }
      lens, n := HeardAsNext(cfg, PartAll(cfg, m, sofar), h, before, lens, n, bytes[k]);
    }
  }

  lemma NothingYet(cfg: Config, m: Mode, done: seq<byte>, before: seq<Event>, lens: seq<nat>)
    requires HeardAs(PartAll(cfg, m, done), Fresh(PartAll(cfg, m, done).mode), before, lens, |PartAll(cfg, m, done).pending|)
    ensures done == [] ==> lens == [] && PartAll(cfg, m, done).pending == []
  {
  }

  lemma HeardAsMode(p: Parts, h: Heard, before: seq<Event>, lens: seq<nat>, n: nat)
    requires HeardAs(p, h, before, lens, n)
    ensures p.mode == h.mode
  {
  }

  lemma WriteEnds(p: Parts, h: Heard, before: seq<Event>, lens: seq<nat>, n: nat)
    requires HeardAs(p, h, before, lens, n)
    ensures |lens| == |p.blocks| && before + (h.told + h.pending) == Told(p, lens)
    ensures HeardAs(p, Fresh(p.mode), before + (h.told + h.pending), lens, |p.pending|)
  {
    hide Joined;
    assert p.pending == p.pending[..n] + p.pending[n..];
    AppendAssoc(before, h.told, h.pending);
    AppendAssoc(Joined(p.blocks, lens) + p.kept, p.pending[..n], p.pending[n..]);
    assert p.pending[..|p.pending|] == p.pending && p.pending[|p.pending|..] == [];
  }

  /**
   However the input is cut, what is reported is what the reference machine reports, but that of each abandoned string only
   a prefix of the events that were not handed out by themselves.
   */
  lemma {:induction false} HandedOutIsPrefix(cfg: Config, m: Mode, writes: seq<seq<byte>>) returns (lens: seq<nat>)
    requires NoDoubles(cfg, m, Flatten(writes))
    ensures var p := PartAll(cfg, m, Flatten(writes));
            && |lens| == |p.blocks|
            && HearWrites(cfg, m, writes) == Out(p.mode, Told(p, lens))
            && HeardAs(p, Fresh(p.mode), Told(p, lens), lens, |p.pending|)
            && Run(cfg, m, Flatten(writes)) == Out(p.mode, Told(p, Full(p.blocks)))
  {
    hide Joined, Part, Hear, Run, NoDoubles;
    RunIsFull(cfg, m, Flatten(writes));
    if writes == [] {
      lens := [];
      NothingJoined();
    } else {
      var front, last := writes[..|writes| - 1], writes[|writes| - 1];
      NoDoublesPart(cfg, m, Flatten(front), last);
      var lens0 := HandedOutIsPrefix(cfg, m, front);
      var p0, before := PartAll(cfg, m, Flatten(front)), HearWrites(cfg, m, front);
      var n;
      lens, n := WriteAs(cfg, m, Flatten(front), last, before.events, lens0);
      WriteEnds(PartAll(cfg, m, Flatten(writes)), HearAll(cfg, Fresh(p0.mode), last), before.events, lens, n);
    }
  }

  /** Two cuts of this input can report different things. */
  ghost predicate CutsShow(cfg: Config, m: Mode, bytes: seq<byte>) {
    || !NoDoubles(cfg, m, bytes)
    || exists i :: 0 <= i < |PartAll(cfg, m, bytes).blocks| && PartAll(cfg, m, bytes).blocks[i].dropped != []
  }

  lemma {:induction false} NothingToDrop(blocks: seq<Block>, lens: seq<nat>)
    requires |lens| == |blocks| && forall i :: 0 <= i < |blocks| ==> blocks[i].dropped == []
    ensures Joined(blocks, lens) == Joined(blocks, Full(blocks))
  {
    if blocks != [] {
      var k := |blocks| - 1;
      NothingToDrop(blocks[..k], lens[..k]);
      assert Full(blocks)[..k] == Full(blocks[..k]);
    }
  }

  /** Otherwise every cut reports what the reference machine does. */
  lemma CutsDoNotShow(cfg: Config, m: Mode, writes: seq<seq<byte>>)
    requires !CutsShow(cfg, m, Flatten(writes))
    ensures HearWrites(cfg, m, writes) == Run(cfg, m, Flatten(writes))
  {
    hide Joined, Part, Hear, Run, NoDoubles;
    var lens := HandedOutIsPrefix(cfg, m, writes);
    NothingToDrop(PartAll(cfg, m, Flatten(writes)).blocks, lens);
  }

  // ----- and if so, two cuts that differ

  function Singles(bytes: seq<byte>): (r: seq<seq<byte>>)
    ensures NoneEmpty(r)
  {
    seq(|bytes|, i requires 0 <= i < |bytes| => [bytes[i]])
  }

  lemma {:induction false} SinglesFlat(bytes: seq<byte>)
    ensures Flatten(Singles(bytes)) == bytes
  {
    if bytes != [] {
      var k := |bytes| - 1;
      SinglesFlat(bytes[..k]);
      assert Singles(bytes)[..k] == Singles(bytes[..k]);
    }
  }

  lemma OneByteHeard(cfg: Config, m: Mode, b: byte)
    ensures HearWrite(cfg, m, [b]) == Step(cfg, m, b)
  {
    HearOne(cfg, Fresh(m), b);
    if Doubles(m, b) {
      DoublesSilent(cfg, m, b);
    }
    hide Step;
    assert [] + Step(cfg, m, b).events == Step(cfg, m, b).events;
  }

  lemma HearWritesSnoc(cfg: Config, m: Mode, writes: seq<seq<byte>>, w: seq<byte>)
    ensures HearWrites(cfg, m, writes + [w]) == Follow(HearWrites(cfg, m, writes), HearWrite(cfg, HearWrites(cfg, m, writes).mode, w))
  {
    assert (writes + [w])[..|writes|] == writes;
  }

  /** Byte by byte nothing is ever held back. */
  lemma {:induction false} SinglesHeard(cfg: Config, m: Mode, writes: seq<seq<byte>>, bytes: seq<byte>)
    ensures var before := HearWrites(cfg, m, writes);
            HearWrites(cfg, m, writes + Singles(bytes)) == Follow(before, Run(cfg, before.mode, bytes))
  {
    hide HearWrite, Step, Run;
    var before := HearWrites(cfg, m, writes);
    if bytes == [] {
      RunNothing(cfg, before.mode);
      assert writes + Singles(bytes) == writes;
    } else {
      var k := |bytes| - 1;
      SinglesHeard(cfg, m, writes, bytes[..k]);
      var mid := Run(cfg, before.mode, bytes[..k]);
      assert writes + Singles(bytes) == (writes + Singles(bytes[..k])) + [[bytes[k]]];
      HearWritesSnoc(cfg, m, writes + Singles(bytes[..k]), [bytes[k]]);
      OneByteHeard(cfg, mid.mode, bytes[k]);
      RunSnoc(cfg, before.mode, bytes[..k], bytes[k]);
      assert bytes == bytes[..k] + [bytes[k]];
      AppendAssoc(before.events, mid.events, Step(cfg, mid.mode, bytes[k]).events);
    }
  }

  /** The byte before a second ESC was the first. */
  lemma DoublesAfterEsc(cfg: Config, m: Mode, bytes: seq<byte>, k: nat)
    requires Orderly(cfg, m, bytes) && 0 < k < |bytes| && Doubles(Run(cfg, m, bytes[..k]).mode, bytes[k])
    ensures bytes[k - 1] == 0x1b
  {
    hide Run;
    RunSnoc(cfg, m, bytes[..k - 1], bytes[k - 1]);
    assert bytes[..k] == bytes[..k - 1] + [bytes[k - 1]];
    EscBefore(cfg, Run(cfg, m, bytes[..k - 1]).mode, bytes[k - 1]);
  }

  lemma EscBefore(cfg: Config, m: Mode, b: byte)
    requires !Strays(m, b) && Step(cfg, m, b).mode.InString? && Step(cfg, m, b).mode.inEsc
    ensures b == 0x1b
  {
  }

  lemma PairHeard(cfg: Config, m: Mode)
    requires m.InString?
    ensures HearWrite(cfg, m, [0x1b, 0x1b]) == Out(InString(m.kind, true), [Data(m.kind, 0x1b)])
    ensures Run(cfg, m, [0x1b, 0x1b]) == Out(InString(m.kind, true), [])
  {
    hide Run, Hear, Step;
    var m' := InString(m.kind, true);
    EscStep(cfg, m);
    EscStep(cfg, m');
    EscHeard(cfg, Fresh(m));
    EscHeard(cfg, Heard(m', [], [], true));
    HearConcat(cfg, Fresh(m), [0x1b], [0x1b]);
    HearOne(cfg, Fresh(m), 0x1b);
    HearOne(cfg, Heard(m', [], [], true), 0x1b);
    RunOne(cfg, m, 0x1b);
    RunSnoc(cfg, m, [0x1b], 0x1b);
    assert [0x1b, 0x1b] == [0x1b] + [0x1b];
    var none: seq<Event> := [];
    assert none + none == none && none + [Data(m.kind, 0x1b)] == [Data(m.kind, 0x1b)];
  }

  lemma EscStep(cfg: Config, m: Mode)
    requires m.InString?
    ensures Step(cfg, m, 0x1b) == Out(InString(m.kind, true), [])
  {
  }

  lemma EscHeard(cfg: Config, h: Heard)
    requires h.mode.InString?
    ensures Hear(cfg, h, 0x1b) ==
            Heard(InString(h.mode.kind, true), h.told, h.pending + if h.mode.inEsc && h.escHere then [Data(h.mode.kind, 0x1b)] else [], true)
  {
  }

  /** Two ESCs of a control string in one write of their own: the first is handed out as data. */
  function PairCut(bytes: seq<byte>, k: nat): (r: seq<seq<byte>>)
    requires 0 < k < |bytes|
    ensures NoneEmpty(r)
  {
    Singles(bytes[..k - 1]) + [bytes[k - 1..k + 1]] + Singles(bytes[k + 1..])
  }

  lemma FlattenOne(w: seq<byte>)
    ensures Flatten([w]) == w
  {
    FlattenPrefix([w], 0);
    assert [w][..0 + 1] == [w] && [w][..0] == [] && [w][0 + 1..] == [];
  }

  lemma PairCutFlat(bytes: seq<byte>, k: nat)
    requires 0 < k < |bytes|
    ensures Flatten(PairCut(bytes, k)) == bytes
  {
    hide Flatten, Singles;
    var a, pair, b := bytes[..k - 1], bytes[k - 1..k + 1], bytes[k + 1..];
    SinglesFlat(a);
    SinglesFlat(b);
    FlattenConcat(Singles(a) + [pair], Singles(b));
    FlattenConcat(Singles(a), [pair]);
    FlattenOne(pair);
    assert bytes == a + pair + b;
  }

  lemma PairCutHeard(cfg: Config, m: Mode, bytes: seq<byte>, k: nat)
    requires Orderly(cfg, m, bytes) && 0 < k < |bytes| && Doubles(Run(cfg, m, bytes[..k]).mode, bytes[k])
    ensures |HearWrites(cfg, m, PairCut(bytes, k)).events| == |Run(cfg, m, bytes).events| + 1
  {
    hide Run, HearWrite, Orderly, HearWrites, Step, Doubles, Singles;
    var a, pair, b := bytes[..k - 1], bytes[k - 1..k + 1], bytes[k + 1..];
    DoublesAfterEsc(cfg, m, bytes, k);
    DoublesIs(cfg, m, bytes, k);
    assert pair == [0x1b, 0x1b];
    var first := Run(cfg, m, a);
    RunSnoc(cfg, m, a, 0x1b);
    assert bytes[..k] == a + [0x1b];
    StringBeforeEsc(cfg, first.mode);
    PairHeard(cfg, first.mode);
    NothingHeard(cfg, m);
    SinglesHeard(cfg, m, [], a);
    assert [] + Singles(a) == Singles(a);
    HearWritesSnoc(cfg, m, Singles(a), pair);
    SinglesHeard(cfg, m, Singles(a) + [pair], b);
    assert bytes == a + pair + b;
    RunConcat(cfg, m, a + pair, b);
    RunConcat(cfg, m, a, pair);
  }

  lemma NothingHeard(cfg: Config, m: Mode)
    ensures HearWrites(cfg, m, []) == Out(m, [])
  {
  }

  lemma DoublesIs(cfg: Config, m: Mode, bytes: seq<byte>, k: nat)
    requires k < |bytes| && Doubles(Run(cfg, m, bytes[..k]).mode, bytes[k])
    ensures bytes[k] == 0x1b && Run(cfg, m, bytes[..k]).mode.InString?
  {
  }

  lemma StringBeforeEsc(cfg: Config, m: Mode)
    requires Step(cfg, m, 0x1b).mode.InString?
    ensures m.InString?
  {
  }

  /** In one write every event that may be dropped is. */
  lemma WholeHeard(cfg: Config, m: Mode, bytes: seq<byte>)
    requires NoDoubles(cfg, m, bytes)
    ensures var p := PartAll(cfg, m, bytes); HearWrite(cfg, m, bytes).events == Told(p, Zeros(p.blocks))
  {
    hide Joined, Part, Hear, NoDoubles;
    NothingJoined();
    assert [] + bytes == bytes;
    var lens, n := WriteAs(cfg, m, [], bytes, [], []);
    WriteEnds(PartAll(cfg, m, bytes), HearAll(cfg, Fresh(m), bytes), [], lens, n);
    assert lens == Zeros(PartAll(cfg, m, bytes).blocks);
  }

  lemma {:induction false} DroppedIsShorter(blocks: seq<Block>)
    ensures |Joined(blocks, Zeros(blocks))| <= |Joined(blocks, Full(blocks))|
    ensures (exists i :: 0 <= i < |blocks| && blocks[i].dropped != []) ==> |Joined(blocks, Zeros(blocks))| < |Joined(blocks, Full(blocks))|
  {
    if blocks != [] {
      var k := |blocks| - 1;
      DroppedIsShorter(blocks[..k]);
      assert Full(blocks)[..k] == Full(blocks[..k]) && Zeros(blocks)[..k] == Zeros(blocks[..k]);
      if (exists i :: 0 <= i < |blocks| && blocks[i].dropped != []) && blocks[k].dropped == [] {
        var i :| 0 <= i < |blocks| && blocks[i].dropped != [];
        assert blocks[..k][i].dropped != [];
      }
    }
  }

  /** Two cuts that report different things: byte by byte, and in one write or with one pair of ESCs together. */
  method DifferentCuts(cfg: Config, m: Mode, bytes: seq<byte>) returns (cuts: seq<seq<byte>>, others: seq<seq<byte>>)
    requires Orderly(cfg, m, bytes) && CutsShow(cfg, m, bytes)
    ensures NoneEmpty(cuts) && NoneEmpty(others) && Flatten(cuts) == bytes == Flatten(others)
    ensures HearWrites(cfg, m, cuts) == Run(cfg, m, bytes)
    ensures |HearWrites(cfg, m, others).events| != |Run(cfg, m, bytes).events|
  {
    hide Run, HearWrites, Orderly, NoDoubles, CutsShow, Flatten, Singles, PairCut, Doubles;
    cuts := Singles(bytes);
    SinglesFlat(bytes);
    NothingHeard(cfg, m);
    SinglesHeard(cfg, m, [], bytes);
    assert [] + cuts == cuts;
    if NoDoubles(cfg, m, bytes) {
      others := [bytes];
      WholeIsShorter(cfg, m, bytes);
    } else {
      var k := FirstDouble(cfg, m, bytes);
      others := PairCut(bytes, k);
      PairCutFlat(bytes, k);
      PairCutHeard(cfg, m, bytes, k);
    }
  }

  method FirstDouble(cfg: Config, m: Mode, bytes: seq<byte>) returns (k: nat)
    requires !NoDoubles(cfg, m, bytes)
    ensures 0 < k < |bytes| && Doubles(Run(cfg, m, bytes[..k]).mode, bytes[k])
  {
    k :| 0 < k < |bytes| && Doubles(Run(cfg, m, bytes[..k]).mode, bytes[k]);
  }

  lemma WholeIsShorter(cfg: Config, m: Mode, bytes: seq<byte>)
    requires NoDoubles(cfg, m, bytes) && CutsShow(cfg, m, bytes)
    ensures bytes != [] && Flatten([bytes]) == bytes && |HearWrites(cfg, m, [bytes]).events| < |Run(cfg, m, bytes).events|
  {
    hide Run, HearWrite, Joined, NoDoubles;
    var writes := [bytes];
    FlattenOne(bytes);
    HearWritesSnoc(cfg, m, [], bytes);
    assert [] + writes == writes && HearWrites(cfg, m, []) == Out(m, []);
    WholeHeard(cfg, m, bytes);
    RunIsFull(cfg, m, bytes);
    DroppedIsShorter(PartAll(cfg, m, bytes).blocks);
  }

  lemma {:induction false} CleanDropsNothing(cfg: Config, m: Mode, bytes: seq<byte>)
    requires Clean(cfg, m, bytes)
    ensures NoDoubles(cfg, m, bytes) && PartAll(cfg, m, bytes).blocks == []
  {
    hide Run, Step;
    if bytes != [] {
      var k := |bytes| - 1;
      assert bytes == bytes[..k] + [bytes[k]];
      CleanConcat(cfg, m, bytes[..k], [bytes[k]]);
      CleanDropsNothing(cfg, m, bytes[..k]);
      RunIsFull(cfg, m, bytes[..k]);
    }
  }

  /** Input that abandons no control string is not such an input. */
  lemma CleanShowsNothing(cfg: Config, m: Mode, bytes: seq<byte>)
    requires Clean(cfg, m, bytes)
    ensures Orderly(cfg, m, bytes) && !CutsShow(cfg, m, bytes)
  {
    CleanIsOrderly(cfg, m, bytes);
    CleanDropsNothing(cfg, m, bytes);
  }

  /** It does happen: in ESC ] 0 ; x CAN the beginning and the x may be dropped. */
  lemma AbandonedTitle(cfg: Config)
    ensures var bytes := [0x1b, 0x5d, 0x30, 0x3b, 0x78, 0x18];
            && Orderly(cfg, Ground, bytes) && CutsShow(cfg, Ground, bytes)
            && PartAll(cfg, Ground, bytes).blocks == [Block([], [Begin(Osc(0)), Data(Osc(0), 0x78)])]
  {
    hide Run, Part;
    var bytes := [0x1b, 0x5d, 0x30, 0x3b, 0x78, 0x18];
    TitleParts(cfg);
    assert bytes[..0] == [] && bytes[..6] == bytes;
    PartSnoc(cfg, Ground, bytes, 0);
    PartSnoc(cfg, Ground, bytes, 1);
    PartSnoc(cfg, Ground, bytes, 2);
    PartSnoc(cfg, Ground, bytes, 3);
    PartSnoc(cfg, Ground, bytes, 4);
    PartSnoc(cfg, Ground, bytes, 5);
    assert PartAll(cfg, Ground, bytes[..1]) == Parts(Escaped([]), [], [], []);
    assert PartAll(cfg, Ground, bytes[..2]) == Parts(OscCommand(-1, false, true), [], [], []);
    assert PartAll(cfg, Ground, bytes[..3]) == Parts(OscCommand(0, false, true), [], [], []);
    assert PartAll(cfg, Ground, bytes[..4]) == Parts(InString(Osc(0), false), [], [], [Begin(Osc(0))]);
    assert PartAll(cfg, Ground, bytes[..5]) == Parts(InString(Osc(0), false), [], [], [Begin(Osc(0)), Data(Osc(0), 0x78)]);
    assert PartAll(cfg, Ground, bytes).blocks[0].dropped != [];
    forall i | 0 <= i < |bytes| ensures !Strays(Run(cfg, Ground, bytes[..i]).mode, bytes[i]) {
      RunIsFull(cfg, Ground, bytes[..i]);
    }
  }

  lemma TitleParts(cfg: Config)
    ensures Part(cfg, Parts(Ground, [], [], []), 0x1b) == Parts(Escaped([]), [], [], [])
    ensures Part(cfg, Parts(Escaped([]), [], [], []), 0x5d) == Parts(OscCommand(-1, false, true), [], [], [])
    ensures Part(cfg, Parts(OscCommand(-1, false, true), [], [], []), 0x30) == Parts(OscCommand(0, false, true), [], [], [])
    ensures Part(cfg, Parts(OscCommand(0, false, true), [], [], []), 0x3b) == Parts(InString(Osc(0), false), [], [], [Begin(Osc(0))])
    ensures Part(cfg, Parts(InString(Osc(0), false), [], [], [Begin(Osc(0))]), 0x78) ==
            Parts(InString(Osc(0), false), [], [], [Begin(Osc(0)), Data(Osc(0), 0x78)])
    ensures Part(cfg, Parts(InString(Osc(0), false), [], [], [Begin(Osc(0)), Data(Osc(0), 0x78)]), 0x18).blocks ==
            [Block([], [Begin(Osc(0)), Data(Osc(0), 0x78)])]
  {
  }

  lemma PartSnoc(cfg: Config, m: Mode, bytes: seq<byte>, i: nat)
    requires i < |bytes|
    ensures PartAll(cfg, m, bytes[..i + 1]) == Part(cfg, PartAll(cfg, m, bytes[..i]), bytes[i])
    ensures PartAll(cfg, m, []) == Parts(m, [], [], [])
  {
    assert bytes[..i + 1][..i] == bytes[..i];
  }
}
