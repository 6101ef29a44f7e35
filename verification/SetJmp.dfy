/**
 setjmp and longjmp of src/yos/main.c: a table of slots keyed by the guest's jmp_buf, a pump that unwinds
 and rewinds the guest, and a host-side image of the stack for each slot.

 Asyncify and the guest are arbitrary: between two host calls memory may become anything and may grow.
 */
module SetJmp {
  import opened Bytes

  const SJ_BUF_SIZE: nat := 0x1_0000
  const SLOTS: nat := 64
  const MIN_MEMORY: nat := (4 + SLOTS) * SJ_BUF_SIZE

  type Image = seq<byte>

  datatype Slot = Slot(key: nat, buf: nat, save: Option<Image>)

  datatype Asyncify = Running | Unwinding | Rewinding

  /** What happened, in order. */
  datatype Event =
    | Captured(key: nat, image: Image)
    | Thrown(key: nat, value: int)
    | Replayed(key: nat, image: Image)
    | Landed(key: nat, value: int)

  /** The image of the latest setjmp on a jmp_buf. */
  function LastCapture(h: seq<Event>, key: nat): Option<Image> {
    if h == [] then None
    else
      var last := h[|h| - 1];
      if last.Captured? && last.key == key then Some(last.image) else LastCapture(h[..|h| - 1], key)
  }

  /** Latest: no capture on that jmp_buf comes after it; and there is none at all if it is None. */
  lemma {:induction false} LastCaptureIs(h: seq<Event>, key: nat)
    ensures match LastCapture(h, key)
            case None => NoCapture(h, key, 0)
            case Some(image) => exists i :: 0 <= i < |h| && h[i] == Captured(key, image) && NoCapture(h, key, i + 1)
  {
    if h != [] && !(h[|h| - 1].Captured? && h[|h| - 1].key == key) {
      var less := h[..|h| - 1];
      LastCaptureIs(less, key);
      if LastCapture(less, key).Some? {
        var i :| 0 <= i < |less| && less[i] == Captured(key, LastCapture(less, key).value) && NoCapture(less, key, i + 1);
        assert h[i] == less[i];
      }
    }
  }

  ghost predicate NoCapture(h: seq<Event>, key: nat, from: nat) {
    forall i :: from <= i < |h| ==> !(h[i].Captured? && h[i].key == key)
  }

  function LastThrow(h: seq<Event>): Option<Event> {
    if h == [] then None else if h[|h| - 1].Thrown? then Some(h[|h| - 1]) else LastThrow(h[..|h| - 1])
  }

  function Nonzero(value: int): int { if value == 0 then 1 else value }

  /** The latest longjmp was to this jmp_buf, with this value once 0 is made 1. */
  predicate Aimed(h: seq<Event>, key: nat, value: int) {
    LastThrow(h).Some? && LastThrow(h).value.Thrown? && LastThrow(h).value.key == key && value == Nonzero(LastThrow(h).value.value)
  }

  lemma AimedNow(h: seq<Event>, key: nat, value: int)
    ensures Aimed(h + [Thrown(key, value)], key, if value == 0 then 1 else value)
  {
    LastSnoc(h, Thrown(key, value), key);
  }

  /** What the guest may rely on, event by event. */
  ghost predicate Right(before: seq<Event>, e: Event) {
    match e
    case Replayed(key, image) => LastCapture(before, key) == Some(image)
    case Landed(key, value) =>
      value != 0 && Aimed(before, key, value)
    case _ => true
  }

  ghost predicate AllRight(h: seq<Event>) {
    forall i :: 0 <= i < |h| ==> Right(h[..i], h[i])
  }

  lemma AllRightSnoc(h: seq<Event>, e: Event)
    requires AllRight(h) && Right(h, e)
    ensures AllRight(h + [e])
  {
    forall i | 0 <= i < |h + [e]| ensures Right((h + [e])[..i], (h + [e])[i]) {
      if i < |h| {
        assert (h + [e])[..i] == h[..i];
      } else {
        assert (h + [e])[..i] == h;
      }
    }
  }

  lemma LastSnoc(h: seq<Event>, e: Event, key: nat)
    ensures LastCapture(h + [e], key) == if e.Captured? && e.key == key then Some(e.image) else LastCapture(h, key)
    ensures LastThrow(h + [e]) == if e.Thrown? then Some(e) else LastThrow(h)
  {
    assert (h + [e])[..|h|] == h;
  }

  /** No two live slots have the same key, and every slot's buffer lies in memory. */
  ghost predicate Table(slots: seq<Slot>, memorySize: nat) {
    && |slots| == SLOTS
    && (forall i, j :: 0 <= i < j < SLOTS && slots[i].key != 0 ==> slots[i].key != slots[j].key)
    && (forall i :: 0 <= i < SLOTS && slots[i].key != 0 ==> slots[i].buf + SJ_BUF_SIZE <= memorySize)
  }

  /** Every live slot but the one being captured keeps the latest image of its jmp_buf. */
  ghost predicate Kept(slots: seq<Slot>, pending: int, h: seq<Event>) {
    forall i :: 0 <= i < |slots| && slots[i].key != 0 && i != pending ==>
      slots[i].save.Some? && |slots[i].save.value| == SJ_BUF_SIZE && slots[i].save == LastCapture(h, slots[i].key)
  }

  function Keys(slots: seq<Slot>): set<nat> {
    set i | 0 <= i < |slots| && slots[i].key != 0 :: slots[i].key
  }

  /** Everything the runtime keeps. */
  datatype Look = Look(slots: seq<Slot>, memory: seq<byte>, setjmpPending: bool, pendingSlot: int, longjmpPending: bool, longjmpTarget: nat,
                       longjmpValue: int, discard: nat, asyncify: Asyncify, exited: bool, history: seq<Event>)

  /** An asyncify buffer made ready: where its frames begin and where it ends, in its first eight bytes. */
  function Opened(memory: seq<byte>, buf: nat): seq<byte>
    requires buf + SJ_BUF_SIZE <= |memory|
  {
    memory[..buf] + (Word(buf + 8) + Word(buf + 0x1_0000)) + memory[buf + 8..]
  }

  /** An image put back into its buffer. */
  predicate Restored(was: seq<byte>, now: seq<byte>, buf: nat, image: Image) {
    buf + |image| <= |was| && |image| == 0x1_0000 && now == was[..buf] + image + was[buf + |image|..]
  }

  /** The slots whose frames are gone are free. */
  function Reaped(slots: seq<Slot>, sp: nat): seq<Slot> {
    seq(|slots|, i requires 0 <= i < |slots| => if 0 < slots[i].key < sp then slots[i].(key := 0, save := None) else slots[i])
  }

  /** The first free slot is given to the jmp_buf, with a buffer of its own counted down from the top of memory. */
  ghost predicate Given(was: seq<Slot>, now: seq<Slot>, slot: int, key: nat, memorySize: nat) {
    && 0 <= slot < |was| && was[slot].key == 0 && (forall k :: 0 <= k < slot ==> was[k].key != 0)
    && memorySize >= (4 + slot) * 0x1_0000
    && now == was[slot := was[slot].(key := key, buf := memorySize - (4 + slot) * 0x1_0000)]
  }

  /** Its own slot, a free one, or one that is free once the dead are reaped. */
  ghost predicate Chosen(was: seq<Slot>, now: seq<Slot>, slot: int, key: nat, sp: nat, memorySize: nat) {
    if exists i :: 0 <= i < |was| && was[i].key == key != 0 then now == was && 0 <= slot < |was| && was[slot].key == key
    else if exists i :: 0 <= i < |was| && was[i].key == 0 then Given(was, now, slot, key, memorySize)
    else Given(Reaped(was, sp), now, slot, key, memorySize)
  }

  class Runtime {
    const slots: array<Slot>
    var memory: seq<byte>
    var setjmpPending: bool
    var pendingSlot: int
    var longjmpPending: bool
    var longjmpTarget: nat
    var longjmpValue: int
    var discard: nat
    var asyncify: Asyncify
    var exited: bool

    ghost var history: seq<Event>

    ghost predicate Valid() reads this, slots {
      Valid0() && (setjmpPending ==> asyncify == Unwinding)
    }

    /** All but that a capture is under way only while the guest unwinds. */
    ghost predicate Valid0() reads this, slots {
      && slots.Length == SLOTS && |memory| >= MIN_MEMORY
      && Table(slots[..], |memory|)
      && Kept(slots[..], pendingSlot, history)
      && pendingSlot >= -1 && (setjmpPending <==> pendingSlot >= 0)
      && (setjmpPending ==>
            pendingSlot < SLOTS && slots[pendingSlot].buf + SJ_BUF_SIZE <= |memory| && !longjmpPending)
      && (longjmpPending ==>
            && longjmpTarget in Keys(slots[..])
            && Aimed(history, longjmpTarget, longjmpValue))
      && discard + SJ_BUF_SIZE <= |memory|
      && AllRight(history)
    }

    ghost function Now(): Look reads this, slots {
      Look(slots[..], memory, setjmpPending, pendingSlot, longjmpPending, longjmpTarget, longjmpValue, discard, asyncify, exited, history)
    }

    constructor (memory: seq<byte>)
      requires |memory| >= MIN_MEMORY
      ensures Valid() && history == [] && !exited && asyncify == Running && fresh(slots)
    {
      slots := new Slot[SLOTS](_ => Slot(0, 0, None));
      this.memory := memory;
      setjmpPending, pendingSlot := false, -1;
      longjmpPending, longjmpTarget, longjmpValue := false, 0, 0;
      discard, asyncify, exited := 0, Running, false;
      history := [];
    }

    /** sj_find_slot; 0 is the mark of a free slot. */
    method FindSlot(key: nat) returns (slot: int)
      requires slots.Length == SLOTS
      ensures slot == -1 || (0 <= slot < SLOTS && key != 0 && slots[slot].key == key)
      ensures slot == -1 <==> key !in Keys(slots[..])
    {
      if key == 0 {
        return -1;
      }
      for i := 0 to SLOTS
        invariant forall k :: 0 <= k < i ==> slots[k].key != key
      {
        if slots[i].key == key {
          assert slots[..][i].key == key;
          return i;
        }
      }
      slot := -1;
    }

    /** sj_alloc_slot: the first free slot, with a buffer of its own counted down from the top of memory. */
    method AllocSlot(key: nat) returns (slot: int)
      requires slots.Length == SLOTS && |memory| >= MIN_MEMORY
      modifies slots
      ensures slot == -1 ==> slots[..] == old(slots[..]) && forall i :: 0 <= i < SLOTS ==> slots[i].key != 0
      ensures slot != -1 ==> 0 <= slot < SLOTS && old(slots[slot].key) == 0
      ensures slot != -1 ==> slots[slot].key == key && slots[slot].buf + SJ_BUF_SIZE <= |memory|
      ensures slot != -1 ==> slots[..] == old(slots[..])[slot := slots[slot]] && Given(old(slots[..]), slots[..], slot, key, |memory|)
    {
      for i := 0 to SLOTS
        invariant slots[..] == old(slots[..])
        invariant forall k :: 0 <= k < i ==> slots[k].key != 0
      {
        if slots[i].key == 0 {
          slots[i] := slots[i].(key := key, buf := |memory| - (4 + i) * SJ_BUF_SIZE);
          return i;
        }
      }
      slot := -1;
    }

    /** sj_reap_dead: the stack grows down, so a jmp_buf below the stack pointer belongs to a frame that is gone. */
    method ReapDead(sp: nat)
      requires slots.Length == SLOTS
      modifies slots
      ensures forall i :: 0 <= i < SLOTS ==>
                slots[i] == if 0 < old(slots[i].key) < sp then old(slots[i]).(key := 0, save := None) else old(slots[i])
      ensures slots[..] == Reaped(old(slots[..]), sp)
    {
      if sp == 0 {
        return;
      }
      for i := 0 to SLOTS
        invariant forall k :: 0 <= k < i ==>
                    slots[k] == if 0 < old(slots[k].key) < sp then old(slots[k]).(key := 0, save := None) else old(slots[k])
        invariant forall k :: i <= k < SLOTS ==> slots[k] == old(slots[k])
      {
        if slots[i].key != 0 && slots[i].key < sp {
          slots[i] := slots[i].(key := 0, save := None);
        }
      }
    }

    /** main_init_asyncify_buf: where the frames begin and where the buffer ends. */
    method InitAsyncifyBuf(buf: nat)
      requires buf + SJ_BUF_SIZE <= |memory|
      modifies `memory
      ensures |memory| == old(|memory|) && memory == Opened(old(memory), buf)
      ensures memory[buf..buf + 8] == Word(buf + 8) + Word(buf + SJ_BUF_SIZE)
      ensures memory[..buf] == old(memory)[..buf] && memory[buf + 8..] == old(memory)[buf + 8..]
    {
      memory := memory[..buf] + (Word(buf + 8) + Word(buf + SJ_BUF_SIZE)) + memory[buf + 8..];
    }

    /** A slot for a first call: the jmp_buf's own, a free one, or one whose frame is gone; -1 if there is none. */
    method SlotFor(jmpBuf: nat, sp: nat) returns (slot: int)
      requires Valid() && !setjmpPending && !longjmpPending
      modifies slots
      ensures slots.Length == SLOTS && Table(slots[..], |memory|) && -1 <= slot < SLOTS
      ensures Kept(slots[..], slot, history)
      ensures slot >= 0 ==> slots[slot].key == jmpBuf && slots[slot].buf + SJ_BUF_SIZE <= |memory|
      ensures old(jmpBuf in Keys(slots[..])) ==> slots[..] == old(slots[..]) && slot >= 0
      ensures slot == -1 <==> jmpBuf !in old(Keys(slots[..])) && old(Full(slots[..], sp))
      ensures forall key :: key in old(Keys(slots[..])) && key >= sp ==> key in Keys(slots[..])
      ensures old(FreeSlot(slots[..])) ==> old(Keys(slots[..])) <= Keys(slots[..])
      ensures if slot == -1 then slots[..] == old(slots[..]) else Chosen(old(slots[..]), slots[..], slot, jmpBuf, sp, |memory|)
    {
      slot := FindSlot(jmpBuf);
      if slot < 0 {
        slot := AllocSlot(jmpBuf);
        if slot >= 0 {
          TableAlloc(old(slots[..]), slot, slots[slot], |memory|, history);
        }
      }
      if slot < 0 {
        ReapDead(sp);
        ghost var reaped := slots[..];
        TableReap(old(slots[..]), reaped, sp, |memory|, history);
        slot := AllocSlot(jmpBuf);
        if slot >= 0 {
          TableAlloc(reaped, slot, slots[slot], |memory|, history);
        }
      }
    }

    /** m3_setjmp: a first call, a frame on the way to another jmp_buf, or the landing. */
    method Setjmp(jmpBuf: nat, sp: nat) returns (r: int)
      requires Valid() && !exited && asyncify != Unwinding
      modifies this, slots
      ensures Valid()
      ensures if old(longjmpPending) then
                if old(longjmpTarget) == jmpBuf then
                  && r == old(longjmpValue) && r != 0
                  && Now() == old(Now()).(longjmpPending := false, longjmpTarget := 0, asyncify := Running, history := old(history) + [Landed(jmpBuf, r)])
                else
                  r == 0 && Now() == old(Now())
              else if old(asyncify) == Rewinding then
                r == 0 && Now() == old(Now()).(asyncify := Running)
              else
                && (r == -1 <==> jmpBuf !in old(Keys(slots[..])) && old(Full(slots[..], sp)))
                && (r == -1 ==> Now() == old(Now()))
                && (r != -1 ==>
                      && r == 0 && Chosen(old(slots[..]), slots[..], pendingSlot, jmpBuf, sp, |old(memory)|)
                      && 0 <= pendingSlot < SLOTS && slots[pendingSlot].key == jmpBuf && slots[pendingSlot].buf + SJ_BUF_SIZE <= |old(memory)|
                      && Now() == old(Now()).(slots := slots[..], memory := Opened(old(memory), slots[pendingSlot].buf), setjmpPending := true,
                                              pendingSlot := pendingSlot, asyncify := Unwinding))
      ensures forall key :: key in old(Keys(slots[..])) && key >= sp ==> key in Keys(slots[..])
    {
      hide Kept, AllRight, Keys, Full, Chosen, Opened, Word;
      if longjmpPending {
        if longjmpTarget == jmpBuf {
          r := longjmpValue;
          AllRightSnoc(history, Landed(jmpBuf, r));
          KeptSnoc(slots[..], pendingSlot, history, Landed(jmpBuf, r));
          history := history + [Landed(jmpBuf, r)];
          longjmpPending, longjmpTarget := false, 0;
          asyncify := Running;
          return;
        }
        return 0;
      }
      if asyncify == Rewinding {
        asyncify := Running;
        return 0;
      }
      var slot := SlotFor(jmpBuf, sp);
      if slot < 0 {
        return -1;
      }
      InitAsyncifyBuf(slots[slot].buf);
      setjmpPending, pendingSlot := true, slot;
      asyncify := Unwinding;
      r := 0;
    }

    /** m3_longjmp: to a jmp_buf that no setjmp has registered it ends the process. */
    method Longjmp(jmpBuf: nat, value: int)
      requires Valid() && !exited && asyncify != Unwinding
      modifies this
      ensures Valid()
      ensures exited <==> jmpBuf !in Keys(slots[..])
      ensures exited ==> history == old(history)
      ensures exited ==> Now() == old(Now()).(exited := true)
      ensures !exited ==>
                var buf := if old(discard) == 0 then |old(memory)| - 3 * 0x1_0000 else old(discard);
                && 0 <= buf && buf + SJ_BUF_SIZE <= |old(memory)|
                && Now() == old(Now()).(longjmpPending := true, longjmpTarget := jmpBuf, longjmpValue := if value == 0 then 1 else value, discard := buf,
                                        memory := Opened(old(memory), buf), asyncify := Unwinding, history := old(history) + [Thrown(jmpBuf, value)])
    {
      hide Table, Kept, AllRight, Keys, LastCapture, Word, Opened, Aimed, LastThrow;
      ghost var table, size := slots[..], |memory|;
      var slot := FindSlot(jmpBuf);
      if slot < 0 {
        exited := true;
        assert slots[..] == table;
        return;
      }
      if discard == 0 {
        discard := |memory| - 3 * SJ_BUF_SIZE;
      }
      InitAsyncifyBuf(discard);
      longjmpPending := true;
      longjmpValue := if value == 0 then 1 else value;
      longjmpTarget := jmpBuf;
      asyncify := Unwinding;
      AllRightSnoc(history, Thrown(jmpBuf, value));
      KeptSnoc(slots[..], pendingSlot, history, Thrown(jmpBuf, value));
      AimedNow(history, jmpBuf, value);
      history := history + [Thrown(jmpBuf, value)];
      assert slots[..] == table && |memory| == size;
    }

    /** The unwind has filled the pending slot's buffer: keep an image of it. */
    method Capture()
      requires Valid0() && setjmpPending
      modifies slots, `history
      ensures Table(slots[..], |memory|) && Kept(slots[..], -1, history) && AllRight(history)
      ensures Keys(slots[..]) == old(Keys(slots[..]))
      ensures var slot := old(slots[pendingSlot]);
              var image := memory[slot.buf..slot.buf + SJ_BUF_SIZE];
              history == old(history) + [Captured(slot.key, image)] && slots[..] == old(slots[..])[pendingSlot := slot.(save := Some(image))]
    {
      var slot := slots[pendingSlot];
      var image := memory[slot.buf..slot.buf + SJ_BUF_SIZE];
      ghost var e := Captured(slot.key, image);
      KeptCaptured(slots[..], pendingSlot, |memory|, history, image);
      AllRightSnoc(history, e);
      slots[pendingSlot] := slot.(save := Some(image));
      history := history + [e];
    }

    /** The target's image goes back into its buffer; the rewind consumes the buffer, not the image. */
    method Replay()
      requires Valid0() && !setjmpPending && longjmpPending
      modifies `memory, `history
      ensures |memory| == old(|memory|) && Kept(slots[..], -1, history) && AllRight(history)
      ensures |history| == |old(history)| + 1 && history[..|old(history)|] == old(history)
      ensures var e := history[|old(history)|];
              e.Replayed? && e.key == longjmpTarget &&
              exists i :: 0 <= i < SLOTS && slots[i].key == e.key && slots[i].save == Some(e.image) && Restored(old(memory), memory, slots[i].buf, e.image)
    {
      var i := FindSlot(longjmpTarget);
      var slot := slots[i];
      var image := slot.save.value;
      memory := memory[..slot.buf] + image + memory[slot.buf + SJ_BUF_SIZE..];
      ghost var e := Replayed(longjmpTarget, image);
      AllRightSnoc(history, e);
      KeptSnoc(slots[..], -1, history, e);
      history := history + [e];
    }

    /** One turn of yos_setjmp_pump's loop, up to where the guest runs again. */
    method PumpTurn()
      requires Valid() && (setjmpPending || longjmpPending)
      modifies this, slots
      ensures Valid() && !setjmpPending && asyncify == Rewinding && longjmpPending == old(longjmpPending) && exited == old(exited)
      ensures Keys(slots[..]) == old(Keys(slots[..]))
      ensures |history| == |old(history)| + 1 && history[..|old(history)|] == old(history)
      ensures var e := history[|old(history)|];
              if old(setjmpPending) then
                var slot := old(slots[pendingSlot]);
                var image := old(memory)[slot.buf..slot.buf + SJ_BUF_SIZE];
                && e == Captured(slot.key, image)
                && Now() == old(Now()).(slots := old(slots[..])[old(pendingSlot) := slot.(save := Some(image))], setjmpPending := false, pendingSlot := -1,
                                        asyncify := Rewinding, history := history)
              else
                && e.Replayed? && e.key == longjmpTarget
                && Now() == old(Now()).(memory := memory, asyncify := Rewinding, history := history)
                && exists i :: 0 <= i < SLOTS && slots[i].key == e.key && slots[i].save == Some(e.image) && Restored(old(memory), memory, slots[i].buf, e.image)
    {
      hide Kept, AllRight, Keys;
      asyncify := Running;
      if setjmpPending {
        Capture();
      } else {
        Replay();
      }
      asyncify := Rewinding;
      setjmpPending, pendingSlot := false, -1;
    }

    /** The guest runs, or asyncify writes or reads its frames: memory may be anything now, and larger. */
    method RunGuest(after: seq<byte>)
      requires Valid() && |after| >= |memory|
      modifies `memory
      ensures Valid() && Now() == old(Now()).(memory := after)
    {
      memory := after;
    }

    /** The rewound guest trapped. */
    method Trap()
      requires Valid() && asyncify != Unwinding
      modifies `setjmpPending, `pendingSlot, `longjmpPending
      ensures Valid() && Now() == old(Now()).(setjmpPending := false, pendingSlot := -1, longjmpPending := false)
    {
      setjmpPending, pendingSlot, longjmpPending := false, -1, false;
    }

    /** Whether a step can happen: an unwinding guest makes no calls, and an exited process none at all. */
    predicate Enabled(step: Step) reads this {
      match step
      case Guest(after) => |after| >= |memory|
      case CallSetjmp(_, _) => !exited && asyncify != Unwinding
      case CallLongjmp(_, _) => !exited && asyncify != Unwinding
      case Pump => setjmpPending || longjmpPending
      case Trapped => asyncify != Unwinding
    }

    lemma EnabledIs(step: Step)
      ensures Enabled(step) <==> CanHappen(step, Now())
    {
    }

    method Perform(step: Step)
      requires Valid() && Enabled(step)
      modifies this, slots
      ensures Valid() && Did(step, old(Now()), Now())
    {
      hide Table, Kept, AllRight, Keys, Full, Chosen, Opened, Restored;
      ghost var b := Now();
      match step {
        case Guest(after) => RunGuest(after);
        case CallSetjmp(jmpBuf, sp) => var _ := Setjmp(jmpBuf, sp);
        case CallLongjmp(jmpBuf, value) => Longjmp(jmpBuf, value);
        case Pump =>
          PumpTurn();
          if b.setjmpPending {
            assert history == b.history + [history[|b.history|]];
          } else {
            PumpDid(b, Now());
          }
        case Trapped => Trap();
      }
    }

    /**
     Any run at all: every rewind for a longjmp starts from the image of the latest setjmp on its jmp_buf,
     every landing delivers the value of the latest longjmp, never 0, and live slots keep distinct keys.
     */
    method Run(steps: seq<Step>) returns (ghost trace: seq<Look>)
      requires Valid()
      modifies this, slots
      ensures Valid() && AllRight(history)
      ensures IsTrace(steps, trace) && trace[0] == old(Now()) && trace[|steps|] == Now()
      ensures forall i, j :: 0 <= i < j < SLOTS && slots[i].key != 0 ==> slots[i].key != slots[j].key
    {
      hide Table, Kept, AllRight, Did, CanHappen, Enabled, IsTrace, Now;
      trace := [Now()];
      TraceStarts(steps[..0], trace);
      for i := 0 to |steps|
        invariant Valid()
        invariant |trace| == i + 1 && IsTrace(steps[..i], trace) && trace[0] == old(Now()) && trace[i] == Now()
      {
        EnabledIs(steps[i]);
        if Enabled(steps[i]) {
          Perform(steps[i]);
        }
        TraceGrows(steps, i, trace, Now());
        trace := trace + [Now()];
      }
      assert steps[..|steps|] == steps;
      TableDistinct(slots[..], |memory|);
    }
  }

  datatype Step =
    | Guest(after: seq<byte>)
    | CallSetjmp(jmpBuf: nat, sp: nat)
    | CallLongjmp(jmpBuf: nat, value: int)
    | Pump
    | Trapped

  /** What each step does, to the part of the runtime that is its own; the rest stays. */
  ghost predicate Did(step: Step, b: Look, a: Look) {
    match step
    case Guest(after) => a == b.(memory := after)
    case Trapped => a == b.(setjmpPending := false, pendingSlot := -1, longjmpPending := false)
    case CallSetjmp(jmpBuf, sp) =>
      if b.longjmpPending then
        a == if b.longjmpTarget == jmpBuf
             then b.(longjmpPending := false, longjmpTarget := 0, asyncify := Running, history := b.history + [Landed(jmpBuf, b.longjmpValue)]) else b
      else if b.asyncify == Rewinding then a == b.(asyncify := Running)
      else if jmpBuf !in Keys(b.slots) && Full(b.slots, sp) then a == b
      else
        && Chosen(b.slots, a.slots, a.pendingSlot, jmpBuf, sp, |b.memory|)
        && 0 <= a.pendingSlot < |a.slots| && a.slots[a.pendingSlot].buf + SJ_BUF_SIZE <= |b.memory|
        && a == b.(slots := a.slots, memory := Opened(b.memory, a.slots[a.pendingSlot].buf), setjmpPending := true, pendingSlot := a.pendingSlot,
                   asyncify := Unwinding)
    case CallLongjmp(jmpBuf, value) =>
      if jmpBuf !in Keys(b.slots) then a == b.(exited := true)
      else
        && a.discard + SJ_BUF_SIZE <= |b.memory| && a.discard == (if b.discard == 0 then |b.memory| - 3 * 0x1_0000 else b.discard)
        && a == b.(longjmpPending := true, longjmpTarget := jmpBuf, longjmpValue := if value == 0 then 1 else value, discard := a.discard,
                   memory := Opened(b.memory, a.discard), asyncify := Unwinding, history := b.history + [Thrown(jmpBuf, value)])
    case Pump =>
      if b.setjmpPending then
        && 0 <= b.pendingSlot < |b.slots| && b.slots[b.pendingSlot].buf + SJ_BUF_SIZE <= |b.memory|
        && var slot := b.slots[b.pendingSlot];
           var image := b.memory[slot.buf..slot.buf + SJ_BUF_SIZE];
           a == b.(slots := b.slots[b.pendingSlot := slot.(save := Some(image))], setjmpPending := false, pendingSlot := -1, asyncify := Rewinding,
                   history := b.history + [Captured(slot.key, image)])
      else exists i, image ::
        && 0 <= i < |b.slots| && b.slots[i].key == b.longjmpTarget && b.slots[i].save == Some(image)
        && Restored(b.memory, a.memory, b.slots[i].buf, image)
        && a == b.(memory := a.memory, asyncify := Rewinding, history := b.history + [Replayed(b.longjmpTarget, image)])
  }

  predicate CanHappen(step: Step, b: Look) {
    match step
    case Guest(after) => |after| >= |b.memory|
    case CallSetjmp(_, _) => !b.exited && b.asyncify != Unwinding
    case CallLongjmp(_, _) => !b.exited && b.asyncify != Unwinding
    case Pump => b.setjmpPending || b.longjmpPending
    case Trapped => b.asyncify != Unwinding
  }

  /** A run, step by step; one that cannot happen does nothing. */
  ghost predicate IsTrace(steps: seq<Step>, trace: seq<Look>) {
    && |trace| == |steps| + 1
    && forall k :: 0 <= k < |steps| ==> if CanHappen(steps[k], trace[k]) then Did(steps[k], trace[k], trace[k + 1]) else trace[k + 1] == trace[k]
  }

  lemma TraceStarts(steps: seq<Step>, trace: seq<Look>)
    requires steps == [] && |trace| == 1
    ensures IsTrace(steps, trace)
  {
  }

  lemma TraceGrows(steps: seq<Step>, i: nat, trace: seq<Look>, now: Look)
    requires i < |steps| && |trace| == i + 1 && IsTrace(steps[..i], trace)
    requires if CanHappen(steps[i], trace[i]) then Did(steps[i], trace[i], now) else now == trace[i]
    ensures IsTrace(steps[..i + 1], trace + [now])
  {
    hide CanHappen, Did;
  }

  lemma PumpDid(b: Look, a: Look)
    requires b.longjmpPending && !b.setjmpPending && |a.history| == |b.history| + 1 && a.history[..|b.history|] == b.history
    requires var e := a.history[|b.history|];
             && e.Replayed? && e.key == b.longjmpTarget && a == b.(memory := a.memory, asyncify := Rewinding, history := a.history)
             && exists i :: 0 <= i < |b.slots| && b.slots[i].key == e.key && b.slots[i].save == Some(e.image) && Restored(b.memory, a.memory, b.slots[i].buf, e.image)
    ensures Did(Pump, b, a)
  {
    var e := a.history[|b.history|];
    assert a.history == b.history + [e];
  }

  lemma TableDistinct(slots: seq<Slot>, memorySize: nat)
    requires Table(slots, memorySize)
    ensures forall i, j :: 0 <= i < j < SLOTS && slots[i].key != 0 ==> slots[i].key != slots[j].key
  {
  }

  ghost predicate FreeSlot(slots: seq<Slot>) {
    exists i :: 0 <= i < |slots| && slots[i].key == 0
  }

  /** No slot is free, nor would be if the dead were reaped. */
  ghost predicate Full(slots: seq<Slot>, sp: nat) {
    forall i :: 0 <= i < |slots| ==> slots[i].key != 0 && slots[i].key >= sp
  }

  lemma KeptSnoc(slots: seq<Slot>, pending: int, h: seq<Event>, e: Event)
    requires Kept(slots, pending, h) && !e.Captured?
    ensures Kept(slots, pending, h + [e])
  {
    forall i | 0 <= i < |slots| ensures LastCapture(h + [e], slots[i].key) == LastCapture(h, slots[i].key) {
      LastSnoc(h, e, slots[i].key);
    }
  }

  /** Capturing into the pending slot leaves every live slot with the latest image. */
  lemma KeptCaptured(slots: seq<Slot>, pending: nat, memorySize: nat, h: seq<Event>, image: Image)
    requires Table(slots, memorySize) && pending < SLOTS && Kept(slots, pending, h) && |image| == SJ_BUF_SIZE
    ensures var slot := slots[pending];
            var now := slots[pending := slot.(save := Some(image))];
            && Table(now, memorySize) && Keys(now) == Keys(slots)
            && Kept(now, -1, h + [Captured(slot.key, image)])
  {
    var slot := slots[pending];
    var now, e := slots[pending := slot.(save := Some(image))], Captured(slot.key, image);
    forall i | 0 <= i < SLOTS && now[i].key != 0
      ensures now[i].save.Some? && |now[i].save.value| == SJ_BUF_SIZE && now[i].save == LastCapture(h + [e], now[i].key)
    {
      LastSnoc(h, e, now[i].key);
    }
    SameKeys(slots, now);
  }

  lemma SameKeys(a: seq<Slot>, b: seq<Slot>)
    requires |a| == |b| && forall i :: 0 <= i < |a| ==> a[i].key == b[i].key
    ensures Keys(a) == Keys(b)
  {
    forall key | key in Keys(a) ensures key in Keys(b) {
      var i :| 0 <= i < |a| && a[i].key == key;
      assert b[i].key == key;
    }
    forall key | key in Keys(b) ensures key in Keys(a) {
      var i :| 0 <= i < |b| && b[i].key == key;
      assert a[i].key == key;
    }
  }

  lemma TableAlloc(slots: seq<Slot>, at: int, slot: Slot, memorySize: nat, h: seq<Event>)
    requires Table(slots, memorySize) && Kept(slots, -1, h) && 0 <= at < SLOTS
    requires slots[at].key == 0 && slot.key !in Keys(slots) && slot.buf + SJ_BUF_SIZE <= memorySize
    ensures Table(slots[at := slot], memorySize) && Kept(slots[at := slot], at, h)
    ensures Keys(slots) <= Keys(slots[at := slot])
  {
    forall i | 0 <= i < SLOTS && slots[i].key != 0 ensures slots[i].key in Keys(slots[at := slot]) && slots[i].key != slot.key {
      assert slots[at := slot][i] == slots[i];
      assert slots[i].key in Keys(slots);
    }
  }

  lemma TableReap(slots: seq<Slot>, reaped: seq<Slot>, sp: nat, memorySize: nat, h: seq<Event>)
    requires Table(slots, memorySize) && Kept(slots, -1, h) && |reaped| == SLOTS
    requires forall i :: 0 <= i < SLOTS ==> reaped[i] == if 0 < slots[i].key < sp then slots[i].(key := 0, save := None) else slots[i]
    ensures Table(reaped, memorySize) && Kept(reaped, -1, h)
    ensures Keys(reaped) == set key | key in Keys(slots) && key >= sp
  {
    forall key | key in Keys(slots) && key >= sp ensures key in Keys(reaped) {
      var i :| 0 <= i < SLOTS && slots[i].key == key;
      assert reaped[i].key == key;
    }
  }

  /** A 32-bit word as it lies in memory. */
  function Word(w: nat): (bytes: seq<byte>)
    ensures |bytes| == 4
  {
    [w % 0x100, w / 0x100 % 0x100, w / 0x1_0000 % 0x100, w / 0x100_0000 % 0x100]
  }
}
