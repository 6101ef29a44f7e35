/**
 The OSC 52 clipboard of src/libvterm/src/state.c: a streaming Base64 encoder and decoder that share one
 small buffer and keep a partial group packed in one word between calls.
 */
module Clipboard {
  import opened Bytes
  import opened Base64
  import opened Sending
  import opened ControlSequences

  const SEMICOLON: byte := 0x3b
  const QUERY: byte := 0x3f

  datatype Target = Clip | Primary | Secondary | Select | Cut(number: nat)

  datatype Phase = Parsing | Selected | Querying | SetInitial | Set | Invalid

  /** What the client's callbacks are told. */
  datatype Note =
    | SetSelection(mask: set<Target>, text: seq<byte>, initial: bool, isFinal: bool)
    | QuerySelection(mask: set<Target>)

  /** The bytes the client has been given, over all its callbacks. */
  function Delivered(notes: seq<Note>): seq<byte> {
    if notes == [] then []
    else
      var last := notes[|notes| - 1];
      Delivered(notes[..|notes| - 1]) + if last.SetSelection? then last.text else []
  }

  lemma DeliveredSnoc(notes: seq<Note>, note: Note)
    ensures Delivered(notes + [note]) == Delivered(notes) + if note.SetSelection? then note.text else []
  {
    assert (notes + [note])[..|notes|] == notes;
  }

  function Named(c: byte): set<Target> {
    if c == 0x63 then {Clip}
    else if c == 0x70 then {Primary}
    else if c == 0x71 then {Secondary}
    else if c == 0x73 then {Select}
    else if 0x30 <= c <= 0x37 then {Cut(c - 0x30)}
    else {}
  }

  function OrDefault(mask: set<Target>): set<Target> {
    if mask == {} then {Select, Cut(0)} else mask
  }

  predicate Ends(note: Note) {
    note.SetSelection? && note.isFinal
  }

  lemma EndsIs(note: Note)
    ensures note.SetSelection? ==> (Ends(note) <==> note.isFinal)
  {
  }

  /** What the text of one OSC 52 means so far, however it was cut into fragments. */
  datatype Status =
    | Naming(mask: set<Target>)
    | Chosen(mask: set<Target>)
    | Asked(mask: set<Target>)
    | Reads(mask: set<Target>, reading: Reading)
    | Rejected(mask: set<Target>)

  function Receive(mask: set<Target>, r: Reading): Status {
    if r.bad then Rejected(mask) else Reads(mask, r)
  }

  /** One more character; `before` is what had been delivered when the string began. */
  function Next(before: seq<byte>, s: Status, c: byte): Status {
    match s
    case Naming(mask) => if c == SEMICOLON then Chosen(OrDefault(mask)) else Naming(mask + Named(c))
    case Chosen(mask) =>
      if c == QUERY then Asked(mask) else Receive(mask, Take(FRESH.(out := before), c))
    case Reads(mask, r) => Receive(mask, Take(r, c))
    case _ => s
  }

  function Trace(before: seq<byte>, s: Status, text: seq<byte>): Status {
    if text == [] then s else Next(before, Trace(before, s, text[..|text| - 1]), text[|text| - 1])
  }

  lemma {:induction false} TraceConcat(before: seq<byte>, s: Status, a: seq<byte>, b: seq<byte>)
    ensures Trace(before, s, a + b) == Trace(before, Trace(before, s, a), b)
  {
    hide Next;
    if b == [] {
      assert a + b == a;
    } else {
      TraceConcat(before, s, a, b[..|b| - 1]);
      assert (a + b)[..|a + b| - 1] == a + b[..|b| - 1];
    }
  }

  /** Which letters name which selections, and what is meant when none is named. */
  lemma SelectionNames(before: seq<byte>, mask: set<Target>, c: byte)
    ensures Next(before, Naming(mask), 'c' as int) == Naming(mask + {Clip}) && Next(before, Naming(mask), 'p' as int) == Naming(mask + {Primary})
    ensures Next(before, Naming(mask), 'q' as int) == Naming(mask + {Secondary}) && Next(before, Naming(mask), 's' as int) == Naming(mask + {Select})
    ensures '0' as int <= c <= '7' as int ==> Next(before, Naming(mask), c) == Naming(mask + {Cut(c - '0' as int)})
    ensures c != 'c' as int && c != 'p' as int && c != 'q' as int && c != 's' as int && c != ';' as int && !('0' as int <= c <= '7' as int) ==>
              Next(before, Naming(mask), c) == Naming(mask)
    ensures Next(before, Naming({}), ';' as int) == Chosen({Select, Cut(0)}) && (mask != {} ==> Next(before, Naming(mask), ';' as int) == Chosen(mask))
    ensures Next(before, Chosen(mask), '?' as int) == Asked(mask)
  {
    assert mask + {} == mask;
  }

  /** A pad ends the text: no letter comes after it. */
  ghost predicate Regular(before: seq<byte>, s: Status, text: seq<byte>) {
    forall i :: 0 <= i < |text| ==> !Resumes(Trace(before, s, text[..i]), text[i])
  }

  predicate Resumes(s: Status, c: byte) {
    s.Reads? && LetterAfterPad(s.reading, c)
  }

  lemma RegularConcat(before: seq<byte>, s: Status, a: seq<byte>, b: seq<byte>)
    requires Regular(before, s, a + b)
    ensures Regular(before, s, a)
    ensures Regular(before, Trace(before, s, a), b)
  {
    hide Next, Resumes;
    forall i | 0 <= i < |a| ensures !Resumes(Trace(before, s, a[..i]), a[i]) {
      assert (a + b)[..i] == a[..i] && (a + b)[i] == a[i];
    }
    forall i | 0 <= i < |b| ensures !Resumes(Trace(before, Trace(before, s, a), b[..i]), b[i]) {
      assert (a + b)[..|a| + i] == a + b[..i] && (a + b)[|a| + i] == b[i];
      TraceConcat(before, s, a, b[..i]);
    }
  }

  /** The callbacks one fragment of readable text causes, up to where the text stands. */
  ghost predicate Deliveries(was: seq<Note>, now: seq<Note>, mask: set<Target>, limit: nat, opening: bool) {
    && |was| <= |now| && now[..|was|] == was
    && forall i :: |was| <= i < |now| ==>
         && now[i].SetSelection? && now[i].mask == mask && 0 < |now[i].text| <= limit
         && (now[i].initial <==> opening && i == |was|)
         && (i < |now| - 1 ==> !now[i].isFinal)
  }

  ghost predicate NoneFinal(was: seq<Note>, now: seq<Note>) {
    forall i :: |was| <= i < |now| ==> now[i].SetSelection? && !now[i].isFinal
  }

  /** The word a partial group is kept in: the count above 24 bits of value. */
  function Pack(n: nat, x: nat): nat {
    if n == 0 then 0 else n * COUNT_UNIT + x
  }

  /** The loop's view of a reading: after a pad its value is whatever was left over. */
  ghost predicate Tracks(r: Reading, n: nat, x: nat) {
    Sound(r) && !r.bad && r.n == n && (!r.padded ==> r.x == x)
  }

  lemma PadRun(r: Reading, pads: seq<byte>)
    requires pads != [] && !r.bad && forall i :: 0 <= i < |pads| ==> pads[i] == PAD
    ensures TakeAll(r, pads) == Take(r, PAD)
  {
    if |pads| == 1 {
      assert pads[..0] == [];
    } else {
      PadRun(r, pads[..|pads| - 1]);
    }
  }

  /** Where the last turn of the decoding loop begins: a run of pads is taken in one turn. */
  function LastTurn(text: seq<byte>): (k: nat)
    requires text != []
    ensures k < |text|
  {
    var n := |text|;
    if n > 1 && text[n - 1] == PAD && text[n - 2] == PAD then LastTurn(text[..n - 1]) else n - 1
  }

  lemma LastTurnOfRun(text: seq<byte>, k: nat)
    requires k < |text| && (k > 0 ==> text[k - 1] != PAD)
    requires forall i :: k <= i < |text| ==> text[i] == PAD
    ensures LastTurn(text) == k
  {
    if k < |text| - 1 {
      LastTurnOfRun(text[..|text| - 1], k);
    }
  }

  /** What the decoding loop has done: `given` handed out, `held` in the buffer, and a partial group. */
  ghost predicate Decoded(r: Reading, text: seq<byte>, i: nat, n: nat, x: nat, given: seq<byte>, held: seq<byte>)
    requires i <= |text|
  {
    && Tracks(TakeAll(r, text[..i]), n, x)
    && TakeAll(r, text[..i]).out == given + held
  }

  predicate LetterAfterPad(r: Reading, c: byte) {
    !r.bad && r.padded && Sextet(c) != BAD
  }

  /** No letter is read after a pad. */
  ghost predicate Proper(r: Reading, text: seq<byte>) {
    forall i :: 0 <= i < |text| ==> !LetterAfterPad(TakeAll(r, text[..i]), text[i])
  }

  lemma DecodedPads(r: Reading, text: seq<byte>, i: nat, i': nat, n: nat, x: nat, given: seq<byte>, held: seq<byte>)
    requires i < i' <= |text| && Decoded(r, text, i, n, x, given, held)
    requires forall k :: i <= k < i' ==> text[k] == PAD
    ensures Decoded(r, text, i', 0, x, given, held + Released(n, x))
  {
    var s := TakeAll(r, text[..i]);
    assert text[..i'] == text[..i] + text[i..i'];
    TakeAllConcat(r, text[..i], text[i..i']);
    PadRun(s, text[i..i']);
    assert Released(s.n, s.x) == Released(n, x);
    assert given + (held + Released(n, x)) == given + held + Released(n, x);
  }

  lemma DecodedLetter(r: Reading, text: seq<byte>, i: nat, n: nat, x: nat, given: seq<byte>, held: seq<byte>)
    requires i < |text| && Decoded(r, text, i, n, x, given, held) && Proper(r, text)
    requires text[i] != PAD && Sextet(text[i]) != BAD
    ensures x * 0x40 + Sextet(text[i]) < 0x100_0000
    ensures n == 3 ==> Decoded(r, text, i + 1, 0, 0, given, held + Triple(x * 0x40 + Sextet(text[i])))
    ensures n < 3 ==> Decoded(r, text, i + 1, n + 1, x * 0x40 + Sextet(text[i]), given, held)
  {
    hide Triple;
    var s := TakeAll(r, text[..i]);
    TakeSnoc(r, text, i);
    LettersRoundTrip(0, text[i]);
    TakeKeeps(s, text[i]);
    assert n == 3 ==> given + (held + Triple(x * 0x40 + Sextet(text[i]))) == given + held + Triple(x * 0x40 + Sextet(text[i]));
  }

  lemma DecodedHanded(r: Reading, text: seq<byte>, i: nat, n: nat, x: nat, given: seq<byte>, held: seq<byte>)
    requires i <= |text| && Decoded(r, text, i, n, x, given, held)
    ensures Decoded(r, text, i, n, x, given + held, [])
  {
    assert given + held + [] == given + held;
  }

  lemma SameOutput(r: Reading, text: seq<byte>, i: nat, j: nat, given: seq<byte>)
    requires i <= |text| && j <= |text|
    requires exists n, x :: Decoded(r, text, i, n, x, given, [])
    requires exists n, x :: Decoded(r, text, j, n, x, given, [])
    ensures TakeAll(r, text[..i]).out == TakeAll(r, text[..j]).out
  {
  }

  lemma Unpacked(n: nat, x: nat)
    requires x < 0x4_0000 && (n == 0 ==> x == 0)
    ensures Pack(n, x) / COUNT_UNIT == n && Pack(n, x) % 0x4_0000 == x
  {
    assert Pack(n, x) % 0x4_0000 == (n * 64 * 0x4_0000 + x) % 0x4_0000 == x;
  }

  lemma DecodedFirst(r: Reading, text: seq<byte>, n: nat, x: nat, packed: nat)
    requires Sound(r) && !r.bad && packed == Pack(r.n, r.x) && n == packed / COUNT_UNIT && x == packed % 0x4_0000
    ensures n < 4 && Decoded(r, text, 0, n, x, r.out, [])
  {
    Unpacked(r.n, r.x);
    assert text[..0] == [];
  }

  lemma DecodedLast(r: Reading, text: seq<byte>, n: nat, x: nat, given: seq<byte>)
    requires Decoded(r, text, |text|, n, x, given, [])
    ensures var r' := TakeAll(r, text); Tracks(r', n, x) && r'.out == given
    ensures var r' := TakeAll(r, text); Pack(n, x) == Pack(r'.n, r'.x) && Pack(n, x) / COUNT_UNIT == r'.n && Pack(n, x) % 0x4_0000 == r'.x
  {
    assert text[..|text|] == text;
    var r' := TakeAll(r, text);
    Unpacked(r'.n, r'.x);
  }

  lemma DecodedBad(r: Reading, text: seq<byte>, i: nat, n: nat, x: nat, given: seq<byte>, held: seq<byte>)
    requires i < |text| && Decoded(r, text, i, n, x, given, held)
    requires text[i] != PAD && Sextet(text[i]) == BAD
    ensures TakeAll(r, text).bad && Extends(TakeAll(r, text).out, given)
  {
    TakeSnoc(r, text, i);
    BadStays(TakeAll(r, text[..i + 1]), text[i + 1..]);
    TakeAllConcat(r, text[..i + 1], text[i + 1..]);
    assert text[..i + 1] + text[i + 1..] == text;
  }

  lemma {:induction false} DeliveriesGrow(was: seq<Note>, now: seq<Note>, mask: set<Target>, limit: nat, opening: bool)
    requires Deliveries(was, now, mask, limit, opening)
    ensures |Delivered(now)| >= |Delivered(was)| + (|now| - |was|) && (now == was || |now| > |was|)
  {
    if |now| > |was| {
      DeliveriesGrow(was, now[..|now| - 1], mask, limit, opening);
    } else {
      assert now == was;
    }
  }

  lemma NoDeliveries(was: seq<Note>, mask: set<Target>, limit: nat, opening: bool)
    ensures Deliveries(was, was, mask, limit, opening) && NoneFinal(was, was)
  {
  }

  lemma DeliveriesSnoc(was: seq<Note>, now: seq<Note>, mask: set<Target>, limit: nat, opening: bool, note: Note)
    requires Deliveries(was, now, mask, limit, opening) && NoneFinal(was, now)
    requires note.SetSelection? && note.mask == mask && 0 < |note.text| <= limit
    requires note.initial <==> opening && now == was
    ensures Deliveries(was, now + [note], mask, limit, opening)
    ensures !note.isFinal ==> NoneFinal(was, now + [note])
  {
    if |now| == |was| {
      assert now == was;
    }
  }

  /** Text that turned out not to be Base64: the client is told to clear the selection. */
  ghost predicate Rejection(was: seq<Note>, now: seq<Note>, mask: set<Target>, limit: nat, opening: bool) {
    && |was| < |now| && now[|now| - 1] == SetSelection(mask, [], true, true)
    && Deliveries(was, now[..|now| - 1], mask, limit, opening) && NoneFinal(was, now[..|now| - 1])
  }

  /** The part of a fragment after the selection letters and their ';'. */
  function Payload(naming: bool, text: seq<byte>): seq<byte> {
    if !naming then text
    else if text == [] then []
    else if text[0] == SEMICOLON then text[1..]
    else Payload(true, text[1..])
  }

  function ReadingOf(before: seq<byte>, s: Status): Reading {
    if s.Reads? then s.reading else FRESH.(out := before)
  }

  /** The client has been given a part of this string. */
  predicate Given(before: seq<byte>, s: Status) {
    s.Reads? && |s.reading.out| > |before|
  }

  /** What the client is told about one fragment that leads from `began` to `s`. */
  ghost predicate Answered(before: seq<byte>, began: Status, s: Status, text: seq<byte>, isFinal: bool, was: seq<Note>, now: seq<Note>, limit: nat) {
    var opening := !Given(before, began);
    if text == [] then
      && (s == began || ((began.Naming? || began.Chosen?) && (s.Naming? || s.Chosen?)))
      && now == was + if isFinal then [SetSelection(s.mask, [], !Given(before, s), true)] else []
    else if s.Asked? then
      now == was + [QuerySelection(s.mask)]
    else if s.Reads? then
      var r := ReadingOf(before, began);
      && Deliveries(was, now, s.mask, limit, opening)
      && (!isFinal ==> NoneFinal(was, now))
      && (TakeAll(r, text[..LastTurn(text)]).out != TakeAll(r, text).out ==>
            |was| < |now| && (Ends(now[|now| - 1]) <==> isFinal))
    else
      s.Rejected? && if began.Rejected? then now == was else Rejection(was, now, s.mask, limit, opening)
  }

  /** The same for text that starts right after the ';'. */
  lemma ProperChosen(before: seq<byte>, mask: set<Target>, text: seq<byte>)
    requires text != [] && text[0] != QUERY && Regular(before, Chosen(mask), text)
    ensures Proper(FRESH.(out := before), text)
  {
    hide Take;
    var r := FRESH.(out := before);
    forall i | 0 <= i < |text| ensures !LetterAfterPad(TakeAll(r, text[..i]), text[i]) {
      if i > 0 {
        TraceChosen(before, mask, text[..i]);
      }
    }
  }

  /** What the client has been told of a string that goes on. */
  ghost predicate Running(before: seq<byte>, s: Status, was: seq<Note>, now: seq<Note>, limit: nat) {
    match s
    case Naming(_) => now == was
    case Chosen(_) => now == was
    case Asked(mask) => Asks(was, now, mask)
    case Reads(mask, r) =>
      && r.out == Delivered(now)
      && Deliveries(was, now, mask, limit, true) && NoneFinal(was, now)
      && (now == was <==> !Given(before, s))
    case Rejected(_) => true
  }

  ghost predicate Asks(was: seq<Note>, now: seq<Note>, mask: set<Target>) {
    && |was| < |now| && now[..|was|] == was
    && forall i :: |was| <= i < |now| ==> now[i] == QuerySelection(mask)
  }

  /** The fragments that are not empty and leave the string asking. */
  ghost function Turns(before: seq<byte>, frags: seq<seq<byte>>): nat {
    if frags == [] then 0
    else
      Turns(before, frags[..|frags| - 1]) +
      if frags[|frags| - 1] != [] && Trace(before, Naming({}), Flatten(frags)).Asked? then 1 else 0
  }

  /** One query for each of them so far. */
  ghost predicate Counted(before: seq<byte>, s: Status, frags: seq<seq<byte>>, was: seq<Note>, now: seq<Note>) {
    if s.Asked? then |now| == |was| + Turns(before, frags) else Turns(before, frags) == 0
  }

  lemma TurnsSnoc(before: seq<byte>, frags: seq<seq<byte>>, i: nat)
    requires i < |frags|
    ensures Turns(before, frags[..i + 1]) ==
            Turns(before, frags[..i]) + if frags[i] != [] && Trace(before, Naming({}), Flatten(frags[..i + 1])).Asked? then 1 else 0
  {
    assert frags[..i + 1][..i] == frags[..i];
  }

  lemma CountsOn(before: seq<byte>, began: Status, s: Status, frags: seq<seq<byte>>, i: nat, isFinal: bool, was: seq<Note>, mid: seq<Note>, now: seq<Note>, limit: nat)
    requires i < |frags| && s == Trace(before, Naming({}), Flatten(frags[..i + 1])) && Onward(began, s)
    requires Running(before, began, was, mid, limit) && Counted(before, began, frags[..i], was, mid)
    requires Answered(before, began, s, Payload(began.Naming?, frags[i]), isFinal, mid, now, limit)
    ensures frags[i] == [] && s.Asked? ==> |now| == |was| + Turns(before, frags[..i + 1]) + if isFinal then 1 else 0
    ensures !(frags[i] == [] && isFinal) ==> Counted(before, s, frags[..i + 1], was, now)
  {
    hide Deliveries, NoneFinal, TakeAll, LastTurn, Rejection, Trace, Turns, Ends, Given;
    TurnsSnoc(before, frags, i);
    TraceNone(before, began, frags[i]);
    PayloadOfNothing(began.Naming?);
  }

  lemma PayloadOfNothing(naming: bool)
    ensures Payload(naming, []) == []
  {
  }

  /** In a query those are the fragments that end past the ';'. */
  function EndPast(frags: seq<seq<byte>>, from: nat): nat {
    if frags == [] then 0
    else EndPast(frags[..|frags| - 1], from) + if frags[|frags| - 1] != [] && |Flatten(frags)| > from then 1 else 0
  }

  predicate EndsPast(frags: seq<seq<byte>>, k: nat, from: nat)
    requires k < |frags|
  {
    frags[k] != [] && |Flatten(frags[..k + 1])| > from
  }

  /** It is how many there are. */
  lemma {:induction false} EndPastIs(frags: seq<seq<byte>>, from: nat)
    ensures EndPast(frags, from) == |set k: nat | k < |frags| && EndsPast(frags, k, from)|
  {
    var all := set k: nat | k < |frags| && EndsPast(frags, k, from);
    if frags == [] {
      assert all == {};
    } else {
      var n := |frags| - 1;
      var less := frags[..n];
      EndPastIs(less, from);
      assert frags[..n + 1] == frags;
      forall k: nat | k < n ensures EndsPast(less, k, from) == EndsPast(frags, k, from) {
        assert less[..k + 1] == frags[..k + 1];
      }
      assert EndPast(frags, from) == EndPast(less, from) + if EndsPast(frags, n, from) then 1 else 0;
      hide EndsPast, EndPast, Flatten;
      var fewer := set k: nat | k < |less| && EndsPast(less, k, from);
      assert all == if EndsPast(frags, n, from) then fewer + {n} else fewer;
    }
  }

  lemma {:induction false} TurnsOfQuery(before: seq<byte>, letters: seq<byte>, rest: seq<byte>, frags: seq<seq<byte>>)
    requires SEMICOLON !in letters && Flatten(frags) <= QueryText(letters, rest)
    ensures Turns(before, frags) == EndPast(frags, |letters| + 1)
  {
    hide Trace, QueryText;
    if frags != [] {
      var text := QueryText(letters, rest);
      FlattenPrefix(frags, |frags| - 1);
      assert frags[..|frags|] == frags;
      assert Flatten(frags) == text[..|Flatten(frags)|];
      TurnsOfQuery(before, letters, rest, frags[..|frags| - 1]);
      TraceAsking(before, letters, rest, |Flatten(frags)|);
    }
  }

  lemma NothingYet(before: seq<byte>, was: seq<Note>, limit: nat)
    ensures Trace(before, Naming({}), Flatten([])) == Naming({})
    ensures Running(before, Naming({}), was, was, limit) && Counted(before, Naming({}), [], was, was)
    ensures forall frags: seq<seq<byte>> :: frags[..0] == []
  {
  }

  lemma DeliveriesChain(was: seq<Note>, mid: seq<Note>, now: seq<Note>, mask: set<Target>, limit: nat)
    requires Deliveries(was, mid, mask, limit, true) && NoneFinal(was, mid)
    requires Deliveries(mid, now, mask, limit, mid == was)
    ensures Deliveries(was, now, mask, limit, true)
    ensures NoneFinal(mid, now) ==> NoneFinal(was, now)
  {
    forall i | |was| <= i < |mid| ensures now[i] == mid[i] {
      assert now[..|mid|][i] == mid[i];
    }
    assert now[..|was|] == now[..|mid|][..|was|];
    if |mid| == |was| {
      assert mid == was;
    }
  }

  /** A string that has begun to be read, or has asked, does not change its mind. */
  predicate Onward(began: Status, s: Status) {
    && (began.Asked? ==> s == began)
    && (began.Reads? ==> s.mask == began.mask && (s.Reads? || s.Rejected?))
    && (began.Rejected? ==> s == began)
  }

  lemma {:induction false} TraceOnward(before: seq<byte>, s: Status, text: seq<byte>)
    ensures Onward(s, Trace(before, s, text))
  {
    hide Take;
    if text != [] {
      TraceOnward(before, s, text[..|text| - 1]);
    }
  }

  lemma RunsOn(before: seq<byte>, began: Status, s: Status, text: seq<byte>, was: seq<Note>, mid: seq<Note>, now: seq<Note>, limit: nat)
    requires Delivered(was) == before && Onward(began, s) && (s.Reads? ==> s.reading.out == Delivered(now))
    requires Running(before, began, was, mid, limit)
    requires Answered(before, began, s, text, false, mid, now, limit)
    ensures Running(before, s, was, now, limit)
  {
    hide Delivered, Deliveries, NoneFinal, TakeAll, LastTurn;
    if s.Reads? {
      if text == [] {
        assert now == mid;
      } else {
        if began.Reads? {
          DeliveriesChain(was, mid, now, s.mask, limit);
        }
        DeliveriesGrow(was, now, s.mask, limit, true);
      }
    }
  }

  lemma AnsweredAfterLetters(before: seq<byte>, began: Status, mid: Status, s: Status, text: seq<byte>, isFinal: bool, was: seq<Note>, now: seq<Note>, limit: nat)
    requires began.Naming? && (mid.Naming? || mid.Chosen?)
    requires Answered(before, mid, s, text, isFinal, was, now, limit)
    ensures Answered(before, began, s, text, isFinal, was, now, limit)
  {
    hide Deliveries, NoneFinal, TakeAll, LastTurn, Ends, Rejection;
  }

  lemma {:induction false} ProperReads(before: seq<byte>, mask: set<Target>, r: Reading, text: seq<byte>)
    requires !r.bad && Regular(before, Reads(mask, r), text)
    ensures Proper(r, text)
  {
    hide Take;
    forall i | 0 <= i < |text| ensures !LetterAfterPad(TakeAll(r, text[..i]), text[i]) {
      TraceReads(before, mask, r, text[..i]);
    }
  }

  lemma {:induction false} TraceReads(before: seq<byte>, mask: set<Target>, r: Reading, text: seq<byte>)
    requires !r.bad
    ensures Trace(before, Reads(mask, r), text) == Receive(mask, TakeAll(r, text))
  {
    hide Released, Extend, Sextet;
    if text != [] {
      TraceReads(before, mask, r, text[..|text| - 1]);
    }
  }

  lemma TraceChosen(before: seq<byte>, mask: set<Target>, text: seq<byte>)
    requires text != [] && text[0] != QUERY
    ensures Trace(before, Chosen(mask), text) == Receive(mask, TakeAll(FRESH.(out := before), text))
  {
    hide Take;
    var r := FRESH.(out := before);
    assert text == [text[0]] + text[1..];
    TraceConcat(before, Chosen(mask), [text[0]], text[1..]);
    TakeAllConcat(r, [text[0]], text[1..]);
    var first := Take(r, text[0]);
    if first.bad {
      TraceDone(before, Rejected(mask), text[1..]);
      BadStays(first, text[1..]);
    } else {
      TraceReads(before, mask, first, text[1..]);
    }
  }

  lemma TraceNone(before: seq<byte>, s: Status, text: seq<byte>)
    ensures Trace(before, s, text[..0]) == s && text[0..] == text
    ensures text == [] ==> Trace(before, s, text) == s
    ensures Payload(false, text) == text
  {
  }

  lemma TraceQuery(before: seq<byte>, mask: set<Target>, text: seq<byte>)
    requires text != [] && text[0] == QUERY
    ensures Trace(before, Chosen(mask), text) == Asked(mask)
  {
    assert text == [text[0]] + text[1..];
    TraceConcat(before, Chosen(mask), [text[0]], text[1..]);
    TraceDone(before, Asked(mask), text[1..]);
  }

  lemma {:induction false} TraceDone(before: seq<byte>, s: Status, text: seq<byte>)
    requires s.Asked? || s.Rejected?
    ensures Trace(before, s, text) == s
  {
    if text != [] {
      TraceDone(before, s, text[..|text| - 1]);
    }
  }

  function MaskOf(letters: seq<byte>): set<Target> {
    if letters == [] then {} else MaskOf(letters[..|letters| - 1]) + Named(letters[|letters| - 1])
  }

  /** The text of an OSC 52 that sets a selection. */
  function SelectionText(letters: seq<byte>, data: seq<byte>): seq<byte> {
    letters + ([SEMICOLON] + Encode(data))
  }

  lemma {:induction false} TraceLetters(before: seq<byte>, letters: seq<byte>)
    requires SEMICOLON !in letters
    ensures Trace(before, Naming({}), letters) == Naming(MaskOf(letters))
  {
    if letters != [] {
      TraceLetters(before, letters[..|letters| - 1]);
    }
  }

  /** Where a prefix of the text leaves the reader: at most `k` characters into the data. */
  function Within(before: seq<byte>, letters: seq<byte>, data: seq<byte>, i: nat): Status
    requires i <= |SelectionText(letters, data)|
  {
    var mask, k := OrDefault(MaskOf(letters)), i - |letters| - 1;
    if k < 0 then Naming(MaskOf(letters[..i]))
    else if k == 0 then Chosen(mask)
    else Receive(mask, TakeAll(FRESH.(out := before), Encode(data)[..k]))
  }

  lemma FirstLetter(data: seq<byte>)
    requires data != []
    ensures Encode(data) != [] && Encode(data)[0] != QUERY
  {
    hide Groups, Tail, Letter;
    EndReleases(FRESH, data);
    var a, b := data[0], if |data| > 1 then data[1] else 0;
    LettersRoundTrip(a / 4, 0);
    EncodeBegins(data);
    LetterIsNoQuery(a / 4);
  }

  lemma LetterIsNoQuery(b: nat)
    requires b < 64
    ensures Letter(b) != QUERY
  {
  }

  lemma TraceSelection(before: seq<byte>, letters: seq<byte>, data: seq<byte>, i: nat)
    requires SEMICOLON !in letters && i <= |SelectionText(letters, data)|
    ensures Trace(before, Naming({}), SelectionText(letters, data)[..i]) == Within(before, letters, data, i)
  {
    hide Encode, Take, TakeAll;
    var text, k := SelectionText(letters, data), i - |letters| - 1;
    if k < 0 {
      assert text[..i] == letters[..i];
      TraceLetters(before, letters[..i]);
    } else {
      assert text[..i] == letters + ([SEMICOLON] + Encode(data)[..k]);
      TraceConcat(before, Naming({}), letters, [SEMICOLON] + Encode(data)[..k]);
      TraceLetters(before, letters);
      TraceConcat(before, Naming(MaskOf(letters)), [SEMICOLON], Encode(data)[..k]);
      TraceSemicolon(before, MaskOf(letters));
      if k > 0 {
        NothingEncoded();
        FirstLetter(data);
        TraceChosen(before, OrDefault(MaskOf(letters)), Encode(data)[..k]);
      }
    }
  }

  lemma TraceSemicolon(before: seq<byte>, mask: set<Target>)
    ensures Trace(before, Naming(mask), [SEMICOLON]) == Chosen(OrDefault(mask))
  {
    assert [SEMICOLON][..0] == [];
  }

  lemma NothingEncoded()
    ensures Encode([]) == []
  {
    NoTail();
  }

  lemma RegularSelection(before: seq<byte>, letters: seq<byte>, data: seq<byte>)
    requires SEMICOLON !in letters
    ensures Regular(before, Naming({}), SelectionText(letters, data))
  {
    hide Encode, Take, TakeAll;
    var text := SelectionText(letters, data);
    forall i | 0 <= i < |text| ensures !Resumes(Trace(before, Naming({}), text[..i]), text[i]) {
      TraceSelection(before, letters, data, i);
      var k := i - |letters| - 1;
      var r := FRESH.(out := before);
      if k > 0 && TakeAll(r, Encode(data)[..k]).padded {
        PaddedByPad(r, Encode(data)[..k]);
        var j :| 0 <= j < k && Encode(data)[..k][j] == PAD;
        PadsLast(data, j);
        PadsLast(data, k);
        assert text[i] == Encode(data)[k] == PAD;
      }
    }
  }

  lemma {:induction false} PayloadSkips(letters: seq<byte>, rest: seq<byte>)
    requires SEMICOLON !in letters
    ensures Payload(true, letters + ([SEMICOLON] + rest)) == rest
  {
    var text := letters + ([SEMICOLON] + rest);
    if letters == [] {
      assert text[1..] == rest;
    } else {
      assert text[1..] == letters[1..] + ([SEMICOLON] + rest);
      PayloadSkips(letters[1..], rest);
    }
  }

  /** The last fragment, in the decoder's terms: its data, and how far the reading had come before it. */
  lemma LastPayload(before: seq<byte>, letters: seq<byte>, data: seq<byte>, i: nat)
    requires SEMICOLON !in letters && data != [] && i <= |SelectionText(letters, data)|
    ensures var mid := Within(before, letters, data, i);
            var k := if i <= |letters| then 0 else i - |letters| - 1;
            && Payload(mid.Naming?, SelectionText(letters, data)[i..]) == Encode(data)[k..]
            && ReadingOf(before, mid) == TakeAll(FRESH.(out := before), Encode(data)[..k])
  {
    hide Encode, Take, TakeAll;
    var text, r := SelectionText(letters, data), FRESH.(out := before);
    if i <= |letters| {
      assert text[i..] == letters[i..] + ([SEMICOLON] + Encode(data));
      PayloadSkips(letters[i..], Encode(data));
      TakeNone(r, Encode(data));
    } else {
      var k := i - |letters| - 1;
      assert text[i..] == Encode(data)[k..];
      TraceNone(before, Naming({}), text[i..]);
      ReadEncoded(r, data);
      PrefixIsGood(r, Encode(data), k);
      TakeNone(r, Encode(data));
    }
  }

  lemma TakeNone(r: Reading, text: seq<byte>)
    ensures TakeAll(r, text[..0]) == r && text[0..] == text
  {
  }

  /** The last fragment's last turn gives the client something, unless all it has is a second pad. */
  lemma LastFragmentTells(r: Reading, data: seq<byte>, k: nat)
    requires r.n == 0 && r.x == 0 && !r.bad && !r.padded && data != [] && k < |Encode(data)|
    ensures var text := Encode(data); var soFar := TakeAll(r, text[..k]);
            if |data| % 3 == 1 && k == |text| - 1
            then TakeAll(soFar, text[k..]).out == soFar.out
            else TakeAll(soFar, text[k..][..LastTurn(text[k..])]).out != TakeAll(soFar, text[k..]).out
  {
    hide Encode, Take, TakeAll;
    var text, p := Encode(data), Pads(|data|);
    var soFar, rest := TakeAll(r, text[..k]), text[k..];
    var j := |text| - if p == 0 then 1 else p;
    ReadEncoded(r, data);
    EndReleases(r, data);
    forall i | 0 <= i < |rest| ensures rest[i] == PAD <==> k + i >= |text| - p {
      PadsLast(data, k + i);
    }
    assert text[..k] + rest == text;
    TakeAllConcat(r, text[..k], rest);
    if k <= j {
      if p > 0 {
        LastTurnOfRun(rest, j - k);
      }
      assert text[..j] == text[..k] + rest[..j - k];
      TakeAllConcat(r, text[..k], rest[..j - k]);
    } else {
      assert text[..j] + text[j..k] == text[..k];
      TakeAllConcat(r, text[..j], text[j..k]);
      assert text[j] == PAD by { PadsLast(data, j); }
      assert text[j..k] == [PAD] && rest == [PAD];
      var first := TakeAll(r, text[..j]);
      PrefixIsGood(r, text, j);
      PadRun(first, [PAD]);
      PadRun(first, [PAD] + [PAD]);
      TakeAllConcat(first, [PAD], [PAD]);
    }
  }

  /** The callbacks of one whole selection. */
  ghost predicate SetCalls(was: seq<Note>, now: seq<Note>, mask: set<Target>, limit: nat) {
    && |was| < |now| && now[..|was|] == was
    && forall i :: |was| <= i < |now| ==>
         && now[i].SetSelection? && now[i].mask == mask && |now[i].text| <= limit
         && (now[i].initial <==> i == |was|)
         && (now[i].isFinal ==> i == |now| - 1)
         && (now[i].text == [] ==> now[i].isFinal)
  }

  lemma SetCallsAre(was: seq<Note>, now: seq<Note>, mask: set<Target>, limit: nat)
    requires SetCalls(was, now, mask, limit)
    ensures |now| > |was| && now[..|was|] == was
    ensures forall i :: |was| <= i < |now| ==>
              && now[i].SetSelection? && now[i].mask == mask && |now[i].text| <= limit
              && (now[i].initial <==> i == |was|) && (now[i].isFinal ==> i == |now| - 1)
  {
  }

  lemma SetCallsClosed(was: seq<Note>, held: seq<Note>, mask: set<Target>, limit: nat)
    requires Deliveries(was, held, mask, limit, true) && NoneFinal(was, held)
    ensures var now := held + [SetSelection(mask, [], held == was, true)];
            SetCalls(was, now, mask, limit) && Ends(now[|now| - 1])
  {
    if |held| == |was| {
      assert held == was;
    }
  }

  lemma SetCallsDelivered(was: seq<Note>, now: seq<Note>, mask: set<Target>, limit: nat)
    requires Deliveries(was, now, mask, limit, true) && |now| > |was|
    ensures SetCalls(was, now, mask, limit)
    ensures NoneFinal(was, now) ==> !Ends(now[|now| - 1])
  {
  }

  lemma ReadNothing(before: seq<byte>, mid: Status, s: Status, payload: seq<byte>, was: seq<Note>, held: seq<Note>, now: seq<Note>, limit: nat)
    requires (mid.Naming? || mid.Chosen?) && s.Chosen?
    requires Running(before, mid, was, held, limit) && Answered(before, mid, s, payload, true, held, now, limit)
    ensures SetCalls(was, now, s.mask, limit) && Ends(now[|now| - 1])
  {
    hide Deliveries;
    NoDeliveries(was, s.mask, limit, true);
    SetCallsClosed(was, was, s.mask, limit);
  }

  lemma ReadClosed(before: seq<byte>, s: Status, was: seq<Note>, held: seq<Note>, now: seq<Note>, limit: nat)
    requires s.Reads? && Given(before, s)
    requires Running(before, s, was, held, limit) && Answered(before, s, s, [], true, held, now, limit)
    ensures SetCalls(was, now, s.mask, limit) && Ends(now[|now| - 1])
  {
    hide Deliveries, NoneFinal;
    SetCallsClosed(was, held, s.mask, limit);
  }

  lemma ReadTold(before: seq<byte>, mid: Status, s: Status, p: seq<byte>, was: seq<Note>, held: seq<Note>, now: seq<Note>, limit: nat)
    requires (mid.Naming? || mid.Chosen? || (mid.Reads? && mid.mask == s.mask)) && s.Reads? && Given(before, s) && p != []
    requires Delivered(was) == before && Delivered(now) == s.reading.out
    requires Running(before, mid, was, held, limit) && Answered(before, mid, s, p, true, held, now, limit)
    ensures SetCalls(was, now, s.mask, limit)
    ensures var r := ReadingOf(before, mid);
            && (TakeAll(r, p[..LastTurn(p)]).out != TakeAll(r, p).out ==> Ends(now[|now| - 1]))
            && (mid.Reads? && s.reading.out == r.out ==> !Ends(now[|now| - 1]))
  {
    hide Deliveries, NoneFinal, TakeAll, LastTurn, Ends, SetCalls, Delivered;
    if mid.Reads? {
      DeliveriesChain(was, held, now, s.mask, limit);
      DeliveriesGrow(held, now, s.mask, limit, held == was);
    }
    DeliveriesGrow(was, now, s.mask, limit, true);
    SetCallsDelivered(was, now, s.mask, limit);
  }

  /** The whole text leaves the reader with the whole data. */
  lemma WithinAll(before: seq<byte>, letters: seq<byte>, data: seq<byte>)
    ensures var mask := OrDefault(MaskOf(letters));
            Within(before, letters, data, |SelectionText(letters, data)|) ==
            if data == [] then Chosen(mask) else Reads(mask, FRESH.(out := before + data, padded := |data| % 3 != 0))
  {
    hide Encode, TakeAll;
    NothingEncoded();
    ReadEncoded(FRESH.(out := before), data);
    assert Encode(data)[..|Encode(data)|] == Encode(data);
    if data != [] {
      FirstLetter(data);
    }
  }

  /** Short of the whole text the reader has not been put off. */
  lemma WithinGood(before: seq<byte>, letters: seq<byte>, data: seq<byte>, i: nat)
    requires data != [] && i <= |SelectionText(letters, data)|
    ensures var mid := Within(before, letters, data, i);
            mid.Naming? || mid.Chosen? || (mid.Reads? && mid.mask == OrDefault(MaskOf(letters)))
    ensures i > |letters| + 1 ==> Within(before, letters, data, i).Reads?
    ensures i == |letters| ==> Within(before, letters, data, i).Naming?
  {
    hide Encode, TakeAll;
    var k := i - |letters| - 1;
    if k > 0 {
      ReadEncoded(FRESH.(out := before), data);
      PrefixIsGood(FRESH.(out := before), Encode(data), k);
    }
  }

  /** The last fragment of nonempty data, when it has characters of the data in it. */
  lemma LastTold(before: seq<byte>, letters: seq<byte>, data: seq<byte>, i: nat,
                 was: seq<Note>, held: seq<Note>, now: seq<Note>, limit: nat)
    requires SEMICOLON !in letters && before == Delivered(was) && data != [] && i < |SelectionText(letters, data)|
    requires Delivered(now) == before + data
    requires var mid, s := Within(before, letters, data, i), Within(before, letters, data, |SelectionText(letters, data)|);
             && Running(before, mid, was, held, limit)
             && Answered(before, mid, s, Payload(mid.Naming?, SelectionText(letters, data)[i..]), true, held, now, limit)
    ensures SetCalls(was, now, OrDefault(MaskOf(letters)), limit)
    ensures Ends(now[|now| - 1]) <==> !(|data| % 3 == 1 && SelectionText(letters, data)[i..] == [PAD])
  {
    hide Running, Payload, Delivered, SetCalls, Encode, TakeAll, Ends, Answered, LastTurn, Within, ReadingOf;
    var text, r := SelectionText(letters, data), FRESH.(out := before);
    var mid, s := Within(before, letters, data, i), Within(before, letters, data, |text|);
    var k := if i <= |letters| then 0 else i - |letters| - 1;
    var p := Encode(data)[k..];
    WithinAll(before, letters, data);
    WithinGood(before, letters, data, i);
    LastPayload(before, letters, data, i);
    LongEnough(data);
    ReadTold(before, mid, s, p, was, held, now, limit);
    LastFragmentTells(r, data, k);
    SplitReading(r, data, k);
    if |data| % 3 == 1 {
      LastIsPad(letters, data, i);
    }
  }

  lemma LongEnough(data: seq<byte>)
    requires data != []
    ensures |Encode(data)| >= 4
  {
    EndReleases(FRESH, data);
  }

  lemma SplitReading(r: Reading, data: seq<byte>, k: nat)
    requires r.n == 0 && r.x == 0 && !r.bad && !r.padded && k <= |Encode(data)|
    ensures TakeAll(TakeAll(r, Encode(data)[..k]), Encode(data)[k..]).out == r.out + data
  {
    ReadEncoded(r, data);
    assert Encode(data)[..k] + Encode(data)[k..] == Encode(data);
    TakeAllConcat(r, Encode(data)[..k], Encode(data)[k..]);
  }

  /** The last fragment is one pad exactly when it is the last character of padded text. */
  lemma LastIsPad(letters: seq<byte>, data: seq<byte>, i: nat)
    requires |data| % 3 == 1 && |Encode(data)| >= 4 && i < |SelectionText(letters, data)|
    ensures SelectionText(letters, data)[i..] == [PAD] <==> i == |letters| + |Encode(data)|
  {
    hide Encode;
    PadsLast(data, |Encode(data)| - 1);
  }

  lemma ReadBackTells(before: seq<byte>, letters: seq<byte>, data: seq<byte>, i: nat,
                      was: seq<Note>, held: seq<Note>, now: seq<Note>, limit: nat)
    requires SEMICOLON !in letters && before == Delivered(was) && i <= |SelectionText(letters, data)|
    requires Delivered(now) == before + data
    requires var mid, s := Within(before, letters, data, i), Within(before, letters, data, |SelectionText(letters, data)|);
             && Running(before, mid, was, held, limit)
             && Answered(before, mid, s, Payload(mid.Naming?, SelectionText(letters, data)[i..]), true, held, now, limit)
    ensures SetCalls(was, now, OrDefault(MaskOf(letters)), limit)
    ensures Ends(now[|now| - 1]) <==> !(|data| % 3 == 1 && SelectionText(letters, data)[i..] == [PAD])
  {
    hide Running, Payload, Delivered, SetCalls, Encode, TakeAll, Ends, Answered, LastTurn;
    var text := SelectionText(letters, data);
    var mid, s := Within(before, letters, data, i), Within(before, letters, data, |text|);
    WithinAll(before, letters, data);
    if data == [] {
      NothingEncoded();
      ReadNothing(before, mid, s, Payload(mid.Naming?, text[i..]), was, held, now, limit);
      assert |data| % 3 == 0;
    } else if i == |text| {
      FirstLetter(data);
      TraceNone(before, s, text[i..]);
      ReadClosed(before, s, was, held, now, limit);
    } else {
      LastTold(before, letters, data, i, was, held, now, limit);
    }
  }

  function QueryText(letters: seq<byte>, rest: seq<byte>): seq<byte> {
    letters + ([SEMICOLON] + ([QUERY] + rest))
  }

  function Asking(letters: seq<byte>, i: nat): Status {
    var mask := OrDefault(MaskOf(letters));
    if i <= |letters| then Naming(MaskOf(letters[..i]))
    else if i == |letters| + 1 then Chosen(mask)
    else Asked(mask)
  }

  lemma QueryLonger(letters: seq<byte>, rest: seq<byte>)
    ensures |QueryText(letters, rest)| == |letters| + 2 + |rest|
  {
  }

  lemma TraceAsking(before: seq<byte>, letters: seq<byte>, rest: seq<byte>, i: nat)
    requires SEMICOLON !in letters && i <= |QueryText(letters, rest)|
    ensures Trace(before, Naming({}), QueryText(letters, rest)[..i]) == Asking(letters, i)
  {
    var text, k := QueryText(letters, rest), i - |letters| - 1;
    if k < 0 {
      assert text[..i] == letters[..i];
      TraceLetters(before, letters[..i]);
    } else {
      var tail := ([QUERY] + rest)[..k];
      assert text[..i] == letters + ([SEMICOLON] + tail);
      TraceConcat(before, Naming({}), letters, [SEMICOLON] + tail);
      TraceLetters(before, letters);
      TraceConcat(before, Naming(MaskOf(letters)), [SEMICOLON], tail);
      TraceSemicolon(before, MaskOf(letters));
      if k > 0 {
        TraceQuery(before, OrDefault(MaskOf(letters)), tail);
      }
    }
  }

  lemma RegularQuery(before: seq<byte>, letters: seq<byte>, rest: seq<byte>)
    requires SEMICOLON !in letters
    ensures Regular(before, Naming({}), QueryText(letters, rest))
  {
    hide QueryText, Trace;
    forall i | 0 <= i < |QueryText(letters, rest)|
      ensures !Resumes(Trace(before, Naming({}), QueryText(letters, rest)[..i]), QueryText(letters, rest)[i])
    {
      TraceAsking(before, letters, rest, i);
    }
  }

  lemma AskedAtEnd(before: seq<byte>, mid: Status, s: Status, last: seq<byte>, was: seq<Note>, held: seq<Note>, now: seq<Note>, limit: nat)
    requires s.Asked? && (mid.Naming? || mid.Chosen? || mid == s)
    requires last == [] ==> mid == s
    requires Running(before, mid, was, held, limit) && Answered(before, mid, s, Payload(mid.Naming?, last), true, held, now, limit)
    ensures now != []
    ensures if last == [] then Asks(was, now[..|now| - 1], s.mask) && now[|now| - 1] == SetSelection(s.mask, [], true, true)
            else Asks(was, now, s.mask)
  {
    hide Deliveries;
    TraceNone(before, s, last);
    if last == [] {
      assert now[..|now| - 1] == held;
    }
  }

  lemma AsksAre(was: seq<Note>, now: seq<Note>, mask: set<Target>, n: nat, cleared: bool)
    requires |now| == |was| + n + if cleared then 1 else 0
    requires if cleared then Asks(was, now[..|now| - 1], mask) && now[|now| - 1] == SetSelection(mask, [], true, true) else Asks(was, now, mask)
    ensures n > 0 && now == was + seq(n, _ => QuerySelection(mask)) + if cleared then [SetSelection(mask, [], true, true)] else []
  {
    var asked := if cleared then now[..|now| - 1] else now;
    assert asked == was + seq(n, _ => QuerySelection(mask)) by {
      assert asked[..|was|] == was;
    }
  }

  const ESC: byte := 0x1b

  /** OSC 52 for the first of the targets in the order the source looks, a NUL if there is none. */
  function Opening(ctrl8bit: bool, targets: set<Target>): seq<byte> {
    (if ctrl8bit then [0x9d] else [ESC, 0x5d]) + [0x35, 0x32, SEMICOLON, TargetLetter(targets), SEMICOLON]
  }

  /** ST. */
  function Terminator(ctrl8bit: bool): seq<byte> {
    if ctrl8bit then [0x9c] else [ESC, 0x5c]
  }

  lemma FeedNone(g: Group, text: seq<byte>)
    ensures FeedAll(g, text[..0]) == g
  {
  }

  lemma FeedNext(g: Group, text: seq<byte>, i: nat)
    requires i < |text|
    ensures FeedAll(g, text[..i + 1]) == Feed(FeedAll(g, text[..i]), text[i])
  {
    assert text[..i + 1][..i] == text[..i];
  }

  lemma NoWord(x: nat)
    ensures Word(0, x) == 0
  {
  }

  lemma NothingToSend(s: Sent, text: seq<byte>)
    ensures text == [] ==> SendFragment(s, text) == s
  {
  }

  class SelectionState {
    const ctrl8bit: bool
    const buffer: array<byte>

    var mask: set<Target>
    var phase: Phase
    var recvPartial: nat
    var sendPartial: nat

    var notes: seq<Note>
    var output: seq<byte>

    /** A pad has been read. */
    ghost var padded: bool

    constructor (ctrl8bit: bool, buflen: nat)
      ensures this.ctrl8bit == ctrl8bit && fresh(buffer) && buffer.Length == buflen
      ensures notes == [] && output == []
    {
      this.ctrl8bit := ctrl8bit;
      buffer := new byte[buflen];
      mask, phase := {}, Parsing;
      recvPartial, sendPartial := 0, 0;
      notes, output := [], [];
      padded := false;
    }

    ghost function Status(): Status
      reads `mask, `phase, `recvPartial, `notes, `padded
    {
      match phase
      case Parsing => Naming(mask)
      case Selected => Chosen(mask)
      case Querying => Asked(mask)
      case Invalid => Rejected(mask)
      case _ =>
        Reads(mask, Reading(recvPartial / COUNT_UNIT, recvPartial % 0x4_0000, padded, false, Delivered(notes)))
    }

    /** SELECTION_SET: the client has been given something of this string. */
    ghost predicate Valid(before: seq<byte>)
      reads `mask, `phase, `recvPartial, `notes, `padded
    {
      && (phase in {Parsing, Selected} ==> Delivered(notes) == before)
      && (phase in {SetInitial, Set} ==> |Delivered(notes)| >= |before|)
      && (phase == SetInitial <==> Status().Reads? && !Given(before, Status()))
      && (Status().Reads? ==> Sound(Status().reading) && recvPartial == Pack(Status().reading.n, Status().reading.x))
    }

    /** The selection letters before the ';'. */
    method ParseMask(text: seq<byte>) returns (i: nat)
      requires phase == Parsing
      modifies `mask, `phase
      ensures i <= |text| && phase in {Parsing, Selected}
      ensures phase == Parsing ==> i == |text|
      ensures text[i..] == Payload(true, text)
      ensures forall before :: Status() == Trace(before, old(Status()), text[..i])
    {
      i := 0;
      assert text[..0] == [] && text[0..] == text;
      while phase == Parsing && i < |text|
        invariant i <= |text| && phase in {Parsing, Selected}
        invariant Payload(phase == Parsing, text[i..]) == Payload(true, text)
        invariant forall before :: Status() == Trace(before, old(Status()), text[..i])
      {
        assert text[..i + 1][..i] == text[..i] && text[i..][1..] == text[i + 1..];
        if text[i] == SEMICOLON {
          phase := Selected;
          mask := OrDefault(mask);
        } else {
          mask := mask + Named(text[i]);
        }
        i := i + 1;
      }
    }

    /** A pad, with the pads after it, releases the bytes of the unfinished group. */
    method PadTurn(text: seq<byte>, i: nat, n: nat, x: nat, held: nat) returns (i': nat, held': nat)
      requires i < |text| && text[i] == PAD && held + 3 <= buffer.Length
      modifies buffer
      ensures held <= held' <= held + 2 && buffer[..held'] == old(buffer[..held]) + Released(n, x)
      ensures i < i' <= |text| && (i' < |text| ==> text[i'] != PAD)
      ensures forall k :: i <= k < i' ==> text[k] == PAD
    {
      held' := held;
      if n == 2 {
        buffer[held'] := x / 0x10 % 0x100;
        held' := held' + 1;
      }
      if n == 3 {
        buffer[held'] := x / 0x400 % 0x100;
        buffer[held' + 1] := x / 4 % 0x100;
        held' := held' + 2;
      }
      i' := i;
      while i' < |text| && text[i'] == PAD
        invariant i <= i' <= |text|
        invariant forall k :: i <= k < i' ==> text[k] == PAD
      {
        i' := i' + 1;
      }
    }

    /** A letter; the fourth of a group gives three bytes. */
    method LetterTurn(n: nat, x: nat, b: byte, held: nat) returns (n': nat, x': nat, held': nat)
      requires n < 4 && b < 64 && x * 0x40 + b < 0x100_0000 && held + 3 <= buffer.Length
      modifies buffer
      ensures n < 3 ==> n' == n + 1 && x' == x * 0x40 + b && held' == held
      ensures n == 3 ==> n' == 0 && x' == 0 && held' == held + 3
      ensures buffer[..held'] == old(buffer[..held]) + if n == 3 then Triple(x * 0x40 + b) else []
    {
      n', x', held' := n + 1, x * 0x40 + b, held;
      if n' == 4 {
        buffer[held] := x' / 0x1_0000 % 0x100;
        buffer[held + 1] := x' / 0x100 % 0x100;
        buffer[held + 2] := x' % 0x100;
        n', x', held' := 0, 0, held + 3;
      }
    }

    /** Hands the buffer to the client, if there is anything in it. */
    method HandOut(held: nat, isFinal: bool)
      requires phase in {SetInitial, Set} && held <= buffer.Length
      modifies `notes, `phase
      ensures held == 0 ==> notes == old(notes) && phase == old(phase)
      ensures held > 0 ==> phase == Set && notes == old(notes) + [SetSelection(mask, buffer[..held], old(phase) == SetInitial, isFinal)]
      ensures Delivered(notes) == old(Delivered(notes)) + buffer[..held]
    {
      if held > 0 {
        DeliveredSnoc(notes, SetSelection(mask, buffer[..held], phase == SetInitial, isFinal));
        notes := notes + [SetSelection(mask, buffer[..held], phase == SetInitial, isFinal)];
        phase := Set;
      }
    }

    /** One turn of the decoding loop; it fails on a byte that is neither a letter nor a pad. */
    method Turn(text: seq<byte>, i: nat, n: nat, x: nat, held: nat, ghost r: Reading, ghost given: seq<byte>)
      returns (ok: bool, i': nat, n': nat, x': nat, held': nat)
      requires i < |text| && held + 3 <= buffer.Length && n < 4 && Proper(r, text)
      requires Decoded(r, text, i, n, x, given, buffer[..held])
      requires i > 0 && text[i - 1] == PAD ==> text[i] != PAD
      modifies buffer
      ensures !ok ==> TakeAll(r, text).bad && Extends(TakeAll(r, text).out, given)
      ensures ok ==> i < i' <= |text| && n' < 4 && held <= held' <= buffer.Length
      ensures ok ==> Decoded(r, text, i', n', x', given, buffer[..held'])
      ensures ok && i' < |text| && text[i' - 1] == PAD ==> text[i'] != PAD
      ensures ok && i' == |text| ==> LastTurn(text) == i
    {
      hide Decoded, Released, Triple, Proper, TakeAll;
      ok, n', x' := true, n, x;
      if text[i] == PAD {
        i', held' := PadTurn(text, i, n, x, held);
        n' := 0;
        DecodedPads(r, text, i, i', n, x, given, old(buffer[..held]));
        if i' == |text| {
          LastTurnOfRun(text, i);
        }
      } else {
        i', held' := i, held;
        var b := Sextet(text[i]);
        if b == BAD {
          DecodedBad(r, text, i, n, x, given, buffer[..held]);
          ok := false;
        } else {
          LettersRoundTrip(0, text[i]);
          DecodedLetter(r, text, i, n, x, given, buffer[..held]);
          n', x', held' := LetterTurn(n, x, b, held);
          i' := i + 1;
          assert n != 3 ==> buffer[..held'] == old(buffer[..held]);
        }
      }
    }

    /** The decoding loop of osc_selection over one fragment. */
    method DecodeLoop(text: seq<byte>, isFinal: bool, n0: nat, x0: nat, ghost r: Reading) returns (n: nat, x: nat)
      requires phase in {SetInitial, Set} && text != [] && buffer.Length >= 3
      requires n0 < 4 && Decoded(r, text, 0, n0, x0, Delivered(notes), []) && Proper(r, text)
      modifies `notes, `phase, buffer
      ensures phase in {SetInitial, Set, Invalid}
      ensures phase == Invalid ==> Rejection(old(notes), notes, mask, buffer.Length, old(phase) == SetInitial) && TakeAll(r, text).bad
      ensures phase != Invalid ==> Deliveries(old(notes), notes, mask, buffer.Length, old(phase) == SetInitial)
      ensures phase != Invalid && !isFinal ==> NoneFinal(old(notes), notes)
      ensures phase != Invalid ==> if notes == old(notes) then phase == old(phase) else phase == Set
      ensures phase != Invalid ==> Decoded(r, text, |text|, n, x, Delivered(notes), [])
      ensures phase != Invalid && TakeAll(r, text[..LastTurn(text)]).out != TakeAll(r, text).out ==>
                |old(notes)| < |notes| && (Ends(notes[|notes| - 1]) <==> isFinal)
    {
      hide Decoded, Deliveries, NoneFinal, TakeAll, Proper, LastTurn, Delivered, Extends, Ends;
      ghost var was, opening := notes, phase == SetInitial;
      n, x := n0, x0;
      var i: nat, held: nat := 0, 0;
      NoDeliveries(notes, mask, buffer.Length, opening);
      while buffer.Length - held >= 3 && i < |text|
        decreases |text| - i
        invariant i <= |text| && held + 3 <= buffer.Length && n < 4 && phase in {SetInitial, Set}
        invariant Decoded(r, text, i, n, x, Delivered(notes), buffer[..held])
        invariant Deliveries(was, notes, mask, buffer.Length, opening) && (i < |text| || !isFinal ==> NoneFinal(was, notes))
        invariant |was| <= |notes|
        invariant if notes == was then phase == old(phase) else phase == Set
        invariant 0 < i < |text| && text[i - 1] == PAD ==> text[i] != PAD
        invariant i == |text| ==> held == 0
        invariant i == |text| && TakeAll(r, text[..LastTurn(text)]).out != TakeAll(r, text).out ==>
                    |was| < |notes| && (Ends(notes[|notes| - 1]) <==> isFinal)
      {
        ghost var start: nat, given, now := i, Delivered(notes), notes;
        ghost var first := buffer[..held];
        var ok;
        ok, i, n, x, held := Turn(text, i, n, x, held, r, given);
        if !ok {
          phase := Invalid;
          notes := notes + [SetSelection(mask, [], true, true)];
          assert notes[..|notes| - 1] == now;
          break;
        }
        if i == |text| || buffer.Length - held < 3 {
          DecodedHanded(r, text, i, n, x, given, buffer[..held]);
          HandOut(held, isFinal && i == |text|);
          if held > 0 {
            ghost var note := notes[|notes| - 1];
            DeliveriesSnoc(was, now, mask, buffer.Length, opening, note);
            EndsIs(note);
          } else {
            assert first == [] && buffer[..held] == [];
            SameOutput(r, text, start, i, given);
          }
          held := 0;
          assert buffer[..held] == [];
        }
        assert text[..|text|] == text;
      }
    }

    /** osc_selection once it knows that it reads data: the partial group comes out of its word and goes back. */
    method Decode(text: seq<byte>, isFinal: bool, ghost r: Reading)
      requires phase in {SetInitial, Set} && text != [] && buffer.Length >= 3
      requires Sound(r) && !r.bad && recvPartial == Pack(r.n, r.x) && r.padded == padded && r.out == Delivered(notes)
      requires Proper(r, text)
      modifies `notes, `phase, `recvPartial, `padded, buffer
      ensures Status() == Receive(mask, TakeAll(r, text)) && phase in {SetInitial, Set, Invalid}
      ensures phase == Invalid ==> Rejection(old(notes), notes, mask, buffer.Length, old(phase) == SetInitial)
      ensures phase != Invalid ==> Deliveries(old(notes), notes, mask, buffer.Length, old(phase) == SetInitial)
      ensures phase != Invalid && !isFinal ==> NoneFinal(old(notes), notes)
      ensures phase != Invalid ==> if notes == old(notes) then phase == old(phase) else phase == Set
      ensures phase != Invalid ==> Sound(Status().reading) && recvPartial == Pack(Status().reading.n, Status().reading.x)
      ensures phase != Invalid && TakeAll(r, text[..LastTurn(text)]).out != TakeAll(r, text).out ==>
                |old(notes)| < |notes| && (Ends(notes[|notes| - 1]) <==> isFinal)
    {
      hide Decoded, Deliveries, NoneFinal, TakeAll, Proper, LastTurn, Delivered, Extends, Ends, Rejection;
      var n, x := recvPartial / COUNT_UNIT, recvPartial % 0x4_0000;
      recvPartial := 0;
      DecodedFirst(r, text, n, x, old(recvPartial));
      n, x := DecodeLoop(text, isFinal, n, x, r);
      recvPartial := Pack(n, x);
      if phase != Invalid {
        padded := TakeAll(r, text).padded;
        DecodedLast(r, text, n, x, Delivered(notes));
      }
    }

    /** osc_selection, past the selection letters. */
    method Answer(text: seq<byte>, isFinal: bool, ghost before: seq<byte>)
      requires buffer.Length >= 3 && Valid(before) && text != [] && phase != Parsing
      requires Regular(before, Status(), text)
      modifies `notes, `phase, `recvPartial, `padded, buffer
      ensures Valid(before) && Status() == Trace(before, old(Status()), text)
      ensures Answered(before, old(Status()), Status(), text, isFinal, old(notes), notes, buffer.Length)
    {
      hide Deliveries, NoneFinal, TakeAll, Take, LastTurn, Delivered, Ends, Rejection, Regular, Trace, Proper, Next;
      ghost var began := Status();
      if phase == Selected {
        if text[0] == QUERY {
          TraceQuery(before, mask, text);
          phase := Querying;
        } else {
          TraceChosen(before, mask, text);
          ProperChosen(before, mask, text);
          phase, recvPartial, padded := SetInitial, 0, false;
        }
      }
      if phase == Querying || phase == Invalid {
        if began.Asked? || began.Rejected? {
          TraceDone(before, began, text);
        }
        if phase == Querying {
          DeliveredSnoc(notes, QuerySelection(mask));
          notes := notes + [QuerySelection(mask)];
        }
        return;
      }
      if began.Reads? {
        TraceReads(before, mask, began.reading, text);
        ProperReads(before, mask, began.reading, text);
      }
      ghost var was := notes;
      Decode(text, isFinal, ReadingOf(before, began));
      if phase != Invalid {
        DeliveriesGrow(was, notes, mask, buffer.Length, !Given(before, began));
      }
    }

    /** A fragment with nothing left in it; the final one closes the selection. */
    method Close(isFinal: bool, ghost before: seq<byte>)
      requires Valid(before)
      modifies `notes
      ensures Valid(before) && Status() == old(Status())
      ensures Answered(before, Status(), Status(), [], isFinal, old(notes), notes, buffer.Length)
    {
      hide Delivered;
      if isFinal {
        DeliveredSnoc(notes, SetSelection(mask, [], phase != Set, true));
        notes := notes + [SetSelection(mask, [], phase != Set, true)];
      }
    }

    /** osc_selection. */
    method OscSelection(text: seq<byte>, initial: bool, isFinal: bool, ghost before: seq<byte>)
      requires buffer.Length >= 3
      requires if initial then before == Delivered(notes) else Valid(before)
      requires Regular(before, if initial then Naming({}) else Status(), text)
      modifies `mask, `notes, `phase, `recvPartial, `padded, buffer
      ensures Valid(before)
      ensures var began := if initial then Naming({}) else old(Status());
              Status() == Trace(before, began, text) &&
              Answered(before, began, Status(), Payload(began.Naming?, text), isFinal, old(notes), notes, buffer.Length)
    {
      hide Delivered, Regular, Trace, Answered, Payload, Pack, Sound;
      if initial {
        mask, phase := {}, Parsing;
      }
      ghost var began, was := Status(), notes;
      var i := 0;
      if phase == Parsing {
        i := ParseMask(text);
      } else {
        TraceNone(before, began, text);
      }
      assert text[..i] + text[i..] == text;
      TraceConcat(before, began, text[..i], text[i..]);
      RegularConcat(before, began, text[..i], text[i..]);
      var rest := text[i..];
      ghost var mid := Status();
      if rest == [] {
        TraceNone(before, mid, rest);
        Close(isFinal, before);
      } else {
        Answer(rest, isFinal, before);
      }
      if began.Naming? {
        AnsweredAfterLetters(before, began, mid, Status(), rest, isFinal, was, notes, buffer.Length);
      }
    }

    /** A whole OSC 52, in fragments; `held` is what the client had been told before the last of them. */
    method ReadString(frags: seq<seq<byte>>) returns (ghost held: seq<Note>)
      requires buffer.Length >= 3 && frags != []
      requires Regular(Delivered(notes), Naming({}), Flatten(frags))
      modifies `mask, `notes, `phase, `recvPartial, `padded, buffer
      ensures var before := old(Delivered(notes));
              var mid := Trace(before, Naming({}), Flatten(frags[..|frags| - 1]));
              var last := frags[|frags| - 1];
              && Valid(before)
              && Status() == Trace(before, Naming({}), Flatten(frags))
              && Running(before, mid, old(notes), held, buffer.Length)
              && Answered(before, mid, Status(), Payload(mid.Naming?, last), true, held, notes, buffer.Length)
              && (last != [] ==> Counted(before, Status(), frags, old(notes), notes))
              && (last == [] && Status().Asked? ==> |notes| == |old(notes)| + Turns(before, frags) + 1)
    {
      hide Trace, Answered, Running, Regular, Payload, Sound, Pack, Delivered, Counted, Turns;
      ghost var before, was := Delivered(notes), notes;
      held := notes;
      NothingYet(before, was, buffer.Length);
      for i := 0 to |frags|
        invariant i == 0 ==> notes == was
        invariant i > 0 ==> Valid(before) && Status() == Trace(before, Naming({}), Flatten(frags[..i]))
        invariant i < |frags| ==>
                    var s := Trace(before, Naming({}), Flatten(frags[..i]));
                    Running(before, s, was, notes, buffer.Length) && Counted(before, s, frags[..i], was, notes)
        invariant i == |frags| ==>
                    var mid := Trace(before, Naming({}), Flatten(frags[..|frags| - 1]));
                    Running(before, mid, was, held, buffer.Length) &&
                    Answered(before, mid, Status(), Payload(mid.Naming?, frags[|frags| - 1]), true, held, notes, buffer.Length)
        invariant i == |frags| && frags[i - 1] != [] ==> Counted(before, Status(), frags[..i], was, notes)
        invariant i == |frags| && frags[i - 1] == [] && Status().Asked? ==> |notes| == |was| + Turns(before, frags[..i]) + 1
      {
        held := notes;
        ghost var mid := Trace(before, Naming({}), Flatten(frags[..i]));
        FlattenPrefix(frags, i);
        TraceConcat(before, Naming({}), Flatten(frags[..i]), frags[i]);
        RegularConcat(before, Naming({}), Flatten(frags[..i + 1]), Flatten(frags[i + 1..]));
        RegularConcat(before, Naming({}), Flatten(frags[..i]), frags[i]);
        OscSelection(frags[i], i == 0, i == |frags| - 1, before);
        TraceOnward(before, mid, frags[i]);
        CountsOn(before, mid, Status(), frags, i, i == |frags| - 1, was, held, notes, buffer.Length);
        if i < |frags| - 1 {
          RunsOn(before, mid, Status(), Payload(mid.Naming?, frags[i]), was, held, notes, buffer.Length);
        }
      }
      assert frags[..|frags|] == frags;
    }

    /**
     The clipboard read back: the Base64 text of any data, in any fragments, gives the client the data in
     order, one callback marked first and no callback but the last marked final.

     The final mark is lost exactly when the last fragment is a lone '=' after another: there is nothing left
     to hand out then, and an empty handful is not handed out.
     */
    method ReadBack(letters: seq<byte>, data: seq<byte>, frags: seq<seq<byte>>)
      requires buffer.Length >= 3 && frags != [] && SEMICOLON !in letters
      requires Flatten(frags) == SelectionText(letters, data)
      modifies `mask, `notes, `phase, `recvPartial, `padded, buffer
      ensures Delivered(notes) == old(Delivered(notes)) + data
      ensures SetCalls(old(notes), notes, OrDefault(MaskOf(letters)), buffer.Length)
      ensures |notes| > |old(notes)| && notes[..|old(notes)|] == old(notes)
      ensures forall i :: |old(notes)| <= i < |notes| ==>
                && notes[i].SetSelection? && notes[i].mask == OrDefault(MaskOf(letters)) && |notes[i].text| <= buffer.Length
                && (notes[i].initial <==> i == |old(notes)|) && (notes[i].isFinal ==> i == |notes| - 1)
      ensures notes[|notes| - 1].isFinal <==> !(|data| % 3 == 1 && frags[|frags| - 1] == [PAD])
    {
      hide Trace, Answered, Running, Regular, Payload, Sound, Pack, Delivered, SetCalls, Encode, SelectionText, TakeAll, Ends;
      ghost var before, was := Delivered(notes), notes;
      RegularSelection(before, letters, data);
      ghost var held := ReadString(frags);
      ghost var n, text := |frags| - 1, SelectionText(letters, data);
      ghost var i := |Flatten(frags[..n])|;
      FlattenPrefix(frags, n);
      assert frags[..n + 1] == frags;
      assert text[..i] == Flatten(frags[..n]) && text[i..] == frags[n] && text[..|text|] == text;
      TraceSelection(before, letters, data, i);
      TraceSelection(before, letters, data, |text|);
      WithinAll(before, letters, data);
      assert before + [] == before;
      ReadBackTells(before, letters, data, i, was, held, notes, buffer.Length);
      SetCallsAre(was, notes, OrDefault(MaskOf(letters)), buffer.Length);
      EndsIs(notes[|notes| - 1]);
    }

    /**
     A selection query, in any fragments: the client is asked once for every fragment that is not empty and ends past
     the ';', and an empty last fragment, which a cut just before the terminator makes, clears the selection as well.
     */
    method ReadQuery(letters: seq<byte>, rest: seq<byte>, frags: seq<seq<byte>>)
      requires buffer.Length >= 3 && frags != [] && SEMICOLON !in letters
      requires Flatten(frags) == QueryText(letters, rest)
      modifies `mask, `notes, `phase, `recvPartial, `padded, buffer
      ensures var query := QuerySelection(OrDefault(MaskOf(letters)));
              var asked := seq(EndPast(frags, |letters| + 1), _ => query);
              asked != [] &&
              notes == old(notes) + asked + if frags[|frags| - 1] == [] then [SetSelection(query.mask, [], true, true)] else []
    {
      hide Trace, Answered, Running, Regular, Payload, Sound, Pack, Delivered, Asks, QueryText;
      ghost var before, was := Delivered(notes), notes;
      ghost var n, text := |frags| - 1, QueryText(letters, rest);
      RegularQuery(before, letters, rest);
      ghost var held := ReadString(frags);
      FlattenPrefix(frags, n);
      assert frags[..n + 1] == frags;
      ghost var i := |Flatten(frags[..n])|;
      assert text[..i] == Flatten(frags[..n]) && text[i..] == frags[n] && text[..|text|] == text;
      TraceAsking(before, letters, rest, i);
      TraceAsking(before, letters, rest, |text|);
      QueryLonger(letters, rest);
      AskedAtEnd(before, Trace(before, Naming({}), text[..i]), Status(), frags[n], was, held, notes, buffer.Length);
      TurnsOfQuery(before, letters, rest, frags);
      AsksAre(was, notes, OrDefault(MaskOf(letters)), EndPast(frags, |letters| + 1), frags[n] == []);
    }

    /** The four letters of a group go into the buffer. */
    method PutLetters(x: nat, held: nat)
      requires held + 4 <= buffer.Length
      modifies buffer
      ensures buffer[..held + 4] == old(buffer[..held]) + Letters(x)
    {
      buffer[held] := Letter(x / 0x4_0000 % 0x40);
      buffer[held + 1] := Letter(x / 0x1000 % 0x40);
      buffer[held + 2] := Letter(x / 0x40 % 0x40);
      buffer[held + 3] := Letter(x % 0x40);
    }

    /** What has been sent since `head`. */
    ghost predicate Holds(head: seq<byte>, s: Sent) reads `sendPartial, `output {
      sendPartial == s.word && output == head + s.out
    }

    /** The encoding loop of vterm_state_send_selection over one fragment. */
    method EncodeLoop(text: seq<byte>, ghost head: seq<byte>, ghost s: Sent)
      requires buffer.Length >= 4 && text != [] && Holds(head, s)
      modifies `sendPartial, `output, buffer
      ensures Holds(head, SendFragment(s, text))
    {
      hide Letters, Append, Word, FeedAll;
      var n: nat, x: nat := 0, 0;
      if sendPartial != 0 {
        n, x := sendPartial / COUNT_UNIT, sendPartial % COUNT_UNIT;
        sendPartial := 0;
      }
      var i: nat, held: nat := 0, 0;
      FeedNone(Reopened(s), text);
      assert output + buffer[..0] == output;
      while buffer.Length - held >= 4 && i < |text|
        decreases |text| - i
        invariant i <= |text| && held + 4 <= buffer.Length && (i == |text| ==> held == 0) && sendPartial == 0
        invariant var g := FeedAll(Reopened(s), text[..i]); n == g.n && x == g.x && output + buffer[..held] == head + g.out
      {
        ghost var soFar := FeedAll(Reopened(s), text[..i]).out;
        FeedNext(Reopened(s), text, i);
        x, n, i := Append(x, text[i]), n + 1, i + 1;
        if n == 3 {
          Associates(output, buffer[..held], Letters(x));
          Associates(head, soFar, Letters(x));
          PutLetters(x, held);
          x, n, held := 0, 0, held + 4;
        }
        if i == |text| || buffer.Length - held < 4 {
          if held > 0 {
            output := output + buffer[..held];
          }
          held := 0;
          assert output + buffer[..held] == output;
        }
      }
      assert text[..i] == text && output + buffer[..held] == output;
      NoWord(x);
      if n > 0 {
        sendPartial := Word(n, x);
      }
    }

    /** vterm_state_send_selection. */
    method SendSelection(targets: set<Target>, text: seq<byte>, initial: bool, isFinal: bool, ghost head: seq<byte>, ghost s: Sent)
      requires buffer.Length >= 4
      requires if initial then head == output + Opening(ctrl8bit, targets) && s == Sent(0, []) else Holds(head, s)
      modifies `sendPartial, `output, buffer
      ensures var sent := SendFragment(s, text);
              if isFinal then output == head + (sent.out + LastGroup(sent.word)) + Terminator(ctrl8bit) else Holds(head, sent)
    {
      hide SendFragment, Opening;
      if initial {
        output := output + Opening(ctrl8bit, targets);
        sendPartial := 0;
        assert head + [] == head;
      }
      if text != [] {
        EncodeLoop(text, head, s);
      }
      NothingToSend(s, text);
      if isFinal {
        ghost var sent := SendFragment(s, text);
        Associates(head, sent.out, LastGroup(sent.word));
        if sendPartial > 0 {
          var n, x := sendPartial / COUNT_UNIT, sendPartial % COUNT_UNIT;
          x := x * if n == 1 then 0x1_0000 else 0x100;
          buffer[0], buffer[1] := Letter(x / 0x4_0000 % 0x40), Letter(x / 0x1000 % 0x40);
          buffer[2], buffer[3] := if n == 1 then PAD else Letter(x / 0x40 % 0x40), PAD;
          assert buffer[..4] == LastGroup(sent.word);
          Associates(output, buffer[..4], Terminator(ctrl8bit));
          output := output + (buffer[..4] + Terminator(ctrl8bit));
        } else {
          assert output + LastGroup(sent.word) == output;
          output := output + Terminator(ctrl8bit);
        }
      }
    }

    /**
     A whole transmission, in fragments.  It is the Base64 of RFC 4648 between the opening and the terminator exactly if the
     bytes and the cuts survive; text without bytes from 0x80 up always does.
     */
    method SendAll(targets: set<Target>, frags: seq<seq<byte>>)
      requires buffer.Length >= 4 && frags != []
      modifies `sendPartial, `output, buffer
      ensures output == old(output) + Opening(ctrl8bit, targets) + SentText(frags) + Terminator(ctrl8bit)
      ensures output == old(output) + Opening(ctrl8bit, targets) + Encode(Flatten(frags)) + Terminator(ctrl8bit) <==>
              BytesSurvive(Flatten(frags)) && CutsSurvive(frags)
    {
      hide Encode, Opening, SendFragment, LastGroup, BytesSurvive, CutsSurvive, Holds;
      ghost var head := output + Opening(ctrl8bit, targets);
      for i := 0 to |frags|
        invariant i == 0 ==> output == old(output)
        invariant 0 < i < |frags| ==> Holds(head, SendFragments(frags[..i]))
        invariant i == |frags| ==> output == head + SentText(frags) + Terminator(ctrl8bit)
      {
        assert frags[..0] == [] && frags[..|frags|] == frags && frags[..i + 1][..i] == frags[..i];
        SendSelection(targets, frags[i], i == 0, i == |frags| - 1, head, SendFragments(frags[..i]));
      }
      SentIsRfc(frags);
      Cancels(head, SentText(frags), Encode(Flatten(frags)), Terminator(ctrl8bit));
    }
  }

  lemma Cancels(a: seq<byte>, b: seq<byte>, c: seq<byte>, d: seq<byte>)
    ensures a + b + d == a + c + d <==> b == c
  {
    if a + b + d == a + c + d {
      var x, y := a + b + d, a + c + d;
      assert |x| == |y|;
      assert b == x[|a|..|a| + |b|] && c == y[|a|..|a| + |c|];
    }
  }

  /** The letter that stands for the first of the targets. */
  function TargetLetter(targets: set<Target>): byte {
    if Clip in targets then 0x63 else if Primary in targets then 0x70
    else if Secondary in targets then 0x71 else if Select in targets then 0x73 else 0
  }

  /** The letter sent names one of the targets, in the order c, p, q, s; cut buffers alone have none. */
  lemma LetterNames(targets: set<Target>, mask: set<Target>)
    ensures var c := TargetLetter(targets);
            && (c != 0 ==> exists t :: t in targets && Next([], Naming(mask), c) == Naming(mask + {t}))
            && (Clip in targets ==> c == 'c' as int) && (Clip !in targets && Primary in targets ==> c == 'p' as int)
            && ({Clip, Primary} !! targets && Secondary in targets ==> c == 'q' as int)
            && ({Clip, Primary, Secondary} !! targets && Select in targets ==> c == 's' as int)
            && ({Clip, Primary, Secondary, Select} !! targets ==> c == 0)
  {
    SelectionNames([], mask, TargetLetter(targets));
    if Clip in targets {
      assert Next([], Naming(mask), 'c' as int) == Naming(mask + {Clip});
    } else if Primary in targets {
      assert Next([], Naming(mask), 'p' as int) == Naming(mask + {Primary});
    } else if Secondary in targets {
      assert Next([], Naming(mask), 'q' as int) == Naming(mask + {Secondary});
    } else if Select in targets {
      assert Next([], Naming(mask), 's' as int) == Naming(mask + {Select});
    }
  }

  /** OSC, in either form; the 8-bit one is not read in UTF-8 mode. */
  function Introducer(ctrl8bit: bool): seq<byte> { if ctrl8bit then [0x9d] else [ESC, 0x5d] }

  lemma RunIntroducer(cfg: Config, ctrl8bit: bool)
    requires ctrl8bit ==> !cfg.utf8
    ensures Run(cfg, Ground, Introducer(ctrl8bit)) == Out(OscCommand(-1, false, true), [])
  {
    hide Run;
    if ctrl8bit {
      RunOne(cfg, Ground, 0x9d);
    } else {
      assert [ESC, 0x5d] == [ESC] + [0x5d];
      RunOne(cfg, Ground, ESC);
      RunSnoc(cfg, Ground, [ESC], 0x5d);
    }
  }

  lemma RunOpening(cfg: Config, ctrl8bit: bool, letter: byte)
    requires 0x20 <= letter < 0x7f && (ctrl8bit ==> !cfg.utf8)
    ensures Run(cfg, Ground, Introducer(ctrl8bit) + [0x35, 0x32, SEMICOLON, letter, SEMICOLON]) ==
            Out(InString(Osc(52), false), [Begin(Osc(52))] + DataRun(Osc(52), [letter, SEMICOLON]))
  {
    hide Run, Introducer;
    var k, intro := Osc(52), Introducer(ctrl8bit);
    assert intro + [0x35, 0x32, SEMICOLON, letter, SEMICOLON] == ((intro + [0x35]) + [0x32]) + [SEMICOLON] + [letter, SEMICOLON];
    RunIntroducer(cfg, ctrl8bit);
    RunSnoc(cfg, Ground, intro, 0x35);
    RunSnoc(cfg, Ground, intro + [0x35], 0x32);
    RunSnoc(cfg, Ground, intro + [0x35] + [0x32], SEMICOLON);
    RunConcat(cfg, Ground, intro + [0x35] + [0x32] + [SEMICOLON], [letter, SEMICOLON]);
    RunPayload(cfg, k, [letter, SEMICOLON]);
  }

  lemma RunTerminator(cfg: Config, ctrl8bit: bool, text: seq<byte>, k: StringKind)
    requires (ctrl8bit ==> !cfg.utf8) && Run(cfg, Ground, text).mode == InString(k, false)
    ensures Run(cfg, Ground, text + Terminator(ctrl8bit)) == Out(Ground, Run(cfg, Ground, text).events + [End(k)])
  {
    hide Run;
    var m := InString(k, false);
    RunConcat(cfg, Ground, text, Terminator(ctrl8bit));
    if ctrl8bit {
      RunOne(cfg, m, 0x9c);
    } else {
      assert Terminator(false) == [ESC] + [0x5c];
      RunOne(cfg, m, ESC);
      RunSnoc(cfg, m, [ESC], 0x5c);
    }
  }

  /** What is sent is one OSC 52 string to the byte parser, and its data is what ReadBack reads back. */
  lemma SentIsRead(cfg: Config, ctrl8bit: bool, targets: set<Target>, data: seq<byte>)
    requires TargetLetter(targets) != 0 && (ctrl8bit ==> !cfg.utf8)
    ensures Run(cfg, Ground, Opening(ctrl8bit, targets) + Encode(data) + Terminator(ctrl8bit)) ==
            Out(Ground, [Begin(Osc(52))] + DataRun(Osc(52), SelectionText([TargetLetter(targets)], data)) + [End(Osc(52))])
  {
    hide Encode, Run, DataRun, Terminator;
    var k, letter := Osc(52), TargetLetter(targets);
    var text := Opening(ctrl8bit, targets) + Encode(data);
    assert Opening(ctrl8bit, targets) == Introducer(ctrl8bit) + [0x35, 0x32, SEMICOLON, letter, SEMICOLON];
    RunOpening(cfg, ctrl8bit, letter);
    RunConcat(cfg, Ground, Opening(ctrl8bit, targets), Encode(data));
    forall i | 0 <= i < |Encode(data)| ensures 0x20 <= Encode(data)[i] < 0x7f {
      EncodePrintable(data, i);
    }
    RunPayload(cfg, k, Encode(data));
    DataRunConcat(k, [letter, SEMICOLON], Encode(data));
    assert SelectionText([letter], data) == [letter, SEMICOLON] + Encode(data);
    AppendAssoc([Begin(k)], DataRun(k, [letter, SEMICOLON]), DataRun(k, Encode(data)));
    RunTerminator(cfg, ctrl8bit, text, k);
  }

  lemma DataRunConcat(k: StringKind, a: seq<byte>, b: seq<byte>)
    ensures DataRun(k, a + b) == DataRun(k, a) + DataRun(k, b)
  {
  }
}
