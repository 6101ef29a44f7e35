/**
 Sending a selection (src/libvterm/src/state.c, vterm_state_send_selection): a Base64 encoder that takes its text in
 fragments and keeps an unfinished group packed in one 32-bit word between them.

 The text is of `char`, which is signed, so a byte from 0x80 up brings one bits with it into the group and into the
 count beside it.  SentIsRfc says exactly which texts, in which fragments, come out as RFC 4648 has them.
 */
module Sending {
  import opened Bytes
  import opened Base64

  const COUNT_UNIT := 0x100_0000

  /** One more byte below the others: a byte from 0x80 up brings 24 one bits with it. */
  function Append(x: nat, b: byte): (y: nat)
    ensures y < 0x1_0000_0000
  {
    if b < 0x80 then x * 0x100 % 0x1_0000_0000 + b else 0xffff_ff00 + b
  }

  function Letters(x: nat): seq<byte> {
    [Letter(x / 0x4_0000 % 0x40), Letter(x / 0x1000 % 0x40), Letter(x / 0x40 % 0x40), Letter(x % 0x40)]
  }

  /** Bitwise or. */
  function Or(a: nat, b: nat): nat
    decreases a + b
  {
    if a == 0 then b else if b == 0 then a else 2 * Or(a / 2, b / 2) + Max2(a % 2, b % 2)
  }

  function Max2(a: nat, b: nat): nat { if a < b then b else a }

  /** (n << 24) | x in 32 bits; nothing is kept of an empty group. */
  function Word(n: nat, x: nat): nat {
    if n == 0 then 0 else Or(n % 0x100, x / COUNT_UNIT) * COUNT_UNIT + x % COUNT_UNIT
  }

  /** The loop over one fragment: `n` bytes of a group in `x`, and the letters so far. */
  datatype Group = Group(n: nat, x: nat, out: seq<byte>)

  function Feed(g: Group, b: byte): Group {
    if g.n + 1 == 3 then Group(0, 0, g.out + Letters(Append(g.x, b))) else Group(g.n + 1, Append(g.x, b), g.out)
  }

  function FeedAll(g: Group, text: seq<byte>): Group {
    if text == [] then g else Feed(FeedAll(g, text[..|text| - 1]), text[|text| - 1])
  }

  /** Between fragments: what sendpartial keeps, and the letters so far. */
  datatype Sent = Sent(word: nat, out: seq<byte>)

  function Reopened(s: Sent): Group { Group(s.word / COUNT_UNIT, s.word % COUNT_UNIT, s.out) }

  function SendFragment(s: Sent, text: seq<byte>): Sent {
    if text == [] then s
    else
      var g := FeedAll(Reopened(s), text);
      Sent(Word(g.n, g.x), g.out)
  }

  function SendFragments(frags: seq<seq<byte>>): Sent {
    if frags == [] then Sent(0, []) else SendFragment(SendFragments(frags[..|frags| - 1]), frags[|frags| - 1])
  }

  /** What the final fragment adds: the unfinished group, padded. */
  function LastGroup(word: nat): seq<byte> {
    if word == 0 then []
    else
      var n, x := word / COUNT_UNIT, word % COUNT_UNIT;
      var y := x * if n == 1 then 0x1_0000 else 0x100;
      [Letter(y / 0x4_0000 % 0x40), Letter(y / 0x1000 % 0x40), if n == 1 then PAD else Letter(y / 0x40 % 0x40), PAD]
  }

  function SentText(frags: seq<seq<byte>>): seq<byte> {
    var s := SendFragments(frags);
    s.out + LastGroup(s.word)
  }

  /** U+00E9 in UTF-8 is sent as "/6k=", which is the Base64 of 0xff 0xa9; that of the text would be "w6k=". */
  lemma AcuteIsSpoilt()
    ensures SentText([[0xc3, 0xa9]]) == [0x2f, 0x36, 0x6b, 0x3d]
    ensures Encode([0xff, 0xa9]) == [0x2f, 0x36, 0x6b, 0x3d] && Encode([0xc3, 0xa9]) == [0x77, 0x36, 0x6b, 0x3d]
  {
    AcuteFed();
    AcuteLast();
    OnlyTail([0xff, 0xa9]);
    OnlyTail([0xc3, 0xa9]);
    hide *;
    OneFragment([0xc3, 0xa9]);
  }

  lemma OneFragment(text: seq<byte>)
    ensures SentText([text]) == SendFragment(Sent(0, []), text).out + LastGroup(SendFragment(Sent(0, []), text).word)
  {
    hide SendFragment, LastGroup;
    assert [text][..0] == [] && SendFragments([]) == Sent(0, []);
  }

  lemma AcuteFed()
    ensures SendFragment(Sent(0, []), [0xc3, 0xa9]) == Sent(0xffff_ffa9, [])
  {
    TwoFed(Group(0, 0, []), 0xc3, 0xa9);
    assert Append(0, 0xc3) == 0xffff_ffc3 && Append(0xffff_ffc3, 0xa9) == 0xffff_ffa9;
    hide FeedAll, Append;
    assert Feed(Group(0, 0, []), 0xc3) == Group(1, 0xffff_ffc3, []) && Feed(Group(1, 0xffff_ffc3, []), 0xa9) == Group(2, 0xffff_ffa9, []);
    OrOnes();
    hide Feed, Or;
    assert Word(2, 0xffff_ffa9) == 0xffff_ffa9;
  }

  lemma TwoFed(g: Group, a: byte, b: byte)
    ensures FeedAll(g, [a, b]) == Feed(Feed(g, a), b)
  {
    hide Feed;
    assert [a, b][..1] == [a] && [a][..0] == [];
    assert FeedAll(g, []) == g && FeedAll(g, [a]) == Feed(g, a);
  }

  lemma AcuteLast()
    ensures LastGroup(0xffff_ffa9) == [0x2f, 0x36, 0x6b, 0x3d]
    ensures Tail([0xff, 0xa9]) == [0x2f, 0x36, 0x6b, 0x3d] && Tail([0xc3, 0xa9]) == [0x77, 0x36, 0x6b, 0x3d]
  {
  }

  lemma OrOnes()
    ensures Or(2, 0xff) == 0xff
  {
    assert Or(0, 0x3f) == 0x3f;
    assert Or(1, 0x7f) == 2 * 0x3f + 1;
  }

  // ----- which texts survive

  /** Every byte from 0x80 up stands first in its group or has only 0xff before it there, and is not alone in the last. */
  predicate BytesSurvive(data: seq<byte>) {
    && (forall p :: 0 <= p < |data| && data[p] >= 0x80 ==> forall q :: p - p % 3 <= q < p ==> data[q] == 0xff)
    && (|data| % 3 == 1 ==> data[|data| - 1] < 0x80)
  }

  predicate HasHigh(rest: seq<byte>) { exists i :: 0 <= i < |rest| && rest[i] >= 0x80 }

  /** Before fragment `j` the text stops inside a group that already holds a byte from 0x80 up, and goes on later. */
  predicate BadCut(frags: seq<seq<byte>>, j: nat)
    requires j <= |frags|
  {
    var sent := Flatten(frags[..j]);
    HasHigh(sent[Whole(sent)..]) && |sent| < |Flatten(frags)|
  }

  /** There is no such cut, but for one between the two bytes of a last group of two. */
  predicate CutsSurvive(frags: seq<seq<byte>>) {
    forall j :: 0 <= j <= |frags| && BadCut(frags, j) ==>
      |Flatten(frags[..j])| % 3 == 1 && |Flatten(frags[..j])| + 1 == |Flatten(frags)|
  }

  // ----- the letters of a group

  lemma LettersAgree(x: nat, y: nat)
    requires y < 0x100_0000
    ensures Letters(x) == Letters(y) <==> x % 0x100_0000 == y
  {
    hide Letter;
    var x' := x % 0x100_0000;
    Digits(x);
    Digits(y);
    if Letters(x) == Letters(y) {
      SameLetter(x / 0x4_0000 % 0x40, y / 0x4_0000 % 0x40);
      SameLetter(x / 0x1000 % 0x40, y / 0x1000 % 0x40);
      SameLetter(x / 0x40 % 0x40, y / 0x40 % 0x40);
      SameLetter(x % 0x40, y % 0x40);
    } else if x' == y {
      DigitsOf(x);
    }
  }

  lemma SameLetter(a: nat, b: nat)
    requires a < 64 && b < 64 && Letter(a) == Letter(b)
    ensures a == b
  {
    LettersRoundTrip(a, 0);
    LettersRoundTrip(b, 0);
  }

  lemma Digits(x: nat)
    ensures x % 0x100_0000 == ((x / 0x4_0000 % 0x40 * 0x40 + x / 0x1000 % 0x40) * 0x40 + x / 0x40 % 0x40) * 0x40 + x % 0x40
  {
    var h := x / 0x100_0000;
    assert x / 0x1000 == x / 0x40 / 0x40 && x / 0x4_0000 == x / 0x1000 / 0x40 && h == x / 0x4_0000 / 0x40;
  }

  lemma DigitsOf(x: nat)
    ensures Letters(x % 0x100_0000) == Letters(x)
  {
    hide Letter;
    var h, y := x / 0x100_0000, x % 0x100_0000;
    assert x / 0x40 == h * 0x4_0000 + y / 0x40;
    assert x / 0x1000 == h * 0x1000 + y / 0x1000;
    assert x / 0x4_0000 == h * 0x40 + y / 0x4_0000;
    SextetOf(h * 0x1000, y / 0x40);
    SextetOf(h * 0x40, y / 0x1000);
    SextetOf(h, y / 0x4_0000);
    SextetOf(h * 0x4_0000, y);
  }

  lemma SextetOf(k: nat, r: nat)
    ensures (k * 0x40 + r) % 0x40 == r % 0x40
  {
  }

  /** Exactly which groups of three bytes the sign extension leaves alone. */
  lemma GroupSurvives(a: byte, b: byte, c: byte)
    ensures Letters(Append(Append(Append(0, a), b), c)) == Quad(a, b, c) <==>
            (b < 0x80 || a == 0xff) && (c < 0x80 || (a == 0xff && b == 0xff))
  {
    hide Letters, Quad, Append;
    var whole := a * 0x1_0000 + b * 0x100 + c;
    GroupLetters(a, b, c);
    LettersAgree(Append(Append(Append(0, a), b), c), whole);
    PairSurvives(a, b);
    LastSurvives(a, b, c);
  }

  /** What is below the first eight bits after two bytes. */
  lemma PairSurvives(a: byte, b: byte)
    ensures Append(Append(0, a), b) % 0x1_0000 == (if b < 0x80 then a else 0xff) * 0x100 + b
  {
    hide Append;
    LastByte(Append(0, a), 0, a);
    AppendLow(Append(0, a), b);
  }

  lemma LastSurvives(a: byte, b: byte, c: byte)
    ensures var two := Append(Append(0, a), b);
            Append(two, c) % 0x100_0000 == if c < 0x80 then two % 0x1_0000 * 0x100 + c else 0xff_ff00 + c
  {
    hide Append;
    AppendLow(Append(Append(0, a), b), c);
  }

  lemma AppendLow(x: nat, c: byte)
    ensures Append(x, c) % 0x100_0000 == if c < 0x80 then x % 0x1_0000 * 0x100 + c else 0xff_ff00 + c
    ensures Append(x, c) % 0x1_0000 == if c < 0x80 then x % 0x100 * 0x100 + c else 0xff00 + c
  {
    if c < 0x80 {
      var h, l := x / 0x1_0000, x % 0x1_0000;
      var h1, h0, l1, l0 := h / 0x100, h % 0x100, l / 0x100, l % 0x100;
      assert x * 0x100 == h1 * 0x1_0000_0000 + (h0 * 0x100_0000 + l * 0x100);
      Remainder(h1, 0x1_0000_0000, h0 * 0x100_0000 + l * 0x100);
      assert Append(x, c) == h0 * 0x100_0000 + (l * 0x100 + c);
      Remainder(h0, 0x100_0000, l * 0x100 + c);
      assert x == h * 0x100 * 0x100 + l1 * 0x100 + l0;
      Remainder(h * 0x100 + l1, 0x100, l0);
      assert Append(x, c) == (h0 * 0x100 + l1) * 0x1_0000 + (l0 * 0x100 + c);
      Remainder(h0 * 0x100 + l1, 0x1_0000, l0 * 0x100 + c);
    } else {
      Remainder(0xff, 0x100_0000, 0xff_ff00 + c);
      Remainder(0xffff, 0x1_0000, 0xff00 + c);
    }
  }

  lemma Remainder(q: nat, d: nat, r: nat)
    requires r < d
    ensures (q * d + r) % d == r && (q * d + r) / d == q
  {
    var n := q * d + r;
    if n / d < q {
      MulMono(n / d + 1, q, d);
    } else if n / d > q {
      MulMono(q + 1, n / d, d);
    }
  }

  lemma MulMono(a: nat, b: nat, d: nat)
    requires a <= b
    ensures a * d <= b * d
  {
  }

  lemma FourSextets(s: nat, t: nat, u: nat, v: nat)
    requires s < 64 && t < 64 && u < 64 && v < 64
    ensures Letters(((s * 0x40 + t) * 0x40 + u) * 0x40 + v) == [Letter(s), Letter(t), Letter(u), Letter(v)]
  {
    hide Letter;
    var st := s * 0x40 + t;
    var stu := st * 0x40 + u;
    var x := stu * 0x40 + v;
    assert x / 0x40 == stu && x % 0x40 == v;
    assert stu / 0x40 == st && stu % 0x40 == u;
    assert st / 0x40 == s && st % 0x40 == t;
    assert x / 0x1000 == st && x / 0x4_0000 == s;
  }

  lemma GroupLetters(a: byte, b: byte, c: byte)
    ensures Letters(a * 0x1_0000 + b * 0x100 + c) == Quad(a, b, c)
  {
    hide Letter, Letters;
    GroupValue(a, b, c);
    FourSextets(a / 4, a % 4 * 16 + b / 16, b % 16 * 4 + c / 64, c % 64);
  }

  // ----- a word that is high: read as a signed number it is negative, and small

  /** 0x80 moved up by c - 1 bytes. */
  function Half(c: nat): nat { if c == 1 then 0x80 else if c == 2 then 0x8000 else if c == 3 then 0x80_0000 else 0x8000_0000 }

  predicate High24(x: nat, c: nat) { x < COUNT_UNIT && x + Half(c) >= COUNT_UNIT }

  predicate High32(x: nat, c: nat) { x < 0x1_0000_0000 && x + Half(c) >= 0x1_0000_0000 }

  lemma AppendHigh(x: nat, c: nat, b: byte)
    requires 1 <= c <= 3 && (High24(x, c) || High32(x, c))
    ensures High32(Append(x, b), c + 1)
  {
    if b < 0x80 {
      if High24(x, c) {
        Remainder(0, 0x1_0000_0000, x * 0x100);
      } else {
        Remainder(0xff, 0x1_0000_0000, x * 0x100 - 0xff_0000_0000);
      }
    }
  }

  /** The bytes of an unfinished group, as they stand in the word. */
  function Fold(rest: seq<byte>): nat {
    if rest == [] then 0 else Append(Fold(rest[..|rest| - 1]), rest[|rest| - 1])
  }

  lemma FoldSnoc(rest: seq<byte>, b: byte)
    ensures Fold(rest + [b]) == Append(Fold(rest), b)
  {
    assert (rest + [b])[..|rest|] == rest;
  }

  lemma FoldIs(rest: seq<byte>)
    ensures |rest| == 1 ==> Fold(rest) == Append(0, rest[0])
    ensures |rest| == 2 ==> Fold(rest) == Append(Append(0, rest[0]), rest[1])
    ensures |rest| == 3 ==> Fold(rest) == Append(Append(Append(0, rest[0]), rest[1]), rest[2])
  {
    hide Append;
    assert Fold([]) == 0;
    if 1 <= |rest| <= 3 {
      FoldSnoc([], rest[0]);
      assert [] + [rest[0]] == [rest[0]];
      if |rest| >= 2 {
        FoldSnoc([rest[0]], rest[1]);
        assert [rest[0]] + [rest[1]] == [rest[0], rest[1]];
      }
      if |rest| == 3 {
        FoldSnoc([rest[0], rest[1]], rest[2]);
        assert rest == [rest[0], rest[1]] + [rest[2]];
      } else if |rest| == 2 {
        assert rest == [rest[0], rest[1]];
      } else {
        assert rest == [rest[0]];
      }
    }
  }

  lemma FoldHigh(rest: seq<byte>)
    requires 1 <= |rest| <= 2
    ensures if HasHigh(rest) then High32(Fold(rest), |rest|) else Fold(rest) < Half(|rest|)
    ensures Fold(rest) % 0x100 == rest[|rest| - 1]
    ensures !HasHigh(rest) ==> Fold(rest) == if |rest| == 1 then rest[0] as nat else (rest[0] as nat) * 0x100 + rest[1]
  {
    hide Fold, Append;
    FoldIs(rest);
    assert HasHigh(rest) <==> rest[0] >= 0x80 || rest[|rest| - 1] >= 0x80;
    var a := Append(0, rest[0]);
    AppendHighFirst(rest[0], 0);
    if |rest| == 2 {
      AppendHighFirst(rest[1], a);
      if rest[0] >= 0x80 {
        AppendHigh(a, 1, rest[1]);
      }
    }
    LastByte(Fold(rest), a, rest[|rest| - 1]);
  }

  lemma AppendHighFirst(b: byte, x: nat)
    ensures b >= 0x80 ==> High32(Append(x, b), 1) && High32(Append(x, b), 2)
    ensures b < 0x80 && x < 0x100 ==> Append(x, b) == x * 0x100 + b
  {
  }

  lemma LastByte(y: nat, x: nat, b: byte)
    requires y == Append(x, b) || y == Append(0, b)
    ensures y % 0x100 == b
  {
    var x' := if y == Append(x, b) then x else 0;
    AppendLow(x', b);
    var low := y % 0x1_0000;
    if b < 0x80 {
      Remainder(x' % 0x100, 0x100, b);
    } else {
      Remainder(0xff, 0x100, b);
    }
    Remainder(y / 0x1_0000 * 0x100 + low / 0x100, 0x100, low % 0x100);
  }

  lemma {:induction false} OrAtLeast(a: nat, b: nat)
    ensures Or(a, b) >= a && Or(a, b) >= b
    ensures b == 0 ==> Or(a, b) == a
    ensures a % 2 == 1 ==> Or(a, b) % 2 == 1
    decreases a + b
  {
    if a != 0 && b != 0 {
      OrAtLeast(a / 2, b / 2);
    }
  }

  lemma WordSplits(n: nat, x: nat)
    requires n > 0
    ensures Word(n, x) / COUNT_UNIT == Or(n % 0x100, x / COUNT_UNIT) && Word(n, x) % COUNT_UNIT == x % COUNT_UNIT
  {
    hide Or;
    Remainder(Or(n % 0x100, x / COUNT_UNIT), COUNT_UNIT, x % COUNT_UNIT);
  }

  // ----- what is known while the text is sent

  function Through(data: seq<byte>): (text: seq<byte>)
    requires |data| % 3 == 0
    ensures 3 * |text| == 4 * |data|
  {
    if data == [] then [] else Through(data[..|data| - 3]) + Letters(Fold(data[|data| - 3..]))
  }

  /** So far every byte has gone into the group it belongs to. */
  ghost predicate Straight(all: seq<byte>, g: Group) {
    var k := Whole(all);
    g.n == |all| - k && g.x == Fold(all[k..]) && g.out == Through(all[..k])
  }

  ghost predicate StraightWord(all: seq<byte>, s: Sent) {
    var k := Whole(all);
    s.word == Word(|all| - k, Fold(all[k..])) && s.out == Through(all[..k])
  }

  /** The bytes for which no letters have gone out. */
  function Behind(all: seq<byte>, out: seq<byte>): int { |all| - |out| / 4 * 3 }

  /**
   The count is lost: either it is too high for a group ever to be complete, or there are more bytes behind than it says.
   While few bytes are behind, the word is known as far as it matters.
   */
  ghost predicate Lost(all: seq<byte>, g: Group) {
    var c := Behind(all, g.out);
    && |g.out| % 4 == 0 && c <= |all|
    && if g.n < 3 then c >= g.n + 3
       else
         && c >= 2 && (c <= 4 ==> High32(g.x, c))
         && (c <= 3 ==> g.out == Through(all[..|all| - c]))
         && (c == 2 ==> g.x % 0x1_0000 == Fold(all[|all| - 2..]) % 0x1_0000)
  }

  ghost predicate LostWord(all: seq<byte>, s: Sent) {
    var c, n, x := Behind(all, s.out), s.word / COUNT_UNIT, s.word % COUNT_UNIT;
    && |s.out| % 4 == 0 && c <= |all|
    && if n < 3 then c >= n + 3 && (c == 3 ==> s.word == 0)
       else
         && c >= 2 && (c <= 3 ==> High24(x, c) && s.out == Through(all[..|all| - c]))
         && (c == 2 ==> x % 0x1_0000 == Fold(all[|all| - 2..]) % 0x1_0000)
  }

  lemma StraightFeed(all: seq<byte>, g: Group, b: byte)
    requires Straight(all, g)
    ensures Straight(all + [b], Feed(g, b))
  {
    hide Append, Letters, Fold, Through;
    var k, more := Whole(all), all + [b];
    FoldSnoc(all[k..], b);
    assert more[k..] == all[k..] + [b];
    if |more| % 3 == 0 {
      assert more[..|more|] == more && more[|more|..] == [] && |more| - 3 == k && more[..k] == all[..k];
      assert Fold([]) == 0 by { FoldNothing(); }
      ThroughGroup(more);
    } else {
      assert Whole(more) == k && more[..k] == all[..k];
    }
  }

  lemma ThroughGroup(data: seq<byte>)
    requires |data| % 3 == 0 && data != []
    ensures Through(data) == Through(data[..|data| - 3]) + Letters(Fold(data[|data| - 3..]))
  {
  }

  lemma FoldNothing()
    ensures Fold([]) == 0
  {
  }

  lemma {:induction false} StraightFeedAll(all: seq<byte>, g: Group, text: seq<byte>)
    requires Straight(all, g)
    ensures Straight(all + text, FeedAll(g, text))
  {
    hide Straight, Feed;
    if text == [] {
      assert all + text == all;
    } else {
      var front := text[..|text| - 1];
      StraightFeedAll(all, g, front);
      StraightFeed(all + front, FeedAll(g, front), text[|text| - 1]);
      assert all + front + [text[|text| - 1]] == all + text;
    }
  }

  lemma StraightReopens(all: seq<byte>, s: Sent)
    requires StraightWord(all, s) && !HasHigh(all[Whole(all)..])
    ensures Straight(all, Reopened(s))
  {
    hide Or, Fold, Append, Through;
    var rest := all[Whole(all)..];
    FoldNothing();
    if rest != [] {
      FoldHigh(rest);
      WordSplits(|rest|, Fold(rest));
      OrAtLeast(|rest|, 0);
    }
  }

  lemma LostFeed(all: seq<byte>, g: Group, b: byte)
    requires Lost(all, g)
    ensures Lost(all + [b], Feed(g, b)) && Behind(all + [b], Feed(g, b).out) >= 3
  {
    hide Append, Through, Fold, Letters;
    var c, more := Behind(all, g.out), all + [b];
    assert |Letters(Append(g.x, b))| == 4 by { FourLetters(Append(g.x, b)); }
    if g.n >= 3 && c <= 3 {
      AppendHigh(g.x, c, b);
      assert more[..|more| - (c + 1)] == all[..|all| - c];
    }
  }

  lemma FourQuad(a: byte, b: byte, c: byte)
    ensures |Quad(a, b, c)| == 4
  {
  }

  lemma FourLetters(x: nat)
    ensures |Letters(x)| == 4
  {
  }

  /** The first byte after a cut in a group with a byte from 0x80 up: the count starts at 255. */
  lemma CutLoses(all: seq<byte>, s: Sent, b: byte)
    requires StraightWord(all, s) && HasHigh(all[Whole(all)..])
    ensures Lost(all + [b], Feed(Reopened(s), b))
    ensures Behind(all + [b], Feed(Reopened(s), b).out) == |all| % 3 + 1
  {
    hide Or, Fold, Append, Letters;
    var k, more := Whole(all), all + [b];
    var rest := all[k..];
    var c, x := |rest|, Fold(rest);
    FoldHigh(rest);
    WordSplits(c, x);
    HighSplits(x, c);
    OrAtLeast(c, 0xff);
    AppendHigh(x % COUNT_UNIT, c, b);
    assert more[..k] == all[..k];
    if c == 1 {
      assert more[k..] == rest + [b];
      FoldSnoc(rest, b);
      AppendLow(x, b);
      AppendLow(x % COUNT_UNIT, b);
    }
  }

  lemma HighSplits(x: nat, c: nat)
    requires 1 <= c <= 3 && High32(x, c)
    ensures x / COUNT_UNIT == 0xff && High24(x % COUNT_UNIT, c) && x % COUNT_UNIT % 0x100 == x % 0x100 && x % COUNT_UNIT % 0x1_0000 == x % 0x1_0000
  {
    var y := x - 0xff * COUNT_UNIT;
    Remainder(0xff, COUNT_UNIT, y);
    assert x == 0xff_0000 * 0x100 + y && x == 0xff00 * 0x1_0000 + y;
    var h, l := y / 0x100, y % 0x100;
    Remainder(0xff_0000 + h, 0x100, l);
    Remainder(0xff00 + y / 0x1_0000, 0x1_0000, y % 0x1_0000);
  }

  lemma LostReopens(all: seq<byte>, s: Sent, b: byte)
    requires LostWord(all, s)
    ensures Lost(all + [b], Feed(Reopened(s), b)) && Behind(all + [b], Feed(Reopened(s), b).out) >= 3
  {
    hide Append, Through, Fold, Letters;
    var g := Reopened(s);
    var c, more := Behind(all, s.out), all + [b];
    FourLetters(Append(g.x, b));
    if g.n >= 3 && c <= 3 {
      AppendHigh(g.x, c, b);
      assert more[..|more| - (c + 1)] == all[..|all| - c];
    }
  }

  lemma LostCloses(all: seq<byte>, g: Group)
    requires Lost(all, g)
    ensures LostWord(all, Sent(Word(g.n, g.x), g.out))
  {
    hide Or, Fold, Through;
    var c := Behind(all, g.out);
    if g.n > 0 {
      WordSplits(g.n, g.x);
      OrAtLeast(g.n % 0x100, g.x / COUNT_UNIT);
      if g.n >= 3 && c <= 4 {
        HighTop(g.x, c);
        if c <= 3 {
          HighSplits(g.x, c);
        }
      }
    }
  }

  lemma HighTop(x: nat, c: nat)
    requires 1 <= c <= 4 && High32(x, c)
    ensures x / COUNT_UNIT >= 0x80
  {
  }

  lemma {:induction false} LostFeedAll(all: seq<byte>, g: Group, text: seq<byte>)
    requires Lost(all, g)
    ensures Lost(all + text, FeedAll(g, text))
    ensures if text == [] then FeedAll(g, text) == g else Behind(all + text, FeedAll(g, text).out) >= 3
  {
    hide Lost, Feed, Behind;
    if text == [] {
      assert all + text == all;
    } else {
      var front := text[..|text| - 1];
      LostFeedAll(all, g, front);
      LostFeed(all + front, FeedAll(g, front), text[|text| - 1]);
      assert all + front + [text[|text| - 1]] == all + text;
    }
  }

  lemma {:induction false} FeedAllCons(g: Group, b: byte, text: seq<byte>)
    ensures FeedAll(g, [b] + text) == FeedAll(Feed(g, b), text)
  {
    hide Feed;
    var whole := [b] + text;
    if text == [] {
      assert whole[..0] == [] && FeedAll(g, []) == g;
    } else {
      assert whole[..|whole| - 1] == [b] + text[..|text| - 1];
      FeedAllCons(g, b, text[..|text| - 1]);
    }
  }

  // ----- fragments

  ghost predicate NoBadCut(frags: seq<seq<byte>>) { forall j :: 0 <= j <= |frags| ==> !BadCut(frags, j) }

  lemma FlattenSplits(frags: seq<seq<byte>>, j: nat)
    requires j <= |frags|
    ensures Flatten(frags) == Flatten(frags[..j]) + Flatten(frags[j..])
  {
    FlattenConcat(frags[..j], frags[j..]);
    assert frags == frags[..j] + frags[j..];
  }

  /** What one fragment more does to the cuts. */
  lemma OneFragmentMore(frags: seq<seq<byte>>)
    requires frags != []
    ensures var front, last := frags[..|frags| - 1], frags[|frags| - 1];
            var all := Flatten(front);
            var bad := last != [] && HasHigh(all[Whole(all)..]);
            && Flatten(frags) == all + last
            && (NoBadCut(frags) <==> NoBadCut(front) && !bad)
            && (CutsSurvive(frags) <==> if last == [] then CutsSurvive(front) else NoBadCut(front) && (bad ==> |all| % 3 == 1 && |last| == 1))
  {
    hide HasHigh, Whole, Flatten;
    var n := |frags| - 1;
    var front, last := frags[..n], frags[n];
    var all := Flatten(front);
    assert front[..n] == front && frags[..n] == front && frags[..n + 1] == frags;
    FlattenPrefix(frags, n);
    assert frags[..n + 1] == frags && front[..n] == front;
    forall j | 0 <= j <= n
      ensures frags[..j] == front[..j] && |Flatten(front[..j])| <= |all| && (|Flatten(front[..j])| == |all| ==> Flatten(front[..j]) == all)
    {
      FlattenSplits(front, j);
    }
    forall j | 0 <= j <= n
      ensures BadCut(frags, j) <==> BadCut(front, j) || (last != [] && Flatten(frags[..j]) == all && HasHigh(all[Whole(all)..]))
    {
    }
    assert !BadCut(frags, n + 1) && (last != [] && HasHigh(all[Whole(all)..]) ==> BadCut(frags, n));
  }

  lemma {:induction false} Progress(frags: seq<seq<byte>>)
    ensures var all, s := Flatten(frags), SendFragments(frags);
            if NoBadCut(frags) then StraightWord(all, s) && CutsSurvive(frags)
            else LostWord(all, s) && (Behind(all, s.out) == 2 <==> CutsSurvive(frags))
  {
    hide StraightWord, LostWord, Lost, Straight, Feed, FeedAll, HasHigh, NoBadCut, CutsSurvive, Behind, Whole;
    if frags == [] {
      NothingSent(frags);
    } else {
      var front, last := frags[..|frags| - 1], frags[|frags| - 1];
      var all, s := Flatten(front), SendFragments(front);
      Progress(front);
      OneFragmentMore(frags);
      if last == [] {
        assert all + last == all;
      } else {
        FragmentGoesOn(all, s, last, NoBadCut(front));
      }
    }
  }

  lemma NothingSent(frags: seq<seq<byte>>)
    requires frags == []
    ensures NoBadCut(frags) && CutsSurvive(frags) && StraightWord([], Sent(0, []))
  {
    FoldNothing();
  }

  lemma FragmentGoesOn(all: seq<byte>, s: Sent, text: seq<byte>, straight: bool)
    requires text != [] && if straight then StraightWord(all, s) else LostWord(all, s)
    ensures var s' := SendFragment(s, text);
            if straight && !HasHigh(all[Whole(all)..]) then StraightWord(all + text, s')
            else LostWord(all + text, s') && (Behind(all + text, s'.out) == 2 <==> straight && |all| % 3 == 1 && |text| == 1)
  {
    hide StraightWord, LostWord, Lost, Straight, Feed, FeedAll, HasHigh, Behind, Whole, Word;
    var b, more := text[0], text[1..];
    var g, all' := Reopened(s), all + [b];
    assert text == [b] + more && all' + more == all + text && (more == [] ==> all' == all + text);
    FeedAllCons(g, b, more);
    if straight && !HasHigh(all[Whole(all)..]) {
      StraightReopens(all, s);
      StraightFeedAll(all, g, text);
      StraightCloses(all + text, FeedAll(g, text));
    } else {
      if straight {
        CutLoses(all, s, b);
      } else {
        LostReopens(all, s, b);
      }
      LostFeedAll(all', Feed(g, b), more);
      LostCloses(all + text, FeedAll(g, text));
      HighRests(all);
    }
  }

  lemma HighRests(all: seq<byte>)
    ensures HasHigh(all[Whole(all)..]) ==> |all| % 3 != 0
  {
  }

  lemma StraightCloses(all: seq<byte>, g: Group)
    requires Straight(all, g)
    ensures StraightWord(all, Sent(Word(g.n, g.x), g.out))
  {
  }

  // ----- the end

  predicate HighFollowsOnes(data: seq<byte>) {
    forall p :: 0 <= p < |data| && data[p] >= 0x80 ==> forall q :: p - p % 3 <= q < p ==> data[q] == 0xff
  }

  lemma OnesSplit(data: seq<byte>, k: nat)
    requires k <= |data| && k % 3 == 0
    ensures HighFollowsOnes(data) <==> HighFollowsOnes(data[..k]) && HighFollowsOnes(data[k..])
  {
    var a, b := data[..k], data[k..];
    if HighFollowsOnes(a) && HighFollowsOnes(b) {
      forall p | 0 <= p < |data| && data[p] >= 0x80 ensures forall q :: p - p % 3 <= q < p ==> data[q] == 0xff {
        ThirdsMatch(p, k);
        if p < k {
          assert a[p] >= 0x80 && forall q :: 0 <= q < p ==> a[q] == data[q];
        } else {
          assert b[p - k] >= 0x80 && forall q :: k <= q < p ==> data[q] == b[q - k];
        }
      }
    } else if HighFollowsOnes(data) {
      OnesInPart(data, k);
    }
  }

  lemma OnesInPart(data: seq<byte>, k: nat)
    requires k <= |data| && k % 3 == 0 && HighFollowsOnes(data)
    ensures HighFollowsOnes(data[..k]) && HighFollowsOnes(data[k..])
  {
    var b := data[k..];
    forall p | 0 <= p < |b| && b[p] >= 0x80 ensures forall q :: p - p % 3 <= q < p ==> b[q] == 0xff {
      ThirdsMatch(p + k, k);
      assert data[p + k] >= 0x80 && forall q :: 0 <= q < p ==> b[q] == data[q + k];
    }
  }

  lemma ThirdsMatch(p: int, k: int)
    requires k % 3 == 0
    ensures (p - k) % 3 == p % 3
  {
  }

  lemma OnesInGroup(rest: seq<byte>)
    requires |rest| <= 3
    ensures HighFollowsOnes(rest) <==>
            && (|rest| > 1 && rest[1] >= 0x80 ==> rest[0] == 0xff)
            && (|rest| > 2 && rest[2] >= 0x80 ==> rest[0] == 0xff && rest[1] == 0xff)
  {
  }

  lemma {:induction false} GroupsSurvive(data: seq<byte>)
    requires |data| % 3 == 0
    ensures |Groups(data)| == |Through(data)|
    ensures Through(data) == Groups(data) <==> HighFollowsOnes(data)
  {
    hide Letters, Quad, HighFollowsOnes, Fold, Append;
    if data == [] {
      OnesInGroup(data);
    } else {
      var k := |data| - 3;
      var last := data[k..];
      GroupsSurvive(data[..k]);
      OnesSplit(data, k);
      OnesInGroup(last);
      FoldIs(last);
      GroupSurvives(last[0], last[1], last[2]);
      FourLetters(Fold(last));
      FourQuad(last[0], last[1], last[2]);
      Halves(Through(data[..k]), Letters(Fold(last)), Groups(data[..k]), Quad(data[k], data[k + 1], data[k + 2]));
    }
  }

  lemma Halves(a: seq<byte>, b: seq<byte>, c: seq<byte>, d: seq<byte>)
    requires |a| == |c|
    ensures a + b == c + d <==> a == c && b == d
  {
    if a + b == c + d {
      assert a == (a + b)[..|a|] && b == (a + b)[|a|..];
    }
  }

  /** The last group of two, told from the low 16 bits; the count is 2, or too high. */
  lemma LastPair(word: nat, rest: seq<byte>)
    requires |rest| == 2 && word / COUNT_UNIT >= 2 && word % COUNT_UNIT % 0x1_0000 == Fold(rest) % 0x1_0000
    ensures |LastGroup(word)| == 4 && (LastGroup(word) == Tail(rest) <==> HighFollowsOnes(rest))
  {
    hide Letters, Fold, HighFollowsOnes, Append, LastGroup, Tail, Quad;
    var a: nat, b: nat := rest[0], rest[1];
    var y, low := word % COUNT_UNIT * 0x100, Fold(rest) % 0x1_0000;
    FoldIs(rest);
    PairSurvives(a, b);
    OnesInGroup(rest);
    PairLetters(word % COUNT_UNIT, word % COUNT_UNIT % 0x1_0000);
    GroupLetters(a, b, 0);
    assert y % 0x100_0000 == low * 0x100 && low == (if b < 0x80 then a else 0xff) * 0x100 + b;
    LettersAgree(y, a * 0x1_0000 + b * 0x100);
    ThreeLetters(word, y);
    TailOfTwo(a, b);
    FourLetters(y);
    assert rest == [a, b];
    PrefixesAgree(Letters(y), Quad(a, b, 0));
  }

  lemma ThreeLetters(word: nat, y: nat)
    requires word / COUNT_UNIT >= 2 && y == word % COUNT_UNIT * 0x100 && y % 0x40 == 0
    ensures LastGroup(word) == Letters(y)[..3] + [PAD] && Letters(y)[3] == Letter(0)
  {
    hide Letter;
  }

  lemma TailOfTwo(a: byte, b: byte)
    ensures Tail([a, b]) == Quad(a, b, 0)[..3] + [PAD] && |Quad(a, b, 0)| == 4 && Quad(a, b, 0)[3] == Letter(0)
  {
    hide Letter;
  }

  lemma PrefixesAgree(p: seq<byte>, q: seq<byte>)
    requires |p| == |q| == 4 && p[3] == q[3]
    ensures p[..3] + [PAD] == q[..3] + [PAD] <==> p == q
  {
    if p[..3] + [PAD] == q[..3] + [PAD] {
      assert p[..3] == (p[..3] + [PAD])[..3] && q[..3] == (q[..3] + [PAD])[..3];
      assert p == p[..3] + [p[3]] && q == q[..3] + [q[3]];
    }
  }

  /** Shifted by a byte, only the low 16 bits are left of 24, and the last sextet is 0. */
  lemma PairLetters(x: nat, low: nat)
    requires low == x % 0x1_0000
    ensures x * 0x100 % 0x100_0000 == low * 0x100 && x * 0x100 % 0x40 == 0
  {
    Remainder(x / 0x1_0000, 0x100_0000, low * 0x100);
    Remainder(x * 4, 0x40, 0);
  }

  /** The last group of one. */
  lemma LastOne(rest: seq<byte>)
    requires |rest| == 1
    ensures |LastGroup(Word(1, Fold(rest)))| == 4 && (LastGroup(Word(1, Fold(rest))) == Tail(rest) <==> rest[0] < 0x80)
  {
    hide Letter, Fold, Or;
    var x, word := Fold(rest), Word(1, Fold(rest));
    FoldHigh(rest);
    WordSplits(1, x);
    if rest[0] >= 0x80 {
      HighSplits(x, 1);
      OrAtLeast(1, 0xff);
      LettersRoundTrip(word % COUNT_UNIT * 0x100 / 0x40 % 0x40, 0);
      assert LastGroup(word)[2] != PAD;
    } else {
      OrAtLeast(1, 0);
      OneLetterPair(rest[0], word);
    }
  }

  lemma OneLetterPair(a: byte, word: nat)
    requires word / COUNT_UNIT == 1 && word % COUNT_UNIT == a
    ensures LastGroup(word) == Tail([a])
  {
    hide Letter;
    GroupLetters(a, 0, 0);
    var y: nat := a;
    assert Letters(y * 0x1_0000)[..2] == Quad(a, 0, 0)[..2];
  }

  lemma BytesSplit(all: seq<byte>)
    ensures var k := Whole(all); BytesSurvive(all) <==> HighFollowsOnes(all[..k]) && HighFollowsOnes(all[k..]) && (|all| - k == 1 ==> all[k] < 0x80)
  {
    OnesSplit(all, Whole(all));
    assert BytesSurvive(all) <==> HighFollowsOnes(all) && (|all| % 3 == 1 ==> all[|all| - 1] < 0x80);
  }

  lemma StraightEnds(all: seq<byte>, s: Sent)
    requires StraightWord(all, s)
    ensures s.out + LastGroup(s.word) == Encode(all) <==> BytesSurvive(all)
  {
    hide Letter, Fold, Word, LastGroup, Tail, Groups, Through, BytesSurvive, HighFollowsOnes;
    var k := Whole(all);
    var rest := all[k..];
    GroupsSurvive(all[..k]);
    BytesSplit(all);
    OnesInGroup(rest);
    Halves(s.out, LastGroup(s.word), Groups(all[..k]), Tail(rest));
    if rest == [] {
      NothingLeft(rest);
    } else if |rest| == 1 {
      LastOne(rest);
    } else {
      PairWord(rest);
      LastPair(s.word, rest);
    }
  }

  lemma NothingLeft(rest: seq<byte>)
    requires rest == []
    ensures LastGroup(Word(0, Fold(rest))) == [] == Tail(rest)
  {
  }

  lemma PairWord(rest: seq<byte>)
    requires |rest| == 2
    ensures var w := Word(2, Fold(rest)); w / COUNT_UNIT >= 2 && w % COUNT_UNIT % 0x1_0000 == Fold(rest) % 0x1_0000
  {
    hide Or, Fold;
    var x := Fold(rest);
    FoldHigh(rest);
    WordSplits(2, x);
    OrAtLeast(2, x / COUNT_UNIT);
    if HasHigh(rest) {
      HighSplits(x, 2);
    }
  }

  lemma {:induction false} GroupsLength(data: seq<byte>)
    requires |data| % 3 == 0
    ensures 3 * |Groups(data)| == 4 * |data|
  {
    if data != [] {
      GroupsLength(data[..|data| - 3]);
    }
  }

  lemma LostEnds(all: seq<byte>, s: Sent)
    requires LostWord(all, s)
    ensures s.out + LastGroup(s.word) == Encode(all) <==> Behind(all, s.out) == 2 && BytesSurvive(all)
  {
    hide Letter, Fold, LastGroup, Tail, Groups, Through, BytesSurvive, HighFollowsOnes;
    var c, k := Behind(all, s.out), Whole(all);
    var rest := all[k..];
    LastLength(s.word);
    TailLength(rest);
    GroupsLength(all[..k]);
    if c == 2 {
      GroupsSurvive(all[..k]);
      BytesSplit(all);
      LastPair(s.word, rest);
      Halves(s.out, LastGroup(s.word), Groups(all[..k]), Tail(rest));
    } else if c == 3 && s.word != 0 {
      // as long as it should be, but it ends with a pad
      var text := s.out + LastGroup(s.word);
      assert rest == [] && all[..k] == all;
      assert text[|text| - 1] == LastGroup(s.word)[3];
      NothingLeft(rest);
      GroupsHaveNoPad(all, |Groups(all)| - 1);
      assert Encode(all) == Groups(all);
    }
  }

  lemma LastLength(word: nat)
    ensures |LastGroup(word)| == if word == 0 then 0 else 4
    ensures word != 0 ==> LastGroup(word)[3] == PAD
  {
  }

  lemma TailLength(rest: seq<byte>)
    requires |rest| < 3
    ensures |Tail(rest)| == if rest == [] then 0 else 4
  {
  }

  /**
   The text that is sent is the Base64 of RFC 4648 exactly if its bytes survive sign extension and its cuts do: a byte from 0x80
   up must stand behind nothing but 0xff in its group and not alone in the last, and no cut may come inside a group after one,
   except between the two bytes of a last group of two.
   */
  lemma SentIsRfc(frags: seq<seq<byte>>)
    ensures SentText(frags) == Encode(Flatten(frags)) <==> BytesSurvive(Flatten(frags)) && CutsSurvive(frags)
  {
    hide StraightWord, LostWord, LastGroup, BytesSurvive, CutsSurvive, NoBadCut, Behind, Encode;
    var all, s := Flatten(frags), SendFragments(frags);
    Progress(frags);
    if NoBadCut(frags) {
      StraightEnds(all, s);
    } else {
      LostEnds(all, s);
    }
  }

  /** Text without bytes from 0x80 up survives in any fragments. */
  lemma SevenBitSurvives(frags: seq<seq<byte>>)
    requires !HasHigh(Flatten(frags))
    ensures SentText(frags) == Encode(Flatten(frags))
  {
    hide SentText, Encode, Whole;
    SentIsRfc(frags);
    var all := Flatten(frags);
    forall j | 0 <= j <= |frags| ensures !BadCut(frags, j) {
      FlattenSplits(frags, j);
      var sent := Flatten(frags[..j]);
      assert forall i :: 0 <= i < |sent| ==> sent[i] == all[i];
      assert forall i :: 0 <= i < |sent[Whole(sent)..]| ==> sent[Whole(sent)..][i] == sent[Whole(sent) + i];
    }
  }

  lemma Associates(a: seq<byte>, b: seq<byte>, c: seq<byte>)
    ensures a + b + c == a + (b + c)
  {
  }
}
