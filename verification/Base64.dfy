/**
 Base64 as section 4 of RFC 4648 defines it, and a reader that takes such text one letter at a time.
 */
module Base64 {
  import opened Bytes

  const PAD: byte := 0x3d
  const BAD := 0xff

  /** The letter of a sextet: base64_one. */
  function Letter(b: nat): byte {
    if b < 26 then 0x41 + b
    else if b < 52 then 0x61 + b - 26
    else if b < 62 then 0x30 + b - 52
    else if b == 62 then 0x2b
    else if b == 63 then 0x2f
    else 0
  }

  /** The sextet of a letter, or BAD: unbase64one. */
  function Sextet(c: byte): byte {
    if 0x41 <= c <= 0x5a then c - 0x41
    else if 0x61 <= c <= 0x7a then c - 0x61 + 26
    else if 0x30 <= c <= 0x39 then c - 0x30 + 52
    else if c == 0x2b then 62
    else if c == 0x2f then 63
    else BAD
  }

  lemma LettersRoundTrip(b: nat, c: byte)
    ensures b < 64 ==> Sextet(Letter(b)) == b && Letter(b) != PAD
    ensures Sextet(c) == BAD || (Sextet(c) < 64 && Letter(Sextet(c)) == c)
  {
  }

  const UPPER := "ABCDEFGHIJKLMNOPQRSTUVWXYZ"
  const LOWER := "abcdefghijklmnopqrstuvwxyz"
  const DIGITS := "0123456789"

  /** The letters are those of Table 1 of RFC 4648, in its order. */
  lemma LettersAre(b: nat)
    requires b < 64
    ensures Letter(b) as char == (UPPER + (LOWER + (DIGITS + "+/")))[b] && Sextet(Letter(b)) == b
  {
    UpperLetters(if b < 26 then b else 0);
    LowerLetters(if 26 <= b < 52 then b - 26 else 0);
    DigitLetters(if 52 <= b < 62 then b - 52 else 0);
    LettersRoundTrip(b, 0);
  }

  lemma UpperLetters(k: nat)
    requires k < 26
    ensures |UPPER| == 26 && UPPER[k] == (0x41 + k) as char
  {
  }

  lemma LowerLetters(k: nat)
    requires k < 26
    ensures |LOWER| == 26 && LOWER[k] == (0x61 + k) as char
  {
  }

  lemma DigitLetters(k: nat)
    requires k < 10
    ensures |DIGITS| == 10 && DIGITS[k] == (0x30 + k) as char
  {
  }

  /** A 24-bit group as four letters. */
  function Quad(a: byte, b: byte, c: byte): (q: seq<byte>)
  {
    [Letter(a / 4), Letter(a % 4 * 16 + b / 16), Letter(b % 16 * 4 + c / 64), Letter(c % 64)]
  }

  function Groups(data: seq<byte>): (text: seq<byte>)
    requires |data| % 3 == 0
  {
    if data == [] then [] else Groups(data[..|data| - 3]) + Quad(data[|data| - 3], data[|data| - 2], data[|data| - 1])
  }

  /** The final group, of one or two bytes, padded. */
  function Tail(rest: seq<byte>): seq<byte>
    requires |rest| < 3
  {
    if rest == [] then []
    else if |rest| == 1 then [Letter(rest[0] / 4), Letter(rest[0] % 4 * 16), PAD, PAD]
    else [Letter(rest[0] / 4), Letter(rest[0] % 4 * 16 + rest[1] / 16), Letter(rest[1] % 16 * 4), PAD]
  }

  function Whole(data: seq<byte>): (k: nat)
    ensures k <= |data| < k + 3 && k % 3 == 0
  {
    |data| / 3 * 3
  }

  function Encode(data: seq<byte>): seq<byte> {
    Groups(data[..Whole(data)]) + Tail(data[Whole(data)..])
  }

  /** The test vectors of section 10 of RFC 4648: "f", "fo", "foo" and "foobar". */
  lemma TestVectors()
    ensures Encode([]) == []
    ensures Encode([0x66]) == [0x5a, 0x67, 0x3d, 0x3d]
    ensures Encode([0x66, 0x6f]) == [0x5a, 0x6d, 0x38, 0x3d]
    ensures Encode([0x66, 0x6f, 0x6f]) == [0x5a, 0x6d, 0x39, 0x76]
    ensures Encode([0x66, 0x6f, 0x6f, 0x62, 0x61, 0x72]) == [0x5a, 0x6d, 0x39, 0x76] + [0x59, 0x6d, 0x46, 0x79]
  {
    Vectors();
    hide Quad, Tail, Groups, Encode;
    OnlyTail([]);
    OnlyTail([0x66]);
    OnlyTail([0x66, 0x6f]);
    OneGroup([], 0x66, 0x6f, 0x6f);
    OneGroup([0x66, 0x6f, 0x6f], 0x62, 0x61, 0x72);
    assert [] + [0x66, 0x6f, 0x6f] == [0x66, 0x6f, 0x6f] && [0x66, 0x6f, 0x6f] + [0x62, 0x61, 0x72] == [0x66, 0x6f, 0x6f, 0x62, 0x61, 0x72];
  }

  lemma Vectors()
    ensures Quad(0x66, 0x6f, 0x6f) == [0x5a, 0x6d, 0x39, 0x76] && Quad(0x62, 0x61, 0x72) == [0x59, 0x6d, 0x46, 0x79]
    ensures Tail([]) == [] && Tail([0x66]) == [0x5a, 0x67, 0x3d, 0x3d] && Tail([0x66, 0x6f]) == [0x5a, 0x6d, 0x38, 0x3d]
  {
  }

  lemma OnlyTail(data: seq<byte>)
    requires |data| < 3
    ensures Groups([]) == [] && Encode(data) == Tail(data)
  {
    hide Quad, Tail;
    assert data[..0] == [] && data[0..] == data;
  }

  lemma OneGroup(data: seq<byte>, a: byte, b: byte, c: byte)
    requires |data| % 3 == 0
    ensures Groups(data + [a, b, c]) == Groups(data) + Quad(a, b, c) && Encode(data + [a, b, c]) == Groups(data + [a, b, c])
  {
    hide Quad, Tail;
    var all := data + [a, b, c];
    assert Whole(all) == |all|;
    assert all[..|all| - 3] == data;
    WholeGroups(all);
  }

  lemma WholeGroups(all: seq<byte>)
    requires |all| % 3 == 0
    ensures Encode(all) == Groups(all)
  {
    hide Quad, Groups;
    assert all[..|all|] == all && all[|all|..] == [];
  }

  /** Where a reader stands: `n` letters of the current group, worth `x`, and the bytes read so far. */
  datatype Reading = Reading(n: nat, x: nat, padded: bool, bad: bool, out: seq<byte>)

  const FRESH := Reading(0, 0, false, false, [])

  predicate Sound(r: Reading) {
    && (r.n == 0 ==> r.x == 0) && (r.n == 1 ==> r.x < 0x40)
    && (r.n == 2 ==> r.x < 0x1000) && (r.n == 3 ==> r.x < 0x4_0000) && r.n < 4
    && (r.padded ==> r.n == 0)
  }

  /** The bytes that a pad releases from an unfinished group. */
  function Released(n: nat, x: nat): seq<byte> {
    if n == 2 then [x / 0x10 % 0x100]
    else if n == 3 then [x / 0x400 % 0x100, x / 4 % 0x100]
    else []
  }

  function Triple(x: nat): seq<byte> {
    [x / 0x1_0000 % 0x100, x / 0x100 % 0x100, x % 0x100]
  }

  /** One more sextet; the fourth completes a group. */
  function Extend(r: Reading, b: nat): Reading {
    var x := r.x * 0x40 + b;
    if r.n == 3 then Reading(0, 0, r.padded, false, r.out + Triple(x)) else Reading(r.n + 1, x, r.padded, false, r.out)
  }

  function Take(r: Reading, c: byte): Reading {
    if r.bad then r
    else if c == PAD then Reading(0, 0, true, false, r.out + Released(r.n, r.x))
    else if Sextet(c) == BAD then r.(bad := true)
    else Extend(r, Sextet(c))
  }

  predicate Extends(longer: seq<byte>, shorter: seq<byte>) {
    |shorter| <= |longer| && longer[..|shorter|] == shorter
  }

  lemma TakeKeeps(r: Reading, c: byte)
    requires Sound(r) && !(r.padded && Sextet(c) < 64)
    ensures Sound(Take(r, c)) && Extends(Take(r, c).out, r.out)
  {
    LettersRoundTrip(0, c);
  }

  function TakeAll(r: Reading, text: seq<byte>): Reading
  {
    if text == [] then r else Take(TakeAll(r, text[..|text| - 1]), text[|text| - 1])
  }

  lemma {:induction false} TakeAllConcat(r: Reading, a: seq<byte>, b: seq<byte>)
    ensures TakeAll(r, a + b) == TakeAll(TakeAll(r, a), b)
  {
    hide Take;
    if b == [] {
      assert a + b == a;
    } else {
      TakeAllConcat(r, a, b[..|b| - 1]);
      assert (a + b)[..|a + b| - 1] == a + b[..|b| - 1];
    }
  }

  lemma TakeSnoc(r: Reading, text: seq<byte>, i: nat)
    requires i < |text|
    ensures TakeAll(r, text[..i + 1]) == Take(TakeAll(r, text[..i]), text[i])
  {
    assert text[..i + 1][..i] == text[..i];
  }

  lemma TakeFour(r: Reading, a: byte, b: byte, c: byte, d: byte)
    ensures TakeAll(r, [a, b, c, d]) == Take(Take(Take(Take(r, a), b), c), d)
  {
    var text := [a, b, c, d];
    assert text == text[..4];
    assert text[..0] == [];
    TakeSnoc(r, text, 0);
    TakeSnoc(r, text, 1);
    TakeSnoc(r, text, 2);
    TakeSnoc(r, text, 3);
  }

  lemma TakeLetter(r: Reading, b: nat)
    requires b < 64 && !r.bad
    ensures Take(r, Letter(b)) == Extend(r, b)
  {
    LettersRoundTrip(b, 0);
  }

  lemma GroupValue(a: byte, b: byte, c: byte)
    ensures ((a / 4 * 0x40 + (a % 4 * 16 + b / 16)) * 0x40 + (b % 16 * 4 + c / 64)) * 0x40 + c % 64 == a * 0x1_0000 + b * 0x100 + c
  {
    var a1, a0, b1, b0, c1, c0 := a / 4, a % 4, b / 16, b % 16, c / 64, c % 64;
    assert a == 4 * a1 + a0 && b == 16 * b1 + b0 && c == 64 * c1 + c0;
  }

  lemma TripleOf(a: byte, b: byte, c: byte)
    ensures Triple(a * 0x1_0000 + b * 0x100 + c) == [a, b, c]
  {
    var low := b * 0x100 + c;
    assert (a * 0x1_0000 + low) / 0x1_0000 == a;
    assert (a * 0x1_0000 + low) / 0x100 == a * 0x100 + b;
    assert (a * 0x1_0000 + low) % 0x100 == c;
  }

  lemma ReadQuad(r: Reading, a: byte, b: byte, c: byte)
    requires r.n == 0 && r.x == 0 && !r.bad
    ensures TakeAll(r, Quad(a, b, c)) == r.(out := r.out + [a, b, c])
  {
    hide Letter, Sextet, Take, Triple;
    var s, t, u, v := a / 4, a % 4 * 16 + b / 16, b % 16 * 4 + c / 64, c % 64;
    TakeFour(r, Letter(s), Letter(t), Letter(u), Letter(v));
    TakeLetter(r, s);
    TakeLetter(Extend(r, s), t);
    TakeLetter(Extend(Extend(r, s), t), u);
    TakeLetter(Extend(Extend(Extend(r, s), t), u), v);
    GroupValue(a, b, c);
    TripleOf(a, b, c);
  }

  lemma {:induction false} ReadGroups(r: Reading, data: seq<byte>)
    requires r.n == 0 && r.x == 0 && !r.bad && |data| % 3 == 0
    ensures TakeAll(r, Groups(data)) == r.(out := r.out + data)
  {
    hide Quad, Take;
    if data != [] {
      var k := |data| - 3;
      ReadGroups(r, data[..k]);
      TakeAllConcat(r, Groups(data[..k]), Quad(data[k], data[k + 1], data[k + 2]));
      ReadQuad(r.(out := r.out + data[..k]), data[k], data[k + 1], data[k + 2]);
      assert r.out + data[..k] + [data[k], data[k + 1], data[k + 2]] == r.out + data;
    }
  }

  lemma ReadShort(r: Reading, a: byte)
    requires r.n == 0 && r.x == 0 && !r.bad
    ensures TakeAll(r, Tail([a])) == r.(out := r.out + [a], padded := true)
  {
    hide Letter, Sextet, TakeAll;
    var s, t := a / 4, a % 4 * 16;
    TakeFour(r, Letter(s), Letter(t), PAD, PAD);
    TakeLetter(r, s);
    TakeLetter(Extend(r, s), t);
    assert (s * 0x40 + t) / 0x10 % 0x100 == a;
  }

  lemma PairValue(a: byte, b: byte)
    ensures (a / 4 * 0x40 + (a % 4 * 16 + b / 16)) * 0x40 + b % 16 * 4 == a * 0x400 + b * 4
    ensures Released(3, a * 0x400 + b * 4) == [a, b]
  {
    var a1, a0, b1, b0 := a / 4, a % 4, b / 16, b % 16;
    assert a == 4 * a1 + a0 && b == 16 * b1 + b0;
    assert (a * 0x400 + b * 4) / 0x400 == a;
    assert (a * 0x400 + b * 4) / 4 == a * 0x100 + b;
  }

  lemma ReadLong(r: Reading, a: byte, b: byte)
    requires r.n == 0 && r.x == 0 && !r.bad
    ensures TakeAll(r, Tail([a, b])) == r.(out := r.out + [a, b], padded := true)
  {
    hide Letter, Sextet, TakeAll, Released;
    var s, t, u := a / 4, a % 4 * 16 + b / 16, b % 16 * 4;
    TakeFour(r, Letter(s), Letter(t), Letter(u), PAD);
    TakeLetter(r, s);
    TakeLetter(Extend(r, s), t);
    TakeLetter(Extend(Extend(r, s), t), u);
    PairValue(a, b);
  }

  lemma ReadTail(r: Reading, rest: seq<byte>)
    requires r.n == 0 && r.x == 0 && !r.bad && 0 < |rest| < 3
    ensures TakeAll(r, Tail(rest)) == r.(out := r.out + rest, padded := true)
  {
    hide Tail, TakeAll;
    if |rest| == 1 {
      assert rest == [rest[0]];
      ReadShort(r, rest[0]);
    } else {
      assert rest == [rest[0], rest[1]];
      ReadLong(r, rest[0], rest[1]);
    }
  }

  lemma NoTail()
    ensures Tail([]) == []
  {
  }

  /** Reading back what was encoded gives the data, and leaves no group unfinished. */
  lemma ReadEncoded(r: Reading, data: seq<byte>)
    requires r.n == 0 && r.x == 0 && !r.bad && !r.padded
    ensures TakeAll(r, Encode(data)) == r.(out := r.out + data, padded := |data| % 3 != 0)
  {
    hide Groups, Tail, Take;
    var k := Whole(data);
    ReadGroups(r, data[..k]);
    TakeAllConcat(r, Groups(data[..k]), Tail(data[k..]));
    if k < |data| {
      ReadTail(r.(out := r.out + data[..k]), data[k..]);
      assert r.out + data[..k] + data[k..] == r.out + data;
    } else {
      assert data[..k] == data && data[k..] == [];
      NoTail();
    }
  }

  /** How many pads the text of `n` bytes ends with. */
  function Pads(n: nat): (k: nat)
    ensures k < 3
  {
    if n % 3 == 0 then 0 else 3 - n % 3
  }

  lemma {:induction false} GroupsHaveNoPad(data: seq<byte>, i: nat)
    requires |data| % 3 == 0 && i < |Groups(data)|
    ensures Groups(data)[i] != PAD
  {
    hide Letter;
    var k := |data| - 3;
    if i < |Groups(data[..k])| {
      GroupsHaveNoPad(data[..k], i);
    } else {
      var a, b, c := data[k], data[k + 1], data[k + 2];
      LettersRoundTrip(a / 4, 0);
      LettersRoundTrip(a % 4 * 16 + b / 16, 0);
      LettersRoundTrip(b % 16 * 4 + c / 64, 0);
      LettersRoundTrip(c % 64, 0);
    }
  }

  lemma TailPads(rest: seq<byte>, i: nat)
    requires 0 < |rest| < 3 && i < 4
    ensures |Tail(rest)| == 4 && (Tail(rest)[i] == PAD <==> i >= 1 + |rest|)
  {
    hide Letter;
    LettersRoundTrip(rest[0] / 4, 0);
    LettersRoundTrip(rest[0] % 4 * 16, 0);
    if |rest| == 2 {
      LettersRoundTrip(rest[0] % 4 * 16 + rest[1] / 16, 0);
      LettersRoundTrip(rest[1] % 16 * 4, 0);
    }
  }

  /** Pads stand at the very end of encoded text and nowhere else. */
  lemma PadsLast(data: seq<byte>, i: nat)
    requires i < |Encode(data)|
    ensures Encode(data)[i] == PAD <==> i >= |Encode(data)| - Pads(|data|)
  {
    hide Groups, Tail;
    var k := Whole(data);
    var groups, rest := Groups(data[..k]), data[k..];
    if i < |groups| {
      GroupsHaveNoPad(data[..k], i);
      if rest != [] {
        TailPads(rest, 0);
      }
    } else {
      if rest != [] {
        TailPads(rest, 0);
        TailPads(rest, i - |groups|);
      } else {
        NoTail();
      }
    }
  }

  lemma {:induction false} PaddedByPad(r: Reading, text: seq<byte>)
    requires !r.padded && TakeAll(r, text).padded
    ensures exists i :: 0 <= i < |text| && text[i] == PAD
  {
    hide Released, Sextet, Triple;
    var k := |text| - 1;
    if TakeAll(r, text[..k]).padded {
      PaddedByPad(r, text[..k]);
      var i :| 0 <= i < k && text[..k][i] == PAD;
      assert text[i] == PAD;
    } else {
      assert text[k] == PAD;
    }
  }

  /** The pads of the final group come after its last letter, which leaves it with bytes to release. */
  lemma TailReleases(r: Reading, rest: seq<byte>)
    requires r.n == 0 && r.x == 0 && !r.bad && 0 < |rest| < 3
    ensures TakeAll(r, Tail(rest)[..1 + |rest|]).out == r.out
  {
    hide Letter, Sextet, Triple, Released;
    var q := Tail(rest);
    TakeSnoc(r, q, 0);
    TakeSnoc(r, q, 1);
    assert q[..0] == [];
    var s, t := rest[0] / 4, rest[0] % 4 * 16 + if |rest| == 1 then 0 else rest[1] / 16;
    TakeLetter(r, s);
    TakeLetter(Extend(r, s), t);
    if |rest| == 2 {
      TakeSnoc(r, q, 2);
      TakeLetter(Extend(Extend(r, s), t), rest[1] % 16 * 4);
    }
  }

  lemma LastLetterCompletes(r: Reading, c: byte)
    requires !r.bad && c != PAD && !Take(r, c).bad && Take(r, c).n == 0 && Sound(r)
    ensures |Take(r, c).out| > |r.out|
  {
  }

  /** Without its last turn encoded text has not given all its bytes. */
  lemma EndReleases(r: Reading, data: seq<byte>)
    requires r.n == 0 && r.x == 0 && !r.bad && !r.padded && data != []
    ensures var text := Encode(data); var p := Pads(|data|);
            |text| >= 4 && |TakeAll(r, text[..|text| - if p == 0 then 1 else p]).out| < |r.out| + |data|
  {
    hide Groups, Tail, Take, TakeAll;
    var k := Whole(data);
    var groups, rest, text := Groups(data[..k]), data[k..], Encode(data);
    ReadEncoded(r, data);
    ReadGroups(r, data[..k]);
    if rest == [] {
      NoTail();
      GroupsBegin(data);
      assert data[..k] == data;
      var before := TakeAll(r, text[..|text| - 1]);
      assert text[..|text|] == text;
      TakeSnoc(r, text, |text| - 1);
      forall j | 0 <= j < |text| ensures text[j] != PAD {
        PadsLast(data, j);
      }
      SoundTake(r, text, |text| - 1);
      LastLetterCompletes(before, text[|text| - 1]);
    } else {
      TailPads(rest, 0);
      TailReleases(r.(out := r.out + data[..k]), rest);
      assert text[..|text| - Pads(|data|)] == groups + Tail(rest)[..1 + |rest|];
      TakeAllConcat(r, groups, Tail(rest)[..1 + |rest|]);
    }
  }

  lemma {:induction false} BadStays(r: Reading, text: seq<byte>)
    requires r.bad
    ensures TakeAll(r, text) == r
  {
    if text != [] {
      BadStays(r, text[..|text| - 1]);
    }
  }

  lemma PrefixIsGood(r: Reading, text: seq<byte>, i: nat)
    requires i <= |text|
    ensures TakeAll(r, text[..i]).bad ==> TakeAll(r, text).bad
  {
    var s := TakeAll(r, text[..i]);
    assert text[..i] + text[i..] == text;
    TakeAllConcat(r, text[..i], text[i..]);
    if s.bad {
      BadStays(s, text[i..]);
    }
  }

  lemma {:induction false} SoundTake(r: Reading, text: seq<byte>, i: nat)
    requires Sound(r) && !r.bad && !TakeAll(r, text).bad && i <= |text|
    requires !r.padded && forall j :: 0 <= j < |text| ==> text[j] != PAD
    ensures Sound(TakeAll(r, text[..i])) && !TakeAll(r, text[..i]).bad && !TakeAll(r, text[..i]).padded
  {
    hide Released, Sextet, Triple;
    PrefixIsGood(r, text, i);
    if i > 0 {
      SoundTake(r, text, i - 1);
      TakeSnoc(r, text, i - 1);
      LettersRoundTrip(0, text[i - 1]);
      TakeKeeps(TakeAll(r, text[..i - 1]), text[i - 1]);
    } else {
      assert text[..0] == [];
    }
  }

  lemma {:induction false} GroupsBegin(data: seq<byte>)
    requires |data| % 3 == 0 && data != []
    ensures |Groups(data)| >= 4 && Groups(data)[0] == Letter(data[0] / 4)
  {
    var k := |data| - 3;
    assert Quad(data[k], data[k + 1], data[k + 2])[0] == Letter(data[k] / 4);
    hide Letter, Quad;
    if k > 0 {
      GroupsBegin(data[..k]);
    } else {
      assert Groups(data[..0]) == [];
    }
  }

  lemma EncodeBegins(data: seq<byte>)
    requires data != []
    ensures Encode(data) != [] && Encode(data)[0] == Letter(data[0] / 4)
  {
    hide Letter;
    var k := Whole(data);
    if k > 0 {
      GroupsBegin(data[..k]);
    }
  }

  lemma PrintableLetter(b: nat)
    requires b < 64
    ensures 0x20 <= Letter(b) < 0x7f
  {
  }

  lemma {:induction false} GroupsPrintable(data: seq<byte>, i: nat)
    requires |data| % 3 == 0 && i < |Groups(data)|
    ensures 0x20 <= Groups(data)[i] < 0x7f
  {
    hide Letter;
    var k := |data| - 3;
    if i < |Groups(data[..k])| {
      GroupsPrintable(data[..k], i);
    } else {
      var a, b, c := data[k], data[k + 1], data[k + 2];
      PrintableLetter(a / 4);
      PrintableLetter(a % 4 * 16 + b / 16);
      PrintableLetter(b % 16 * 4 + c / 64);
      PrintableLetter(c % 64);
    }
  }

  lemma EncodePrintable(data: seq<byte>, i: nat)
    requires i < |Encode(data)|
    ensures 0x20 <= Encode(data)[i] < 0x7f
  {
    hide Letter, Groups;
    var k := Whole(data);
    var rest := data[k..];
    if i < |Groups(data[..k])| {
      GroupsPrintable(data[..k], i);
    } else {
      PrintableLetter(rest[0] / 4);
      PrintableLetter(rest[0] % 4 * 16);
      if |rest| == 2 {
        PrintableLetter(rest[0] % 4 * 16 + rest[1] / 16);
        PrintableLetter(rest[1] % 16 * 4);
      }
    }
  }
}
