/**
 UTF-8 in the form of section 2 of RFC 2279, one to six bytes: the incremental decoder of
 src/libvterm/src/encoding.c and the encoder of src/libvterm/src/utf8.h, which writes backwards.
 */
module Utf8 {
  import opened Bytes

  const INVALID := 0xfffd
  const LIMIT := 0x8000_0000

  /** utf8_seqlen. */
  function Length(cp: nat): (n: nat)
    ensures 1 <= n <= 6
  {
    if cp < 0x80 then 1 else if cp < 0x800 then 2 else if cp < 0x1_0000 then 3
    else if cp < 0x20_0000 then 4 else if cp < 0x400_0000 then 5 else 6
  }

  /** What is left of a code point above its last `k` groups of six bits, and those groups as bytes. */
  function Top(cp: nat, k: nat): nat { if k == 0 then cp else Top(cp / 0x40, k - 1) }

  function Tail(cp: nat, k: nat): (tail: seq<byte>)
    ensures |tail| == k
  {
    if k == 0 then [] else Tail(cp / 0x40, k - 1) + [0x80 + cp % 0x40]
  }

  /** The mark of a first byte, and how many values are left beside it. */
  function Mark(n: nat): nat
    requires 1 <= n <= 6
  {
    if n == 1 then 0 else if n == 2 then 0xc0 else if n == 3 then 0xe0 else if n == 4 then 0xf0 else if n == 5 then 0xf8 else 0xfc
  }

  function Room(n: nat): nat
    requires 1 <= n <= 6
  {
    if n == 1 then 0x80 else if n == 2 then 0x20 else if n == 3 then 0x10 else if n == 4 then 8 else if n == 5 then 4 else 2
  }

  /** One past the greatest value of `k` groups under a first byte of an `n`-byte sequence. */
  function Cap(n: nat, k: nat): nat
    requires 1 <= n <= 6
  {
    if k == 0 then Room(n) else Cap(n, k - 1) * 0x40
  }

  lemma {:induction false} TopFits(n: nat, cp: nat, k: nat)
    requires 1 <= n <= 6
    ensures cp < Cap(n, k) <==> Top(cp, k) < Room(n)
  {
    if k > 0 {
      TopFits(n, cp / 0x40, k - 1);
    }
  }

  lemma Caps()
    ensures Cap(1, 0) == 0x80 && Cap(2, 1) == 0x800 && Cap(3, 2) == 0x1_0000
    ensures Cap(4, 3) == 0x20_0000 && Cap(5, 4) == 0x400_0000 && Cap(6, 5) == LIMIT
  {
    assert Cap(3, 1) == 0x400;
    assert Cap(4, 1) == 0x200 && Cap(4, 2) == 0x8000;
    assert Cap(5, 1) == 0x100 && Cap(5, 2) == 0x4000 && Cap(5, 3) == 0x10_0000;
    assert Cap(6, 1) == 0x80 && Cap(6, 2) == 0x2000 && Cap(6, 3) == 0x8_0000 && Cap(6, 4) == 0x200_0000;
  }

  /** The first `k` + 1 bytes of an `n`-byte sequence, worth `cp`. */
  function Form(n: nat, cp: nat, k: nat): (bytes: seq<byte>)
    requires 1 <= n <= 6 && cp < Cap(n, k)
    ensures |bytes| == k + 1
  {
    TopFits(n, cp, k);
    [Mark(n) + Top(cp, k)] + Tail(cp, k)
  }

  /** A code point as RFC 2279 encodes it. */
  function Encode(cp: nat): (bytes: seq<byte>)
    requires cp < LIMIT
    ensures |bytes| == Length(cp)
  {
    Caps();
    Form(Length(cp), cp, Length(cp) - 1)
  }

  /** The six rows of the table in section 2 of RFC 2279. */
  lemma EncodingTable(cp: nat)
    ensures cp < 0x80 ==> Encode(cp) == [cp]
    ensures 0x80 <= cp < 0x800 ==> Encode(cp) == [0xc0 + cp / 64, 0x80 + cp % 64]
    ensures 0x800 <= cp < 0x1_0000 ==> Encode(cp) == [0xe0 + cp / 64 / 64, 0x80 + cp / 64 % 64, 0x80 + cp % 64]
    ensures 0x1_0000 <= cp < 0x20_0000 ==>
              Encode(cp) == [0xf0 + cp / 64 / 64 / 64, 0x80 + cp / 64 / 64 % 64, 0x80 + cp / 64 % 64, 0x80 + cp % 64]
    ensures 0x20_0000 <= cp < 0x400_0000 ==>
              Encode(cp) == [0xf8 + cp / 64 / 64 / 64 / 64, 0x80 + cp / 64 / 64 / 64 % 64, 0x80 + cp / 64 / 64 % 64, 0x80 + cp / 64 % 64, 0x80 + cp % 64]
    ensures 0x400_0000 <= cp < 0x8000_0000 ==>
              Encode(cp) == [0xfc + cp / 64 / 64 / 64 / 64 / 64, 0x80 + cp / 64 / 64 / 64 / 64 % 64, 0x80 + cp / 64 / 64 / 64 % 64,
                             0x80 + cp / 64 / 64 % 64, 0x80 + cp / 64 % 64, 0x80 + cp % 64]
  {
    hide Cap;
    Caps();
    TailIs(cp);
  }

  lemma TailIs(cp: nat)
    ensures Tail(cp, 1) == [0x80 + cp % 64] && Top(cp, 1) == cp / 64
    ensures Tail(cp, 2) == [0x80 + cp / 64 % 64, 0x80 + cp % 64] && Top(cp, 2) == cp / 64 / 64
    ensures Tail(cp, 3) == [0x80 + cp / 64 / 64 % 64, 0x80 + cp / 64 % 64, 0x80 + cp % 64] && Top(cp, 3) == cp / 64 / 64 / 64
    ensures Tail(cp, 4) == [0x80 + cp / 64 / 64 / 64 % 64, 0x80 + cp / 64 / 64 % 64, 0x80 + cp / 64 % 64, 0x80 + cp % 64] && Top(cp, 4) == cp / 64 / 64 / 64 / 64
    ensures Tail(cp, 5) == [0x80 + cp / 64 / 64 / 64 / 64 % 64, 0x80 + cp / 64 / 64 / 64 % 64, 0x80 + cp / 64 / 64 % 64, 0x80 + cp / 64 % 64, 0x80 + cp % 64] && Top(cp, 5) == cp / 64 / 64 / 64 / 64 / 64
    ensures Tail(cp, 0) == [] && Top(cp, 0) == cp
  {
    hide Tail, Top;
    TailMore(cp, 0);
    TailOne(cp);
    TailTwo(cp);
    TailThree(cp);
    TailFour(cp);
    TailFive(cp);
  }

  lemma TailOne(cp: nat)
    ensures Tail(cp, 1) == [0x80 + cp % 64] && Top(cp, 1) == cp / 64
  {
    hide Tail, Top;
    TailMore(cp, 0);
    TailMore(cp / 64, 0);
  }

  lemma TailTwo(cp: nat)
    ensures Tail(cp, 2) == [0x80 + cp / 64 % 64, 0x80 + cp % 64] && Top(cp, 2) == cp / 64 / 64
  {
    hide Tail, Top;
    TailMore(cp, 1);
    TailOne(cp / 64);
  }

  lemma TailThree(cp: nat)
    ensures Tail(cp, 3) == [0x80 + cp / 64 / 64 % 64, 0x80 + cp / 64 % 64, 0x80 + cp % 64] && Top(cp, 3) == cp / 64 / 64 / 64
  {
    hide Tail, Top;
    TailMore(cp, 2);
    TailTwo(cp / 64);
  }

  lemma TailFour(cp: nat)
    ensures Tail(cp, 4) == [0x80 + cp / 64 / 64 / 64 % 64, 0x80 + cp / 64 / 64 % 64, 0x80 + cp / 64 % 64, 0x80 + cp % 64] && Top(cp, 4) == cp / 64 / 64 / 64 / 64
  {
    hide Tail, Top;
    TailMore(cp, 3);
    TailThree(cp / 64);
  }

  lemma TailFive(cp: nat)
    ensures Tail(cp, 5) == [0x80 + cp / 64 / 64 / 64 / 64 % 64, 0x80 + cp / 64 / 64 / 64 % 64, 0x80 + cp / 64 / 64 % 64, 0x80 + cp / 64 % 64, 0x80 + cp % 64] && Top(cp, 5) == cp / 64 / 64 / 64 / 64 / 64
  {
    hide Tail, Top;
    TailMore(cp, 4);
    TailFour(cp / 64);
  }

  lemma TailMore(cp: nat, k: nat)
    ensures Tail(cp, 0) == [] && Tail(cp, k + 1) == Tail(cp / 64, k) + [0x80 + cp % 64]
    ensures Top(cp, 0) == cp && Top(cp, k + 1) == Top(cp / 64, k)
  {
  }

  /** fill_utf8: from the last byte to the first. */
  method FillUtf8(codepoint: nat, str: array<byte>, offset: nat) returns (nbytes: nat)
    requires codepoint < LIMIT && offset + Length(codepoint) <= str.Length
    modifies str
    ensures nbytes == Length(codepoint)
    ensures str[offset..offset + nbytes] == Encode(codepoint)
    ensures forall i :: 0 <= i < str.Length && !(offset <= i < offset + nbytes) ==> str[i] == old(str[i])
  {
    hide Form, Tail, Top, Cap;
    nbytes := Length(codepoint);
    var rest: nat, b: nat := codepoint, nbytes;
    while b > 1
      invariant 1 <= b <= nbytes
      invariant Top(codepoint, nbytes - 1) == Top(rest, b - 1)
      invariant Tail(codepoint, nbytes - 1) == Tail(rest, b - 1) + str[offset + b..offset + nbytes]
      invariant forall i :: 0 <= i < str.Length && !(offset + b <= i < offset + nbytes) ==> str[i] == old(str[i])
    {
      b := b - 1;
      ghost var behind := str[offset + b + 1..offset + nbytes];
      str[offset + b] := 0x80 + rest % 0x40;
      assert str[offset + b..offset + nbytes] == [0x80 + rest % 0x40] + behind;
      TailSnoc(rest, b, behind);
      rest := rest / 0x40;
    }
    NoTail(rest);
    Caps();
    FormIs(nbytes, codepoint, nbytes - 1);
    str[offset] := Mark(nbytes) + rest % Room(nbytes);
    assert str[offset..offset + nbytes] == [str[offset]] + str[offset + 1..offset + nbytes];
  }

  lemma TailSnoc(cp: nat, k: nat, behind: seq<byte>)
    requires k > 0
    ensures Tail(cp, k) + behind == Tail(cp / 0x40, k - 1) + ([0x80 + cp % 0x40] + behind)
    ensures Top(cp, k) == Top(cp / 0x40, k - 1)
  {
  }

  lemma NoTail(cp: nat)
    ensures Tail(cp, 0) == [] && Top(cp, 0) == cp
  {
  }

  lemma FormIs(n: nat, cp: nat, k: nat)
    requires 1 <= n <= 6 && cp < Cap(n, k)
    ensures Top(cp, k) < Room(n) && Form(n, cp, k) == [Mark(n) + Top(cp, k)] + Tail(cp, k)
  {
    TopFits(n, cp, k);
  }

  /** A decoded code point and the bytes it came from. */
  datatype Piece = Piece(cp: nat, bytes: seq<byte>)

  /** The decoder between two bytes; `group` is what it has read of the sequence it is in. */
  datatype Decoding = Decoding(remaining: nat, total: nat, cp: nat, group: seq<byte>)

  const IDLE := Decoding(0, 0, 0, [])

  datatype Out = Out(decoding: Decoding, pieces: seq<Piece>)

  /** C0 controls and DEL are not for the decoder. */
  predicate Stops(c: byte) { c < 0x20 || c == 0x7f }

  predicate Excluded(cp: nat) {
    0xd800 <= cp <= 0xdfff || cp == 0xfffe || cp == 0xffff
  }

  predicate Overlong(total: nat, cp: nat) {
    (total == 2 && cp < 0x80) || (total == 3 && cp < 0x800) || (total == 4 && cp < 0x1_0000) ||
    (total == 5 && cp < 0x20_0000) || (total == 6 && cp < 0x400_0000)
  }

  function Checked(total: nat, cp: nat): nat {
    if Overlong(total, cp) || Excluded(cp) then INVALID else cp
  }

  /** How many bytes the sequence has that begins with this byte; 0 if none does. */
  function Announced(c: byte): (n: nat)
    ensures n == 0 || 2 <= n <= 6
  {
    if 0xc0 <= c < 0xe0 then 2 else if 0xe0 <= c < 0xf0 then 3 else if 0xf0 <= c < 0xf8 then 4
    else if 0xf8 <= c < 0xfc then 5 else if 0xfc <= c < 0xfe then 6 else 0
  }

  function Abandoned(d: Decoding): seq<Piece> {
    if d.remaining > 0 then [Piece(INVALID, d.group)] else []
  }

  function Step(d: Decoding, c: byte): Out
    requires !Stops(c)
  {
    var n := Announced(c);
    if c < 0x80 then Out(d.(remaining := 0, group := []), Abandoned(d) + [Piece(c, [c])])
    else if c < 0xc0 then
      if d.remaining == 0 then Out(d, [Piece(INVALID, [c])])
      else
        var cp := d.cp * 0x40 + c % 0x40;
        if d.remaining == 1
        then Out(Decoding(0, d.total, Checked(d.total, cp), []), [Piece(Checked(d.total, cp), d.group + [c])])
        else Out(Decoding(d.remaining - 1, d.total, cp, d.group + [c]), [])
    else if n > 0 then Out(Decoding(n - 1, n, c % Room(n), [c]), Abandoned(d))
    else Out(d, [Piece(INVALID, [c])])
  }

  predicate NoStops(bytes: seq<byte>) {
    forall i :: 0 <= i < |bytes| ==> !Stops(bytes[i])
  }

  function Run(d: Decoding, bytes: seq<byte>): Out
    requires NoStops(bytes)
  {
    if bytes == [] then Out(d, [])
    else
      var before := Run(d, bytes[..|bytes| - 1]);
      var now := Step(before.decoding, bytes[|bytes| - 1]);
      Out(now.decoding, before.pieces + now.pieces)
  }

  /** The decoder does not see where one piece of input ends and the next begins. */
  lemma {:induction false} RunConcat(d: Decoding, a: seq<byte>, b: seq<byte>)
    requires NoStops(a) && NoStops(b)
    ensures NoStops(a + b)
    ensures var first := Run(d, a); var second := Run(first.decoding, b);
            Run(d, a + b) == Out(second.decoding, first.pieces + second.pieces)
  {
    hide Step;
    if b == [] {
      assert a + b == a;
    } else {
      var last := |b| - 1;
      RunConcat(d, a, b[..last]);
      assert (a + b)[..|a + b| - 1] == a + b[..last];
    }
  }

  lemma RunSnoc(d: Decoding, bytes: seq<byte>, c: byte)
    requires NoStops(bytes) && !Stops(c)
    ensures NoStops(bytes + [c])
    ensures var before := Run(d, bytes); var now := Step(before.decoding, c);
            Run(d, bytes + [c]) == Out(now.decoding, before.pieces + now.pieces)
  {
    hide Step;
    assert (bytes + [c])[..|bytes|] == bytes;
  }

  /** An unfinished sequence is the beginning of an encoding of what has been read of it. */
  ghost predicate Coherent(d: Decoding) {
    if d.remaining == 0 then d.group == []
    else
      && 2 <= d.total <= 6 && d.remaining < d.total
      && d.cp < Cap(d.total, d.total - d.remaining - 1)
      && d.group == Form(d.total, d.cp, d.total - d.remaining - 1)
  }

  /** One more group of six bits. */
  lemma FormSnoc(n: nat, cp: nat, k: nat, c: byte)
    requires 1 <= n <= 6 && cp < Cap(n, k) && 0x80 <= c < 0xc0
    ensures cp * 0x40 + c % 0x40 < Cap(n, k + 1)
    ensures Form(n, cp * 0x40 + c % 0x40, k + 1) == Form(n, cp, k) + [c]
  {
    var cp' := cp * 0x40 + c % 0x40;
    assert cp' / 0x40 == cp && 0x80 + cp' % 0x40 == c;
  }

  /** What a piece says is true: it replaces its bytes, or it encodes to them. */
  predicate Canonical(p: Piece) {
    p.cp == INVALID || (p.cp < LIMIT && Encode(p.cp) == p.bytes)
  }

  /** A sequence of the right length for its value is the encoding of that value. */
  lemma CheckedIsCanonical(n: nat, cp: nat)
    requires 2 <= n <= 6 && cp < Cap(n, n - 1)
    ensures Canonical(Piece(Checked(n, cp), Form(n, cp, n - 1)))
  {
    hide Form, Cap;
    Caps();
  }

  lemma AsciiForm(c: byte)
    requires c < 0x80
    ensures Encode(c) == [c]
  {
    assert Tail(c, 0) == [];
  }

  lemma LeadForm(n: nat, c: byte)
    requires n == Announced(c) && n > 0
    ensures c % Room(n) < Cap(n, 0) && Form(n, c % Room(n), 0) == [c]
  {
    assert Tail(c % Room(n), 0) == [];
  }

  lemma JoinedFew(a: Piece, b: Piece)
    ensures Joined([]) == [] && Joined([a]) == a.bytes && Joined([a, b]) == a.bytes + b.bytes
    ensures [a] + [b] == [a, b] && [] + [a] == [a]
  {
    assert [a, b][..1] == [a] && [a][..0] == [];
  }

  lemma StepKeeps(d: Decoding, c: byte)
    requires Coherent(d) && !Stops(c) && c < 0xfe
    ensures var o := Step(d, c);
            && Coherent(o.decoding)
            && (forall i :: 0 <= i < |o.pieces| ==> Canonical(o.pieces[i]))
            && Joined(o.pieces) + o.decoding.group == d.group + [c]
  {
    hide Form, Cap, Encode, Joined, Checked, Room;
    var n, lost := Announced(c), Piece(INVALID, d.group);
    JoinedFew(lost, Piece(c, [c]));
    JoinedFew(Piece(c, [c]), lost);
    JoinedFew(Piece(INVALID, [c]), lost);
    if c < 0x80 {
      AsciiForm(c);
    } else if c < 0xc0 {
      if d.remaining > 0 {
        var k := d.total - d.remaining - 1;
        var cp := d.cp * 0x40 + c % 0x40;
        FormSnoc(d.total, d.cp, k, c);
        var done := Piece(Checked(d.total, cp), d.group + [c]);
        JoinedFew(done, done);
        if d.remaining == 1 {
          CheckedIsCanonical(d.total, cp);
        }
      }
    } else {
      LeadForm(n, c);
    }
  }

  function Joined(pieces: seq<Piece>): seq<byte> {
    if pieces == [] then [] else Joined(pieces[..|pieces| - 1]) + pieces[|pieces| - 1].bytes
  }

  lemma {:induction false} JoinedConcat(a: seq<Piece>, b: seq<Piece>)
    ensures Joined(a + b) == Joined(a) + Joined(b)
  {
    if b == [] {
      assert a + b == a;
    } else {
      var most, last := b[..|b| - 1], b[|b| - 1];
      JoinedConcat(a, most);
      assert (a + b)[..|a + b| - 1] == a + most;
      assert Joined(a) + Joined(most) + last.bytes == Joined(a) + (Joined(most) + last.bytes);
    }
  }

  lemma Regroup(a: seq<byte>, b: seq<byte>, c: seq<byte>, open: seq<byte>, first: seq<byte>, bytes: seq<byte>)
    requires bytes != [] && a + open == first + bytes[..|bytes| - 1] && b + c == open + [bytes[|bytes| - 1]]
    ensures a + b + c == first + bytes
  {
    var most, last := bytes[..|bytes| - 1], bytes[|bytes| - 1];
    assert a + b + c == a + (b + c) == a + open + [last];
    assert first + bytes == first + most + [last];
  }

  /**
   Canonicity: on input free of 0xfe and 0xff the decoder cuts what it reads into pieces, loses nothing, and
   every piece either encodes to exactly its bytes or is replaced by U+FFFD.
   */
  lemma {:induction false} RunIsCanonical(d: Decoding, bytes: seq<byte>)
    requires Coherent(d) && NoStops(bytes) && forall i :: 0 <= i < |bytes| ==> bytes[i] < 0xfe
    ensures var o := Run(d, bytes);
            && Coherent(o.decoding)
            && (forall i :: 0 <= i < |o.pieces| ==> Canonical(o.pieces[i]))
            && Joined(o.pieces) + o.decoding.group == d.group + bytes
  {
    hide Step, Canonical, Coherent, Joined;
    if bytes == [] {
      JoinedFew(Piece(0, []), Piece(0, []));
      assert d.group + bytes == d.group;
      assert [] + d.group == d.group;
    } else {
      var last := |bytes| - 1;
      var before := Run(d, bytes[..last]);
      RunIsCanonical(d, bytes[..last]);
      var now := Step(before.decoding, bytes[last]);
      StepKeeps(before.decoding, bytes[last]);
      JoinedConcat(before.pieces, now.pieces);
      Regroup(Joined(before.pieces), Joined(now.pieces), now.decoding.group, before.decoding.group, d.group, bytes);
    }
  }

  /** The code points the decoder gives back as they are. */
  predicate Accepted(cp: nat) {
    0x20 <= cp < LIMIT && cp != 0x7f && !Excluded(cp)
  }

  /** Everything from a space up but DEL, the surrogates, U+FFFE and U+FFFF. */
  lemma AcceptedAre(cp: nat)
    ensures Accepted(cp) <==> 0x20 <= cp <= 0x7e || 0x80 <= cp <= 0xd7ff || 0xe000 <= cp <= 0xfffd || 0x1_0000 <= cp <= 0x7fff_ffff
  {
  }

  /**
   Any sequence of the right shape, overlong or not, is read as its value if that is one the decoder gives back and needs
   so many bytes, and else as U+FFFD.
   */
  lemma SequenceIsRead(d: Decoding, n: nat, cp: nat)
    requires d.remaining == 0 && d.group == [] && 2 <= n <= 6 && cp < Cap(n, n - 1)
    ensures NoStops(Form(n, cp, n - 1))
    ensures var least := if n == 2 then 0x80 else if n == 3 then 0x800 else if n == 4 then 0x1_0000 else if n == 5 then 0x20_0000 else 0x400_0000;
            var value := if cp < least || 0xd800 <= cp <= 0xdfff || cp == 0xfffe || cp == 0xffff then 0xfffd else cp;
            Run(d, Form(n, cp, n - 1)).pieces == [Piece(value, Form(n, cp, n - 1))]
  {
    var lead, last, middle := Mark(n) + Top(cp, n - 1), 0x80 + cp % 0x40, Tail(cp / 0x40, n - 2);
    TopFits(n, cp, n - 1);
    TailMore(cp, n - 2);
    LeadSplits(n, Top(cp, n - 1));
    assert Form(n, cp, n - 1) == [lead] + middle + [last];
    hide Form, Tail, Top, Cap, Run, Mark, Room, Step;
    var begun := Decoding(n - 1, n, Top(cp, n - 1), [lead]);
    LeadBegins(d, n, lead, Top(cp, n - 1));
    RunFirst(d, lead);
    RunTail(begun, cp / 0x40, n - 2);
    RunConcat(d, [lead], middle);
    RunSnoc(d, [lead] + middle, last);
    var before := Run(d, [lead] + middle).decoding;
    assert before == Decoding(1, n, cp / 0x40, [lead] + middle);
    LastOne(n, cp, [lead] + middle);
  }

  lemma LastOne(n: nat, cp: nat, group: seq<byte>)
    requires 2 <= n <= 6
    ensures var last: byte := 0x80 + cp % 0x40;
            var least := if n == 2 then 0x80 else if n == 3 then 0x800 else if n == 4 then 0x1_0000 else if n == 5 then 0x20_0000 else 0x400_0000;
            var value := if cp < least || 0xd800 <= cp <= 0xdfff || cp == 0xfffe || cp == 0xffff then 0xfffd else cp;
            Step(Decoding(1, n, cp / 0x40, group), last).pieces == [Piece(value, group + [last])]
  {
    assert cp / 0x40 * 0x40 + (0x80 + cp % 0x40) % 0x40 == cp;
  }

  lemma LeadBegins(d: Decoding, n: nat, lead: byte, top: nat)
    requires d.remaining == 0 && 2 <= n <= 6 && top < Room(n) && lead == Mark(n) + top
    ensures !Stops(lead) && Step(d, lead) == Out(Decoding(n - 1, n, top, [lead]), [])
  {
    LeadSplits(n, top);
  }

  /** Bytes that do not fit: a stray continuation, 0xfe, 0xff, and a sequence broken off, each U+FFFD; the byte that broke it counts. */
  lemma MisfitsAre(d: Decoding, c: byte)
    requires !Stops(c) && (d.remaining == 0 ==> d.group == [])
    ensures 0x80 <= c < 0xc0 && d.remaining == 0 ==> Step(d, c) == Out(d, [Piece(0xfffd, [c])])
    ensures c >= 0xfe ==> Step(d, c) == Out(d, [Piece(0xfffd, [c])])
    ensures c < 0x80 ==> Step(d, c).pieces == (if d.remaining > 0 then [Piece(0xfffd, d.group)] else []) + [Piece(c, [c])] && Step(d, c).decoding.remaining == 0
    ensures 0xc0 <= c < 0xfe ==> Step(d, c).pieces == if d.remaining > 0 then [Piece(0xfffd, d.group)] else []
  {
  }

  lemma EncodeHasNoStops(cp: nat)
    requires Accepted(cp)
    ensures NoStops(Encode(cp))
  {
    hide Top, Cap;
    Caps();
    var n := Length(cp);
    TopFits(n, cp, n - 1);
    FormIs(n, cp, n - 1);
    TailContinues(cp, n - 1);
    if n == 1 {
      AsciiForm(cp);
    }
  }

  lemma {:induction false} TailContinues(cp: nat, k: nat)
    ensures forall i :: 0 <= i < k ==> 0x80 <= Tail(cp, k)[i] < 0xc0
  {
    if k > 0 {
      TailContinues(cp / 0x40, k - 1);
    }
  }

  /** The bytes after the first bring in their groups one by one. */
  lemma {:induction false} RunTail(d: Decoding, cp: nat, k: nat)
    requires d.remaining > k && d.cp == Top(cp, k)
    ensures NoStops(Tail(cp, k))
    ensures Run(d, Tail(cp, k)) == Out(Decoding(d.remaining - k, d.total, cp, d.group + Tail(cp, k)), [])
  {
    TailContinues(cp, k);
    if k == 0 {
      assert d.group + [] == d.group;
    } else {
      RunTail(d, cp / 0x40, k - 1);
      RunSnoc(d, Tail(cp / 0x40, k - 1), 0x80 + cp % 0x40);
      assert d.group + Tail(cp, k) == d.group + Tail(cp / 0x40, k - 1) + [0x80 + cp % 0x40];
    }
  }

  /** One accepted code point goes through, from an idle decoder to an idle decoder. */
  lemma RunOne(d: Decoding, cp: nat)
    requires d.remaining == 0 && d.group == [] && Accepted(cp)
    ensures NoStops(Encode(cp))
    ensures var o := Run(d, Encode(cp)); o.decoding.remaining == 0 && o.decoding.group == [] && o.pieces == [Piece(cp, Encode(cp))]
  {
    EncodeHasNoStops(cp);
    var n := Length(cp);
    if n == 1 {
      AsciiForm(cp);
      RunSnoc(d, [], cp);
      assert [] + [cp] == [cp];
    } else {
      RunLong(d, cp, n);
    }
  }

  lemma LongForm(cp: nat, n: nat)
    requires cp < LIMIT && n == Length(cp) && n > 1
    ensures Top(cp, n - 1) < Room(n)
    ensures Encode(cp) == [Mark(n) + Top(cp, n - 1)] + Tail(cp / 0x40, n - 2) + [0x80 + cp % 0x40]
  {
    hide Form, Cap;
    Caps();
    FormIs(n, cp, n - 1);
  }

  lemma LongIsChecked(cp: nat, n: nat)
    requires Accepted(cp) && n == Length(cp) && n > 1
    ensures Checked(n, cp) == cp && Top(cp, n - 1) == Top(cp / 0x40, n - 2) && cp / 0x40 * 0x40 + cp % 0x40 == cp
  {
  }

  lemma RunLong(d: Decoding, cp: nat, n: nat)
    requires d.remaining == 0 && d.group == [] && Accepted(cp) && n == Length(cp) && n > 1 && NoStops(Encode(cp))
    ensures var o := Run(d, Encode(cp)); o.decoding.remaining == 0 && o.decoding.group == [] && o.pieces == [Piece(cp, Encode(cp))]
  {
    hide Encode, Tail, Top, Mark, Room, Checked, Run;
    var lead, last, middle := Mark(n) + Top(cp, n - 1), 0x80 + cp % 0x40, Tail(cp / 0x40, n - 2);
    LongForm(cp, n);
    LongIsChecked(cp, n);
    LeadSplits(n, Top(cp, n - 1));
    RunFirst(d, lead);
    var begun := Decoding(n - 1, n, Top(cp, n - 1), [lead]);
    RunTail(begun, cp / 0x40, n - 2);
    RunConcat(d, [lead], middle);
    RunSnoc(d, [lead] + middle, last);
  }

  lemma RunFirst(d: Decoding, c: byte)
    requires !Stops(c)
    ensures NoStops([c]) && Run(d, [c]) == Step(d, c)
  {
    RunSnoc(d, [], c);
    assert [] + [c] == [c];
  }

  lemma LeadSplits(n: nat, t: nat)
    requires 2 <= n <= 6 && t < Room(n)
    ensures Announced(Mark(n) + t) == n && (Mark(n) + t) % Room(n) == t
  {
  }

  function EncodeAll(cps: seq<nat>): seq<byte>
    requires forall i :: 0 <= i < |cps| ==> cps[i] < LIMIT
  {
    if cps == [] then [] else EncodeAll(cps[..|cps| - 1]) + Encode(cps[|cps| - 1])
  }

  function Points(pieces: seq<Piece>): seq<nat> {
    seq(|pieces|, i requires 0 <= i < |pieces| => pieces[i].cp)
  }

  lemma NothingRead(d: Decoding)
    ensures Run(d, []) == Out(d, []) && Points([]) == []
  {
  }

  lemma PointsConcat(a: seq<Piece>, b: seq<Piece>)
    ensures Points(a + b) == Points(a) + Points(b)
  {
  }

  lemma PointsOfOne(p: Piece)
    ensures Points([p]) == [p.cp]
  {
  }

  /** Round trip: any text of accepted code points survives encoding and decoding. */
  lemma {:induction false} RoundTrip(d: Decoding, cps: seq<nat>)
    requires d.remaining == 0 && d.group == [] && forall i :: 0 <= i < |cps| ==> cps[i] < LIMIT && Accepted(cps[i])
    ensures NoStops(EncodeAll(cps))
    ensures var o := Run(d, EncodeAll(cps)); Points(o.pieces) == cps && o.decoding.remaining == 0 && o.decoding.group == []
  {
    hide Encode, Run, Points, Accepted;
    if cps == [] {
      NothingRead(d);
    } else {
      var last := |cps| - 1;
      RoundTrip(d, cps[..last]);
      var before := Run(d, EncodeAll(cps[..last]));
      RunOne(before.decoding, cps[last]);
      RunConcat(d, EncodeAll(cps[..last]), Encode(cps[last]));
      PointsConcat(before.pieces, [Piece(cps[last], Encode(cps[last]))]);
      PointsOfOne(Piece(cps[last], Encode(cps[last])));
      assert cps == cps[..last] + [cps[last]];
    }
  }

  /** Where a call of the decoder has come to. */
  ghost predicate Reached(d: Decoding, bytes: seq<byte>, now: Decoding, points: seq<nat>) {
    NoStops(bytes) && Run(d, bytes).decoding == now && Points(Run(d, bytes).pieces) == points
  }

  /** The last byte ends an unfinished sequence and is a character itself, with room for one code point left. */
  ghost predicate Overruns(d: Decoding, text: seq<byte>, room: nat) {
    && text != [] && NoStops(text)
    && var before := Run(d, text[..|text| - 1]);
       before.decoding.remaining > 0 && text[|text| - 1] < 0x80 && |Points(before.pieces)| + 1 == room
  }

  lemma OverrunsNot(d: Decoding, text: seq<byte>, room: nat)
    requires text == []
    ensures !Overruns(d, text, room)
  {
  }

  lemma OverrunsOn(d: Decoding, bytes: seq<byte>, start: nat, pos: nat, mid: Decoding, points: seq<nat>, room: nat)
    requires start <= pos < |bytes| && Reached(d, bytes[start..pos], mid, points) && !Stops(bytes[pos])
    ensures Overruns(d, bytes[start..pos + 1], room) <==> mid.remaining > 0 && bytes[pos] < 0x80 && |points| + 1 == room
  {
    hide Run, Points;
    assert bytes[start..pos + 1][..pos - start] == bytes[start..pos];
  }

  lemma ReachedNothing(d: Decoding, bytes: seq<byte>, pos: nat)
    requires pos <= |bytes|
    ensures Reached(d, bytes[pos..pos], d, [])
  {
    assert bytes[pos..pos] == [];
    NothingRead(d);
  }

  lemma ReachedMore(d: Decoding, bytes: seq<byte>, start: nat, pos: nat, mid: Decoding, points: seq<nat>)
    requires start <= pos < |bytes| && Reached(d, bytes[start..pos], mid, points) && !Stops(bytes[pos])
    ensures Reached(d, bytes[start..pos + 1], Step(mid, bytes[pos]).decoding, points + Points(Step(mid, bytes[pos]).pieces))
  {
    hide Run, Step, Points;
    RunSnoc(d, bytes[start..pos], bytes[pos]);
    assert bytes[start..pos] + [bytes[pos]] == bytes[start..pos + 1];
    PointsConcat(Run(d, bytes[start..pos]).pieces, Step(mid, bytes[pos]).pieces);
  }

  lemma ReachedThen(d: Decoding, a: seq<byte>, mid: Decoding, first: seq<nat>, b: seq<byte>, now: Decoding, second: seq<nat>)
    requires Reached(d, a, mid, first) && Reached(mid, b, now, second)
    ensures Reached(d, a + b, now, first + second)
  {
    hide Run, Points;
    RunConcat(d, a, b);
    PointsConcat(Run(d, a).pieces, Run(mid, b).pieces);
  }

  class Utf8Decoder {
    var bytesRemaining: nat
    var bytesTotal: nat
    var thisCp: nat

    /** The bytes of the sequence it is in. */
    ghost var group: seq<byte>

    ghost function View(): Decoding reads this {
      Decoding(bytesRemaining, bytesTotal, thisCp, group)
    }

    /** init_utf8. */
    constructor ()
      ensures View() == IDLE
    {
      bytesRemaining, bytesTotal, thisCp := 0, 0, 0;
      group := [];
    }

    /** One byte; at most two code points come of it. */
    method TakeByte(cp: array<nat>, cpi: nat, c: byte) returns (cpi': nat)
      requires !Stops(c) && cpi + 2 <= cp.Length
      modifies this, cp
      ensures cpi <= cpi' <= cpi + 2 && (cpi' == cpi + 2 <==> old(bytesRemaining) > 0 && c < 0x80)
      ensures View() == Step(old(View()), c).decoding
      ensures cp[..cpi'] == old(cp[..cpi]) + Points(Step(old(View()), c).pieces)
    {
      cpi' := cpi;
      if 0x80 <= c < 0xc0 {
        if bytesRemaining == 0 {
          cp[cpi'], cpi' := INVALID, cpi' + 1;
          return;
        }
        thisCp, bytesRemaining, group := thisCp * 0x40 + c % 0x40, bytesRemaining - 1, group + [c];
        if bytesRemaining == 0 {
          if Overlong(bytesTotal, thisCp) {
            thisCp := INVALID;
          }
          if Excluded(thisCp) {
            thisCp := INVALID;
          }
          cp[cpi'], cpi' := thisCp, cpi' + 1;
          group := [];
        }
      } else if c >= 0xfe {
        cp[cpi'], cpi' := INVALID, cpi' + 1;
      } else {
        if bytesRemaining > 0 {
          cp[cpi'], cpi' := INVALID, cpi' + 1;
        }
        if c < 0x80 {
          cp[cpi'], cpi' := c, cpi' + 1;
          bytesRemaining, group := 0, [];
        } else {
          bytesTotal := Announced(c);
          thisCp, bytesRemaining, group := c % Room(bytesTotal), bytesTotal - 1, [c];
        }
      }
    }

    /** decode_utf8.  It writes one entry past `cplen` exactly when the last byte taken gives two code points with room for one. */
    method Decode(cp: array<nat>, cpi: nat, cplen: nat, bytes: seq<byte>, pos: nat) returns (cpi': nat, pos': nat)
      requires cpi <= cplen < cp.Length && pos <= |bytes|
      modifies this, cp
      ensures cpi <= cpi' <= cplen + 1 && pos <= pos' <= |bytes|
      ensures pos' == |bytes| || bytes[pos'] < 0x20 || bytes[pos'] == 0x7f || cpi' >= cplen
      ensures forall i :: pos <= i < pos' ==> 0x20 <= bytes[i] && bytes[i] != 0x7f
      ensures pos < |bytes| && !Stops(bytes[pos]) && cpi < cplen ==> pos < pos'
      ensures cp[..cpi] == old(cp[..cpi])
      ensures Reached(old(View()), bytes[pos..pos'], View(), cp[cpi..cpi'])
      ensures cpi' == cplen + 1 <==> Overruns(old(View()), bytes[pos..pos'], cplen - cpi)
    {
      hide Reached, Step, Points, Overruns;
      ghost var d := View();
      cpi', pos' := cpi, pos;
      ReachedNothing(d, bytes, pos);
      assert cp[cpi..cpi] == [];
      OverrunsNot(d, bytes[pos..pos], cplen - cpi);
      while pos' < |bytes| && cpi' < cplen && !Stops(bytes[pos'])
        invariant cpi <= cpi' <= cplen + 1 && pos <= pos' <= |bytes|
        invariant pos' == pos ==> cpi' == cpi
        invariant forall i :: pos <= i < pos' ==> 0x20 <= bytes[i] && bytes[i] != 0x7f
        invariant cp[..cpi] == old(cp[..cpi])
        invariant Reached(d, bytes[pos..pos'], View(), cp[cpi..cpi'])
        invariant cpi' == cplen + 1 <==> Overruns(d, bytes[pos..pos'], cplen - cpi)
      {
        OverrunsOn(d, bytes, pos, pos', View(), cp[cpi..cpi'], cplen - cpi);
        ReachedMore(d, bytes, pos, pos', View(), cp[cpi..cpi']);
        ghost var was, from := cp[..cpi'], cpi';
        cpi' := TakeByte(cp, cpi', bytes[pos']);
        PrefixKept(cp[..cpi'], was, cpi);
        pos' := pos' + 1;
      }
    }

    /** A whole piece of input without controls, in as many calls as the buffer makes of it. */
    method Feed(bytes: seq<byte>, cp: array<nat>) returns (points: seq<nat>)
      requires NoStops(bytes) && cp.Length >= 2
      modifies this, cp
      ensures Reached(old(View()), bytes, View(), points)
    {
      hide Reached;
      var pos := 0;
      points := [];
      ReachedNothing(View(), bytes, 0);
      while pos < |bytes|
        invariant pos <= |bytes|
        invariant Reached(old(View()), bytes[0..pos], View(), points)
      {
        ghost var mid, before := View(), pos;
        ghost var first := points;
        var n;
        n, pos := Decode(cp, 0, cp.Length - 1, bytes, pos);
        points := points + cp[0..n];
        ReachedThen(old(View()), bytes[0..before], mid, first, bytes[before..pos], View(), cp[0..n]);
        assert bytes[0..before] + bytes[before..pos] == bytes[0..pos];
      }
      assert bytes[0..pos] == bytes;
    }

    /** Input in any chunks, whatever the buffer's size, decodes to what it decodes to in one piece. */
    method FeedAll(chunks: seq<seq<byte>>, cp: array<nat>) returns (points: seq<nat>)
      requires NoStops(Flatten(chunks)) && cp.Length >= 2
      modifies this, cp
      ensures Reached(old(View()), Flatten(chunks), View(), points)
    {
      hide Reached;
      points := [];
      ghost var d := View();
      ReachedNothing(d, [], 0);
      for i := 0 to |chunks|
        invariant Reached(d, Flatten(chunks[..i]), View(), points)
      {
        ghost var mid, first := View(), points;
        FlattenPrefix(chunks, i);
        PartHasNoStops(Flatten(chunks[..i]), chunks[i], Flatten(chunks[i + 1..]));
        var more := Feed(chunks[i], cp);
        ReachedThen(d, Flatten(chunks[..i]), mid, first, chunks[i], View(), more);
        points := points + more;
      }
      assert chunks[..|chunks|] == chunks;
    }

    /** Encoded text comes back as its code points. */
    method ReadBack(cps: seq<nat>, chunks: seq<seq<byte>>, cp: array<nat>) returns (points: seq<nat>)
      requires View() == IDLE && cp.Length >= 2
      requires forall i :: 0 <= i < |cps| ==> cps[i] < LIMIT && Accepted(cps[i])
      requires Flatten(chunks) == EncodeAll(cps)
      modifies this, cp
      ensures points == cps && bytesRemaining == 0
    {
      hide Accepted, EncodeAll;
      RoundTrip(IDLE, cps);
      points := FeedAll(chunks, cp);
      ReachedIs(IDLE, Flatten(chunks), View(), points);
    }
  }

  lemma ReachedIs(d: Decoding, bytes: seq<byte>, now: Decoding, points: seq<nat>)
    requires Reached(d, bytes, now, points)
    ensures NoStops(bytes) && Run(d, bytes).decoding == now && Points(Run(d, bytes).pieces) == points
  {
  }

  lemma PartHasNoStops(a: seq<byte>, b: seq<byte>, c: seq<byte>)
    requires NoStops(a + b + c)
    ensures NoStops(b)
  {
    forall i | 0 <= i < |b| ensures !Stops(b[i]) {
      assert (a + b + c)[|a| + i] == b[i];
    }
  }

  lemma PrefixKept(now: seq<nat>, was: seq<nat>, k: nat)
    requires k <= |was| <= |now| && now[..|was|] == was
    ensures now[..k] == was[..k] && now[k..] == was[k..] + now[|was|..]
  {
  }
}
