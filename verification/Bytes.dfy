/** Bytes as the source's `unsigned char`, and input that arrives in pieces. */
module Bytes {
  type byte = x: int | 0 <= x < 256

  datatype Option<T> = None | Some(value: T)

  predicate IsDigit(b: byte) {
    0x30 <= b <= 0x39
  }

  predicate NoneEmpty(chunks: seq<seq<byte>>) {
    forall i :: 0 <= i < |chunks| ==> chunks[i] != []
  }

  function Flatten(chunks: seq<seq<byte>>): seq<byte> {
    if chunks == [] then [] else Flatten(chunks[..|chunks| - 1]) + chunks[|chunks| - 1]
  }

  lemma {:induction false} FlattenPrefix(chunks: seq<seq<byte>>, i: nat)
    requires i < |chunks|
    ensures Flatten(chunks[..i + 1]) == Flatten(chunks[..i]) + chunks[i]
    ensures Flatten(chunks) == Flatten(chunks[..i + 1]) + Flatten(chunks[i + 1..])
  {
    assert chunks[..i + 1][..i] == chunks[..i];
    FlattenConcat(chunks[..i + 1], chunks[i + 1..]);
    assert chunks == chunks[..i + 1] + chunks[i + 1..];
  }

  lemma {:induction false} FlattenConcat(a: seq<seq<byte>>, b: seq<seq<byte>>)
    ensures Flatten(a + b) == Flatten(a) + Flatten(b)
  {
    if b == [] {
      assert a + b == a;
    } else {
      FlattenConcat(a, b[..|b| - 1]);
      assert (a + b)[..|a + b| - 1] == a + b[..|b| - 1];
    }
  }
}
