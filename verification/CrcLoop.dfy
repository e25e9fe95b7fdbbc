/** The loop all three checks share: one table step per byte, over any register type. */
module CrcLoop {

  function Fold<S>(step: (S, bv8) -> S, c: S, m: seq<bv8>): S {
    if m == [] then c else step(Fold(step, c, m[..|m| - 1]), m[|m| - 1])
  }

  lemma {:induction false} FoldAppend<S>(step: (S, bv8) -> S, c: S, a: seq<bv8>, b: seq<bv8>)
    ensures Fold(step, c, a + b) == Fold(step, Fold(step, c, a), b)
    decreases |b|
  {
    if b == [] {
      assert a + b == a;
    } else {
      assert (a + b)[..|a + b| - 1] == a + b[..|b| - 1];
      FoldAppend(step, c, a, b[..|b| - 1]);
    }
  }

  /** `for(i = 0; i < len; ++i) crc = step(crc, u[i]);` */
  method FoldBuffer<S>(step: (S, bv8) -> S, init: S, buf: array<bv8>, len: nat) returns (crc: S)
    requires len <= buf.Length
    ensures crc == Fold(step, init, buf[..len])
  {
    crc := init;
    var i := 0;
    while i < len
      invariant i <= len && crc == Fold(step, init, buf[..i])
    {
      assert buf[..i + 1][..i] == buf[..i];
      crc := step(crc, buf[i]);
      i := i + 1;
    }
  }
}
