/** Table-driven checks over any register word, seen as polynomial division.

    A machine says how a word is a remainder and what its operations are; the lemmas hold of every
    machine whose operations are faithful, whatever the width and the direction of its shifts. */
module CrcMachine {
  import opened CrcTheory
  import opened CrcLoop

  datatype Machine<!W> = Machine(
    taps: Bits,          // the generator below its leading term
    reg: W -> Bits,      // a word as coefficients, the next to leave first
    xor: (W, W) -> W,
    step: W -> W,        // one bit of division
    byte: bv8 -> W,      // a byte at the end of the register that leaves first
    bits: bv8 -> Bits,   // the message bits of a byte
    head: W -> W,        // the eight bits that leave first,
    tail: W -> W,        // the other bits,
    rest: W -> W)        // and the other bits after the first eight have left

  ghost predicate Generator<W>(m: Machine<W>) {
    |m.taps| >= 8 && m.taps[|m.taps| - 1]
  }

  ghost predicate Represents<W(!new)>(m: Machine<W>) {
    && (forall c {:trigger m.reg(c)} :: |m.reg(c)| == |m.taps|)
    && (forall c, d {:trigger m.reg(c), m.reg(d)} :: m.reg(c) == m.reg(d) ==> c == d)
  }

  ghost predicate Adds<W(!new)>(m: Machine<W>) {
    forall c, d {:trigger m.xor(c, d)} ::
      |m.reg(c)| == |m.reg(d)| && m.reg(m.xor(c, d)) == Xor(m.reg(c), m.reg(d))
  }

  ghost predicate Shifts<W(!new)>(m: Machine<W>) {
    forall c {:trigger m.step(c)} ::
      |m.reg(c)| == |m.taps| > 0 && m.reg(m.step(c)) == Shift(m.taps, m.reg(c))
  }

  ghost predicate Enters<W(!new)>(m: Machine<W>) {
    && (forall b {:trigger m.byte(b)} {:trigger m.bits(b)} ::
          |m.bits(b)| == 8 && |m.taps| >= 8 && m.reg(m.byte(b)) == m.bits(b) + Zeros(|m.taps| - 8))
    && (forall b, b' {:trigger m.bits(b), m.bits(b')} :: m.bits(b) == m.bits(b') ==> b == b')
  }

  ghost predicate Faithful<W(!new)>(m: Machine<W>) {
    Generator(m) && Represents(m) && Adds(m) && Shifts(m) && Enters(m)
  }

  function Steps<W>(m: Machine<W>, c: W, n: nat): W
    decreases n
  {
    if n == 0 then c else Steps(m, m.step(c), n - 1)
  }

  function Eight<W>(step: W -> W, c: W): W {
    step(step(step(step(step(step(step(step(c))))))))
  }

  function MessageBits<W(!new)>(m: Machine<W>, msg: seq<bv8>): (r: Bits)
    ensures Enters(m) ==> |r| == 8 * |msg|
  {
    if msg == [] then []
    else
      var b: bv8 := msg[0];
      m.bits(b) + MessageBits(m, msg[1..])
  }

  // ---------------------------------------------------------------- one byte

  /** What every implementation of the byte step has to do. */
  ghost predicate Divides<W(!new)>(m: Machine<W>, step: (W, bv8) -> W)
    requires Faithful(m)
  {
    forall c, b {:trigger step(c, b)} :: m.reg(step(c, b)) == Feed(m.taps, m.reg(c), m.bits(b))
  }

  function Bitwise<W>(m: Machine<W>, c: W, b: bv8): W {
    Eight(m.step, m.xor(c, m.byte(b)))
  }

  /** Bit-at-a-time: xor the byte in and step eight times. */
  function BitwiseStep<W>(m: Machine<W>): (W, bv8) -> W {
    (c, b) => Bitwise(m, c, b)
  }

  lemma {:induction false} StepsAreZeros<W(!new)>(m: Machine<W>, c: W, n: nat)
    requires Faithful(m)
    ensures m.reg(Steps(m, c, n)) == Feed(m.taps, m.reg(c), Zeros(n))
    decreases n
  {
    if n > 0 {
      assert m.reg(c)[0 := m.reg(c)[0] != false] == m.reg(c);
      assert Zeros(n)[1..] == Zeros(n - 1);
      StepsAreZeros(m, m.step(c), n - 1);
    }
  }

  lemma EightSteps<W>(m: Machine<W>, c: W)
    ensures Steps(m, c, 8) == Eight(m.step, c)
  {
    var d := m.step(m.step(m.step(m.step(c))));
    assert Steps(m, c, 8) == Steps(m, m.step(c), 7) == Steps(m, m.step(m.step(c)), 6);
    assert Steps(m, m.step(m.step(c)), 6) == Steps(m, m.step(m.step(m.step(c))), 5) == Steps(m, d, 4);
    assert Steps(m, d, 4) == Steps(m, m.step(d), 3) == Steps(m, m.step(m.step(d)), 2);
    assert Steps(m, m.step(m.step(d)), 2) == Steps(m, m.step(m.step(m.step(d))), 1)
        == Steps(m, m.step(m.step(m.step(m.step(d)))), 0);
  }

  lemma EightIsZeros<W(!new)>(m: Machine<W>, c: W)
    requires Faithful(m)
    ensures m.reg(Eight(m.step, c)) == Feed(m.taps, m.reg(c), Zeros(8))
  {
    StepsAreZeros(m, c, 8);
    EightSteps(m, c);
  }

  lemma BitwiseDivides<W(!new)>(m: Machine<W>)
    requires Faithful(m)
    ensures Divides(m, BitwiseStep(m))
  {
    forall c, b {:trigger BitwiseStep(m)(c, b)}
      ensures m.reg(BitwiseStep(m)(c, b)) == Feed(m.taps, m.reg(c), m.bits(b))
    {
      EightIsZeros(m, m.xor(c, m.byte(b)));
      FeedAtOnce(m.taps, m.reg(c), m.bits(b));
    }
  }

  // ---------------------------------------------------------------- one lookup a byte

  ghost predicate Splits<W(!new)>(m: Machine<W>) {
    forall x {:trigger m.head(x)} :: m.xor(m.head(x), m.tail(x)) == x && Eight(m.step, m.tail(x)) == m.rest(x)
  }

  ghost predicate EntersHead<W(!new)>(m: Machine<W>) {
    forall c, b {:trigger m.xor(c, m.byte(b))} :: m.rest(m.xor(c, m.byte(b))) == m.rest(c)
  }

  /** The table holds the division of every possible head. */
  ghost predicate IsTable<W(!new)>(m: Machine<W>, table: W -> W) {
    forall x {:trigger m.head(x)} :: table(m.head(x)) == Eight(m.step, m.head(x))
  }

  function TableStep<W>(m: Machine<W>, table: W -> W): (W, bv8) -> W {
    (c, b) => m.xor(table(m.head(m.xor(c, m.byte(b)))), m.rest(c))
  }

  lemma EightAdds<W(!new)>(m: Machine<W>, c: W, d: W)
    requires Faithful(m)
    ensures Eight(m.step, m.xor(c, d)) == m.xor(Eight(m.step, c), Eight(m.step, d))
  {
    var x, y := m.xor(c, d), m.xor(Eight(m.step, c), Eight(m.step, d));
    EightIsZeros(m, c);
    EightIsZeros(m, d);
    EightIsZeros(m, x);
    FeedLinear(m.taps, m.reg(c), m.reg(d), Zeros(8), Zeros(8));
    assert Xor(Zeros(8), Zeros(8)) == Zeros(8);
    assert m.reg(Eight(m.step, x)) == m.reg(y);
  }

  /** The looked-up word covers the head, the shift the rest: one lookup is eight steps. */
  lemma TableStepIsBitwise<W(!new)>(m: Machine<W>, table: W -> W, c: W, b: bv8)
    requires Faithful(m) && Splits(m) && EntersHead(m) && IsTable(m, table)
    ensures TableStep(m, table)(c, b) == BitwiseStep(m)(c, b)
  {
    var x := m.xor(c, m.byte(b));
    EightAdds(m, m.head(x), m.tail(x));
  }

  lemma TableDivides<W(!new)>(m: Machine<W>, table: W -> W)
    requires Faithful(m) && Splits(m) && EntersHead(m) && IsTable(m, table)
    ensures Divides(m, TableStep(m, table))
  {
    BitwiseDivides(m);
    forall c, b {:trigger TableStep(m, table)(c, b)}
      ensures m.reg(TableStep(m, table)(c, b)) == Feed(m.taps, m.reg(c), m.bits(b))
    {
      TableStepIsBitwise(m, table, c, b);
    }
  }

  // ---------------------------------------------------------------- whole messages

  lemma {:induction false} MessageBitsAppend<W(!new)>(m: Machine<W>, a: seq<bv8>, b: seq<bv8>)
    ensures MessageBits(m, a + b) == MessageBits(m, a) + MessageBits(m, b)
    decreases |a|
  {
    if a == [] {
      assert a + b == b;
    } else {
      assert (a + b)[1..] == a[1..] + b;
      MessageBitsAppend(m, a[1..], b);
    }
  }

  /** A loop over a dividing step divides the whole message, bit by bit. */
  lemma {:induction false} LoopIsFeed<W(!new)>(m: Machine<W>, step: (W, bv8) -> W, c: W, msg: seq<bv8>)
    requires Faithful(m) && Divides(m, step)
    ensures m.reg(Fold(step, c, msg)) == Feed(m.taps, m.reg(c), MessageBits(m, msg))
    decreases |msg|
  {
    if msg != [] {
      var n := |msg| - 1;
      var b: bv8 := msg[n];
      LoopIsFeed(m, step, c, msg[..n]);
      assert msg == msg[..n] + [b];
      MessageBitsAppend(m, msg[..n], [b]);
      assert MessageBits(m, [b]) == m.bits(b);
      FeedAppend(m.taps, m.reg(c), MessageBits(m, msg[..n]), m.bits(b));
      assert m.reg(step(Fold(step, c, msg[..n]), b)) == Feed(m.taps, m.reg(Fold(step, c, msg[..n])), m.bits(b));
    }
  }

  /** Any two loops that divide agree on every message: a table refines bit-at-a-time division. */
  lemma LoopsAgree<W(!new)>(m: Machine<W>, step: (W, bv8) -> W, step': (W, bv8) -> W, c: W, msg: seq<bv8>)
    requires Faithful(m) && Divides(m, step) && Divides(m, step')
    ensures Fold(step, c, msg) == Fold(step', c, msg)
  {
    LoopIsFeed(m, step, c, msg);
    LoopIsFeed(m, step', c, msg);
    assert m.reg(Fold(step, c, msg)) == m.reg(Fold(step', c, msg));
  }

  ghost predicate LeavesRemainder<W(!new)>(m: Machine<W>, c: W, msg: seq<bv8>, q: Bits, r: Bits)
    requires Faithful(m)
  {
    && |q| == 8 * |msg| && |r| == |m.taps|
    && Dividend(m.reg(c), MessageBits(m, msg)) == Xor(Multiple(m.taps, q), Zeros(8 * |msg|) + r)
  }

  /** The final register is the remainder of start * x^n + message * x^width by the generator: some
      quotient leaves it, and no quotient of that length leaves anything else. */
  lemma LoopIsRemainder<W(!new)>(m: Machine<W>, step: (W, bv8) -> W, c: W, msg: seq<bv8>)
    requires Faithful(m) && Divides(m, step)
    ensures exists q :: LeavesRemainder(m, c, msg, q, m.reg(Fold(step, c, msg)))
    ensures forall q, r :: LeavesRemainder(m, c, msg, q, r) ==> r == m.reg(Fold(step, c, msg))
  {
    LoopIsFeed(m, step, c, msg);
    var reg := m.reg(Fold(step, c, msg));
    var q0 := FeedDivides(m.taps, m.reg(c), MessageBits(m, msg));
    assert LeavesRemainder(m, c, msg, q0, reg);
    forall q, r | LeavesRemainder(m, c, msg, q, r)
      ensures r == reg
    {
      RemainderUnique(m.taps, q, r, q0, reg);
    }
  }

  /** The register never forgets where it started. */
  lemma LoopInjective<W(!new)>(m: Machine<W>, step: (W, bv8) -> W, c: W, d: W, msg: seq<bv8>)
    requires Faithful(m) && Divides(m, step)
    requires Fold(step, c, msg) == Fold(step, d, msg)
    ensures c == d
  {
    LoopIsFeed(m, step, c, msg);
    LoopIsFeed(m, step, d, msg);
    FeedInjective(m.taps, m.reg(c), m.reg(d), MessageBits(m, msg));
  }

  /** A burst of at most `width` wrong bits, wherever it starts, is always detected. */
  lemma BurstChangesLoop<W(!new)>(m: Machine<W>, step: (W, bv8) -> W, c: W, msg: seq<bv8>, msg': seq<bv8>,
                                  pre: Bits, a: Bits, b: Bits, post: Bits)
    requires Faithful(m) && Divides(m, step)
    requires MessageBits(m, msg) == pre + a + post && MessageBits(m, msg') == pre + b + post
    requires |a| == |b| <= |m.taps| && a != b
    ensures Fold(step, c, msg) != Fold(step, c, msg')
  {
    LoopIsFeed(m, step, c, msg);
    LoopIsFeed(m, step, c, msg');
    BurstDetected(m.taps, m.reg(c), pre, a, b, post);
  }

  /** With an even number of terms in the generator, so is any odd number of wrong bits. */
  lemma OddChangesLoop<W(!new)>(m: Machine<W>, step: (W, bv8) -> W, c: W, msg: seq<bv8>, msg': seq<bv8>)
    requires Faithful(m) && Divides(m, step) && Odd(m.taps) && |msg| == |msg'|
    requires Distance(MessageBits(m, msg), MessageBits(m, msg')) % 2 == 1
    ensures Fold(step, c, msg) != Fold(step, c, msg')
  {
    LoopIsFeed(m, step, c, msg);
    LoopIsFeed(m, step, c, msg');
    OddDetected(m.taps, m.reg(c), MessageBits(m, msg), MessageBits(m, msg'));
  }

  lemma {:induction false} MessageBitsInjective<W(!new)>(m: Machine<W>, a: seq<bv8>, b: seq<bv8>)
    requires Enters(m) && |a| == |b| && a != b
    ensures MessageBits(m, a) != MessageBits(m, b)
    decreases |a|
  {
    if a[0] != b[0] {
      assert MessageBits(m, a)[..8] == m.bits(a[0]);
      assert MessageBits(m, b)[..8] == m.bits(b[0]);
    } else {
      MessageBitsInjective(m, a[1..], b[1..]);
      assert MessageBits(m, a)[8..] == MessageBits(m, a[1..]);
      assert MessageBits(m, b)[8..] == MessageBits(m, b[1..]);
    }
  }

  /** In particular, changes confined to width / 8 consecutive bytes. */
  lemma WindowChangesLoop<W(!new)>(m: Machine<W>, step: (W, bv8) -> W, c: W,
                                   pre: seq<bv8>, a: seq<bv8>, b: seq<bv8>, post: seq<bv8>)
    requires Faithful(m) && Divides(m, step)
    requires |a| == |b| && 8 * |a| <= |m.taps| && a != b
    ensures Fold(step, c, pre + a + post) != Fold(step, c, pre + b + post)
  {
    MessageBitsAppend(m, pre + a, post);
    MessageBitsAppend(m, pre, a);
    MessageBitsAppend(m, pre + b, post);
    MessageBitsAppend(m, pre, b);
    MessageBitsInjective(m, a, b);
    BurstChangesLoop(m, step, c, pre + a + post, pre + b + post,
                     MessageBits(m, pre), MessageBits(m, a), MessageBits(m, b), MessageBits(m, post));
  }
}
