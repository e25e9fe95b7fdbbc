/** Machine words as bit sequences. */
module CrcWords {
  import opened CrcTheory

  /** Bit i of a word, bit 0 being the least significant. */
  function BitAt(c: bv32, i: nat): bool
    decreases i
  {
    if i == 0 then c & 1 == 1 else BitAt(c >> 1, i - 1)
  }

  /** The lowest n bits, least significant first. */
  function LowBits(c: bv32, n: nat): (r: Bits)
    ensures |r| == n && forall i :: 0 <= i < n ==> r[i] == BitAt(c, i)
  {
    seq(n, i requires 0 <= i < n => BitAt(c, i))
  }

  lemma {:induction false} ZeroBits(i: nat)
    ensures !BitAt(0, i)
  {
    if i > 0 {
      ZeroBits(i - 1);
    }
  }

  lemma XorLowest(c: bv32, d: bv32)
    ensures (c ^ d) & 1 == 1 <==> (c & 1 == 1) != (d & 1 == 1)
  {
  }

  lemma XorShifts(c: bv32, d: bv32)
    ensures (c ^ d) >> 1 == (c >> 1) ^ (d >> 1)
  {
  }

  lemma XorBitsUp(c: bv32, d: bv32, e: bv32, i: nat)
    requires i > 0 && BitAt(e >> 1, i - 1) == (BitAt(c >> 1, i - 1) != BitAt(d >> 1, i - 1))
    ensures BitAt(e, i) == (BitAt(c, i) != BitAt(d, i))
  {
  }

  lemma {:induction false} XorBits(c: bv32, d: bv32, e: bv32, i: nat)
    requires e == c ^ d
    ensures BitAt(e, i) == (BitAt(c, i) != BitAt(d, i))
    decreases i
  {
    if i == 0 {
      XorLowest(c, d);
    } else {
      XorShifts(c, d);
      XorBits(c >> 1, d >> 1, e >> 1, i - 1);
      XorBitsUp(c, d, e, i);
    }
  }

  lemma OneUp(c: bv32, i: nat)
    ensures BitAt(c, i + 1) == BitAt(c >> 1, i)
  {
  }

  function Down8(c: bv32): (d: bv32)
    ensures d == c >> 8
  {
    c >> 1 >> 1 >> 1 >> 1 >> 1 >> 1 >> 1 >> 1
  }

  lemma EightUp(c: bv32, i: nat)
    ensures BitAt(c, i + 8) == BitAt(Down8(c), i)
  {
    OneUp(c, i + 7);
    OneUp(c >> 1, i + 6);
    OneUp(c >> 1 >> 1, i + 5);
    OneUp(c >> 1 >> 1 >> 1, i + 4);
    OneUp(c >> 1 >> 1 >> 1 >> 1, i + 3);
    OneUp(c >> 1 >> 1 >> 1 >> 1 >> 1, i + 2);
    OneUp(c >> 1 >> 1 >> 1 >> 1 >> 1 >> 1, i + 1);
    OneUp(c >> 1 >> 1 >> 1 >> 1 >> 1 >> 1 >> 1, i);
  }

  /** Bits above the value of a byte are zero. */
  lemma ByteHigh(b: bv32, i: nat)
    requires b < 0x100 && i >= 8
    ensures !BitAt(b, i)
  {
    EightUp(b, i - 8);
    assert Down8(b) == 0;
    ZeroBits(i - 8);
  }

  lemma WordHigh(c: bv32)
    ensures !BitAt(c, 32)
    ensures c < 0x10000 ==> !BitAt(c, 16)
  {
    var d, e := Down8(c), Down8(Down8(c));
    EightUp(c, 24);
    EightUp(d, 16);
    EightUp(e, 8);
    EightUp(Down8(e), 0);
    assert Down8(Down8(e)) == 0;
    EightUp(c, 8);
    EightUp(d, 0);
    assert c < 0x10000 ==> e == 0;
  }

  /** The low byte is determined by eight bits, and so is a whole byte. */
  lemma ByteFromBits(b: bv32, c: bv32)
    requires forall i :: 0 <= i < 8 ==> BitAt(b, i) == BitAt(c, i)
    ensures b & 0xFF == c & 0xFF
    ensures b < 0x100 && c < 0x100 ==> b == c
  {
    assert BitAt(b, 0) == BitAt(c, 0);
    assert BitAt(b, 1) == BitAt(c, 1);
    assert BitAt(b, 2) == BitAt(c, 2);
    assert BitAt(b, 3) == BitAt(c, 3);
    assert BitAt(b, 4) == BitAt(c, 4);
    assert BitAt(b, 5) == BitAt(c, 5);
    assert BitAt(b, 6) == BitAt(c, 6);
    assert BitAt(b, 7) == BitAt(c, 7);
  }

  lemma BitsDown(c: bv32, d: bv32, n: nat)
    requires forall i :: 0 <= i < n + 8 ==> BitAt(c, i) == BitAt(d, i)
    ensures forall i :: 0 <= i < n ==> BitAt(Down8(c), i) == BitAt(Down8(d), i)
  {
    forall i | 0 <= i < n
      ensures BitAt(Down8(c), i) == BitAt(Down8(d), i)
    {
      EightUp(c, i);
      EightUp(d, i);
    }
  }

  lemma FourBytes(c: bv32, d: bv32)
    requires c & 0xFF == d & 0xFF && Down8(c) & 0xFF == Down8(d) & 0xFF
    requires Down8(Down8(c)) & 0xFF == Down8(Down8(d)) & 0xFF
    requires Down8(Down8(Down8(c))) & 0xFF == Down8(Down8(Down8(d))) & 0xFF
    ensures c == d
  {
  }

  /** A word is determined by its bits. */
  lemma WordFromBits(c: bv32, d: bv32)
    requires forall i :: 0 <= i < 32 ==> BitAt(c, i) == BitAt(d, i)
    ensures c == d
  {
    ByteFromBits(c, d);
    BitsDown(c, d, 24);
    ByteFromBits(Down8(c), Down8(d));
    BitsDown(Down8(c), Down8(d), 16);
    ByteFromBits(Down8(Down8(c)), Down8(Down8(d)));
    BitsDown(Down8(Down8(c)), Down8(Down8(d)), 8);
    ByteFromBits(Down8(Down8(Down8(c))), Down8(Down8(Down8(d))));
    FourBytes(c, d);
  }

  lemma LowTwoBytes(c: bv32, d: bv32)
    requires forall i :: 0 <= i < 16 ==> BitAt(c, i) == BitAt(d, i)
    ensures c & 0xFF == d & 0xFF && Down8(c) & 0xFF == Down8(d) & 0xFF
  {
    ByteFromBits(c, d);
    BitsDown(c, d, 8);
    ByteFromBits(Down8(c), Down8(d));
  }

  lemma TwoBytes(c: bv32, d: bv32)
    requires c & 0xFF == d & 0xFF && Down8(c) & 0xFF == Down8(d) & 0xFF && c < 0x10000 && d < 0x10000
    ensures c == d
  {
  }

  lemma HalfWordFromBits(c: bv32, d: bv32)
    requires forall i :: 0 <= i < 16 ==> BitAt(c, i) == BitAt(d, i)
    requires c < 0x10000 && d < 0x10000
    ensures c == d
  {
    LowTwoBytes(c, d);
    TwoBytes(c, d);
  }

  // ---------------------------------------------------------------- words that shift right

  /** One bit of division on a reflected word: bit 0 holds the highest power. */
  function ShiftRight(c: bv32, poly: bv32): bv32 {
    if c & 1 == 1 then (c >> 1) ^ poly else c >> 1
  }

  lemma ShiftRightBit(c: bv32, poly: bv32, i: nat)
    ensures BitAt(ShiftRight(c, poly), i) == (BitAt(c, i + 1) != (BitAt(c, 0) && BitAt(poly, i)))
  {
    OneUp(c, i);
    if BitAt(c, 0) {
      XorBits(c >> 1, poly, ShiftRight(c, poly), i);
    }
  }

  /** A word step is multiplication by x. */
  lemma ShiftRightIsShift(c: bv32, poly: bv32, w: nat)
    requires w > 0 && !BitAt(c, w)
    ensures LowBits(ShiftRight(c, poly), w) == Shift(LowBits(poly, w), LowBits(c, w))
  {
    forall i | 0 <= i < w
      ensures LowBits(ShiftRight(c, poly), w)[i] == Shift(LowBits(poly, w), LowBits(c, w))[i]
    {
      ShiftRightBit(c, poly, i);
    }
  }

  lemma LowBitsXor(c: bv32, d: bv32, x: bv32, w: nat)
    requires x == c ^ d
    ensures LowBits(x, w) == Xor(LowBits(c, w), LowBits(d, w))
  {
    forall i | 0 <= i < w
      ensures BitAt(x, i) == (BitAt(c, i) != BitAt(d, i))
    {
      XorBits(c, d, x, i);
    }
  }

  lemma ByteIsPadded(b: bv32, w: nat)
    requires b < 0x100 && w >= 8
    ensures LowBits(b, w) == LowBits(b, 8) + Zeros(w - 8)
  {
    forall i | 8 <= i < w
      ensures !BitAt(b, i)
    {
      ByteHigh(b, i);
    }
  }

  lemma SameByte(b: bv8, c: bv8)
    requires LowBits(b as bv32, 8) == LowBits(c as bv32, 8)
    ensures b == c
  {
    var d, e := b as bv32, c as bv32;
    forall i | 0 <= i < 8
      ensures BitAt(d, i) == BitAt(e, i)
    {
      assert LowBits(d, 8)[i] == LowBits(e, 8)[i];
    }
    ByteFromBits(d, e);
  }
}
