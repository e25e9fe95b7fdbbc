/** Bits packed into 64-bit words: the shifts and masks of dynamic_bitset in hj/algo/bloom_filter.hpp. */
module BloomWords {
  import opened Words64

  /** (w >> b) & 1 */
  function Bit(w: bv64, b: nat): bool
    decreases b
  {
    if b == 0 then Odd(w) else Bit(Half(w), b - 1)
  }

  /** uint64_t(1) << b */
  function Mask(b: nat): bv64 {
    Up(1, b)
  }

  function WithBit(w: bv64, b: nat): bv64 {
    w | Mask(b)
  }

  function WithoutBit(w: bv64, b: nat): bv64 {
    w & !Mask(b)
  }

  lemma OddOr(x: bv64, y: bv64)
    ensures Odd(x | y) == (Odd(x) || Odd(y))
  {
  }

  lemma HalfOr(x: bv64, y: bv64)
    ensures Half(x | y) == Half(x) | Half(y)
  {
  }

  lemma OddAndNot(x: bv64, y: bv64)
    ensures Odd(x & !y) == (Odd(x) && !Odd(y))
  {
  }

  lemma HalfAndNot(x: bv64, y: bv64)
    ensures Half(x & !y) == Half(x) & !Half(y)
  {
  }

  lemma BitDown(x: bv64, b: nat)
    requires b > 0
    ensures Bit(x, b) == Bit(Half(x), b - 1)
  {
  }

  lemma {:induction false} OrBits(x: bv64, y: bv64, z: bv64, b: nat)
    requires z == x | y
    ensures Bit(z, b) == (Bit(x, b) || Bit(y, b))
    decreases b
  {
    if b == 0 {
      OddOr(x, y);
    } else {
      HalfOr(x, y);
      OrBits(Half(x), Half(y), Half(z), b - 1);
      BitDown(x, b);
      BitDown(y, b);
      BitDown(z, b);
    }
  }

  lemma {:induction false} AndNotBits(x: bv64, y: bv64, z: bv64, b: nat)
    requires z == x & !y
    ensures Bit(z, b) == (Bit(x, b) && !Bit(y, b))
    decreases b
  {
    if b == 0 {
      OddAndNot(x, y);
    } else {
      HalfAndNot(x, y);
      AndNotBits(Half(x), Half(y), Half(z), b - 1);
      BitDown(x, b);
      BitDown(y, b);
      BitDown(z, b);
    }
  }

  lemma HalfZero()
    ensures Half(0) == 0
  {
  }

  lemma {:induction false} ZeroBit(b: nat)
    ensures !Bit(0, b)
  {
    if b > 0 {
      HalfZero();
      ZeroBit(b - 1);
    }
  }

  lemma OneFits()
    ensures Fits(1, 1)
  {
    assert Fits(0, 0);
  }

  lemma {:induction false} MaskFits(b: nat)
    requires b <= 63
    ensures Fits(Mask(b), b + 1)
    decreases b
  {
    if b == 0 {
      OneFits();
    } else {
      MaskFits(b - 1);
      PushFits(Mask(b - 1), false, b);
    }
  }

  lemma HalfOne()
    ensures Half(1) == 0
  {
  }

  /** The mask has one bit. */
  lemma {:induction false} MaskBit(b: nat, c: nat)
    requires b <= 63
    ensures Bit(Mask(b), c) == (b == c)
    decreases b
  {
    if b == 0 {
      if c > 0 {
        HalfOne();
        BitDown(Mask(0), c);
        ZeroBit(c - 1);
      }
    } else {
      MaskFits(b - 1);
      PushHalves(Mask(b - 1), false, b);
      if c == 0 {
        LastBit(Mask(b - 1), false);
      } else {
        BitDown(Mask(b), c);
        MaskBit(b - 1, c - 1);
      }
    }
  }

  lemma WithBitIs(w: bv64, b: nat, m: bv64, z: bv64)
    requires m == Mask(b) && z == WithBit(w, b)
    ensures z == w | m
  {
  }

  lemma WithoutBitIs(w: bv64, b: nat, m: bv64, z: bv64)
    requires m == Mask(b) && z == WithoutBit(w, b)
    ensures z == w & !m
  {
  }

  /** Setting a bit changes that bit only. */
  lemma SetBit(w: bv64, b: nat, c: nat, m: bv64, z: bv64)
    requires b <= 63 && m == Mask(b) && z == WithBit(w, b)
    ensures Bit(z, c) == (b == c || Bit(w, c))
  {
    MaskBit(b, c);
    WithBitIs(w, b, m, z);
    OrBits(w, m, z, c);
  }

  /** Clearing a bit changes that bit only. */
  lemma ClearBit(w: bv64, b: nat, c: nat, m: bv64, z: bv64)
    requires b <= 63 && m == Mask(b) && z == WithoutBit(w, b)
    ensures Bit(z, c) == (b != c && Bit(w, c))
  {
    MaskBit(b, c);
    WithoutBitIs(w, b, m, z);
    AndNotBits(w, m, z, c);
  }

  // ---------------------------------------------------------------- packed sequences

  function BitOf(words: seq<bv64>, p: nat): bool
    requires p < 64 * |words|
  {
    Bit(words[p / 64], p % 64)
  }

  /** The first n bits. */
  function Unpacked(words: seq<bv64>, n: nat): (bits: seq<bool>)
    requires n <= 64 * |words|
    ensures |bits| == n && forall p :: 0 <= p < n ==> bits[p] == BitOf(words, p)
  {
    seq(n, p requires 0 <= p < n => BitOf(words, p))
  }

  /** The bits past the end are zero. */
  ghost predicate TailClear(words: seq<bv64>, n: nat) {
    forall p :: n <= p < 64 * |words| ==> !BitOf(words, p)
  }

  function Stored(words: seq<bv64>, pos: nat, value: bool): seq<bv64>
    requires pos < 64 * |words|
  {
    words[pos / 64 := if value then WithBit(words[pos / 64], pos % 64) else WithoutBit(words[pos / 64], pos % 64)]
  }

  lemma StoredBit(words: seq<bv64>, pos: nat, value: bool, p: nat)
    requires pos < 64 * |words| && p < 64 * |words|
    ensures BitOf(Stored(words, pos, value), p) == if p == pos then value else BitOf(words, p)
  {
    if p / 64 == pos / 64 {
      var w, b := words[pos / 64], pos % 64;
      SetBit(w, b, p % 64, Mask(b), WithBit(w, b));
      ClearBit(w, b, p % 64, Mask(b), WithoutBit(w, b));
    }
  }

  /** Storing into the packed words is storing into the sequence of bits. */
  lemma StoreRefines(words: seq<bv64>, n: nat, pos: nat, value: bool)
    requires pos < n <= 64 * |words| && TailClear(words, n)
    ensures Unpacked(Stored(words, pos, value), n) == Unpacked(words, n)[pos := value]
    ensures TailClear(Stored(words, pos, value), n)
  {
    var words' := Stored(words, pos, value);
    forall p | 0 <= p < 64 * |words|
      ensures BitOf(words', p) == if p == pos then value else BitOf(words, p)
    {
      StoredBit(words, pos, value, p);
    }
  }

  lemma ClearWords(words: seq<bv64>, p: nat)
    requires p < 64 * |words| && words[p / 64] == 0
    ensures !BitOf(words, p)
  {
    ZeroBit(p % 64);
  }
}
