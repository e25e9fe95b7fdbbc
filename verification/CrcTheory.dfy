/** Cyclic redundancy checks over bit sequences: division of polynomials over GF(2).

    A polynomial is the sequence of its coefficients, highest power first.  A register of width w
    holds a remainder; index 0 is the coefficient of x^(w-1), the next one to be shifted out.  The
    generator x^w + taps is given by its w low coefficients.  Nothing here knows about words,
    bytes or tables. */
module CrcTheory {

  type Bits = seq<bool>

  function Zeros(n: nat): (z: Bits)
    ensures |z| == n && forall i :: 0 <= i < n ==> !z[i]
  {
    seq(n, _ => false)
  }

  function Xor(a: Bits, b: Bits): (c: Bits)
    requires |a| == |b|
    ensures |c| == |a| && forall i :: 0 <= i < |a| ==> c[i] == (a[i] != b[i])
  {
    seq(|a|, i requires 0 <= i < |a| => a[i] != b[i])
  }

  /** Multiplication by x, reduced by the generator. */
  function Shift(taps: Bits, reg: Bits): (r: Bits)
    requires |reg| == |taps| > 0
    ensures |r| == |taps|
    ensures forall i :: 0 <= i < |r| ==> r[i] == ((i + 1 < |reg| && reg[i + 1]) != (reg[0] && taps[i]))
  {
    seq(|reg|, i requires 0 <= i < |reg| => (i + 1 < |reg| && reg[i + 1]) != (reg[0] && taps[i]))
  }

  /** One message bit enters at the top of the register. */
  function Feed1(taps: Bits, reg: Bits, b: bool): (r: Bits)
    requires |reg| == |taps| > 0
    ensures |r| == |taps|
  {
    Shift(taps, reg[0 := reg[0] != b])
  }

  function Feed(taps: Bits, reg: Bits, m: Bits): (r: Bits)
    requires |reg| == |taps| > 0
    ensures |r| == |taps|
    decreases |m|
  {
    if m == [] then reg else Feed(taps, Feed1(taps, reg, m[0]), m[1..])
  }

  lemma {:induction false} FeedAppend(taps: Bits, reg: Bits, a: Bits, b: Bits)
    requires |reg| == |taps| > 0
    ensures Feed(taps, reg, a + b) == Feed(taps, Feed(taps, reg, a), b)
    decreases |a|
  {
    if a == [] {
      assert a + b == b;
    } else {
      assert (a + b)[1..] == a[1..] + b;
      FeedAppend(taps, Feed1(taps, reg, a[0]), a[1..], b);
    }
  }

  lemma FeedLast(taps: Bits, reg: Bits, a: Bits, b: bool)
    requires |reg| == |taps| > 0
    ensures Feed(taps, reg, a + [b]) == Feed1(taps, Feed(taps, reg, a), b)
  {
    FeedAppend(taps, reg, a, [b]);
  }

  // ---------------------------------------------------------------- linearity and injectivity

  lemma Feed1Linear(taps: Bits, r: Bits, s: Bits, a: bool, b: bool)
    requires |r| == |s| == |taps| > 0
    ensures Feed1(taps, Xor(r, s), a != b) == Xor(Feed1(taps, r, a), Feed1(taps, s, b))
  {
  }

  lemma {:induction false} FeedLinear(taps: Bits, r: Bits, s: Bits, a: Bits, b: Bits)
    requires |r| == |s| == |taps| > 0 && |a| == |b|
    ensures Feed(taps, Xor(r, s), Xor(a, b)) == Xor(Feed(taps, r, a), Feed(taps, s, b))
    decreases |a|
  {
    if a != [] {
      Feed1Linear(taps, r, s, a[0], b[0]);
      assert Xor(a, b)[1..] == Xor(a[1..], b[1..]);
      FeedLinear(taps, Feed1(taps, r, a[0]), Feed1(taps, s, b[0]), a[1..], b[1..]);
    }
  }

  /** A generator with a constant term: a bit that enters changes the register reversibly. */
  lemma Feed1Injective(taps: Bits, r: Bits, s: Bits, b: bool)
    requires |r| == |s| == |taps| > 0 && taps[|taps| - 1]
    requires Feed1(taps, r, b) == Feed1(taps, s, b)
    ensures r == s
  {
    var n := |taps| - 1;
    assert Feed1(taps, r, b)[n] == (r[0] != b);
    assert Feed1(taps, s, b)[n] == (s[0] != b);
    forall i | 0 < i <= n
      ensures r[i] == s[i]
    {
      assert Feed1(taps, r, b)[i - 1] == Feed1(taps, s, b)[i - 1];
    }
  }

  lemma {:induction false} FeedInjective(taps: Bits, r: Bits, s: Bits, m: Bits)
    requires |r| == |s| == |taps| > 0 && taps[|taps| - 1]
    requires Feed(taps, r, m) == Feed(taps, s, m)
    ensures r == s
    decreases |m|
  {
    if m != [] {
      FeedInjective(taps, Feed1(taps, r, m[0]), Feed1(taps, s, m[0]), m[1..]);
      Feed1Injective(taps, r, s, m[0]);
    }
  }

  // ---------------------------------------------------------------- bursts

  /** Fed with its own leading bits, a register empties itself. */
  lemma {:induction false} FeedSelf(taps: Bits, e: Bits)
    requires |e| <= |taps| && |taps| > 0
    ensures Feed(taps, e + Zeros(|taps| - |e|), e) == Zeros(|taps|)
  {
    var w := |taps|;
    if e == [] {
      assert e + Zeros(w) == Zeros(w);
    } else {
      var r := e + Zeros(w - |e|);
      var r1 := e[1..] + Zeros(w - |e| + 1);
      assert Feed1(taps, r, e[0]) == r1 by {
        assert r[0] == e[0];
        assert forall i :: 0 <= i < w ==> Feed1(taps, r, e[0])[i] == (i + 1 < w && r[i + 1]);
      }
      FeedSelf(taps, e[1..]);
    }
  }

  /** So feeding at most w bits is xoring them in at once and feeding as many zeros. */
  lemma FeedAtOnce(taps: Bits, reg: Bits, e: Bits)
    requires |reg| == |taps| > 0 && |e| <= |taps|
    ensures Feed(taps, reg, e) == Feed(taps, Xor(reg, e + Zeros(|taps| - |e|)), Zeros(|e|))
  {
    var pad := e + Zeros(|taps| - |e|);
    FeedLinear(taps, reg, pad, e, e);
    FeedSelf(taps, e);
    assert Xor(e, e) == Zeros(|e|);
    assert Xor(Feed(taps, reg, e), Zeros(|taps|)) == Feed(taps, reg, e);
  }

  /** Different bits in a window of at most w positions lead to different registers. */
  lemma WindowInjective(taps: Bits, reg: Bits, a: Bits, b: Bits)
    requires |reg| == |taps| > 0 && taps[|taps| - 1]
    requires |a| == |b| <= |taps| && Feed(taps, reg, a) == Feed(taps, reg, b)
    ensures a == b
  {
    var z := Zeros(|taps| - |a|);
    FeedAtOnce(taps, reg, a);
    FeedAtOnce(taps, reg, b);
    FeedInjective(taps, Xor(reg, a + z), Xor(reg, b + z), Zeros(|a|));
    forall i | 0 <= i < |a|
      ensures a[i] == b[i]
    {
      assert Xor(reg, a + z)[i] == Xor(reg, b + z)[i];
    }
  }

  lemma FeedThree(taps: Bits, reg: Bits, a: Bits, b: Bits, c: Bits)
    requires |reg| == |taps| > 0
    ensures Feed(taps, reg, a + b + c) == Feed(taps, Feed(taps, Feed(taps, reg, a), b), c)
  {
    FeedAppend(taps, reg, a + b, c);
    FeedAppend(taps, reg, a, b);
  }

  /** Error detection: two messages of the same length that differ, but only inside a window of at
      most w consecutive bits, end in different registers whatever the start. */
  lemma BurstDetected(taps: Bits, reg: Bits, pre: Bits, a: Bits, b: Bits, post: Bits)
    requires |reg| == |taps| > 0 && taps[|taps| - 1]
    requires |a| == |b| <= |taps| && a != b
    ensures Feed(taps, reg, pre + a + post) != Feed(taps, reg, pre + b + post)
  {
    var s := Feed(taps, reg, pre);
    FeedThree(taps, reg, pre, a, post);
    FeedThree(taps, reg, pre, b, post);
    if Feed(taps, reg, pre + a + post) == Feed(taps, reg, pre + b + post) {
      FeedInjective(taps, Feed(taps, s, a), Feed(taps, s, b), post);
      WindowInjective(taps, s, a, b);
    }
  }

  // ---------------------------------------------------------------- parity

  /** The number of ones. */
  function Weight(b: Bits): nat {
    if b == [] then 0 else (if b[0] then 1 else 0) + Weight(b[1..])
  }

  predicate Odd(b: Bits) {
    Weight(b) % 2 == 1
  }

  lemma {:induction false} OddXor(a: Bits, b: Bits)
    requires |a| == |b|
    ensures Odd(Xor(a, b)) == (Odd(a) != Odd(b))
    decreases |a|
  {
    if a != [] {
      assert Xor(a, b)[1..] == Xor(a[1..], b[1..]);
      OddXor(a[1..], b[1..]);
    }
  }

  lemma {:induction false} OddPadded(a: Bits)
    ensures Odd(a + [false]) == Odd(a)
    decreases |a|
  {
    if a == [] {
      assert Weight([false]) == Weight([false][1..]) == 0;
    } else {
      assert (a + [false])[1..] == a[1..] + [false];
      OddPadded(a[1..]);
    }
  }

  /** With an even number of terms in the generator, multiplication by x keeps the parity. */
  lemma OddShift(taps: Bits, reg: Bits)
    requires |reg| == |taps| > 0 && Odd(taps)
    ensures Odd(Shift(taps, reg)) == Odd(reg)
  {
    var up := reg[1..] + [false];
    OddPadded(reg[1..]);
    if reg[0] {
      assert Shift(taps, reg) == Xor(up, taps);
      OddXor(up, taps);
    } else {
      assert Shift(taps, reg) == up;
    }
  }

  lemma OddFlip(reg: Bits, b: bool)
    requires |reg| > 0
    ensures Odd(reg[0 := reg[0] != b]) == (Odd(reg) != b)
  {
    assert reg[0 := reg[0] != b][1..] == reg[1..];
  }

  /** So the register carries the parity of everything fed. */
  lemma {:induction false} OddFeed(taps: Bits, reg: Bits, m: Bits)
    requires |reg| == |taps| > 0 && Odd(taps)
    ensures Odd(Feed(taps, reg, m)) == (Odd(reg) != Odd(m))
    decreases |m|
  {
    if m != [] {
      var next := reg[0 := reg[0] != m[0]];
      OddFlip(reg, m[0]);
      OddShift(taps, next);
      OddFeed(taps, Shift(taps, next), m[1..]);
    }
  }

  /** The number of positions in which two sequences differ. */
  function Distance(a: Bits, b: Bits): nat {
    if a == [] || b == [] then 0 else (if a[0] != b[0] then 1 else 0) + Distance(a[1..], b[1..])
  }

  lemma {:induction false} OddDistance(a: Bits, b: Bits)
    requires |a| == |b|
    ensures Distance(a, b) % 2 == 1 <==> Odd(a) != Odd(b)
    decreases |a|
  {
    if a != [] {
      OddDistance(a[1..], b[1..]);
    }
  }

  /** Error detection: an odd number of wrong bits, wherever they are, changes the register. */
  lemma OddDetected(taps: Bits, reg: Bits, a: Bits, b: Bits)
    requires |reg| == |taps| > 0 && Odd(taps) && |a| == |b| && Distance(a, b) % 2 == 1
    ensures Feed(taps, reg, a) != Feed(taps, reg, b)
  {
    OddDistance(a, b);
    OddFeed(taps, reg, a);
    OddFeed(taps, reg, b);
  }

  // ---------------------------------------------------------------- division with remainder

  /** The generator times one coefficient. */
  ghost function Scaled(taps: Bits, b: bool): (p: Bits)
    ensures |p| == |taps| + 1
  {
    if b then [true] + taps else Zeros(|taps| + 1)
  }

  /** q * (x^w + taps), with |q| + w coefficients. */
  ghost function Multiple(taps: Bits, q: Bits): (p: Bits)
    ensures |p| == |q| + |taps|
  {
    if q == [] then Zeros(|taps|)
    else
      var n := |q| - 1;
      Xor(Multiple(taps, q[..n]) + [false], Zeros(n) + Scaled(taps, q[n]))
  }

  /** The dividend: the start value in front of the message, the message raised by x^w. */
  ghost function Dividend(start: Bits, m: Bits): (p: Bits)
    ensures |p| == |start| + |m|
  {
    Xor(start + Zeros(|m|), m + Zeros(|start|))
  }

  lemma ZerosGrow(n: nat, r: Bits)
    ensures Zeros(n) + ([false] + r) == Zeros(n + 1) + r
  {
  }

  lemma DividendGrows(start: Bits, m: Bits, b: bool)
    requires |start| > 0
    ensures Dividend(start, m + [b]) == Xor(Dividend(start, m) + [false], Zeros(|m|) + ([b] + Zeros(|start|)))
  {
  }

  /** One bit of long division on the leading w+1 coefficients: subtract the generator or nothing. */
  lemma LeadingStep(taps: Bits, reg: Bits, b: bool)
    requires |reg| == |taps| > 0
    ensures Xor(reg + [false], [b] + Zeros(|taps|))
            == Xor(Scaled(taps, reg[0] != b), [false] + Feed1(taps, reg, b))
  {
    var r, o := Feed1(taps, reg, b), reg[0] != b;
    var left, right := Xor(reg + [false], [b] + Zeros(|taps|)), Xor(Scaled(taps, o), [false] + r);
    forall i | 0 <= i < |left|
      ensures left[i] == right[i]
    {
      if i > 0 {
        assert r[i - 1] == ((i < |reg| && reg[i]) != (o && taps[i - 1]));
      }
    }
  }

  lemma MultipleGrows(taps: Bits, q: Bits, b: bool)
    ensures Multiple(taps, q + [b]) == Xor(Multiple(taps, q) + [false], Zeros(|q|) + Scaled(taps, b))
  {
    assert (q + [b])[..|q|] == q;
  }

  lemma Aligned(p: Bits, z: Bits, a: Bits, c: Bits)
    requires |p| == |z| + |a| && |c| == |a| + 1 && z == Zeros(|z|)
    ensures Xor(Xor(p, z + a) + [false], z + c) == Xor(p + [false], z + Xor(a + [false], c))
  {
  }

  lemma Collected(p: Bits, z: Bits, a: Bits, c: Bits)
    requires |p| == |z| + |a| && |c| == |a| && z == Zeros(|z|)
    ensures Xor(Xor(p, z + a), z + c) == Xor(p, z + Xor(a, c))
  {
  }

  lemma DivideStep(taps: Bits, q: Bits, reg: Bits, b: bool)
    requires |reg| == |taps| > 0
    ensures Xor(Xor(Multiple(taps, q), Zeros(|q|) + reg) + [false], Zeros(|q|) + ([b] + Zeros(|taps|)))
            == Xor(Multiple(taps, q + [reg[0] != b]), Zeros(|q|) + ([false] + Feed1(taps, reg, b)))
  {
    var p := Multiple(taps, q);
    MultipleGrows(taps, q, reg[0] != b);
    Aligned(p, Zeros(|q|), reg, [b] + Zeros(|taps|));
    LeadingStep(taps, reg, b);
    Collected(p + [false], Zeros(|q|), Scaled(taps, reg[0] != b), [false] + Feed1(taps, reg, b));
  }

  /** The final register is a remainder of the dividend, with an explicit quotient. */
  lemma {:induction false} FeedDivides(taps: Bits, start: Bits, m: Bits) returns (q: Bits)
    requires |start| == |taps| > 0
    ensures |q| == |m|
    ensures Dividend(start, m) == Xor(Multiple(taps, q), Zeros(|m|) + Feed(taps, start, m))
  {
    if m == [] {
      q := [];
    } else {
      var n := |m| - 1;
      var m0, b := m[..n], m[n];
      var q0 := FeedDivides(taps, start, m0);
      var reg := Feed(taps, start, m0);
      q := q0 + [reg[0] != b];
      FeedLast(taps, start, m0, b);
      assert m == m0 + [b];
      DividendGrows(start, m0, b);
      DivideStep(taps, q0, reg, b);
      ZerosGrow(n, Feed1(taps, reg, b));
    }
  }

  // ---------------------------------------------------------------- the remainder is unique

  lemma XorExchange(a: Bits, b: Bits, c: Bits, d: Bits)
    requires |a| == |b| == |c| == |d|
    ensures Xor(Xor(a, b), Xor(c, d)) == Xor(Xor(a, c), Xor(b, d))
  {
  }

  lemma LongerMultiples(taps: Bits, a: Bits, b: Bits, n: nat, q: bool, r: bool)
    requires |a| == |b| == n + |taps|
    ensures Xor(Xor(a, b) + [false], Zeros(n) + Scaled(taps, q != r))
         == Xor(Xor(a + [false], Zeros(n) + Scaled(taps, q)), Xor(b + [false], Zeros(n) + Scaled(taps, r)))
  {
    var sq, sr := Zeros(n) + Scaled(taps, q), Zeros(n) + Scaled(taps, r);
    assert Xor(a, b) + [false] == Xor(a + [false], b + [false]);
    assert Zeros(n) + Scaled(taps, q != r) == Xor(sq, sr);
    XorExchange(a + [false], b + [false], sq, sr);
  }

  lemma {:induction false} MultipleLinear(taps: Bits, q: Bits, r: Bits)
    requires |q| == |r|
    ensures Multiple(taps, Xor(q, r)) == Xor(Multiple(taps, q), Multiple(taps, r))
    decreases |q|
  {
    if q != [] {
      var n := |q| - 1;
      MultipleLinear(taps, q[..n], r[..n]);
      assert Xor(q, r)[..n] == Xor(q[..n], r[..n]);
      LongerMultiples(taps, Multiple(taps, q[..n]), Multiple(taps, r[..n]), n, q[n], r[n]);
    }
  }

  /** A multiple of the generator of degree below w is zero, and so is the factor. */
  lemma {:induction false} SmallMultipleIsZero(taps: Bits, q: Bits)
    requires |taps| > 0 && Multiple(taps, q)[..|q|] == Zeros(|q|)
    ensures q == Zeros(|q|) && Multiple(taps, q) == Zeros(|q| + |taps|)
  {
    if q != [] {
      var n := |q| - 1;
      var p := Multiple(taps, q[..n]);
      forall i | 0 <= i < n
        ensures !p[i]
      {
        assert Multiple(taps, q)[..|q|][i] == Multiple(taps, q)[i] == p[i];
      }
      assert p[..n] == Zeros(n);
      SmallMultipleIsZero(taps, q[..n]);
      assert Multiple(taps, q)[..|q|][n] == Multiple(taps, q)[n] == q[n];
    }
  }

  lemma SameSum(a: Bits, b: Bits, n: nat, r: Bits, r': Bits)
    requires |a| == |b| == n + |r| && |r| == |r'| && Xor(a, Zeros(n) + r) == Xor(b, Zeros(n) + r')
    ensures Xor(a, b)[..n] == Zeros(n)
  {
    forall i | 0 <= i < n + |r|
      ensures Xor(a, b)[i] == (i >= n && (r[i - n] != r'[i - n]))
    {
      assert Xor(a, Zeros(n) + r)[i] == Xor(b, Zeros(n) + r')[i];
    }
  }

  lemma XorIsZero(a: Bits, b: Bits)
    requires |a| == |b| && Xor(a, b) == Zeros(|a|)
    ensures a == b
  {
    forall i | 0 <= i < |a|
      ensures a[i] == b[i]
    {
      assert !Xor(a, b)[i];
    }
  }

  lemma QuotientUnique(taps: Bits, q: Bits, r: Bits, q': Bits, r': Bits)
    requires |taps| > 0 && |q| == |q'| && |r| == |r'| == |taps|
    requires Xor(Multiple(taps, q), Zeros(|q|) + r) == Xor(Multiple(taps, q'), Zeros(|q|) + r')
    ensures q == q'
  {
    MultipleLinear(taps, q, q');
    SameSum(Multiple(taps, q), Multiple(taps, q'), |q|, r, r');
    SmallMultipleIsZero(taps, Xor(q, q'));
    XorIsZero(q, q');
  }

  lemma SameRest(a: Bits, n: nat, r: Bits, r': Bits)
    requires |a| == n + |r| && |r| == |r'| && Xor(a, Zeros(n) + r) == Xor(a, Zeros(n) + r')
    ensures r == r'
  {
    forall i | 0 <= i < |r|
      ensures r[i] == r'[i]
    {
      assert Xor(a, Zeros(n) + r)[n + i] == Xor(a, Zeros(n) + r')[n + i];
    }
  }

  /** Two divisions of the same dividend agree: the register is THE remainder. */
  lemma RemainderUnique(taps: Bits, q: Bits, r: Bits, q': Bits, r': Bits)
    requires |taps| > 0 && |q| == |q'| && |r| == |r'| == |taps|
    requires Xor(Multiple(taps, q), Zeros(|q|) + r) == Xor(Multiple(taps, q'), Zeros(|q|) + r')
    ensures q == q' && r == r'
  {
    QuotientUnique(taps, q, r, q', r');
    SameRest(Multiple(taps, q), |q|, r, r');
  }
}
