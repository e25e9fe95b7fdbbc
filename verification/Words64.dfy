/** Numbers as 64-bit words: shifts and unions of fields against arithmetic. */
module Words64 {
  import opened Division

  function Pow2(k: nat): (p: nat)
    ensures p >= 1
    decreases k
  {
    if k == 0 then 1 else 2 * Pow2(k - 1)
  }

  /** One more bit at the bottom. */
  function Push(w: bv64, bit: bool): bv64 {
    if bit then (w << 1) | 1 else w << 1
  }

  /** The word of a number modulo 2^64. */
  function Word(n: nat): bv64 {
    if n == 0 then 0 else Push(Word(n / 2), n % 2 == 1)
  }

  /** w < 2^k. */
  predicate Fits(w: bv64, k: nat)
    decreases k
  {
    if k == 0 then w == 0 else Fits(w >> 1, k - 1)
  }

  function Up(w: bv64, k: nat): bv64
    decreases k
  {
    if k == 0 then w else Push(Up(w, k - 1), false)
  }

  lemma {:induction false} ZeroFits(k: nat)
    ensures Fits(0, k)
  {
    if k > 0 {
      ZeroFits(k - 1);
    }
  }

  lemma {:induction false} FitsMore(w: bv64, j: nat, k: nat)
    requires Fits(w, j) && j <= k
    ensures Fits(w, k)
    decreases j
  {
    if j == 0 {
      ZeroFits(k);
    } else {
      FitsMore(w >> 1, j - 1, k - 1);
    }
  }

  function Down9(w: bv64): (d: bv64)
    ensures d == w >> 9
  {
    w >> 1 >> 1 >> 1 >> 1 >> 1 >> 1 >> 1 >> 1 >> 1
  }

  lemma FitsDown1(w: bv64, k: nat)
    ensures Fits(w, k + 1) == Fits(w >> 1, k)
  {
  }

  lemma FitsDown9(w: bv64, k: nat)
    ensures Fits(w, k + 9) == Fits(Down9(w), k)
  {
    FitsDown1(w, k + 8);
    FitsDown1(w >> 1, k + 7);
    FitsDown1(w >> 1 >> 1, k + 6);
    FitsDown1(w >> 1 >> 1 >> 1, k + 5);
    FitsDown1(w >> 1 >> 1 >> 1 >> 1, k + 4);
    FitsDown1(w >> 1 >> 1 >> 1 >> 1 >> 1, k + 3);
    FitsDown1(w >> 1 >> 1 >> 1 >> 1 >> 1 >> 1, k + 2);
    FitsDown1(w >> 1 >> 1 >> 1 >> 1 >> 1 >> 1 >> 1, k + 1);
    FitsDown1(w >> 1 >> 1 >> 1 >> 1 >> 1 >> 1 >> 1 >> 1, k);
  }

  function Down63(w: bv64): (d: bv64)
    ensures d == w >> 63
  {
    Down9(Down9(Down9(Down9(Down9(Down9(Down9(w)))))))
  }

  lemma Fits63(w: bv64)
    ensures Fits(w, 63) == (Down63(w) == 0)
  {
    var a := Down9(w);
    var b := Down9(a);
    var c := Down9(b);
    FitsDown9(w, 54);
    FitsDown9(a, 45);
    FitsDown9(b, 36);
    FitsDown9(c, 27);
    FitsDown9(Down9(c), 18);
    FitsDown9(Down9(Down9(c)), 9);
    FitsDown9(Down9(Down9(Down9(c))), 0);
  }

  lemma TopClear(w: bv64)
    requires w >> 63 == 0
    ensures (w << 1) >> 1 == w
  {
  }

  /** A word below 2^63 survives a shift up and down. */
  lemma ShiftBack(w: bv64, k: nat)
    requires Fits(w, k) && k <= 63
    ensures (w << 1) >> 1 == w
  {
    FitsMore(w, k, 63);
    Fits63(w);
    TopClear(w);
  }

  lemma LastBit(w: bv64, bit: bool)
    ensures Push(w, bit) & 1 == 1 <==> bit
    ensures Push(w, bit) >> 1 == (w << 1) >> 1
  {
  }

  lemma PushHalves(w: bv64, bit: bool, k: nat)
    requires Fits(w, k) && k <= 63
    ensures Push(w, bit) >> 1 == w
  {
    LastBit(w, bit);
    ShiftBack(w, k);
  }

  lemma PushFits(w: bv64, bit: bool, k: nat)
    requires Fits(w, k) && k <= 63
    ensures Fits(Push(w, bit), k + 1)
  {
    PushHalves(w, bit, k);
  }

  // ---------------------------------------------------------------- fields

  /** Words seen only through their operations. */
  datatype Algebra<!W> = Algebra(zero: W, push: (W, bool) -> W, or: (W, W) -> W,
                                 half: W -> W, odd: W -> bool, fits: (W, nat) -> bool)

  ghost predicate Unites<W(!new)>(g: Algebra<W>) {
    && (forall x {:trigger g.or(x, g.zero)} :: g.or(x, g.zero) == x)
    && g.push(g.zero, false) == g.zero
    && (forall x, y, b {:trigger g.push(g.or(x, y), b)} :: g.push(g.or(x, y), b) == g.or(g.push(x, false), g.push(y, b)))
  }

  /** Up to 64 bits, a pushed bit can be taken back. */
  ghost predicate Holds<W(!new)>(g: Algebra<W>) {
    && (forall k {:trigger g.fits(g.zero, k)} :: g.fits(g.zero, k))
    && (forall w, b, k {:trigger g.push(w, b), g.fits(w, k)} ::
          0 <= k <= 63 && g.fits(w, k) ==>
            g.fits(g.push(w, b), k + 1) && g.half(g.push(w, b)) == w && g.odd(g.push(w, b)) == b)
    && g.push(g.zero, false) == g.zero
  }

  function Number<W>(g: Algebra<W>, n: nat): W {
    if n == 0 then g.zero else g.push(Number(g, n / 2), n % 2 == 1)
  }

  function Raise<W>(g: Algebra<W>, w: W, k: nat): W
    decreases k
  {
    if k == 0 then w else g.push(Raise(g, w, k - 1), false)
  }

  lemma {:induction false} NumberFits<W(!new)>(g: Algebra<W>, n: nat, k: nat)
    requires Holds(g) && n < Pow2(k) && k <= 64
    ensures g.fits(Number(g, n), k)
    decreases k
  {
    if n > 0 {
      NumberFits(g, n / 2, k - 1);
    }
  }

  lemma {:induction false} NumberInjective<W(!new)>(g: Algebra<W>, n: nat, m: nat, k: nat)
    requires Holds(g) && n < Pow2(k) && m < Pow2(k) && k <= 64
    requires Number(g, n) == Number(g, m)
    ensures n == m
    decreases k
  {
    if k > 0 {
      NumberFits(g, n / 2, k - 1);
      NumberFits(g, m / 2, k - 1);
      assert Number(g, n) == g.push(Number(g, n / 2), n % 2 == 1);
      assert Number(g, m) == g.push(Number(g, m / 2), m % 2 == 1);
      NumberInjective(g, n / 2, m / 2, k - 1);
    }
  }

  lemma Halve(a: nat, b: nat, p: nat, n: nat)
    requires n == a * (2 * p) + b
    ensures n / 2 == a * p + b / 2 && n % 2 == b % 2
  {
    assert a * (2 * p) == 2 * (a * p);
  }

  lemma {:induction false} JoinIn<W(!new)>(g: Algebra<W>, a: nat, b: nat, k: nat, n: nat)
    requires Unites(g) && b < Pow2(k) && n == a * Pow2(k) + b
    ensures Number(g, n) == g.or(Raise(g, Number(g, a), k), Number(g, b))
    decreases k
  {
    if k > 0 {
      Halve(a, b, Pow2(k - 1), n);
      JoinIn(g, a, b / 2, k - 1, n / 2);
    }
  }

  function Or(x: bv64, y: bv64): bv64 {
    x | y
  }

  function Half(w: bv64): bv64 {
    w >> 1
  }

  function Odd(w: bv64): bool {
    w & 1 == 1
  }

  function Machine64(): Algebra<bv64> {
    Algebra(0, (w, b) => Push(w, b), (x, y) => Or(x, y), w => Half(w), w => Odd(w), (w, k) => k >= 0 && Fits(w, k))
  }

  lemma MachineHolds()
    ensures Holds(Machine64())
  {
    forall k: nat
      ensures Fits(0, k)
    {
      ZeroFits(k);
    }
    forall w, b, k: nat | Fits(w, k) && k <= 63
      ensures Fits(Push(w, b), k + 1) && Half(Push(w, b)) == w && Odd(Push(w, b)) == b
    {
      PushFits(w, b, k);
      PushHalves(w, b, k);
      LastBit(w, b);
    }
  }

  lemma OrZero(x: bv64)
    ensures Or(x, 0) == x
  {
  }

  lemma PushOneOr(x: bv64, y: bv64)
    ensures Push(Or(x, y), true) == Or(Push(x, false), Push(y, true))
  {
  }

  lemma PushZeroOr(x: bv64, y: bv64)
    ensures Push(Or(x, y), false) == Or(Push(x, false), Push(y, false))
  {
  }

  lemma PushOr(x: bv64, y: bv64, b: bool)
    ensures Push(Or(x, y), b) == Or(Push(x, false), Push(y, b))
  {
    if b {
      PushOneOr(x, y);
    } else {
      PushZeroOr(x, y);
    }
  }

  lemma MachineUnites()
    ensures Unites(Machine64())
  {
    forall x
      ensures Or(x, 0) == x
    {
      OrZero(x);
    }
    forall x, y, b
      ensures Push(Or(x, y), b) == Or(Push(x, false), Push(y, b))
    {
      PushOr(x, y, b);
    }
  }

  lemma {:induction false} NumberIsWord(n: nat)
    ensures Number(Machine64(), n) == Word(n)
  {
    if n > 0 {
      NumberIsWord(n / 2);
    }
  }

  lemma {:induction false} RaiseIsUp(w: bv64, k: nat)
    ensures Raise(Machine64(), w, k) == Up(w, k)
    decreases k
  {
    if k > 0 {
      RaiseIsUp(w, k - 1);
    }
  }

  /** Different numbers below 2^64 have different words. */
  lemma WordInjective(n: nat, m: nat)
    requires n < Pow2(64) && m < Pow2(64) && Word(n) == Word(m)
    ensures n == m
  {
    MachineHolds();
    NumberIsWord(n);
    NumberIsWord(m);
    NumberInjective(Machine64(), n, m, 64);
  }

  /** A number below 2^k has a word below 2^k. */
  lemma WordFits(n: nat, k: nat)
    requires n < Pow2(k) && k <= 64
    ensures Fits(Word(n), k)
  {
    MachineHolds();
    NumberIsWord(n);
    NumberFits(Machine64(), n, k);
  }

  /** The union of two disjoint fields is the word of their sum. */
  lemma Join(a: nat, b: nat, k: nat, n: nat)
    requires b < Pow2(k) && n == a * Pow2(k) + b
    ensures Word(n) == Or(Up(Word(a), k), Word(b))
  {
    MachineUnites();
    JoinIn(Machine64(), a, b, k, n);
    NumberIsWord(a);
    NumberIsWord(b);
    NumberIsWord(n);
    RaiseIsUp(Word(a), k);
  }

  lemma {:induction false} UpAdds(w: bv64, j: nat, k: nat)
    ensures Up(Up(w, j), k) == Up(w, j + k)
    decreases k
  {
    if k > 0 {
      UpAdds(w, j, k - 1);
    }
  }

  // Raising by the widths of the id's fields is shifting.

  lemma Up2(w: bv64)
    ensures Up(w, 2) == w << 2
  {
    assert Up(w, 1) == Push(Up(w, 0), false);
  }

  lemma Up4(w: bv64)
    ensures Up(w, 4) == w << 4
  {
    UpAdds(w, 2, 2);
    Up2(w);
    Up2(w << 2);
  }

  lemma Up8(w: bv64)
    ensures Up(w, 8) == w << 8
  {
    UpAdds(w, 4, 4);
    Up4(w);
    Up4(w << 4);
  }

  lemma Shift10(w: bv64, u: bv64)
    requires u == w << 8
    ensures u << 2 == w << 10
  {
  }

  lemma Up10(w: bv64)
    ensures Up(w, 10) == w << 10
  {
    UpAdds(w, 8, 2);
    Up8(w);
    Up2(Up(w, 8));
    Shift10(w, Up(w, 8));
  }

  lemma Shift6(w: bv64, u: bv64)
    requires u == w << 4
    ensures u << 2 == w << 6
  {
  }

  lemma Up6(w: bv64)
    ensures Up(w, 6) == w << 6
  {
    UpAdds(w, 4, 2);
    Up4(w);
    Up2(Up(w, 4));
    Shift6(w, Up(w, 4));
  }

  lemma Shift12(w: bv64, u: bv64)
    requires u == w << 8
    ensures u << 4 == w << 12
  {
  }

  lemma Up12(w: bv64)
    ensures Up(w, 12) == w << 12
  {
    UpAdds(w, 8, 4);
    Up8(w);
    Up4(Up(w, 8));
    Shift12(w, Up(w, 8));
  }

  lemma Up16(w: bv64)
    ensures Up(w, 16) == w << 16
  {
    UpAdds(w, 8, 8);
    Up8(w);
    Up8(w << 8);
  }

  lemma Up32(w: bv64)
    ensures Up(w, 32) == w << 32
  {
    UpAdds(w, 16, 16);
    Up16(w);
    Up16(w << 16);
  }

  lemma ShiftedOut(w: bv64, u: bv64)
    requires u == w << 32
    ensures u << 32 == 0
  {
  }

  lemma Up64(w: bv64)
    ensures Up(w, 64) == 0
  {
    Up32(w);
    UpAdds(w, 32, 32);
    Up32(Up(w, 32));
    ShiftedOut(w, Up(w, 32));
  }

  lemma ZeroOr(x: bv64)
    ensures Or(0, x) == x
  {
  }

  lemma WordWraps(n: nat, k: nat)
    requires k == 64
    ensures Word(n) == Word(n % Pow2(k))
  {
    Divided(n, Pow2(k));
    var q, r := n / Pow2(k), n % Pow2(k);
    Join(q, r, k, n);
    Up64(Word(q));
    ZeroOr(Word(r));
  }

  /** Words are numbers modulo 2^64, and nothing less. */
  lemma WordsEqualIff(n: nat, m: nat)
    ensures Word(n) == Word(m) <==> n % Pow2(64) == m % Pow2(64)
  {
    WordWraps(n, 64);
    WordWraps(m, 64);
    if Word(n) == Word(m) {
      WordInjective(n % Pow2(64), m % Pow2(64));
    }
  }

  lemma HalfBelow(n: nat, k: nat)
    requires k > 0 && n < Pow2(k)
    ensures n / 2 < Pow2(k - 1)
  {
  }

  lemma {:induction false} NumberHalves<W(!new)>(g: Algebra<W>, n: nat, k: nat)
    requires Holds(g) && 0 < k <= 64 && n < Pow2(k)
    ensures g.half(Number(g, n)) == Number(g, n / 2)
  {
    HalfBelow(n, k);
    NumberFits(g, n / 2, k - 1);
    assert Number(g, n) == g.push(Number(g, n / 2), n % 2 == 1);
  }

  // Fits as the usual shift test, for the widths of the id's fields.

  lemma Down10(w: bv64, d: bv64)
    requires d == w >> 9
    ensures d >> 1 == w >> 10
  {
  }

  lemma Fits10(w: bv64)
    ensures Fits(w, 10) == (w >> 10 == 0)
  {
    FitsDown9(w, 1);
    FitsDown1(Down9(w), 0);
    Down10(w, Down9(w));
  }

  lemma Down12(w: bv64, d: bv64)
    requires d == w >> 9
    ensures d >> 1 >> 1 >> 1 == w >> 12
  {
  }

  lemma Fits12(w: bv64)
    ensures Fits(w, 12) == (w >> 12 == 0)
  {
    FitsDown9(w, 3);
    FitsDown1(Down9(w), 2);
    FitsDown1(Down9(w) >> 1, 1);
    FitsDown1(Down9(w) >> 1 >> 1, 0);
    Down12(w, Down9(w));
  }

  lemma Down6(d: bv64)
    ensures d >> 1 >> 1 >> 1 >> 1 >> 1 >> 1 == d >> 6
  {
  }

  lemma Fits6(d: bv64)
    ensures Fits(d, 6) == (d >> 6 == 0)
  {
    FitsDown1(d, 5);
    FitsDown1(d >> 1, 4);
    FitsDown1(d >> 1 >> 1, 3);
    FitsDown1(d >> 1 >> 1 >> 1, 2);
    FitsDown1(d >> 1 >> 1 >> 1 >> 1, 1);
    FitsDown1(d >> 1 >> 1 >> 1 >> 1 >> 1, 0);
    Down6(d);
  }

  lemma Down18(w: bv64, d: bv64)
    requires d == w >> 9
    ensures Down9(d) == w >> 18
  {
  }

  lemma FitsDown18(w: bv64, k: nat)
    ensures Fits(w, k + 18) == Fits(w >> 18, k)
  {
    FitsDown9(w, k + 9);
    FitsDown9(Down9(w), k);
    Down18(w, Down9(w));
  }

  lemma Down42(w: bv64)
    ensures w >> 18 >> 18 >> 6 == w >> 42
  {
  }

  lemma Fits42(w: bv64)
    ensures Fits(w, 42) == (w >> 42 == 0)
  {
    FitsDown18(w, 24);
    FitsDown18(w >> 18, 6);
    Fits6(w >> 18 >> 18);
    Down42(w);
  }
}
