/** Byte order and the text form of hj/algo/uuid.hpp (version 8 of RFC 9562, section 5.8), on a
    little-endian host. */
module Uuid {
  import opened Words64
  import opened Snowflake
  import opened SnowflakeIds

  function Swap64(v: bv64): bv64 {
    (v >> 56) | ((v << 40) & 0x00FF_0000_0000_0000)
    | ((v << 24) & 0x0000_FF00_0000_0000) | ((v << 8) & 0x0000_00FF_0000_0000)
    | ((v >> 8) & 0x0000_0000_FF00_0000) | ((v >> 24) & 0x0000_0000_00FF_0000)
    | ((v >> 40) & 0x0000_0000_0000_FF00) | (v << 56)
  }

  function ToEndian(v: bv64, bigEndian: bool): bv64 {
    if bigEndian then Swap64(v) else v
  }

  lemma SwapTwice(v: bv64)
    ensures Swap64(Swap64(v)) == v
  {
  }

  /** Converting back and forth is the identity, so the byte order never merges two ids. */
  lemma ToEndianTwice(v: bv64, bigEndian: bool)
    ensures ToEndian(ToEndian(v, bigEndian), bigEndian) == v
  {
    SwapTwice(v);
  }

  function RfcHigh(high: bv64): bv64 {
    (high & 0xFFFF_FFFF_FFFF_0FFF) | 0x8000
  }

  function RfcLow(low: bv64): bv64 {
    (low & 0x3FFF_FFFF_FFFF_FFFF) | 0x8000_0000_0000_0000
  }

  /** The swap turns the eight bytes around. */
  lemma SwapReverses(v: bv64, s: bv64)
    requires s == Swap64(v)
    ensures s >> 56 == v & 0xFF && (s >> 48) & 0xFF == (v >> 8) & 0xFF
    ensures (s >> 40) & 0xFF == (v >> 16) & 0xFF && (s >> 32) & 0xFF == (v >> 24) & 0xFF
    ensures (s >> 24) & 0xFF == (v >> 32) & 0xFF && (s >> 16) & 0xFF == (v >> 40) & 0xFF
    ensures (s >> 8) & 0xFF == (v >> 48) & 0xFF && s & 0xFF == v >> 56
  {
  }

  /** A little-endian host stores the low byte first: asked for big-endian, the high byte comes first, and
      otherwise the word is left alone. */
  lemma ToEndianIs(v: bv64, w: bv64)
    ensures ToEndian(v, false) == v
    ensures w == ToEndian(v, true) ==> w & 0xFF == v >> 56 && w >> 56 == v & 0xFF
  {
    SwapReverses(v, Swap64(v));
  }

  // ---------------------------------------------------------------- hexadecimal fields

  function Digit(v: bv64): char {
    var d := v & 0xF;
    if d == 0 then '0' else if d == 1 then '1' else if d == 2 then '2' else if d == 3 then '3'
    else if d == 4 then '4' else if d == 5 then '5' else if d == 6 then '6' else if d == 7 then '7'
    else if d == 8 then '8' else if d == 9 then '9' else if d == 10 then 'a' else if d == 11 then 'b'
    else if d == 12 then 'c' else if d == 13 then 'd' else if d == 14 then 'e' else 'f'
  }

  lemma DigitInjective(v: bv64, w: bv64)
    requires Digit(v) == Digit(w)
    ensures v & 0xF == w & 0xF
  {
  }

  /** The lowest n digits. */
  function Hex(v: bv64, n: nat): (s: string)
    ensures |s| == n
    decreases n
  {
    if n == 0 then "" else Hex(v >> 4, n - 1) + [Digit(v)]
  }

  /** The digits of v without leading zeros, given that k are behind us. */
  function Width(v: bv64, k: nat): (n: nat)
    ensures n >= k
    decreases 16 - k
  {
    if v == 0 || k >= 16 then k else Width(v >> 4, k + 1)
  }

  /** printf's %0nx: at least n digits. */
  function Printed(v: bv64, n: nat): string {
    Hex(v, if Width(v, 0) > n then Width(v, 0) else n)
  }

  /** v < 16^n. */
  predicate Nibbles(v: bv64, n: nat)
    decreases n
  {
    if n == 0 then v == 0 else Nibbles(v >> 4, n - 1)
  }

  lemma {:induction false} WidthFits(v: bv64, k: nat, n: nat)
    requires Nibbles(v, n) && k + n <= 16
    ensures Width(v, k) <= k + n
    decreases n
  {
    if n > 0 && v != 0 {
      WidthFits(v >> 4, k + 1, n - 1);
    }
  }

  /** A value that fits its field prints as exactly n digits. */
  lemma PrintsExactly(v: bv64, n: nat)
    requires Nibbles(v, n) && n <= 16
    ensures Printed(v, n) == Hex(v, n)
  {
    WidthFits(v, 0, n);
  }

  lemma LowAndHigh(v: bv64, w: bv64)
    requires v >> 4 == w >> 4 && v & 0xF == w & 0xF
    ensures v == w
  {
  }

  lemma {:induction false} HexInjective(v: bv64, w: bv64, n: nat)
    requires Nibbles(v, n) && Nibbles(w, n) && Hex(v, n) == Hex(w, n)
    ensures v == w
    decreases n
  {
    if n > 0 {
      assert Hex(v, n)[..n - 1] == Hex(v >> 4, n - 1);
      assert Hex(w, n)[..n - 1] == Hex(w >> 4, n - 1);
      HexInjective(v >> 4, w >> 4, n - 1);
      assert Hex(v, n)[n - 1] == Digit(v);
      assert Hex(w, n)[n - 1] == Digit(w);
      DigitInjective(v, w);
      LowAndHigh(v, w);
    }
  }

  lemma NibblesDown1(v: bv64, n: nat)
    ensures Nibbles(v, n + 1) == Nibbles(v >> 4, n)
  {
  }

  lemma Down16(v: bv64)
    ensures v >> 4 >> 4 >> 4 >> 4 == v >> 16
  {
  }

  lemma NibblesDown4(v: bv64, n: nat)
    ensures Nibbles(v, n + 4) == Nibbles(v >> 16, n)
  {
    NibblesDown1(v, n + 3);
    NibblesDown1(v >> 4, n + 2);
    NibblesDown1(v >> 4 >> 4, n + 1);
    NibblesDown1(v >> 4 >> 4 >> 4, n);
    Down16(v);
  }

  /** Reading digits back, most significant first. */
  function DigitValue(c: char): nat {
    if '0' <= c <= '9' then c as int - '0' as int
    else if 'a' <= c <= 'f' then c as int - 'a' as int + 10
    else 0
  }

  function HexValue(s: string): nat {
    if s == [] then 0 else HexValue(s[..|s| - 1]) * 16 + DigitValue(s[|s| - 1])
  }

  predicate IsHexDigit(c: char) {
    '0' <= c <= '9' || 'a' <= c <= 'f'
  }

  lemma SmallWords()
    ensures Word(0) == 0 && Word(1) == 1 && Word(2) == 2 && Word(3) == 3
    ensures Word(4) == 4 && Word(5) == 5 && Word(6) == 6 && Word(7) == 7
  {
    assert Word(1) == Push(Word(0), true);
    assert Word(2) == Push(Word(1), false) && Word(3) == Push(Word(1), true);
    assert Word(4) == Push(Word(2), false) && Word(5) == Push(Word(2), true);
    assert Word(6) == Push(Word(3), false) && Word(7) == Push(Word(3), true);
  }

  lemma LargerWords()
    ensures Word(8) == 8 && Word(9) == 9 && Word(10) == 10 && Word(11) == 11
    ensures Word(12) == 12 && Word(13) == 13 && Word(14) == 14 && Word(15) == 15
  {
    SmallWords();
    assert Word(8) == Push(Word(4), false) && Word(9) == Push(Word(4), true);
    assert Word(10) == Push(Word(5), false) && Word(11) == Push(Word(5), true);
    assert Word(12) == Push(Word(6), false) && Word(13) == Push(Word(6), true);
    assert Word(14) == Push(Word(7), false) && Word(15) == Push(Word(7), true);
  }

  lemma DigitReads(v: bv64, d: bv64)
    requires d == v & 0xF
    ensures IsHexDigit(Digit(v)) && DigitValue(Digit(v)) < 16 && Word(DigitValue(Digit(v))) == d
  {
    SmallWords();
    LargerWords();
  }

  lemma FourBitsUp(v: bv64, h: bv64, d: bv64)
    requires h == v >> 4 && d == v & 0xF
    ensures Or(h << 4, d) == v
  {
  }

  lemma JoinDigit(v: bv64, h: bv64, d: bv64, a: nat, x: nat)
    requires h == v >> 4 && d == v & 0xF && Word(a) == h && Word(x) == d && x < 16
    ensures Word(a * 16 + x) == v
  {
    assert Pow2(4) == 16;
    Join(a, x, 4, a * 16 + x);
    Up4(h);
    FourBitsUp(v, h, d);
  }

  lemma LastDigit(v: bv64, n: nat)
    requires n > 0
    ensures HexValue(Hex(v, n)) == HexValue(Hex(v >> 4, n - 1)) * 16 + DigitValue(Digit(v))
  {
    assert Hex(v, n)[..n - 1] == Hex(v >> 4, n - 1);
  }

  /** The digits denote the value. */
  lemma {:induction false} HexReads(v: bv64, n: nat)
    requires Nibbles(v, n)
    ensures Word(HexValue(Hex(v, n))) == v
    ensures forall i :: 0 <= i < n ==> IsHexDigit(Hex(v, n)[i])
    decreases n
  {
    if n > 0 {
      HexReads(v >> 4, n - 1);
      DigitReads(v, v & 0xF);
      LastDigit(v, n);
      JoinDigit(v, v >> 4, v & 0xF, HexValue(Hex(v >> 4, n - 1)), DigitValue(Digit(v)));
    }
  }

  // ---------------------------------------------------------------- the text

  function F1(h: bv64): bv64 { h >> 32 }
  function F2(h: bv64): bv64 { (h >> 16) & 0xFFFF }
  function F3(h: bv64): bv64 { h & 0xFFFF }
  function F4(l: bv64): bv64 { (l >> 48) & 0xFFFF }
  function F5(l: bv64): bv64 { l & 0xFFFF_FFFF_FFFF }

  function Joined(h: bv64, l: bv64): string {
    Printed(F1(h), 8) + "-" + Printed(F2(h), 4) + "-" + Printed(F3(h), 4) + "-" + Printed(F4(l), 4) + "-" + Printed(F5(l), 12)
  }

  function Format(high: bv64, low: bv64): string {
    Joined(RfcHigh(high), RfcLow(low))
  }

  lemma Fields4(h: bv64, l: bv64)
    ensures Nibbles(F2(h), 4) && Nibbles(F3(h), 4) && Nibbles(F4(l), 4)
  {
    NibblesDown4(F2(h), 0);
    NibblesDown4(F3(h), 0);
    NibblesDown4(F4(l), 0);
  }

  lemma Gone32(h: bv64)
    ensures F1(h) >> 16 >> 16 == 0
  {
  }

  lemma Field8(h: bv64)
    ensures Nibbles(F1(h), 8)
  {
    NibblesDown4(F1(h), 4);
    NibblesDown4(F1(h) >> 16, 0);
    Gone32(h);
  }

  lemma Gone48(l: bv64)
    ensures F5(l) >> 16 >> 16 >> 16 == 0
  {
  }

  lemma Field12(l: bv64)
    ensures Nibbles(F5(l), 12)
  {
    NibblesDown4(F5(l), 8);
    NibblesDown4(F5(l) >> 16, 4);
    NibblesDown4(F5(l) >> 16 >> 16, 0);
    Gone48(l);
  }

  lemma Sliced(a: string, b: string, c: string, d: string, e: string, t: string)
    requires |a| == 8 && |b| == |c| == |d| == 4 && |e| == 12
    requires t == a + "-" + b + "-" + c + "-" + d + "-" + e
    ensures |t| == 36 && t[..8] == a && t[9..13] == b && t[14..18] == c && t[19..23] == d && t[24..] == e
    ensures t[8] == t[13] == t[18] == t[23] == '-'
  {
  }

  /** Every field has its fixed width, so the text is 36 characters with dashes in fixed places. */
  lemma Layout(h: bv64, l: bv64)
    ensures |Joined(h, l)| == 36
    ensures Joined(h, l)[..8] == Hex(F1(h), 8) && Joined(h, l)[9..13] == Hex(F2(h), 4) && Joined(h, l)[14..18] == Hex(F3(h), 4)
    ensures Joined(h, l)[19..23] == Hex(F4(l), 4) && Joined(h, l)[24..] == Hex(F5(l), 12)
    ensures Joined(h, l)[8] == Joined(h, l)[13] == Joined(h, l)[18] == Joined(h, l)[23] == '-'
  {
    Fields4(h, l);
    Field8(h);
    Field12(l);
    PrintsExactly(F1(h), 8);
    PrintsExactly(F2(h), 4);
    PrintsExactly(F3(h), 4);
    PrintsExactly(F4(l), 4);
    PrintsExactly(F5(l), 12);
    Sliced(Hex(F1(h), 8), Hex(F2(h), 4), Hex(F3(h), 4), Hex(F4(l), 4), Hex(F5(l), 12), Joined(h, l));
  }

  lemma HighFromFields(h: bv64, h': bv64)
    requires F1(h) == F1(h') && F2(h) == F2(h') && F3(h) == F3(h')
    ensures h == h'
  {
  }

  lemma LowFromFields(l: bv64, l': bv64)
    requires F4(l) == F4(l') && F5(l) == F5(l')
    ensures l == l'
  {
  }

  /** The text loses nothing of the two words it prints. */
  lemma JoinedInjective(h: bv64, l: bv64, h': bv64, l': bv64)
    requires Joined(h, l) == Joined(h', l')
    ensures h == h' && l == l'
  {
    Layout(h, l);
    Layout(h', l');
    Fields4(h, l);
    Field8(h);
    Field12(l);
    Fields4(h', l');
    Field8(h');
    Field12(l');
    HexInjective(F1(h), F1(h'), 8);
    HexInjective(F2(h), F2(h'), 4);
    HexInjective(F3(h), F3(h'), 4);
    HexInjective(F4(l), F4(l'), 4);
    HexInjective(F5(l), F5(l'), 12);
    HighFromFields(h, h');
    LowFromFields(l, l');
  }

  function KeptHigh(high: bv64): bv64 {
    high & 0xFFFF_FFFF_FFFF_0FFF
  }

  function KeptLow(low: bv64): bv64 {
    low & 0x3FFF_FFFF_FFFF_FFFF
  }

  lemma HighKept(h: bv64, h': bv64)
    requires RfcHigh(h) == RfcHigh(h')
    ensures KeptHigh(h) == KeptHigh(h')
  {
  }

  lemma HighStamped(h: bv64, h': bv64)
    requires KeptHigh(h) == KeptHigh(h')
    ensures RfcHigh(h) == RfcHigh(h')
  {
  }

  lemma LowKept(l: bv64, l': bv64)
    requires RfcLow(l) == RfcLow(l')
    ensures KeptLow(l) == KeptLow(l')
  {
  }

  lemma LowStamped(l: bv64, l': bv64)
    requires KeptLow(l) == KeptLow(l')
    ensures RfcLow(l) == RfcLow(l')
  {
  }

  /** Two texts are equal exactly when the inputs agree outside the four version bits and the two
      variant bits, which the format overwrites. */
  lemma FormatEqualIff(high: bv64, low: bv64, high': bv64, low': bv64)
    ensures Format(high, low) == Format(high', low') <==> KeptHigh(high) == KeptHigh(high') && KeptLow(low) == KeptLow(low')
  {
    if Format(high, low) == Format(high', low') {
      JoinedInjective(RfcHigh(high), RfcLow(low), RfcHigh(high'), RfcLow(low'));
      HighKept(high, high');
      LowKept(low, low');
    }
    if KeptHigh(high) == KeptHigh(high') && KeptLow(low) == KeptLow(low') {
      HighStamped(high, high');
      LowStamped(low, low');
    }
  }

  lemma FirstOfFour(v: bv64)
    ensures Hex(v, 4)[0] == Digit(v >> 4 >> 4 >> 4)
  {
    assert Hex(v, 4)[0] == Hex(v >> 4, 3)[0] == Hex(v >> 4 >> 4, 2)[0] == Hex(v >> 4 >> 4 >> 4, 1)[0];
    assert Hex(v >> 4 >> 4 >> 4 >> 4, 0) == "";
  }

  lemma TopDigits(high: bv64, low: bv64)
    ensures Digit(F3(RfcHigh(high)) >> 4 >> 4 >> 4) == '8'
    ensures Digit(F4(RfcLow(low)) >> 4 >> 4 >> 4) in {'8', '9', 'a', 'b'}
  {
    assert (F3(RfcHigh(high)) >> 4 >> 4 >> 4) & 0xF == 8;
    assert (F4(RfcLow(low)) >> 4 >> 4 >> 4) & 0xC == 8;
  }

  /** Every text is a version 8 UUID of the RFC variant. */
  lemma VersionAndVariant(high: bv64, low: bv64)
    ensures |Format(high, low)| == 36
    ensures Format(high, low)[14] == '8'
    ensures Format(high, low)[19] in {'8', '9', 'a', 'b'}
  {
    var h, l := RfcHigh(high), RfcLow(low);
    Layout(h, l);
    assert Format(high, low)[14] == Joined(h, l)[14..18][0];
    assert Format(high, low)[19] == Joined(h, l)[19..23][0];
    FirstOfFour(F3(h));
    FirstOfFour(F4(l));
    TopDigits(high, low);
  }

  // The fields in terms of the words before the overwrite.

  lemma Field1(high: bv64)
    ensures F1(RfcHigh(high)) == high >> 32
  {
  }

  lemma Field2(high: bv64)
    ensures F2(RfcHigh(high)) == (high >> 16) & 0xFFFF
  {
  }

  lemma Field3(high: bv64)
    ensures F3(RfcHigh(high)) == 0x8000 | (high & 0xFFF)
  {
  }

  lemma Field4(low: bv64)
    ensures F4(RfcLow(low)) == 0x8000 | ((low >> 48) & 0x3FFF)
  {
  }

  lemma Field5(low: bv64)
    ensures F5(RfcLow(low)) == low & 0xFFFF_FFFF_FFFF
  {
  }

  /** What the five groups of digits say of the two words. */
  lemma FormatReads(high: bv64, low: bv64)
    ensures |Format(high, low)| == 36
    ensures Word(HexValue(Format(high, low)[..8])) == high >> 32
    ensures Word(HexValue(Format(high, low)[9..13])) == (high >> 16) & 0xFFFF
    ensures Word(HexValue(Format(high, low)[14..18])) == 0x8000 | (high & 0xFFF)
    ensures Word(HexValue(Format(high, low)[19..23])) == 0x8000 | ((low >> 48) & 0x3FFF)
    ensures Word(HexValue(Format(high, low)[24..])) == low & 0xFFFF_FFFF_FFFF
  {
    var h, l := RfcHigh(high), RfcLow(low);
    Layout(h, l);
    Fields4(h, l);
    Field8(h);
    Field12(l);
    HexReads(F1(h), 8);
    HexReads(F2(h), 4);
    HexReads(F3(h), 4);
    HexReads(F4(l), 4);
    HexReads(F5(l), 12);
    Field1(high);
    Field2(high);
    Field3(high);
    Field4(low);
    Field5(low);
  }

  // ---------------------------------------------------------------- texts of ids

  // What survives of an id: the age, the upper six worker bits and the sequence number.

  lemma KeptOfThree(a: bv64, b: bv64, c: bv64)
    ensures KeptHigh(a | b | c) == KeptHigh(a) | KeptHigh(b) | KeptHigh(c)
  {
  }

  lemma KeptAge(t: bv64)
    ensures KeptHigh(t << 22) == t << 22
  {
  }

  lemma KeptWorker(w: bv64)
    ensures KeptHigh(w << 12) == Half(Half(Half(Half(w)))) << 16
  {
  }

  lemma KeptSerial(s: bv64)
    requires s >> 12 == 0
    ensures KeptHigh(s) == s
  {
  }

  lemma SameKeptFields(t: nat, v: nat, s: nat, t': nat, v': nat, s': nat)
    requires v < 64 && s < 4096 && v' < 64 && s' < 4096
    ensures t * 0x40_0000 + v * 65536 + s == t' * 0x40_0000 + v' * 65536 + s' <==> t == t' && v == v' && s == s'
  {
  }

  function KeptPacked(r: Issued): nat {
    (Age(r) * 64 + r.worker / 16) * 65536 + r.serial
  }

  lemma KeptNumber(r: Issued)
    requires Legal(r) && InRange(r)
    ensures KeptPacked(r) % MODULUS == (r.timestamp - EPOCH) * 0x40_0000 + r.worker / 16 * 65536 + r.serial
  {
  }

  lemma SameKeptIff(a: Issued, b: Issued)
    requires Legal(a) && Legal(b) && InRange(a) && InRange(b)
    ensures KeptPacked(a) % MODULUS == KeptPacked(b) % MODULUS
       <==> a.timestamp == b.timestamp && a.serial == b.serial && a.worker / 16 == b.worker / 16
  {
    KeptNumber(a);
    KeptNumber(b);
    SameKeptFields(a.timestamp - EPOCH, a.worker / 16, a.serial, b.timestamp - EPOCH, b.worker / 16, b.serial);
  }

  lemma KeptJoins(r: Issued, a: nat)
    requires Legal(r) && a == Age(r) * 64 + r.worker / 16
    ensures Word(a) == Or(Up(Word(Age(r)), 6), Word(r.worker / 16))
    ensures Word(KeptPacked(r)) == Or(Up(Word(a), 16), Word(r.serial))
  {
    Pow2Values();
    assert Pow2(16) == 65536;
    Join(Age(r), r.worker / 16, 6, a);
    Join(a, r.serial, 16, KeptPacked(r));
  }

  lemma KeptShifts(t: bv64, v: bv64, s: bv64, a: bv64)
    requires a == Or(t << 6, v)
    ensures Or(a << 16, s) == (t << 22) | (v << 16) | s
  {
  }

  lemma JoinedKept(t: bv64, v: bv64, s: bv64, a: bv64, n: bv64)
    requires a == Or(Up(t, 6), v) && n == Or(Up(a, 16), s)
    ensures n == (t << 22) | (v << 16) | s
  {
    Up6(t);
    Up16(a);
    KeptShifts(t, v, s, a);
  }

  lemma SixteenthIn<W(!new)>(g: Algebra<W>, n: nat)
    requires Words64.Holds(g) && n < 1024
    ensures g.half(g.half(g.half(g.half(Number(g, n))))) == Number(g, n / 16)
  {
    Pow2Values();
    NumberHalves(g, n, 10);
    NumberHalves(g, n / 2, 10);
    NumberHalves(g, n / 2 / 2, 10);
    NumberHalves(g, n / 2 / 2 / 2, 10);
    assert n / 2 / 2 / 2 / 2 == n / 16;
  }

  lemma SixteenthHalves(n: nat)
    requires n < 1024
    ensures Half(Half(Half(Half(Word(n))))) == Word(n / 16)
  {
    MachineHolds();
    SixteenthIn(Machine64(), n);
    NumberIsWord(n);
    NumberIsWord(n / 16);
  }

  lemma KeptWords(r: Issued)
    requires Legal(r) && InRange(r)
    ensures KeptHigh(Id(r)) == (Word(Age(r)) << 22) | (Word(r.worker / 16) << 16) | Word(r.serial)
  {
    FieldWords(r);
    SixteenthHalves(r.worker);
    KeptOfThree(Word(Age(r)) << 22, Word(r.worker) << 12, Word(r.serial));
    KeptAge(Word(Age(r)));
    KeptWorker(Word(r.worker));
    KeptSerial(Word(r.serial));
  }

  lemma KeptIsPacked(r: Issued)
    requires Legal(r) && InRange(r)
    ensures KeptHigh(Id(r)) == Word(KeptPacked(r))
  {
    KeptWords(r);
    KeptJoins(r, Age(r) * 64 + r.worker / 16);
    JoinedKept(Word(Age(r)), Word(r.worker / 16), Word(r.serial), Word(Age(r) * 64 + r.worker / 16), Word(KeptPacked(r)));
  }

  lemma KeptInRange(a: Issued, b: Issued)
    requires Legal(a) && Legal(b) && InRange(a) && InRange(b)
    ensures KeptHigh(Id(a)) == KeptHigh(Id(b))
       <==> a.timestamp == b.timestamp && a.serial == b.serial && a.worker / 16 == b.worker / 16
  {
    KeptIsPacked(a);
    KeptIsPacked(b);
    Pow2Values();
    WordsEqualIff(KeptPacked(a), KeptPacked(b));
    SameKeptIff(a, b);
  }

  /** Exactly when two ids lose their difference in the text: same sequence number, timestamps a multiple
      of 2^42 ms apart, and worker ids that differ at most in their four lowest bits. */
  lemma KeptEqualIff(a: Issued, b: Issued)
    requires Legal(a) && Legal(b)
    ensures KeptHigh(Id(a)) == KeptHigh(Id(b))
       <==> (a.timestamp - b.timestamp) % SPAN == 0 && a.serial == b.serial && a.worker / 16 == b.worker / 16
  {
    NormalSameId(a);
    NormalSameId(b);
    KeptInRange(Normal(a), Normal(b));
    SameWrappedIff(a, b);
  }

  lemma TextsEqualIff(a: Issued, b: Issued, low: bv64, low': bv64)
    requires Legal(a) && Legal(b) && a.worker == b.worker
    ensures Format(Id(a), low) == Format(Id(b), low')
       <==> a.serial == b.serial && (a.timestamp - b.timestamp) % SPAN == 0 && KeptLow(low) == KeptLow(low')
  {
    KeptEqualIff(a, b);
    FormatEqualIff(Id(a), low, Id(b), low');
  }

  lemma NearbyDiffer(a: Issued, b: Issued)
    requires Snowflake.Precedes(a, b) && b.timestamp - a.timestamp < SPAN
    ensures a.serial != b.serial || (a.timestamp - b.timestamp) % SPAN != 0
  {
  }

  lemma TextsOfOneRun(a: Issued, b: Issued, low: bv64, low': bv64)
    requires Legal(a) && Legal(b) && a.worker == b.worker && Snowflake.Precedes(a, b)
    ensures Format(Id(a), low) == Format(Id(b), low')
       <==> a.serial == b.serial && (a.timestamp - b.timestamp) % SPAN == 0 && KeptLow(low) == KeptLow(low')
    ensures b.timestamp - a.timestamp < SPAN ==> Format(Id(a), low) != Format(Id(b), low')
  {
    TextsEqualIff(a, b, low, low');
    if b.timestamp - a.timestamp < SPAN {
      NearbyDiffer(a, b);
    }
  }

  /** Over every run, two texts of one engine under the same worker id coincide only when the clock had to
      move on by 2^42 ms between them, whatever the thread-local seeds put into the second word. */
  lemma TextsDistinct(worker: uint64, turns: seq<Turn>, i: nat, j: nat, low: bv64, low': bv64)
    requires worker <= MAX_WORKER && i < j < |IssuedBy(worker, turns)|
    requires IssuedBy(worker, turns)[i].worker == IssuedBy(worker, turns)[j].worker
    ensures var a, b := IssuedBy(worker, turns)[i], IssuedBy(worker, turns)[j];
            && (Format(Id(a), low) == Format(Id(b), low')
                <==> a.serial == b.serial && (a.timestamp - b.timestamp) % SPAN == 0 && KeptLow(low) == KeptLow(low'))
            && (b.timestamp - a.timestamp < SPAN ==> Format(Id(a), low) != Format(Id(b), low'))
  {
    EveryRun(worker, turns);
    TextsOfOneRun(IssuedBy(worker, turns)[i], IssuedBy(worker, turns)[j], low, low');
  }

  lemma SameText(a: Issued, b: Issued, low: bv64)
    requires Legal(a) && Legal(b) && a.timestamp == b.timestamp && a.serial == b.serial && a.worker / 16 == b.worker / 16
    ensures Format(Id(a), low) == Format(Id(b), low)
  {
    KeptEqualIff(a, b);
    FormatEqualIff(Id(a), low, Id(b), low);
  }

  /** The limit of that: engines 0 and 1 can print the same text for different ids. */
  lemma WorkersMerge(timestamp: uint64, low: bv64)
    ensures Id(Issued(timestamp, 0, 0)) != Id(Issued(timestamp, 1, 0))
    ensures Format(Id(Issued(timestamp, 0, 0)), low) == Format(Id(Issued(timestamp, 1, 0)), low)
  {
    var a, b := Issued(timestamp, 0, 0), Issued(timestamp, 1, 0);
    SameIdIff(a, b);
    SameText(a, b, low);
  }
}
