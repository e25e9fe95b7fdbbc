/** The XMODEM crc16 of hj/algo/crc16.h: words that shift left, bytes most significant bit first. */
module Crc16Xmodem {
  import opened CrcTheory
  import opened CrcTables
  import opened CrcLoop
  import opened CrcMachine

  // The table in rows of sixteen; entry i is TABLE[i >> 4][i & 0xF].
  const ROW_0: seq<bv16> := [0x0000, 0x1021, 0x2042, 0x3063, 0x4084, 0x50A5, 0x60C6, 0x70E7, 0x8108, 0x9129, 0xA14A, 0xB16B, 0xC18C, 0xD1AD, 0xE1CE, 0xF1EF]

  const ROW_1: seq<bv16> := [0x1231, 0x0210, 0x3273, 0x2252, 0x52B5, 0x4294, 0x72F7, 0x62D6, 0x9339, 0x8318, 0xB37B, 0xA35A, 0xD3BD, 0xC39C, 0xF3FF, 0xE3DE]
  const ROW_2: seq<bv16> := [0x2462, 0x3443, 0x0420, 0x1401, 0x64E6, 0x74C7, 0x44A4, 0x5485, 0xA56A, 0xB54B, 0x8528, 0x9509, 0xE5EE, 0xF5CF, 0xC5AC, 0xD58D]
  const ROW_3: seq<bv16> := [0x3653, 0x2672, 0x1611, 0x0630, 0x76D7, 0x66F6, 0x5695, 0x46B4, 0xB75B, 0xA77A, 0x9719, 0x8738, 0xF7DF, 0xE7FE, 0xD79D, 0xC7BC]
  const ROW_4: seq<bv16> := [0x48C4, 0x58E5, 0x6886, 0x78A7, 0x0840, 0x1861, 0x2802, 0x3823, 0xC9CC, 0xD9ED, 0xE98E, 0xF9AF, 0x8948, 0x9969, 0xA90A, 0xB92B]
  const ROW_5: seq<bv16> := [0x5AF5, 0x4AD4, 0x7AB7, 0x6A96, 0x1A71, 0x0A50, 0x3A33, 0x2A12, 0xDBFD, 0xCBDC, 0xFBBF, 0xEB9E, 0x9B79, 0x8B58, 0xBB3B, 0xAB1A]
  const ROW_6: seq<bv16> := [0x6CA6, 0x7C87, 0x4CE4, 0x5CC5, 0x2C22, 0x3C03, 0x0C60, 0x1C41, 0xEDAE, 0xFD8F, 0xCDEC, 0xDDCD, 0xAD2A, 0xBD0B, 0x8D68, 0x9D49]
  const ROW_7: seq<bv16> := [0x7E97, 0x6EB6, 0x5ED5, 0x4EF4, 0x3E13, 0x2E32, 0x1E51, 0x0E70, 0xFF9F, 0xEFBE, 0xDFDD, 0xCFFC, 0xBF1B, 0xAF3A, 0x9F59, 0x8F78]
  const ROW_8: seq<bv16> := [0x9188, 0x81A9, 0xB1CA, 0xA1EB, 0xD10C, 0xC12D, 0xF14E, 0xE16F, 0x1080, 0x00A1, 0x30C2, 0x20E3, 0x5004, 0x4025, 0x7046, 0x6067]
  const ROW_9: seq<bv16> := [0x83B9, 0x9398, 0xA3FB, 0xB3DA, 0xC33D, 0xD31C, 0xE37F, 0xF35E, 0x02B1, 0x1290, 0x22F3, 0x32D2, 0x4235, 0x5214, 0x6277, 0x7256]
  const ROW_A: seq<bv16> := [0xB5EA, 0xA5CB, 0x95A8, 0x8589, 0xF56E, 0xE54F, 0xD52C, 0xC50D, 0x34E2, 0x24C3, 0x14A0, 0x0481, 0x7466, 0x6447, 0x5424, 0x4405]
  const ROW_B: seq<bv16> := [0xA7DB, 0xB7FA, 0x8799, 0x97B8, 0xE75F, 0xF77E, 0xC71D, 0xD73C, 0x26D3, 0x36F2, 0x0691, 0x16B0, 0x6657, 0x7676, 0x4615, 0x5634]
  const ROW_C: seq<bv16> := [0xD94C, 0xC96D, 0xF90E, 0xE92F, 0x99C8, 0x89E9, 0xB98A, 0xA9AB, 0x5844, 0x4865, 0x7806, 0x6827, 0x18C0, 0x08E1, 0x3882, 0x28A3]
  const ROW_D: seq<bv16> := [0xCB7D, 0xDB5C, 0xEB3F, 0xFB1E, 0x8BF9, 0x9BD8, 0xABBB, 0xBB9A, 0x4A75, 0x5A54, 0x6A37, 0x7A16, 0x0AF1, 0x1AD0, 0x2AB3, 0x3A92]
  const ROW_E: seq<bv16> := [0xFD2E, 0xED0F, 0xDD6C, 0xCD4D, 0xBDAA, 0xAD8B, 0x9DE8, 0x8DC9, 0x7C26, 0x6C07, 0x5C64, 0x4C45, 0x3CA2, 0x2C83, 0x1CE0, 0x0CC1]
  const ROW_F: seq<bv16> := [0xEF1F, 0xFF3E, 0xCF5D, 0xDF7C, 0xAF9B, 0xBFBA, 0x8FD9, 0x9FF8, 0x6E17, 0x7E36, 0x4E55, 0x5E74, 0x2E93, 0x3EB2, 0x0ED1, 0x1EF0]

  const TABLE: seq<seq<bv16>> :=
    [ROW_0, ROW_1, ROW_2, ROW_3, ROW_4, ROW_5, ROW_6, ROW_7,
     ROW_8, ROW_9, ROW_A, ROW_B, ROW_C, ROW_D, ROW_E, ROW_F]

  /** The generator x^16 + x^12 + x^5 + 1. */
  const POLY: bv16 := 0x1021

  function Step(c: bv16): bv16 {
    if c & 0x8000 == 0x8000 then (c << 1) ^ 0x1021 else c << 1
  }

  function Step8(c: bv16): bv16 {
    Step(Step(Step(Step(Step(Step(Step(Step(c))))))))
  }

  function DividedIndex(i: bv8): bv16 {
    Step8((i as bv16) << 8)
  }

  lemma Row0()
    ensures RowIs(ROW_0, DividedIndex, 0x00)
  {
    SixteenIs(ROW_0, DividedIndex, 0x00);
  }

  lemma Row1()
    ensures RowIs(ROW_1, DividedIndex, 0x10)
  {
    SixteenIs(ROW_1, DividedIndex, 0x10);
  }

  lemma Row2()
    ensures RowIs(ROW_2, DividedIndex, 0x20)
  {
    SixteenIs(ROW_2, DividedIndex, 0x20);
  }

  lemma Row3()
    ensures RowIs(ROW_3, DividedIndex, 0x30)
  {
    SixteenIs(ROW_3, DividedIndex, 0x30);
  }

  lemma Row4()
    ensures RowIs(ROW_4, DividedIndex, 0x40)
  {
    SixteenIs(ROW_4, DividedIndex, 0x40);
  }

  lemma Row5()
    ensures RowIs(ROW_5, DividedIndex, 0x50)
  {
    SixteenIs(ROW_5, DividedIndex, 0x50);
  }

  lemma Row6()
    ensures RowIs(ROW_6, DividedIndex, 0x60)
  {
    SixteenIs(ROW_6, DividedIndex, 0x60);
  }

  lemma Row7()
    ensures RowIs(ROW_7, DividedIndex, 0x70)
  {
    SixteenIs(ROW_7, DividedIndex, 0x70);
  }

  lemma Row8()
    ensures RowIs(ROW_8, DividedIndex, 0x80)
  {
    SixteenIs(ROW_8, DividedIndex, 0x80);
  }

  lemma Row9()
    ensures RowIs(ROW_9, DividedIndex, 0x90)
  {
    SixteenIs(ROW_9, DividedIndex, 0x90);
  }

  lemma RowA()
    ensures RowIs(ROW_A, DividedIndex, 0xA0)
  {
    SixteenIs(ROW_A, DividedIndex, 0xA0);
  }

  lemma RowB()
    ensures RowIs(ROW_B, DividedIndex, 0xB0)
  {
    SixteenIs(ROW_B, DividedIndex, 0xB0);
  }

  lemma RowC()
    ensures RowIs(ROW_C, DividedIndex, 0xC0)
  {
    SixteenIs(ROW_C, DividedIndex, 0xC0);
  }

  lemma RowD()
    ensures RowIs(ROW_D, DividedIndex, 0xD0)
  {
    SixteenIs(ROW_D, DividedIndex, 0xD0);
  }

  lemma RowE()
    ensures RowIs(ROW_E, DividedIndex, 0xE0)
  {
    SixteenIs(ROW_E, DividedIndex, 0xE0);
  }

  lemma RowF()
    ensures RowIs(ROW_F, DividedIndex, 0xF0)
  {
    SixteenIs(ROW_F, DividedIndex, 0xF0);
  }

  lemma Rows0()
    ensures RowIs(TABLE[0x0], DividedIndex, 0x00) && RowIs(TABLE[0x1], DividedIndex, 0x10)
    ensures RowIs(TABLE[0x2], DividedIndex, 0x20) && RowIs(TABLE[0x3], DividedIndex, 0x30)
  {
    Row0(); Row1(); Row2(); Row3();
  }

  lemma Rows4()
    ensures RowIs(TABLE[0x4], DividedIndex, 0x40) && RowIs(TABLE[0x5], DividedIndex, 0x50)
    ensures RowIs(TABLE[0x6], DividedIndex, 0x60) && RowIs(TABLE[0x7], DividedIndex, 0x70)
  {
    Row4(); Row5(); Row6(); Row7();
  }

  lemma Rows8()
    ensures RowIs(TABLE[0x8], DividedIndex, 0x80) && RowIs(TABLE[0x9], DividedIndex, 0x90)
    ensures RowIs(TABLE[0xA], DividedIndex, 0xA0) && RowIs(TABLE[0xB], DividedIndex, 0xB0)
  {
    Row8(); Row9(); RowA(); RowB();
  }

  lemma RowsC()
    ensures RowIs(TABLE[0xC], DividedIndex, 0xC0) && RowIs(TABLE[0xD], DividedIndex, 0xD0)
    ensures RowIs(TABLE[0xE], DividedIndex, 0xE0) && RowIs(TABLE[0xF], DividedIndex, 0xF0)
  {
    RowC(); RowD(); RowE(); RowF();
  }

  /** Every table entry is eight division steps of its index. */
  lemma TableIsDivision(i: bv8)
    ensures Lookup(TABLE, i) == DividedIndex(i)
  {
    Rows0(); Rows4(); Rows8(); RowsC();
    TableIs(TABLE, DividedIndex, i);
  }

  // ---------------------------------------------------------------- the machine

  /** Bit i of a word counted from the top. */
  function TopAt(c: bv16, i: nat): bool
    decreases i
  {
    if i == 0 then c & 0x8000 == 0x8000 else TopAt(c << 1, i - 1)
  }

  function TopBits(c: bv16, n: nat): (r: Bits)
    ensures |r| == n && forall i :: 0 <= i < n ==> r[i] == TopAt(c, i)
  {
    seq(n, i requires 0 <= i < n => TopAt(c, i))
  }

  function Register(c: bv16): (r: Bits)
    ensures |r| == 16
  {
    TopBits(c, 16)
  }

  function Raised(b: bv8): bv16 { (b as bv16) << 8 }

  /** Message bits enter most significant first. */
  function ByteBits(b: bv8): (r: Bits)
    ensures |r| == 8
  {
    TopBits(Raised(b), 8)
  }

  function XorWords(c: bv16, d: bv16): bv16 { c ^ d }

  function Head(c: bv16): bv16 { c & 0xFF00 }
  function Tail(c: bv16): bv16 { c & 0xFF }
  function Rest(c: bv16): bv16 { c << 8 }

  function Division(): Machine<bv16> {
    Machine(Register(POLY), c => Register(c), (c, d) => XorWords(c, d), c => Step(c), b => Raised(b),
            b => ByteBits(b), c => Head(c), c => Tail(c), c => Rest(c))
  }

  lemma {:induction false} ZeroTop(i: nat)
    ensures !TopAt(0, i)
  {
    if i > 0 {
      ZeroTop(i - 1);
    }
  }

  lemma XorTop(c: bv16, d: bv16)
    ensures (c ^ d) & 0x8000 == 0x8000 <==> (c & 0x8000 == 0x8000) != (d & 0x8000 == 0x8000)
  {
  }

  lemma XorRises(c: bv16, d: bv16)
    ensures (c ^ d) << 1 == (c << 1) ^ (d << 1)
  {
  }

  lemma XorTopUp(c: bv16, d: bv16, e: bv16, i: nat)
    requires i > 0 && TopAt(e << 1, i - 1) == (TopAt(c << 1, i - 1) != TopAt(d << 1, i - 1))
    ensures TopAt(e, i) == (TopAt(c, i) != TopAt(d, i))
  {
  }

  lemma {:induction false} XorTopAt(c: bv16, d: bv16, e: bv16, i: nat)
    requires e == c ^ d
    ensures TopAt(e, i) == (TopAt(c, i) != TopAt(d, i))
    decreases i
  {
    if i == 0 {
      XorTop(c, d);
    } else {
      XorRises(c, d);
      XorTopAt(c << 1, d << 1, e << 1, i - 1);
      XorTopUp(c, d, e, i);
    }
  }

  function Up8(c: bv16): (d: bv16)
    ensures d == c << 8
  {
    c << 1 << 1 << 1 << 1 << 1 << 1 << 1 << 1
  }

  lemma OneDown(c: bv16, i: nat)
    ensures TopAt(c, i + 1) == TopAt(c << 1, i)
  {
  }

  lemma EightDown(c: bv16, i: nat)
    ensures TopAt(c, i + 8) == TopAt(Up8(c), i)
  {
    OneDown(c, i + 7);
    OneDown(c << 1, i + 6);
    OneDown(c << 1 << 1, i + 5);
    OneDown(c << 1 << 1 << 1, i + 4);
    OneDown(c << 1 << 1 << 1 << 1, i + 3);
    OneDown(c << 1 << 1 << 1 << 1 << 1, i + 2);
    OneDown(c << 1 << 1 << 1 << 1 << 1 << 1, i + 1);
    OneDown(c << 1 << 1 << 1 << 1 << 1 << 1 << 1, i);
  }

  lemma PastTheEnd(c: bv16)
    ensures !TopAt(c, 16)
  {
    EightDown(c, 8);
    EightDown(Up8(c), 0);
    assert Up8(Up8(c)) == 0;
  }

  lemma TopByteFromBits(b: bv16, c: bv16)
    requires forall i :: 0 <= i < 8 ==> TopAt(b, i) == TopAt(c, i)
    ensures b & 0xFF00 == c & 0xFF00
  {
    assert TopAt(b, 0) == TopAt(c, 0);
    assert TopAt(b, 1) == TopAt(c, 1);
    assert TopAt(b, 2) == TopAt(c, 2);
    assert TopAt(b, 3) == TopAt(c, 3);
    assert TopAt(b, 4) == TopAt(c, 4);
    assert TopAt(b, 5) == TopAt(c, 5);
    assert TopAt(b, 6) == TopAt(c, 6);
    assert TopAt(b, 7) == TopAt(c, 7);
  }

  lemma TwoBytes(c: bv16, d: bv16)
    requires c & 0xFF00 == d & 0xFF00 && Up8(c) & 0xFF00 == Up8(d) & 0xFF00
    ensures c == d
  {
  }

  lemma SameRegister(c: bv16, d: bv16)
    requires Register(c) == Register(d)
    ensures c == d
  {
    forall i | 0 <= i < 16
      ensures TopAt(c, i) == TopAt(d, i)
    {
      assert Register(c)[i] == Register(d)[i];
    }
    forall i | 0 <= i < 8
      ensures TopAt(Up8(c), i) == TopAt(Up8(d), i)
    {
      EightDown(c, i);
      EightDown(d, i);
    }
    TopByteFromBits(c, d);
    TopByteFromBits(Up8(c), Up8(d));
    TwoBytes(c, d);
  }

  lemma DivisionGenerator()
    ensures Generator(Division())
  {
    EightDown(POLY, 7);
    assert Up8(POLY) == 0x2100;
  }

  lemma DivisionRepresents()
    ensures Represents(Division())
  {
    forall c, d {:trigger Register(c), Register(d)} | Register(c) == Register(d)
      ensures c == d
    {
      SameRegister(c, d);
    }
  }

  lemma RegisterAdds(c: bv16, d: bv16)
    ensures Register(XorWords(c, d)) == Xor(Register(c), Register(d))
  {
    forall i | 0 <= i < 16
      ensures TopAt(XorWords(c, d), i) == (TopAt(c, i) != TopAt(d, i))
    {
      XorTopAt(c, d, XorWords(c, d), i);
    }
  }

  lemma DivisionAdds()
    ensures Adds(Division())
  {
    forall c, d
      ensures Register(XorWords(c, d)) == Xor(Register(c), Register(d))
    {
      RegisterAdds(c, d);
    }
  }

  lemma StepBit(c: bv16, i: nat)
    ensures TopAt(Step(c), i) == (TopAt(c, i + 1) != (TopAt(c, 0) && TopAt(POLY, i)))
  {
    OneDown(c, i);
    if TopAt(c, 0) {
      XorTopAt(c << 1, POLY, Step(c), i);
    }
  }

  lemma StepIsShift(c: bv16)
    ensures Register(Step(c)) == Shift(Register(POLY), Register(c))
  {
    PastTheEnd(c);
    forall i | 0 <= i < 16
      ensures Register(Step(c))[i] == Shift(Register(POLY), Register(c))[i]
    {
      StepBit(c, i);
    }
  }

  lemma DivisionShifts()
    ensures Shifts(Division())
  {
    forall c
      ensures Register(Step(c)) == Shift(Register(POLY), Register(c))
    {
      StepIsShift(c);
    }
  }

  lemma RaisedIsPadded(b: bv8)
    ensures Register(Raised(b)) == ByteBits(b) + Zeros(8)
  {
    assert Up8(Raised(b)) == 0;
    forall i | 8 <= i < 16
      ensures !TopAt(Raised(b), i)
    {
      EightDown(Raised(b), i - 8);
      ZeroTop(i - 8);
    }
  }

  lemma RaisedInjective(b: bv8, c: bv8)
    requires Raised(b) & 0xFF00 == Raised(c) & 0xFF00
    ensures b == c
  {
  }

  lemma SameByte(b: bv8, c: bv8)
    requires ByteBits(b) == ByteBits(c)
    ensures b == c
  {
    forall i | 0 <= i < 8
      ensures TopAt(Raised(b), i) == TopAt(Raised(c), i)
    {
      assert ByteBits(b)[i] == ByteBits(c)[i];
    }
    TopByteFromBits(Raised(b), Raised(c));
    RaisedInjective(b, c);
  }

  lemma DivisionEnters()
    ensures Enters(Division())
  {
    forall b
      ensures Register(Raised(b)) == ByteBits(b) + Zeros(8)
    {
      RaisedIsPadded(b);
    }
    forall b, b' {:trigger ByteBits(b), ByteBits(b')} | ByteBits(b) == ByteBits(b')
      ensures b == b'
    {
      SameByte(b, b');
    }
  }

  lemma DivisionIsFaithful()
    ensures Faithful(Division())
  {
    DivisionGenerator();
    DivisionRepresents();
    DivisionAdds();
    DivisionShifts();
    DivisionEnters();
  }

  // ---------------------------------------------------------------- the table step

  lemma Halves(x: bv16)
    ensures XorWords(Head(x), Tail(x)) == x
  {
  }

  lemma TailIsLow(x: bv16)
    ensures Tail(x) & 0xFF00 == 0
  {
  }

  lemma TailIsRest(x: bv16)
    ensures Tail(x) << 8 == Rest(x)
  {
  }

  lemma ClearHighByteRises(h: bv16)
    requires h & 0xFF00 == 0
    ensures Step8(h) == h << 8
  {
    assert Step(h) == h << 1;
    assert Step(h << 1) == h << 2;
    assert Step(h << 2) == h << 3;
    assert Step(h << 3) == h << 4;
    assert Step(h << 4) == h << 5;
    assert Step(h << 5) == h << 6;
    assert Step(h << 6) == h << 7;
    assert Step(h << 7) == h << 8;
  }

  lemma ByteIsAbove(c: bv16, b: bv16)
    requires b & 0xFF == 0
    ensures Rest(XorWords(c, b)) == Rest(c)
  {
    assert (c ^ b) << 8 == (c << 8) ^ (b << 8);
    assert b << 8 == 0;
  }

  lemma RaisedIsClear(b: bv8)
    ensures Raised(b) & 0xFF == 0
  {
  }

  lemma EightIsStep8(c: bv16)
    ensures Eight(Division().step, c) == Step8(c)
  {
  }

  lemma TailShifts(step: bv16 -> bv16, x: bv16)
    requires forall h :: h & 0xFF00 == 0 ==> Eight(step, h) == h << 8
    ensures Eight(step, Tail(x)) == Rest(x)
  {
    TailIsLow(x);
    TailIsRest(x);
  }

  lemma DivisionSplits()
    ensures Splits(Division())
  {
    forall h | h & 0xFF00 == 0
      ensures Eight(Division().step, h) == h << 8
    {
      ClearHighByteRises(h);
      EightIsStep8(h);
    }
    forall x
      ensures XorWords(Head(x), Tail(x)) == x && Eight(Division().step, Tail(x)) == Rest(x)
    {
      Halves(x);
      TailShifts(Division().step, x);
    }
  }

  lemma DivisionEntersHead()
    ensures EntersHead(Division())
  {
    forall c, b
      ensures Rest(XorWords(c, Raised(b))) == Rest(c)
    {
      RaisedIsClear(b);
      ByteIsAbove(c, Raised(b));
    }
  }

  // ---------------------------------------------------------------- the code

  /** The eight bits about to leave, as an index. */
  function Index(c: bv16): bv8 {
    (c >> 8) as bv8
  }

  function Entry(c: bv16): bv16 {
    Lookup(TABLE, Index(c))
  }

  function CodeIndex(c: bv16, b: bv8): bv8 {
    (((c >> 8) ^ (b as bv16)) & 0xFF) as bv8
  }

  /** The loop body: crc = (crc << 8) ^ table[((crc >> 8) ^ byte) & 0xFF]. */
  function Looked(c: bv16, b: bv8): bv16 {
    XorWords(Rest(c), Lookup(TABLE, CodeIndex(c, b)))
  }

  function TableStep16(): (bv16, bv8) -> bv16 {
    (c, b) => Looked(c, b)
  }

  lemma CodeIndexIsIndex(c: bv16, b: bv8)
    ensures CodeIndex(c, b) == Index(XorWords(c, Raised(b)))
  {
  }

  lemma XorWordsCommute(c: bv16, d: bv16)
    ensures XorWords(c, d) == XorWords(d, c)
  {
  }

  lemma LookedIsEntry(c: bv16, b: bv8)
    ensures Looked(c, b) == XorWords(Entry(XorWords(c, Raised(b))), Rest(c))
  {
    CodeIndexIsIndex(c, b);
    XorWordsCommute(Rest(c), Entry(XorWords(c, Raised(b))));
  }

  lemma IndexOfHead(x: bv16)
    ensures Index(Head(x)) == Index(x) && ((Index(x) as bv16) << 8) == Head(x)
  {
  }

  lemma EntryIsDivision(x: bv16)
    ensures Entry(Head(x)) == Eight(Division().step, Head(x))
  {
    IndexOfHead(x);
    TableIsDivision(Index(x));
    EightIsStep8(Head(x));
  }

  lemma EntryOfHead(x: bv16)
    ensures Entry(Head(x)) == Entry(x)
  {
    IndexOfHead(x);
  }

  lemma EntriesAreTable()
    ensures IsTable(Division(), i => Entry(i))
  {
    forall x {:trigger Head(x)}
      ensures Entry(Head(x)) == Eight(Division().step, Head(x))
    {
      EntryIsDivision(x);
    }
  }

  lemma StepThrough(entry: bv16 -> bv16, c: bv16, b: bv8)
    requires entry(Head(XorWords(c, Raised(b)))) == entry(XorWords(c, Raised(b)))
    ensures XorWords(entry(XorWords(c, Raised(b))), Rest(c)) == TableStep(Division(), entry)(c, b)
  {
  }

  lemma CodeStepIsTableStep(c: bv16, b: bv8)
    ensures TableStep16()(c, b) == TableStep(Division(), i => Entry(i))(c, b)
  {
    LookedIsEntry(c, b);
    EntryOfHead(XorWords(c, Raised(b)));
    StepThrough(i => Entry(i), c, b);
  }

  lemma CodeStepDivides()
    ensures Faithful(Division()) && Divides(Division(), TableStep16())
  {
    DivisionIsFaithful();
    DivisionSplits();
    DivisionEntersHead();
    EntriesAreTable();
    TableDivides(Division(), i => Entry(i));
    forall c, b {:trigger TableStep16()(c, b)}
      ensures TableStep16()(c, b) == TableStep(Division(), i => Entry(i))(c, b)
    {
      CodeStepIsTableStep(c, b);
    }
  }

  /** The reference: the division bit by bit. */
  function Divided(c: bv16, m: seq<bv8>): bv16 {
    Fold(BitwiseStep(Division()), c, m)
  }

  lemma LoopIsReference(c: bv16, m: seq<bv8>)
    ensures Fold(TableStep16(), c, m) == Divided(c, m)
  {
    CodeStepDivides();
    BitwiseDivides(Division());
    LoopsAgree(Division(), TableStep16(), BitwiseStep(Division()), c, m);
  }

  /** crc16: one table lookup per byte, and the division bit by bit, on every buffer and start. */
  method Crc16(buf: array?<bv8>, len: nat, start: bv16) returns (crc: bv16)
    requires (buf != null ==> len <= buf.Length) && len <= 0x7FFF_FFFF
    ensures buf == null ==> crc == start
    ensures buf != null ==> crc == Divided(start, buf[..len])
  {
    if buf == null && len > 0 {
      return start;
    }
    crc := 0;
    if start != 0 {
      crc := start;
    }
    if buf != null {
      LoopIsReference(crc, buf[..len]);
      crc := FoldBuffer(TableStep16(), crc, buf, len);
    }
  }

  // ---------------------------------------------------------------- what the value means

  /** Feeding a and then b is feeding them together, whatever the intermediate value. */
  lemma CrcChains(start: bv16, a: seq<bv8>, b: seq<bv8>)
    ensures Divided(Divided(start, a), b) == Divided(start, a + b)
  {
    FoldAppend(BitwiseStep(Division()), start, a, b);
  }

  /** The final register is the only possible remainder of the division by the generator. */
  lemma DividedIsRemainder(c: bv16, m: seq<bv8>)
    ensures Faithful(Division())
    ensures exists q :: LeavesRemainder(Division(), c, m, q, Register(Divided(c, m)))
    ensures forall q, r :: LeavesRemainder(Division(), c, m, q, r) ==> r == Register(Divided(c, m))
  {
    DivisionIsFaithful();
    BitwiseDivides(Division());
    LoopIsRemainder(Division(), BitwiseStep(Division()), c, m);
    var q :| LeavesRemainder(Division(), c, m, q, Division().reg(Divided(c, m)));
    assert LeavesRemainder(Division(), c, m, q, Register(Divided(c, m)));
  }

  /** For a fixed message the value is injective in the start value. */
  lemma DividedInjective(c: bv16, d: bv16, m: seq<bv8>)
    requires Divided(c, m) == Divided(d, m)
    ensures c == d
  {
    DivisionIsFaithful();
    BitwiseDivides(Division());
    LoopInjective(Division(), BitwiseStep(Division()), c, d, m);
  }

  /** Two messages that differ only within 16 consecutive bits never share a value. */
  lemma CrcDetectsBurst(start: bv16, m: seq<bv8>, m': seq<bv8>, pre: Bits, a: Bits, b: Bits, post: Bits)
    requires MessageBits(Division(), m) == pre + a + post && MessageBits(Division(), m') == pre + b + post
    requires |a| == |b| <= 16 && a != b
    ensures Divided(start, m) != Divided(start, m')
  {
    DivisionIsFaithful();
    BitwiseDivides(Division());
    BurstChangesLoop(Division(), BitwiseStep(Division()), start, m, m', pre, a, b, post);
  }

  function Ones(c: bv16, n: nat): nat
    decreases n
  {
    if n == 0 then 0 else (if TopAt(c, 0) then 1 else 0) + Ones(c << 1, n - 1)
  }

  lemma {:induction false} OnesAreWeight(c: bv16, n: nat)
    ensures Weight(TopBits(c, n)) == Ones(c, n)
    decreases n
  {
    if n > 0 {
      forall i | 0 <= i < n - 1
        ensures TopBits(c, n)[1..][i] == TopBits(c << 1, n - 1)[i]
      {
        OneDown(c, i);
      }
      assert TopBits(c, n)[1..] == TopBits(c << 1, n - 1);
      OnesAreWeight(c << 1, n - 1);
    }
  }

  lemma HalfTheOnes()
    ensures Ones(0x2100, 8) == 2
  {
    assert Ones(0x8000, 1) == 1 && Ones(0x4000, 2) == 1;
    assert Ones(0x2000, 3) == 1 && Ones(0x1000, 4) == 1;
    assert Ones(0x800, 5) == 1 && Ones(0x8400, 6) == 2;
    assert Ones(0x4200, 7) == 2 && Ones(0x2100, 8) == 2;
  }

  lemma TapsAreOdd()
    ensures Odd(Register(POLY))
  {
    OnesAreWeight(POLY, 16);
    HalfTheOnes();
    assert Ones(0x1080, 9) == 2 && Ones(0x840, 10) == 2;
    assert Ones(0x420, 11) == 2 && Ones(0x210, 12) == 2;
    assert Ones(0x8108, 13) == 3 && Ones(0x4084, 14) == 3;
    assert Ones(0x2042, 15) == 3 && Ones(0x1021, 16) == 3;
  }

  /** The generator has an even number of terms, so messages of one length that differ in an odd number
      of bits never share a value. */
  lemma CrcDetectsOdd(start: bv16, m: seq<bv8>, m': seq<bv8>)
    requires |m| == |m'| && Distance(MessageBits(Division(), m), MessageBits(Division(), m')) % 2 == 1
    ensures Divided(start, m) != Divided(start, m')
  {
    DivisionIsFaithful();
    TapsAreOdd();
    BitwiseDivides(Division());
    OddChangesLoop(Division(), BitwiseStep(Division()), start, m, m');
  }

  /** Nor do two messages that differ only within two consecutive bytes. */
  lemma CrcDetectsWindow(start: bv16, pre: seq<bv8>, a: seq<bv8>, b: seq<bv8>, post: seq<bv8>)
    requires |a| == |b| <= 2 && a != b
    ensures Divided(start, pre + a + post) != Divided(start, pre + b + post)
  {
    DivisionIsFaithful();
    BitwiseDivides(Division());
    WindowChangesLoop(Division(), BitwiseStep(Division()), start, pre, a, b, post);
  }

  lemma NextByte(m: seq<bv8>, k: nat, c: bv16, d: bv16)
    requires k < |m| && Divided(0, m[..k]) == c && Step8(XorWords(c, Raised(m[k]))) == d
    ensures Divided(0, m[..k + 1]) == d
  {
    EightIsStep8(XorWords(c, Raised(m[k])));
    assert m[..k + 1][..k] == m[..k];
  }

  lemma DigitsTo3(m: seq<bv8>)
    requires |m| == 9 && m[0] == 0x31 && m[1] == 0x32 && m[2] == 0x33
    requires Divided(0, m[..0]) == 0
    ensures Divided(0, m[..3]) == 0x9752
  {
    NextByte(m, 0, 0x0000, 0x2672);
    NextByte(m, 1, 0x2672, 0x20B5);
    NextByte(m, 2, 0x20B5, 0x9752);
  }

  lemma DigitsTo6(m: seq<bv8>)
    requires |m| == 9 && m[3] == 0x34 && m[4] == 0x35 && m[5] == 0x36
    requires Divided(0, m[..3]) == 0x9752
    ensures Divided(0, m[..6]) == 0x20E4
  {
    NextByte(m, 3, 0x9752, 0xD789);
    NextByte(m, 4, 0xD789, 0x546C);
    NextByte(m, 5, 0x546C, 0x20E4);
  }

  lemma DigitsTo9(m: seq<bv8>)
    requires |m| == 9 && m[6] == 0x37 && m[7] == 0x38 && m[8] == 0x39
    requires Divided(0, m[..6]) == 0x20E4
    ensures Divided(0, m[..9]) == 0x31C3
  {
    NextByte(m, 6, 0x20E4, 0x86D6);
    NextByte(m, 7, 0x86D6, 0x9015);
    NextByte(m, 8, 0x9015, 0x31C3);
  }

  /** The value the header documents for the digits 1 to 9. */
  lemma CheckValue(m: seq<bv8>)
    requires m == [0x31, 0x32, 0x33, 0x34, 0x35, 0x36, 0x37, 0x38, 0x39]
    ensures Divided(0, m) == 0x31C3
  {
    DigitsTo3(m);
    DigitsTo6(m);
    DigitsTo9(m);
    assert m[..9] == m;
  }
}
