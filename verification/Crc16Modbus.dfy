/** The MODBUS crc16 of hj/algo/crc16.h: reflected, starting at 0xFFFF. */
module Crc16Modbus {
  import opened CrcTheory
  import opened CrcWords
  import opened CrcTables
  import opened CrcLoop
  import opened CrcMachine

  // The table in rows of sixteen; entry i is TABLE[i >> 4][i & 0xF].
  const ROW_0: seq<bv16> := [0x0000, 0xC0C1, 0xC181, 0x0140, 0xC301, 0x03C0, 0x0280, 0xC241, 0xC601, 0x06C0, 0x0780, 0xC741, 0x0500, 0xC5C1, 0xC481, 0x0440]

  const ROW_1: seq<bv16> := [0xCC01, 0x0CC0, 0x0D80, 0xCD41, 0x0F00, 0xCFC1, 0xCE81, 0x0E40, 0x0A00, 0xCAC1, 0xCB81, 0x0B40, 0xC901, 0x09C0, 0x0880, 0xC841]
  const ROW_2: seq<bv16> := [0xD801, 0x18C0, 0x1980, 0xD941, 0x1B00, 0xDBC1, 0xDA81, 0x1A40, 0x1E00, 0xDEC1, 0xDF81, 0x1F40, 0xDD01, 0x1DC0, 0x1C80, 0xDC41]
  const ROW_3: seq<bv16> := [0x1400, 0xD4C1, 0xD581, 0x1540, 0xD701, 0x17C0, 0x1680, 0xD641, 0xD201, 0x12C0, 0x1380, 0xD341, 0x1100, 0xD1C1, 0xD081, 0x1040]
  const ROW_4: seq<bv16> := [0xF001, 0x30C0, 0x3180, 0xF141, 0x3300, 0xF3C1, 0xF281, 0x3240, 0x3600, 0xF6C1, 0xF781, 0x3740, 0xF501, 0x35C0, 0x3480, 0xF441]
  const ROW_5: seq<bv16> := [0x3C00, 0xFCC1, 0xFD81, 0x3D40, 0xFF01, 0x3FC0, 0x3E80, 0xFE41, 0xFA01, 0x3AC0, 0x3B80, 0xFB41, 0x3900, 0xF9C1, 0xF881, 0x3840]
  const ROW_6: seq<bv16> := [0x2800, 0xE8C1, 0xE981, 0x2940, 0xEB01, 0x2BC0, 0x2A80, 0xEA41, 0xEE01, 0x2EC0, 0x2F80, 0xEF41, 0x2D00, 0xEDC1, 0xEC81, 0x2C40]
  const ROW_7: seq<bv16> := [0xE401, 0x24C0, 0x2580, 0xE541, 0x2700, 0xE7C1, 0xE681, 0x2640, 0x2200, 0xE2C1, 0xE381, 0x2340, 0xE101, 0x21C0, 0x2080, 0xE041]
  const ROW_8: seq<bv16> := [0xA001, 0x60C0, 0x6180, 0xA141, 0x6300, 0xA3C1, 0xA281, 0x6240, 0x6600, 0xA6C1, 0xA781, 0x6740, 0xA501, 0x65C0, 0x6480, 0xA441]
  const ROW_9: seq<bv16> := [0x6C00, 0xACC1, 0xAD81, 0x6D40, 0xAF01, 0x6FC0, 0x6E80, 0xAE41, 0xAA01, 0x6AC0, 0x6B80, 0xAB41, 0x6900, 0xA9C1, 0xA881, 0x6840]
  const ROW_A: seq<bv16> := [0x7800, 0xB8C1, 0xB981, 0x7940, 0xBB01, 0x7BC0, 0x7A80, 0xBA41, 0xBE01, 0x7EC0, 0x7F80, 0xBF41, 0x7D00, 0xBDC1, 0xBC81, 0x7C40]
  const ROW_B: seq<bv16> := [0xB401, 0x74C0, 0x7580, 0xB541, 0x7700, 0xB7C1, 0xB681, 0x7640, 0x7200, 0xB2C1, 0xB381, 0x7340, 0xB101, 0x71C0, 0x7080, 0xB041]
  const ROW_C: seq<bv16> := [0x5000, 0x90C1, 0x9181, 0x5140, 0x9301, 0x53C0, 0x5280, 0x9241, 0x9601, 0x56C0, 0x5780, 0x9741, 0x5500, 0x95C1, 0x9481, 0x5440]
  const ROW_D: seq<bv16> := [0x9C01, 0x5CC0, 0x5D80, 0x9D41, 0x5F00, 0x9FC1, 0x9E81, 0x5E40, 0x5A00, 0x9AC1, 0x9B81, 0x5B40, 0x9901, 0x59C0, 0x5880, 0x9841]
  const ROW_E: seq<bv16> := [0x8801, 0x48C0, 0x4980, 0x8941, 0x4B00, 0x8BC1, 0x8A81, 0x4A40, 0x4E00, 0x8EC1, 0x8F81, 0x4F40, 0x8D01, 0x4DC0, 0x4C80, 0x8C41]
  const ROW_F: seq<bv16> := [0x4400, 0x84C1, 0x8581, 0x4540, 0x8701, 0x47C0, 0x4680, 0x8641, 0x8201, 0x42C0, 0x4380, 0x8341, 0x4100, 0x81C1, 0x8081, 0x4040]

  const TABLE: seq<seq<bv16>> :=
    [ROW_0, ROW_1, ROW_2, ROW_3, ROW_4, ROW_5, ROW_6, ROW_7,
     ROW_8, ROW_9, ROW_A, ROW_B, ROW_C, ROW_D, ROW_E, ROW_F]

  /** The reflected generator x^16 + x^15 + x^2 + 1. */
  const POLY: bv16 := 0xA001

  function Step(c: bv16): bv16 {
    if c & 1 == 1 then (c >> 1) ^ 0xA001 else c >> 1
  }

  function Step8(c: bv16): bv16 {
    Step(Step(Step(Step(Step(Step(Step(Step(c))))))))
  }

  function DividedIndex(i: bv8): bv16 {
    Step8(i as bv16)
  }

  lemma Row0()
    ensures RowIs(ROW_0, DividedIndex, 0x00)
  {
    SixteenIs(ROW_0, DividedIndex, 0x00);
  }

  lemma Row1()
    ensures RowIs(ROW_1, DividedIndex, 0x10)
  {
    SixteenIs(ROW_1, DividedIndex, 0x10);
  }

  lemma Row2()
    ensures RowIs(ROW_2, DividedIndex, 0x20)
  {
    SixteenIs(ROW_2, DividedIndex, 0x20);
  }

  lemma Row3()
    ensures RowIs(ROW_3, DividedIndex, 0x30)
  {
    SixteenIs(ROW_3, DividedIndex, 0x30);
  }

  lemma Row4()
    ensures RowIs(ROW_4, DividedIndex, 0x40)
  {
    SixteenIs(ROW_4, DividedIndex, 0x40);
  }

  lemma Row5()
    ensures RowIs(ROW_5, DividedIndex, 0x50)
  {
    SixteenIs(ROW_5, DividedIndex, 0x50);
  }

  lemma Row6()
    ensures RowIs(ROW_6, DividedIndex, 0x60)
  {
    SixteenIs(ROW_6, DividedIndex, 0x60);
  }

  lemma Row7()
    ensures RowIs(ROW_7, DividedIndex, 0x70)
  {
    SixteenIs(ROW_7, DividedIndex, 0x70);
  }

  lemma Row8()
    ensures RowIs(ROW_8, DividedIndex, 0x80)
  {
    SixteenIs(ROW_8, DividedIndex, 0x80);
  }

  lemma Row9()
    ensures RowIs(ROW_9, DividedIndex, 0x90)
  {
    SixteenIs(ROW_9, DividedIndex, 0x90);
  }

  lemma RowA()
    ensures RowIs(ROW_A, DividedIndex, 0xA0)
  {
    SixteenIs(ROW_A, DividedIndex, 0xA0);
  }

  lemma RowB()
    ensures RowIs(ROW_B, DividedIndex, 0xB0)
  {
    SixteenIs(ROW_B, DividedIndex, 0xB0);
  }

  lemma RowC()
    ensures RowIs(ROW_C, DividedIndex, 0xC0)
  {
    SixteenIs(ROW_C, DividedIndex, 0xC0);
  }

  lemma RowD()
    ensures RowIs(ROW_D, DividedIndex, 0xD0)
  {
    SixteenIs(ROW_D, DividedIndex, 0xD0);
  }

  lemma RowE()
    ensures RowIs(ROW_E, DividedIndex, 0xE0)
  {
    SixteenIs(ROW_E, DividedIndex, 0xE0);
  }

  lemma RowF()
    ensures RowIs(ROW_F, DividedIndex, 0xF0)
  {
    SixteenIs(ROW_F, DividedIndex, 0xF0);
  }

  lemma Rows0()
    ensures RowIs(TABLE[0x0], DividedIndex, 0x00) && RowIs(TABLE[0x1], DividedIndex, 0x10)
    ensures RowIs(TABLE[0x2], DividedIndex, 0x20) && RowIs(TABLE[0x3], DividedIndex, 0x30)
  {
    Row0(); Row1(); Row2(); Row3();
  }

  lemma Rows4()
    ensures RowIs(TABLE[0x4], DividedIndex, 0x40) && RowIs(TABLE[0x5], DividedIndex, 0x50)
    ensures RowIs(TABLE[0x6], DividedIndex, 0x60) && RowIs(TABLE[0x7], DividedIndex, 0x70)
  {
    Row4(); Row5(); Row6(); Row7();
  }

  lemma Rows8()
    ensures RowIs(TABLE[0x8], DividedIndex, 0x80) && RowIs(TABLE[0x9], DividedIndex, 0x90)
    ensures RowIs(TABLE[0xA], DividedIndex, 0xA0) && RowIs(TABLE[0xB], DividedIndex, 0xB0)
  {
    Row8(); Row9(); RowA(); RowB();
  }

  lemma RowsC()
    ensures RowIs(TABLE[0xC], DividedIndex, 0xC0) && RowIs(TABLE[0xD], DividedIndex, 0xD0)
    ensures RowIs(TABLE[0xE], DividedIndex, 0xE0) && RowIs(TABLE[0xF], DividedIndex, 0xF0)
  {
    RowC(); RowD(); RowE(); RowF();
  }

  /** Every table entry is eight division steps of its index. */
  lemma TableIsDivision(i: bv8)
    ensures Lookup(TABLE, i) == DividedIndex(i)
  {
    Rows0(); Rows4(); Rows8(); RowsC();
    TableIs(TABLE, DividedIndex, i);
  }

  // ---------------------------------------------------------------- the machine

  function Wide(c: bv16): bv32 { c as bv32 }

  function Register(c: bv16): (r: Bits)
    ensures |r| == 16
  {
    LowBits(Wide(c), 16)
  }

  /** Message bits enter least significant first. */
  function ByteBits(b: bv8): (r: Bits)
    ensures |r| == 8
  {
    LowBits(b as bv32, 8)
  }

  function XorWords(c: bv16, d: bv16): bv16 { c ^ d }
  function Widened(b: bv8): bv16 { b as bv16 }
  function Head(c: bv16): bv16 { c & 0xFF }
  function Tail(c: bv16): bv16 { c & 0xFF00 }
  function Rest(c: bv16): bv16 { c >> 8 }

  function Division(): Machine<bv16> {
    Machine(Register(POLY), c => Register(c), (c, d) => XorWords(c, d), c => Step(c), b => Widened(b),
            b => ByteBits(b), c => Head(c), c => Tail(c), c => Rest(c))
  }

  lemma DivisionGenerator()
    ensures Generator(Division())
  {
    EightUp(Wide(POLY), 7);
    assert Down8(Wide(POLY)) == 0xA0;
  }

  lemma WideInjective(c: bv16, d: bv16)
    requires Wide(c) == Wide(d)
    ensures c == d
  {
  }

  lemma WideFits(c: bv16)
    ensures Wide(c) < 0x10000
  {
  }

  lemma WideXor(c: bv16, d: bv16)
    ensures Wide(XorWords(c, d)) == Wide(c) ^ Wide(d)
  {
  }

  lemma WideHalf(c: bv16)
    ensures Wide(c >> 1) == Wide(c) >> 1
  {
  }

  lemma WideOdd(c: bv16)
    ensures c & 1 == 1 <==> Wide(c) & 1 == 1
  {
  }

  lemma WideOddStep(c: bv16, h: bv16, s: bv16)
    requires h == c >> 1 && s == XorWords(h, POLY)
    ensures Wide(s) == (Wide(c) >> 1) ^ Wide(POLY)
  {
    WideHalf(c);
    WideXor(h, POLY);
  }

  lemma WideStep(c: bv16)
    ensures Wide(Step(c)) == ShiftRight(Wide(c), Wide(POLY))
  {
    WideOdd(c);
    if c & 1 == 1 {
      WideOddStep(c, c >> 1, Step(c));
    } else {
      WideHalf(c);
    }
  }

  lemma WideByte(b: bv8)
    ensures Wide(Widened(b)) == b as bv32
  {
  }

  lemma SameRegister(c: bv16, d: bv16)
    requires Register(c) == Register(d)
    ensures c == d
  {
    forall i | 0 <= i < 16
      ensures BitAt(Wide(c), i) == BitAt(Wide(d), i)
    {
      assert Register(c)[i] == Register(d)[i];
    }
    WideFits(c);
    WideFits(d);
    HalfWordFromBits(Wide(c), Wide(d));
    WideInjective(c, d);
  }

  lemma DivisionRepresents()
    ensures Represents(Division())
  {
    forall c, d {:trigger Register(c), Register(d)} | Register(c) == Register(d)
      ensures c == d
    {
      SameRegister(c, d);
    }
  }

  lemma RegisterAdds(c: bv16, d: bv16)
    ensures Register(XorWords(c, d)) == Xor(Register(c), Register(d))
  {
    WideXor(c, d);
    LowBitsXor(Wide(c), Wide(d), Wide(XorWords(c, d)), 16);
  }

  lemma DivisionAdds()
    ensures Adds(Division())
  {
    forall c, d
      ensures Register(XorWords(c, d)) == Xor(Register(c), Register(d))
    {
      RegisterAdds(c, d);
    }
  }

  lemma DivisionShifts()
    ensures Shifts(Division())
  {
    forall c
      ensures Register(Step(c)) == Shift(Register(POLY), Register(c))
    {
      WideFits(c);
      WordHigh(Wide(c));
      ShiftRightIsShift(Wide(c), Wide(POLY), 16);
      WideStep(c);
    }
  }

  lemma DivisionEnters()
    ensures Enters(Division())
  {
    forall b
      ensures Register(Widened(b)) == ByteBits(b) + Zeros(8)
    {
      WideByte(b);
      ByteIsPadded(b as bv32, 16);
    }
    forall b, b' {:trigger ByteBits(b), ByteBits(b')} | ByteBits(b) == ByteBits(b')
      ensures b == b'
    {
      SameByte(b, b');
    }
  }

  lemma DivisionIsFaithful()
    ensures Faithful(Division())
  {
    DivisionGenerator();
    DivisionRepresents();
    DivisionAdds();
    DivisionShifts();
    DivisionEnters();
  }

  // ---------------------------------------------------------------- the table step

  lemma Halves(x: bv16)
    ensures XorWords(Head(x), Tail(x)) == x
  {
  }

  lemma TailIsClear(x: bv16)
    ensures Tail(x) & 0xFF == 0
  {
  }

  lemma TailIsRest(x: bv16)
    ensures Tail(x) >> 8 == Rest(x)
  {
  }

  lemma ClearLowByteShifts(h: bv16)
    requires h & 0xFF == 0
    ensures Step8(h) == h >> 8
  {
    assert Step(h) == h >> 1;
    assert Step(h >> 1) == h >> 2;
    assert Step(h >> 2) == h >> 3;
    assert Step(h >> 3) == h >> 4;
    assert Step(h >> 4) == h >> 5;
    assert Step(h >> 5) == h >> 6;
    assert Step(h >> 6) == h >> 7;
    assert Step(h >> 7) == h >> 8;
  }

  lemma ByteIsBelow(c: bv16, b: bv16)
    requires b < 0x100
    ensures Rest(c ^ b) == Rest(c)
  {
    assert (c ^ b) >> 8 == (c >> 8) ^ (b >> 8);
    assert b >> 8 == 0;
  }

  lemma EightIsStep8(c: bv16)
    ensures Eight(Division().step, c) == Step8(c)
  {
  }

  lemma TailShifts(step: bv16 -> bv16, x: bv16)
    requires forall h :: h & 0xFF == 0 ==> Eight(step, h) == h >> 8
    ensures Eight(step, Tail(x)) == Rest(x)
  {
    TailIsClear(x);
    TailIsRest(x);
  }

  lemma DivisionSplits()
    ensures Splits(Division())
  {
    forall h | h & 0xFF == 0
      ensures Eight(Division().step, h) == h >> 8
    {
      ClearLowByteShifts(h);
      EightIsStep8(h);
    }
    forall x
      ensures XorWords(Head(x), Tail(x)) == x && Eight(Division().step, Tail(x)) == Rest(x)
    {
      Halves(x);
      TailShifts(Division().step, x);
    }
  }

  lemma DivisionEntersHead()
    ensures EntersHead(Division())
  {
    forall c, b
      ensures Rest(XorWords(c, Widened(b))) == Rest(c)
    {
      ByteIsBelow(c, b as bv16);
    }
  }

  // ---------------------------------------------------------------- the code

  function Low(i: bv16): bv8 {
    (i & 0xFF) as bv8
  }

  /** crc16_table[i & 0xFF] */
  function Entry(i: bv16): bv16 {
    Lookup(TABLE, Low(i))
  }

  /** The loop body: crc = table[(crc ^ byte) & 0xFF] ^ (crc >> 8). */
  function Looked(c: bv16, b: bv8): bv16 {
    XorWords(Entry(XorWords(c, Widened(b))), Rest(c))
  }

  function TableStep16(): (bv16, bv8) -> bv16 {
    (c, b) => Looked(c, b)
  }

  lemma LowOfHead(x: bv16)
    ensures Low(Head(x)) == Low(x) && (Low(x) as bv16) == Head(x)
  {
  }

  lemma EntryIsDivision(x: bv16)
    ensures Entry(Head(x)) == Eight(Division().step, Head(x))
  {
    LowOfHead(x);
    TableIsDivision(Low(x));
    EightIsStep8(Head(x));
  }

  lemma EntryOfHead(x: bv16)
    ensures Entry(Head(x)) == Entry(x)
  {
    LowOfHead(x);
  }

  lemma EntriesAreTable()
    ensures IsTable(Division(), i => Entry(i))
  {
    forall x {:trigger Head(x)}
      ensures Entry(Head(x)) == Eight(Division().step, Head(x))
    {
      EntryIsDivision(x);
    }
  }

  lemma StepThrough(entry: bv16 -> bv16, c: bv16, b: bv8)
    requires entry(Head(XorWords(c, Widened(b)))) == entry(XorWords(c, Widened(b)))
    ensures XorWords(entry(XorWords(c, Widened(b))), Rest(c)) == TableStep(Division(), entry)(c, b)
  {
  }

  lemma CodeStepIsTableStep(c: bv16, b: bv8)
    ensures TableStep16()(c, b) == TableStep(Division(), i => Entry(i))(c, b)
  {
    EntryOfHead(XorWords(c, Widened(b)));
    StepThrough(i => Entry(i), c, b);
  }

  lemma CodeStepDivides()
    ensures Faithful(Division()) && Divides(Division(), TableStep16())
  {
    DivisionIsFaithful();
    DivisionSplits();
    DivisionEntersHead();
    EntriesAreTable();
    TableDivides(Division(), i => Entry(i));
    forall c, b {:trigger TableStep16()(c, b)}
      ensures TableStep16()(c, b) == TableStep(Division(), i => Entry(i))(c, b)
    {
      CodeStepIsTableStep(c, b);
    }
  }

  function Begin(start: bv16): bv16 {
    if start != 0 then start else 0xFFFF
  }

  function Divided(c: bv16, m: seq<bv8>): bv16 {
    Fold(BitwiseStep(Division()), c, m)
  }

  /** The reference: a zero start stands for 0xFFFF, and the division goes bit by bit. */
  function Crc(start: bv16, m: seq<bv8>): bv16 {
    Divided(Begin(start), m)
  }

  lemma LoopIsReference(c: bv16, m: seq<bv8>)
    ensures Fold(TableStep16(), c, m) == Divided(c, m)
  {
    CodeStepDivides();
    BitwiseDivides(Division());
    LoopsAgree(Division(), TableStep16(), BitwiseStep(Division()), c, m);
  }

  /** crc16: one table lookup per byte, and the division bit by bit, on every buffer and start. */
  method Crc16(buf: array?<bv8>, len: nat, start: bv16) returns (crc: bv16)
    requires (buf != null ==> len <= buf.Length) && len <= 0x7FFF_FFFF
    ensures buf == null && len > 0 ==> crc == start
    ensures buf == null && len == 0 ==> crc == Crc(start, [])
    ensures buf != null ==> crc == Crc(start, buf[..len])
  {
    if buf == null && len > 0 {
      return start;
    }
    crc := 0xFFFF;
    if start != 0 {
      crc := start;
    }
    if buf != null {
      LoopIsReference(crc, buf[..len]);
      crc := FoldBuffer(TableStep16(), crc, buf, len);
    }
  }

  // ---------------------------------------------------------------- what the value means

  /** Chaining meets the whole-message value exactly when the intermediate value is not zero: a zero
      restarts the register at 0xFFFF, and the division never forgets where it started. */
  lemma CrcChainsIff(start: bv16, a: seq<bv8>, b: seq<bv8>)
    ensures Crc(Crc(start, a), b) == Crc(start, a + b) <==> Crc(start, a) != 0
  {
    FoldAppend(BitwiseStep(Division()), Begin(start), a, b);
    if Crc(start, a) == 0 && Crc(Crc(start, a), b) == Crc(start, a + b) {
      DivisionIsFaithful();
      BitwiseDivides(Division());
      LoopInjective(Division(), BitwiseStep(Division()), 0xFFFF, 0, b);
    }
  }

  /** The value is the only possible remainder of the division by the generator. */
  lemma CrcIsRemainder(start: bv16, m: seq<bv8>)
    ensures Faithful(Division())
    ensures exists q :: LeavesRemainder(Division(), Begin(start), m, q, Register(Crc(start, m)))
    ensures forall q, r :: LeavesRemainder(Division(), Begin(start), m, q, r) ==> r == Register(Crc(start, m))
  {
    DivisionIsFaithful();
    BitwiseDivides(Division());
    LoopIsRemainder(Division(), BitwiseStep(Division()), Begin(start), m);
    var q :| LeavesRemainder(Division(), Begin(start), m, q, Division().reg(Crc(start, m)));
    assert LeavesRemainder(Division(), Begin(start), m, q, Register(Crc(start, m)));
  }

  /** Two messages that differ only within 16 consecutive bits never share a value. */
  lemma CrcDetectsBurst(start: bv16, m: seq<bv8>, m': seq<bv8>, pre: Bits, a: Bits, b: Bits, post: Bits)
    requires MessageBits(Division(), m) == pre + a + post && MessageBits(Division(), m') == pre + b + post
    requires |a| == |b| <= 16 && a != b
    ensures Crc(start, m) != Crc(start, m')
  {
    DivisionIsFaithful();
    BitwiseDivides(Division());
    BurstChangesLoop(Division(), BitwiseStep(Division()), Begin(start), m, m', pre, a, b, post);
  }

  function Ones(c: bv32, n: nat): nat
    decreases n
  {
    if n == 0 then 0 else (if BitAt(c, 0) then 1 else 0) + Ones(c >> 1, n - 1)
  }

  lemma {:induction false} OnesAreWeight(c: bv32, n: nat)
    ensures Weight(LowBits(c, n)) == Ones(c, n)
    decreases n
  {
    if n > 0 {
      forall i | 0 <= i < n - 1
        ensures LowBits(c, n)[1..][i] == LowBits(c >> 1, n - 1)[i]
      {
        OneUp(c, i);
      }
      assert LowBits(c, n)[1..] == LowBits(c >> 1, n - 1);
      OnesAreWeight(c >> 1, n - 1);
    }
  }

  lemma HalfTheOnes()
    ensures Ones(0xA0, 8) == 2
  {
    assert Ones(0x1, 1) == 1 && Ones(0x2, 2) == 1;
    assert Ones(0x5, 3) == 2 && Ones(0xA, 4) == 2;
    assert Ones(0x14, 5) == 2 && Ones(0x28, 6) == 2;
    assert Ones(0x50, 7) == 2 && Ones(0xA0, 8) == 2;
  }

  lemma TapsAreOdd()
    ensures Odd(Register(POLY))
  {
    OnesAreWeight(Wide(POLY), 16);
    assert Wide(POLY) == 0xA001;
    HalfTheOnes();
    assert Ones(0x140, 9) == 2 && Ones(0x280, 10) == 2;
    assert Ones(0x500, 11) == 2 && Ones(0xA00, 12) == 2;
    assert Ones(0x1400, 13) == 2 && Ones(0x2800, 14) == 2;
    assert Ones(0x5000, 15) == 2 && Ones(0xA001, 16) == 3;
  }

  /** The generator has an even number of terms, so messages of one length that differ in an odd number
      of bits never share a value. */
  lemma CrcDetectsOdd(start: bv16, m: seq<bv8>, m': seq<bv8>)
    requires |m| == |m'| && Distance(MessageBits(Division(), m), MessageBits(Division(), m')) % 2 == 1
    ensures Crc(start, m) != Crc(start, m')
  {
    DivisionIsFaithful();
    TapsAreOdd();
    BitwiseDivides(Division());
    OddChangesLoop(Division(), BitwiseStep(Division()), Begin(start), m, m');
  }

  /** Nor do two messages that differ only within two consecutive bytes. */
  lemma CrcDetectsWindow(start: bv16, pre: seq<bv8>, a: seq<bv8>, b: seq<bv8>, post: seq<bv8>)
    requires |a| == |b| <= 2 && a != b
    ensures Crc(start, pre + a + post) != Crc(start, pre + b + post)
  {
    DivisionIsFaithful();
    BitwiseDivides(Division());
    WindowChangesLoop(Division(), BitwiseStep(Division()), Begin(start), pre, a, b, post);
  }

  /** For a fixed message the value is injective in the start value, but for the two spellings of 0xFFFF. */
  lemma CrcInjectiveIff(start: bv16, start': bv16, m: seq<bv8>)
    ensures Crc(start, m) == Crc(start', m)
       <==> start == start' || (start in {0, 0xFFFF} && start' in {0, 0xFFFF})
  {
    if Crc(start, m) == Crc(start', m) {
      DivisionIsFaithful();
      BitwiseDivides(Division());
      LoopInjective(Division(), BitwiseStep(Division()), Begin(start), Begin(start'), m);
    }
  }

  lemma NextByte(m: seq<bv8>, k: nat, c: bv16, d: bv16)
    requires k < |m| && Divided(0xFFFF, m[..k]) == c && Step8(XorWords(c, Widened(m[k]))) == d
    ensures Divided(0xFFFF, m[..k + 1]) == d
  {
    EightIsStep8(XorWords(c, Widened(m[k])));
    assert m[..k + 1][..k] == m[..k];
  }

  /** Two 0xFF bytes empty the register, so chaining after them does go wrong. */
  lemma ZeroIntermediate(m: seq<bv8>)
    requires m == [0xFF, 0xFF]
    ensures Crc(0, m) == 0 && Crc(Crc(0, m), []) != Crc(0, m + [])
  {
    NextByte(m, 0, 0xFFFF, 0x00FF);
    NextByte(m, 1, 0x00FF, 0);
    assert m[..2] == m;
    CrcChainsIff(0, m, []);
  }

  lemma DigitsTo3(m: seq<bv8>)
    requires |m| == 9 && m[0] == 0x31 && m[1] == 0x32 && m[2] == 0x33
    requires Divided(0xFFFF, m[..0]) == 0xFFFF
    ensures Divided(0xFFFF, m[..3]) == 0x7A75
  {
    NextByte(m, 0, 0xFFFF, 0x947E);
    NextByte(m, 1, 0x947E, 0xF595);
    NextByte(m, 2, 0xF595, 0x7A75);
  }

  lemma DigitsTo6(m: seq<bv8>)
    requires |m| == 9 && m[3] == 0x34 && m[4] == 0x35 && m[5] == 0x36
    requires Divided(0xFFFF, m[..3]) == 0x7A75
    ensures Divided(0xFFFF, m[..6]) == 0x32E4
  {
    NextByte(m, 3, 0x7A75, 0x30BA);
    NextByte(m, 4, 0x30BA, 0xA471);
    NextByte(m, 5, 0xA471, 0x32E4);
  }

  lemma DigitsTo9(m: seq<bv8>)
    requires |m| == 9 && m[6] == 0x37 && m[7] == 0x38 && m[8] == 0x39
    requires Divided(0xFFFF, m[..6]) == 0x32E4
    ensures Divided(0xFFFF, m[..9]) == 0x4B37
  {
    NextByte(m, 6, 0x32E4, 0x9D73);
    NextByte(m, 7, 0x9D73, 0x37DD);
    NextByte(m, 8, 0x37DD, 0x4B37);
  }

  /** The value the header documents for the digits 1 to 9. */
  lemma CheckValue(m: seq<bv8>)
    requires m == [0x31, 0x32, 0x33, 0x34, 0x35, 0x36, 0x37, 0x38, 0x39]
    ensures Crc(0, m) == 0x4B37
  {
    DigitsTo3(m);
    DigitsTo6(m);
    DigitsTo9(m);
    assert m[..9] == m;
  }
}
