/** crc32 of hj/algo/crc32.h: the table loop against bit-at-a-time division (section 8 of RFC 1952). */
module Crc32 {
  import opened CrcTheory
  import opened CrcWords
  import opened CrcTables
  import opened CrcLoop
  import opened CrcMachine

  // The table in rows of sixteen; entry i is TABLE[i >> 4][i & 0xF].
  const ROW_0: seq<bv32> := [0x00000000, 0x77073096, 0xEE0E612C, 0x990951BA, 0x076DC419, 0x706AF48F, 0xE963A535, 0x9E6495A3,
    0x0EDB8832, 0x79DCB8A4, 0xE0D5E91E, 0x97D2D988, 0x09B64C2B, 0x7EB17CBD, 0xE7B82D07, 0x90BF1D91]

  const ROW_1: seq<bv32> := [0x1DB71064, 0x6AB020F2, 0xF3B97148, 0x84BE41DE, 0x1ADAD47D, 0x6DDDE4EB, 0xF4D4B551, 0x83D385C7,
    0x136C9856, 0x646BA8C0, 0xFD62F97A, 0x8A65C9EC, 0x14015C4F, 0x63066CD9, 0xFA0F3D63, 0x8D080DF5]

  const ROW_2: seq<bv32> := [0x3B6E20C8, 0x4C69105E, 0xD56041E4, 0xA2677172, 0x3C03E4D1, 0x4B04D447, 0xD20D85FD, 0xA50AB56B,
    0x35B5A8FA, 0x42B2986C, 0xDBBBC9D6, 0xACBCF940, 0x32D86CE3, 0x45DF5C75, 0xDCD60DCF, 0xABD13D59]

  const ROW_3: seq<bv32> := [0x26D930AC, 0x51DE003A, 0xC8D75180, 0xBFD06116, 0x21B4F4B5, 0x56B3C423, 0xCFBA9599, 0xB8BDA50F,
    0x2802B89E, 0x5F058808, 0xC60CD9B2, 0xB10BE924, 0x2F6F7C87, 0x58684C11, 0xC1611DAB, 0xB6662D3D]

  const ROW_4: seq<bv32> := [0x76DC4190, 0x01DB7106, 0x98D220BC, 0xEFD5102A, 0x71B18589, 0x06B6B51F, 0x9FBFE4A5, 0xE8B8D433,
    0x7807C9A2, 0x0F00F934, 0x9609A88E, 0xE10E9818, 0x7F6A0DBB, 0x086D3D2D, 0x91646C97, 0xE6635C01]

  const ROW_5: seq<bv32> := [0x6B6B51F4, 0x1C6C6162, 0x856530D8, 0xF262004E, 0x6C0695ED, 0x1B01A57B, 0x8208F4C1, 0xF50FC457,
    0x65B0D9C6, 0x12B7E950, 0x8BBEB8EA, 0xFCB9887C, 0x62DD1DDF, 0x15DA2D49, 0x8CD37CF3, 0xFBD44C65]

  const ROW_6: seq<bv32> := [0x4DB26158, 0x3AB551CE, 0xA3BC0074, 0xD4BB30E2, 0x4ADFA541, 0x3DD895D7, 0xA4D1C46D, 0xD3D6F4FB,
    0x4369E96A, 0x346ED9FC, 0xAD678846, 0xDA60B8D0, 0x44042D73, 0x33031DE5, 0xAA0A4C5F, 0xDD0D7CC9]

  const ROW_7: seq<bv32> := [0x5005713C, 0x270241AA, 0xBE0B1010, 0xC90C2086, 0x5768B525, 0x206F85B3, 0xB966D409, 0xCE61E49F,
    0x5EDEF90E, 0x29D9C998, 0xB0D09822, 0xC7D7A8B4, 0x59B33D17, 0x2EB40D81, 0xB7BD5C3B, 0xC0BA6CAD]

  const ROW_8: seq<bv32> := [0xEDB88320, 0x9ABFB3B6, 0x03B6E20C, 0x74B1D29A, 0xEAD54739, 0x9DD277AF, 0x04DB2615, 0x73DC1683,
    0xE3630B12, 0x94643B84, 0x0D6D6A3E, 0x7A6A5AA8, 0xE40ECF0B, 0x9309FF9D, 0x0A00AE27, 0x7D079EB1]

  const ROW_9: seq<bv32> := [0xF00F9344, 0x8708A3D2, 0x1E01F268, 0x6906C2FE, 0xF762575D, 0x806567CB, 0x196C3671, 0x6E6B06E7,
    0xFED41B76, 0x89D32BE0, 0x10DA7A5A, 0x67DD4ACC, 0xF9B9DF6F, 0x8EBEEFF9, 0x17B7BE43, 0x60B08ED5]

  const ROW_A: seq<bv32> := [0xD6D6A3E8, 0xA1D1937E, 0x38D8C2C4, 0x4FDFF252, 0xD1BB67F1, 0xA6BC5767, 0x3FB506DD, 0x48B2364B,
    0xD80D2BDA, 0xAF0A1B4C, 0x36034AF6, 0x41047A60, 0xDF60EFC3, 0xA867DF55, 0x316E8EEF, 0x4669BE79]

  const ROW_B: seq<bv32> := [0xCB61B38C, 0xBC66831A, 0x256FD2A0, 0x5268E236, 0xCC0C7795, 0xBB0B4703, 0x220216B9, 0x5505262F,
    0xC5BA3BBE, 0xB2BD0B28, 0x2BB45A92, 0x5CB36A04, 0xC2D7FFA7, 0xB5D0CF31, 0x2CD99E8B, 0x5BDEAE1D]

  const ROW_C: seq<bv32> := [0x9B64C2B0, 0xEC63F226, 0x756AA39C, 0x026D930A, 0x9C0906A9, 0xEB0E363F, 0x72076785, 0x05005713,
    0x95BF4A82, 0xE2B87A14, 0x7BB12BAE, 0x0CB61B38, 0x92D28E9B, 0xE5D5BE0D, 0x7CDCEFB7, 0x0BDBDF21]

  const ROW_D: seq<bv32> := [0x86D3D2D4, 0xF1D4E242, 0x68DDB3F8, 0x1FDA836E, 0x81BE16CD, 0xF6B9265B, 0x6FB077E1, 0x18B74777,
    0x88085AE6, 0xFF0F6A70, 0x66063BCA, 0x11010B5C, 0x8F659EFF, 0xF862AE69, 0x616BFFD3, 0x166CCF45]

  const ROW_E: seq<bv32> := [0xA00AE278, 0xD70DD2EE, 0x4E048354, 0x3903B3C2, 0xA7672661, 0xD06016F7, 0x4969474D, 0x3E6E77DB,
    0xAED16A4A, 0xD9D65ADC, 0x40DF0B66, 0x37D83BF0, 0xA9BCAE53, 0xDEBB9EC5, 0x47B2CF7F, 0x30B5FFE9]

  const ROW_F: seq<bv32> := [0xBDBDF21C, 0xCABAC28A, 0x53B39330, 0x24B4A3A6, 0xBAD03605, 0xCDD70693, 0x54DE5729, 0x23D967BF,
    0xB3667A2E, 0xC4614AB8, 0x5D681B02, 0x2A6F2B94, 0xB40BBE37, 0xC30C8EA1, 0x5A05DF1B, 0x2D02EF8D]

  const TABLE: seq<seq<bv32>> :=
    [ROW_0, ROW_1, ROW_2, ROW_3, ROW_4, ROW_5, ROW_6, ROW_7,
     ROW_8, ROW_9, ROW_A, ROW_B, ROW_C, ROW_D, ROW_E, ROW_F]

  /** The reflected generator x^32 + x^26 + x^23 + ... + x + 1. */
  const POLY: bv32 := 0xEDB88320

  function Step(c: bv32): bv32 {
    if c & 1 == 1 then (c >> 1) ^ 0xEDB88320 else c >> 1
  }

  function Step8(c: bv32): bv32 {
    Step(Step(Step(Step(Step(Step(Step(Step(c))))))))
  }

  function DividedIndex(i: bv8): bv32 {
    Step8(i as bv32)
  }

  lemma Row0()
    ensures RowIs(ROW_0, DividedIndex, 0x00)
  {
    assert Step8(0) == 0;
    SixteenIs(ROW_0, DividedIndex, 0x00);
  }

  lemma Row1()
    ensures RowIs(ROW_1, DividedIndex, 0x10)
  {
    SixteenIs(ROW_1, DividedIndex, 0x10);
  }

  lemma Row2()
    ensures RowIs(ROW_2, DividedIndex, 0x20)
  {
    SixteenIs(ROW_2, DividedIndex, 0x20);
  }

  lemma Row3()
    ensures RowIs(ROW_3, DividedIndex, 0x30)
  {
    SixteenIs(ROW_3, DividedIndex, 0x30);
  }

  lemma Row4()
    ensures RowIs(ROW_4, DividedIndex, 0x40)
  {
    SixteenIs(ROW_4, DividedIndex, 0x40);
  }

  lemma Row5()
    ensures RowIs(ROW_5, DividedIndex, 0x50)
  {
    SixteenIs(ROW_5, DividedIndex, 0x50);
  }

  lemma Row6()
    ensures RowIs(ROW_6, DividedIndex, 0x60)
  {
    SixteenIs(ROW_6, DividedIndex, 0x60);
  }

  lemma Row7()
    ensures RowIs(ROW_7, DividedIndex, 0x70)
  {
    SixteenIs(ROW_7, DividedIndex, 0x70);
  }

  lemma Row8()
    ensures RowIs(ROW_8, DividedIndex, 0x80)
  {
    SixteenIs(ROW_8, DividedIndex, 0x80);
  }

  lemma Row9()
    ensures RowIs(ROW_9, DividedIndex, 0x90)
  {
    SixteenIs(ROW_9, DividedIndex, 0x90);
  }

  lemma RowA()
    ensures RowIs(ROW_A, DividedIndex, 0xA0)
  {
    SixteenIs(ROW_A, DividedIndex, 0xA0);
  }

  lemma RowB()
    ensures RowIs(ROW_B, DividedIndex, 0xB0)
  {
    SixteenIs(ROW_B, DividedIndex, 0xB0);
  }

  lemma RowC()
    ensures RowIs(ROW_C, DividedIndex, 0xC0)
  {
    SixteenIs(ROW_C, DividedIndex, 0xC0);
  }

  lemma RowD()
    ensures RowIs(ROW_D, DividedIndex, 0xD0)
  {
    SixteenIs(ROW_D, DividedIndex, 0xD0);
  }

  lemma RowE()
    ensures RowIs(ROW_E, DividedIndex, 0xE0)
  {
    SixteenIs(ROW_E, DividedIndex, 0xE0);
  }

  lemma RowF()
    ensures RowIs(ROW_F, DividedIndex, 0xF0)
  {
    SixteenIs(ROW_F, DividedIndex, 0xF0);
  }

  lemma Rows0()
    ensures RowIs(TABLE[0x0], DividedIndex, 0x00) && RowIs(TABLE[0x1], DividedIndex, 0x10)
    ensures RowIs(TABLE[0x2], DividedIndex, 0x20) && RowIs(TABLE[0x3], DividedIndex, 0x30)
  {
    Row0(); Row1(); Row2(); Row3();
  }

  lemma Rows4()
    ensures RowIs(TABLE[0x4], DividedIndex, 0x40) && RowIs(TABLE[0x5], DividedIndex, 0x50)
    ensures RowIs(TABLE[0x6], DividedIndex, 0x60) && RowIs(TABLE[0x7], DividedIndex, 0x70)
  {
    Row4(); Row5(); Row6(); Row7();
  }

  lemma Rows8()
    ensures RowIs(TABLE[0x8], DividedIndex, 0x80) && RowIs(TABLE[0x9], DividedIndex, 0x90)
    ensures RowIs(TABLE[0xA], DividedIndex, 0xA0) && RowIs(TABLE[0xB], DividedIndex, 0xB0)
  {
    Row8(); Row9(); RowA(); RowB();
  }

  lemma RowsC()
    ensures RowIs(TABLE[0xC], DividedIndex, 0xC0) && RowIs(TABLE[0xD], DividedIndex, 0xD0)
    ensures RowIs(TABLE[0xE], DividedIndex, 0xE0) && RowIs(TABLE[0xF], DividedIndex, 0xF0)
  {
    RowC(); RowD(); RowE(); RowF();
  }

  /** Every table entry is eight division steps of its index. */
  lemma TableIsDivision(i: bv8)
    ensures Lookup(TABLE, i) == DividedIndex(i)
  {
    Rows0(); Rows4(); Rows8(); RowsC();
    TableIs(TABLE, DividedIndex, i);
  }

  // ---------------------------------------------------------------- the machine

  function Register(c: bv32): (r: Bits)
    ensures |r| == 32
  {
    LowBits(c, 32)
  }

  /** Message bits enter least significant first. */
  function ByteBits(b: bv8): (r: Bits)
    ensures |r| == 8
  {
    LowBits(b as bv32, 8)
  }

  function XorWords(c: bv32, d: bv32): bv32 { c ^ d }
  function Widened(b: bv8): bv32 { b as bv32 }
  function Head(c: bv32): bv32 { c & 0xFF }
  function Tail(c: bv32): bv32 { c & 0xFFFF_FF00 }
  function Rest(c: bv32): bv32 { c >> 8 }

  function Division(): Machine<bv32> {
    Machine(Register(POLY), c => Register(c), (c, d) => XorWords(c, d), c => Step(c), b => Widened(b),
            b => ByteBits(b), c => Head(c), c => Tail(c), c => Rest(c))
  }

  lemma DivisionGenerator()
    ensures Generator(Division())
  {
    EightUp(POLY, 23);
    EightUp(Down8(POLY), 15);
    EightUp(Down8(Down8(POLY)), 7);
    assert Down8(Down8(Down8(POLY))) == 0xED;
  }

  lemma DivisionRepresents()
    ensures Represents(Division())
  {
    forall c, d {:trigger Register(c), Register(d)} | Register(c) == Register(d)
      ensures c == d
    {
      forall i | 0 <= i < 32
        ensures BitAt(c, i) == BitAt(d, i)
      {
        assert Register(c)[i] == Register(d)[i];
      }
      WordFromBits(c, d);
    }
  }

  lemma DivisionAdds()
    ensures Adds(Division())
  {
    forall c, d
      ensures Register(XorWords(c, d)) == Xor(Register(c), Register(d))
    {
      LowBitsXor(c, d, c ^ d, 32);
    }
  }

  lemma DivisionShifts()
    ensures Shifts(Division())
  {
    forall c
      ensures Register(Step(c)) == Shift(Register(POLY), Register(c))
    {
      WordHigh(c);
      ShiftRightIsShift(c, POLY, 32);
    }
  }

  lemma DivisionEnters()
    ensures Enters(Division())
  {
    forall b
      ensures Register(Widened(b)) == ByteBits(b) + Zeros(24)
    {
      ByteIsPadded(b as bv32, 32);
    }
    forall b, b' {:trigger ByteBits(b), ByteBits(b')} | ByteBits(b) == ByteBits(b')
      ensures b == b'
    {
      SameByte(b, b');
    }
  }

  lemma DivisionIsFaithful()
    ensures Faithful(Division())
  {
    DivisionGenerator();
    DivisionRepresents();
    DivisionAdds();
    DivisionShifts();
    DivisionEnters();
  }

  // ---------------------------------------------------------------- the table step

  lemma Halves(x: bv32)
    ensures XorWords(Head(x), Tail(x)) == x
  {
  }

  lemma TailIsClear(x: bv32)
    ensures Tail(x) & 0xFF == 0
  {
  }

  lemma TailIsRest(x: bv32)
    ensures Tail(x) >> 8 == Rest(x)
  {
  }

  lemma ClearLowByteShifts(h: bv32)
    requires h & 0xFF == 0
    ensures Step8(h) == h >> 8
  {
    assert Step(h) == h >> 1;
    assert Step(h >> 1) == h >> 2;
    assert Step(h >> 2) == h >> 3;
    assert Step(h >> 3) == h >> 4;
    assert Step(h >> 4) == h >> 5;
    assert Step(h >> 5) == h >> 6;
    assert Step(h >> 6) == h >> 7;
    assert Step(h >> 7) == h >> 8;
  }

  lemma ByteIsBelow(c: bv32, b: bv32)
    requires b < 0x100
    ensures Rest(c ^ b) == Rest(c)
  {
    assert (c ^ b) >> 8 == (c >> 8) ^ (b >> 8);
    assert b >> 8 == 0;
  }

  lemma EightIsStep8(c: bv32)
    ensures Eight(Division().step, c) == Step8(c)
  {
  }

  lemma TailShifts(step: bv32 -> bv32, x: bv32)
    requires forall h :: h & 0xFF == 0 ==> Eight(step, h) == h >> 8
    ensures Eight(step, Tail(x)) == Rest(x)
  {
    TailIsClear(x);
    TailIsRest(x);
  }

  lemma DivisionSplits()
    ensures Splits(Division())
  {
    forall h | h & 0xFF == 0
      ensures Eight(Division().step, h) == h >> 8
    {
      ClearLowByteShifts(h);
      EightIsStep8(h);
    }
    forall x
      ensures XorWords(Head(x), Tail(x)) == x && Eight(Division().step, Tail(x)) == Rest(x)
    {
      Halves(x);
      TailShifts(Division().step, x);
    }
  }

  lemma DivisionEntersHead()
    ensures EntersHead(Division())
  {
    forall c, b
      ensures Rest(XorWords(c, Widened(b))) == Rest(c)
    {
      ByteIsBelow(c, b as bv32);
    }
  }

  // ---------------------------------------------------------------- the code

  function Low(i: bv32): bv8 {
    (i & 0xFF) as bv8
  }

  /** crc32_table[i & 0xFF] */
  function Entry(i: bv32): bv32 {
    Lookup(TABLE, Low(i))
  }

  /** The loop body: crc = table[(crc ^ byte) & 0xFF] ^ (crc >> 8). */
  function Looked(c: bv32, b: bv8): bv32 {
    XorWords(Entry(XorWords(c, Widened(b))), Rest(c))
  }

  function TableStep32(): (bv32, bv8) -> bv32 {
    (c, b) => Looked(c, b)
  }

  lemma LowOfHead(x: bv32)
    ensures Low(Head(x)) == Low(x) && (Low(x) as bv32) == Head(x)
  {
  }

  lemma EntryIsDivision(x: bv32)
    ensures Entry(Head(x)) == Eight(Division().step, Head(x))
  {
    LowOfHead(x);
    TableIsDivision(Low(x));
    EightIsStep8(Head(x));
  }

  lemma EntryOfHead(x: bv32)
    ensures Entry(Head(x)) == Entry(x)
  {
    LowOfHead(x);
  }

  lemma EntriesAreTable()
    ensures IsTable(Division(), i => Entry(i))
  {
    forall x {:trigger Head(x)}
      ensures Entry(Head(x)) == Eight(Division().step, Head(x))
    {
      EntryIsDivision(x);
    }
  }

  lemma StepThrough(entry: bv32 -> bv32, c: bv32, b: bv8)
    requires entry(Head(XorWords(c, Widened(b)))) == entry(XorWords(c, Widened(b)))
    ensures XorWords(entry(XorWords(c, Widened(b))), Rest(c)) == TableStep(Division(), entry)(c, b)
  {
  }

  lemma CodeStepIsTableStep(c: bv32, b: bv8)
    ensures TableStep32()(c, b) == TableStep(Division(), i => Entry(i))(c, b)
  {
    EntryOfHead(XorWords(c, Widened(b)));
    StepThrough(i => Entry(i), c, b);
  }

  lemma CodeStepDivides()
    ensures Faithful(Division()) && Divides(Division(), TableStep32())
  {
    DivisionIsFaithful();
    DivisionSplits();
    DivisionEntersHead();
    EntriesAreTable();
    TableDivides(Division(), i => Entry(i));
    forall c, b {:trigger TableStep32()(c, b)}
      ensures TableStep32()(c, b) == TableStep(Division(), i => Entry(i))(c, b)
    {
      CodeStepIsTableStep(c, b);
    }
  }

  function Flip(c: bv32): bv32 {
    c ^ 0xFFFF_FFFF
  }

  function Divided(c: bv32, m: seq<bv8>): bv32 {
    Fold(BitwiseStep(Division()), c, m)
  }

  /** The reference: complement, divide bit by bit, complement. */
  function Crc(start: bv32, m: seq<bv8>): bv32 {
    Flip(Divided(Flip(start), m))
  }

  lemma LoopIsReference(c: bv32, m: seq<bv8>)
    ensures Fold(TableStep32(), c, m) == Divided(c, m)
  {
    CodeStepDivides();
    BitwiseDivides(Division());
    LoopsAgree(Division(), TableStep32(), BitwiseStep(Division()), c, m);
  }

  lemma FlipZero(start: bv32)
    ensures start == 0 ==> Flip(start) == 0xFFFF_FFFF
  {
  }

  lemma FlipTwice(c: bv32)
    ensures Flip(Flip(c)) == c
  {
  }

  /** crc32: one table lookup per byte, and the division bit by bit, on every buffer and start. */
  method Crc32(buf: array?<bv8>, len: nat, start: bv32) returns (crc: bv32)
    requires buf != null ==> len <= buf.Length
    ensures buf == null ==> crc == start
    ensures buf != null ==> crc == Crc(start, buf[..len])
  {
    if buf == null && len > 0 {
      return start;
    }
    crc := 0xFFFF_FFFF;
    if start != 0 {
      crc := Flip(start);
    }
    FlipZero(start);
    if buf != null {
      LoopIsReference(crc, buf[..len]);
      crc := FoldBuffer(TableStep32(), crc, buf, len);
    }
    crc := Flip(crc);
    FlipTwice(start);
  }

  // ---------------------------------------------------------------- what the value means

  /** Feeding a and then b is feeding them together, whatever the intermediate value. */
  lemma CrcChains(start: bv32, a: seq<bv8>, b: seq<bv8>)
    ensures Crc(Crc(start, a), b) == Crc(start, a + b)
  {
    FlipTwice(Divided(Flip(start), a));
    FoldAppend(BitwiseStep(Division()), Flip(start), a, b);
  }

  lemma DividedIsRemainder(c: bv32, m: seq<bv8>, w: bv32)
    requires w == Divided(c, m)
    ensures Faithful(Division())
    ensures exists q :: LeavesRemainder(Division(), c, m, q, Register(w))
    ensures forall q, r :: LeavesRemainder(Division(), c, m, q, r) ==> r == Register(w)
  {
    DivisionIsFaithful();
    BitwiseDivides(Division());
    LoopIsRemainder(Division(), BitwiseStep(Division()), c, m);
    var q :| LeavesRemainder(Division(), c, m, q, Division().reg(w));
    assert LeavesRemainder(Division(), c, m, q, Register(w));
  }

  /** Complementing the value on both sides gives the only possible remainder of the division by the
      generator. */
  lemma CrcIsRemainder(start: bv32, m: seq<bv8>, c: bv32, w: bv32)
    requires c == Flip(start) && Flip(w) == Crc(start, m)
    ensures Faithful(Division())
    ensures exists q :: LeavesRemainder(Division(), c, m, q, Register(w))
    ensures forall q, r :: LeavesRemainder(Division(), c, m, q, r) ==> r == Register(w)
  {
    FlipTwice(w);
    FlipTwice(Divided(c, m));
    assert w == Divided(c, m);
    DividedIsRemainder(c, m, w);
  }

  /** Two messages that differ only within 32 consecutive bits never share a value. */
  lemma CrcDetectsBurst(start: bv32, m: seq<bv8>, m': seq<bv8>, pre: Bits, a: Bits, b: Bits, post: Bits)
    requires MessageBits(Division(), m) == pre + a + post && MessageBits(Division(), m') == pre + b + post
    requires |a| == |b| <= 32 && a != b
    ensures Crc(start, m) != Crc(start, m')
  {
    DivisionIsFaithful();
    BitwiseDivides(Division());
    FlipTwice(Divided(Flip(start), m));
    FlipTwice(Divided(Flip(start), m'));
    BurstChangesLoop(Division(), BitwiseStep(Division()), Flip(start), m, m', pre, a, b, post);
  }

  /** Nor do two messages that differ only within four consecutive bytes. */
  lemma CrcDetectsWindow(start: bv32, pre: seq<bv8>, a: seq<bv8>, b: seq<bv8>, post: seq<bv8>)
    requires |a| == |b| <= 4 && a != b
    ensures Crc(start, pre + a + post) != Crc(start, pre + b + post)
  {
    DivisionIsFaithful();
    BitwiseDivides(Division());
    FlipTwice(Divided(Flip(start), pre + a + post));
    FlipTwice(Divided(Flip(start), pre + b + post));
    WindowChangesLoop(Division(), BitwiseStep(Division()), Flip(start), pre, a, b, post);
  }

  /** For a fixed message the value is a bijection of the start value. */
  lemma CrcInjective(start: bv32, start': bv32, m: seq<bv8>)
    requires Crc(start, m) == Crc(start', m)
    ensures start == start'
  {
    DivisionIsFaithful();
    BitwiseDivides(Division());
    FlipTwice(Divided(Flip(start), m));
    FlipTwice(Divided(Flip(start'), m));
    LoopInjective(Division(), BitwiseStep(Division()), Flip(start), Flip(start'), m);
    FlipTwice(start);
    FlipTwice(start');
  }

  lemma NextByte(m: seq<bv8>, k: nat, c: bv32, d: bv32)
    requires k < |m| && Divided(0xFFFF_FFFF, m[..k]) == c && Step8(XorWords(c, Widened(m[k]))) == d
    ensures Divided(0xFFFF_FFFF, m[..k + 1]) == d
  {
    EightIsStep8(XorWords(c, Widened(m[k])));
    assert m[..k + 1][..k] == m[..k];
  }

  lemma DigitsTo3(m: seq<bv8>)
    requires |m| == 9 && m[0] == 0x31 && m[1] == 0x32 && m[2] == 0x33
    requires Divided(0xFFFF_FFFF, m[..0]) == 0xFFFF_FFFF
    ensures Divided(0xFFFF_FFFF, m[..3]) == 0x77B7_9C2D
  {
    NextByte(m, 0, 0xFFFFFFFF, 0x7C231048);
    NextByte(m, 1, 0x7C231048, 0xB0ACBB32);
    NextByte(m, 2, 0xB0ACBB32, 0x77B79C2D);
  }

  lemma DigitsTo6(m: seq<bv8>)
    requires |m| == 9 && m[3] == 0x34 && m[4] == 0x35 && m[5] == 0x36
    requires Divided(0xFFFF_FFFF, m[..3]) == 0x77B7_9C2D
    ensures Divided(0xFFFF_FFFF, m[..6]) == 0xF68D_2C9E
  {
    NextByte(m, 3, 0x77B79C2D, 0x641C1F5C);
    NextByte(m, 4, 0x641C1F5C, 0x340AC5E3);
    NextByte(m, 5, 0x340AC5E3, 0xF68D2C9E);
  }

  lemma DigitsTo9(m: seq<bv8>)
    requires |m| == 9 && m[6] == 0x37 && m[7] == 0x38 && m[8] == 0x39
    requires Divided(0xFFFF_FFFF, m[..6]) == 0xF68D_2C9E
    ensures Divided(0xFFFF_FFFF, m[..9]) == 0x340B_C6D9
  {
    NextByte(m, 6, 0xF68D2C9E, 0xAFFC9660);
    NextByte(m, 7, 0xAFFC9660, 0x651F2550);
    NextByte(m, 8, 0x651F2550, 0x340BC6D9);
  }

  /** The value the header documents for the digits 1 to 9. */
  lemma CheckValue(m: seq<bv8>)
    requires m == [0x31, 0x32, 0x33, 0x34, 0x35, 0x36, 0x37, 0x38, 0x39]
    ensures Crc(0, m) == 0xCBF4_3926
  {
    DigitsTo3(m);
    DigitsTo6(m);
    DigitsTo9(m);
    assert m[..9] == m;
  }
}
