/** A table of 256 words kept as sixteen rows of sixteen. */
module CrcTables {

  function Lookup<W>(table: seq<seq<W>>, i: bv8): W
    requires |table| == 16 && forall r :: 0 <= r < 16 ==> |table[r]| == 16
  {
    table[(i >> 4) as int][(i & 0xF) as int]
  }

  /** The row of a function's values at b, b+1, ..., b+15. */
  function Sixteen<W>(f: bv8 -> W, b: bv8): (row: seq<W>)
    ensures |row| == 16
  {
    [f(b), f(b + 1), f(b + 2), f(b + 3), f(b + 4), f(b + 5), f(b + 6), f(b + 7),
     f(b + 8), f(b + 9), f(b + 10), f(b + 11), f(b + 12), f(b + 13), f(b + 14), f(b + 15)]
  }

  lemma LowerHalf<W>(f: bv8 -> W, b: bv8, j: bv8)
    requires j < 8
    ensures Sixteen(f, b)[j as int] == f(b + j)
  {
    if j == 0 {
    } else if j == 1 {
    } else if j == 2 {
    } else if j == 3 {
    } else if j == 4 {
    } else if j == 5 {
    } else if j == 6 {
    } else {
      assert j == 7;
    }
  }

  lemma UpperHalf<W>(f: bv8 -> W, b: bv8, j: bv8)
    requires 8 <= j < 16
    ensures Sixteen(f, b)[j as int] == f(b + j)
  {
    if j == 8 {
    } else if j == 9 {
    } else if j == 10 {
    } else if j == 11 {
    } else if j == 12 {
    } else if j == 13 {
    } else if j == 14 {
    } else {
      assert j == 15;
    }
  }

  /** The row holds the values of f at b, ..., b+15. */
  ghost predicate RowIs<W(!new)>(row: seq<W>, f: bv8 -> W, b: bv8) {
    |row| == 16 && forall j: bv8 {:trigger row[j as int]} :: j < 16 ==> row[j as int] == f(b + j)
  }

  lemma SixteenIs<W(!new)>(row: seq<W>, f: bv8 -> W, b: bv8)
    requires row == Sixteen(f, b)
    ensures RowIs(row, f, b)
  {
    forall j: bv8 {:trigger row[j as int]} | j < 16
      ensures row[j as int] == f(b + j)
    {
      if j < 8 {
        LowerHalf(f, b, j);
      } else {
        UpperHalf(f, b, j);
      }
    }
  }

  lemma RowOf<W(!new)>(table: seq<seq<W>>, f: bv8 -> W, h: bv8)
    requires h < 16 && |table| == 16
    requires RowIs(table[0x0], f, 0x00) && RowIs(table[0x1], f, 0x10)
    requires RowIs(table[0x2], f, 0x20) && RowIs(table[0x3], f, 0x30)
    requires RowIs(table[0x4], f, 0x40) && RowIs(table[0x5], f, 0x50)
    requires RowIs(table[0x6], f, 0x60) && RowIs(table[0x7], f, 0x70)
    requires RowIs(table[0x8], f, 0x80) && RowIs(table[0x9], f, 0x90)
    requires RowIs(table[0xA], f, 0xA0) && RowIs(table[0xB], f, 0xB0)
    requires RowIs(table[0xC], f, 0xC0) && RowIs(table[0xD], f, 0xD0)
    requires RowIs(table[0xE], f, 0xE0) && RowIs(table[0xF], f, 0xF0)
    ensures RowIs(table[h as int], f, h << 4)
  {
    if h == 0 {
    } else if h == 1 {
    } else if h == 2 {
    } else if h == 3 {
    } else if h == 4 {
    } else if h == 5 {
    } else if h == 6 {
    } else if h == 7 {
    } else if h == 8 {
    } else if h == 9 {
    } else if h == 10 {
    } else if h == 11 {
    } else if h == 12 {
    } else if h == 13 {
    } else if h == 14 {
    } else {
      assert h == 15;
    }
  }

  /** A table whose rows hold a function's values is that function. */
  lemma TableIs<W(!new)>(table: seq<seq<W>>, f: bv8 -> W, i: bv8)
    requires |table| == 16
    requires RowIs(table[0x0], f, 0x00) && RowIs(table[0x1], f, 0x10)
    requires RowIs(table[0x2], f, 0x20) && RowIs(table[0x3], f, 0x30)
    requires RowIs(table[0x4], f, 0x40) && RowIs(table[0x5], f, 0x50)
    requires RowIs(table[0x6], f, 0x60) && RowIs(table[0x7], f, 0x70)
    requires RowIs(table[0x8], f, 0x80) && RowIs(table[0x9], f, 0x90)
    requires RowIs(table[0xA], f, 0xA0) && RowIs(table[0xB], f, 0xB0)
    requires RowIs(table[0xC], f, 0xC0) && RowIs(table[0xD], f, 0xD0)
    requires RowIs(table[0xE], f, 0xE0) && RowIs(table[0xF], f, 0xF0)
    ensures forall r :: 0 <= r < 16 ==> |table[r]| == 16
    ensures Lookup(table, i) == f(i)
  {
    RowOf(table, f, i >> 4);
    assert ((i >> 4) << 4) + (i & 0xF) == i;
  }
}
