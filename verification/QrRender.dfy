/** The bitmap builder of hj/ai/qrcode.hpp: size checks and the rendering loops.  The module matrix is
    what the QR library returns. */
module QrRender {
  import opened Division

  const INT_MAX: int := 0x7FFF_FFFF
  const WORD: int := 0x1_0000_0000_0000_0000

  datatype ErrorCode = Ok | InvalidText | InvalidScale | InvalidMargin | EncodeFailed

  /** QRcode_encodeString's result: modules per side and one byte per module, or nothing. */
  datatype Matrix = NoMatrix | Matrix(width: int, data: seq<byte>)

  class Bitmap {
    var width: int
    var height: int
    var data: array<byte>

    constructor ()
      ensures width == 0 && height == 0 && fresh(data)
    {
      width, height := 0, 0;
      data := new byte[0];
    }
  }

  ghost predicate Sound(m: Matrix) {
    m.Matrix? ==> m.width <= INT_MAX && (m.width > 0 ==> |m.data| >= m.width * m.width)
  }

  // ---------------------------------------------------------------- sizes

  /** The image side in unsigned 64-bit arithmetic. */
  function ImageSize(modules: int, scale: int, margin: int): nat {
    ((modules + 2 * margin) % WORD * scale) % WORD
  }

  lemma Product(side: nat, scale: nat)
    requires 0 < side <= 3 * INT_MAX && 0 < scale <= INT_MAX
    ensures 0 < side * scale <= 3 * INT_MAX * INT_MAX
  {
    assert side * scale <= side * INT_MAX;
    assert side * INT_MAX <= 3 * INT_MAX * INT_MAX;
    assert side * scale >= side;
  }

  /** For int arguments it never wraps. */
  lemma SizeDoesNotWrap(modules: int, scale: int, margin: int)
    requires 0 < modules <= INT_MAX && 0 < scale <= INT_MAX && 0 <= margin <= INT_MAX
    ensures ImageSize(modules, scale, margin) == (modules + 2 * margin) * scale > 0
  {
    var side := modules + 2 * margin;
    Product(side, scale);
  }

  /** The division test is the exact overflow test. */
  lemma SquareFitsIff(size: nat)
    requires size > 0
    ensures size <= (WORD - 1) / size <==> size * size <= WORD - 1
  {
    var q := (WORD - 1) / size;
    Quotient(WORD - 1, q, size);
    if size <= q {
      TimesMonotone(size, q, size);
    } else {
      TimesMonotone(q + 1, size, size);
    }
  }

  // ---------------------------------------------------------------- pixels

  /** Pixel i of the image lies on row i / size and column i % size. */
  function ModuleAt(i: nat, size: nat, scale: int, margin: int): (p: (int, int))
    requires size > 0 && scale > 0
  {
    (i / size / scale - margin, i % size / scale - margin)
  }

  lemma InMatrix(r: int, c: int, w: int)
    requires 0 <= r < w && 0 <= c < w
    ensures 0 <= r * w + c < w * w
  {
    TimesMonotone(r + 1, w, w);
    TimesMonotone(0, r, w);
    assert (r + 1) * w == r * w + w;
  }

  function IsBlack(m: Matrix, r: int, c: int): bool
    requires m.Matrix? && Sound(m)
  {
    0 <= r < m.width && 0 <= c < m.width && (InMatrix(r, c, m.width); m.data[r * m.width + c] % 2 == 1)
  }

  /** What the finished image shows. */
  function Colour(m: Matrix, i: nat, size: nat, scale: int, margin: int): byte
    requires m.Matrix? && Sound(m) && size > 0 && scale > 0
  {
    var (r, c) := ModuleAt(i, size, scale, margin);
    if IsBlack(m, r, c) then 0 else 255
  }

  /** A module is black when the lowest bit of its byte is set. */
  lemma BlackIsOdd(m: Matrix, r: int, c: int)
    requires m.Matrix? && Sound(m) && 0 <= r < m.width && 0 <= c < m.width
    ensures 0 <= r * m.width + c < |m.data| && (IsBlack(m, r, c) <==> m.data[r * m.width + c] % 2 == 1)
  {
    InMatrix(r, c, m.width);
  }

  /** The picture, byte by byte: pixel i, on row i / size and column i % size, is 0 when the module under it
      exists and is odd, and 255 otherwise. */
  ghost predicate Drawn(data: seq<byte>, m: Matrix, size: nat, scale: int, margin: int)
    requires m.Matrix? && Sound(m) && size > 0 && scale > 0
  {
    |data| == size * size
    && forall i :: 0 <= i < |data| ==>
         var r, c := i / size / scale - margin, i % size / scale - margin;
         data[i] == if 0 <= r < m.width && 0 <= c < m.width && (InMatrix(r, c, m.width); m.data[r * m.width + c] % 2 == 1)
                    then 0 else 255
  }

  lemma ColoursAreDrawn(data: seq<byte>, m: Matrix, size: nat, scale: int, margin: int)
    requires m.Matrix? && Sound(m) && size > 0 && scale > 0 && |data| == size * size
    requires forall i :: 0 <= i < |data| ==> data[i] == Colour(m, i, size, scale, margin)
    ensures Drawn(data, m, size, scale, margin)
  {
  }

  /** In rows and columns: black exactly where the module under the pixel exists and its byte is odd. */
  lemma PixelAt(data: seq<byte>, m: Matrix, size: nat, scale: int, margin: int, y: nat, x: nat)
    requires m.Matrix? && Sound(m) && scale > 0 && y < size && x < size && Drawn(data, m, size, scale, margin)
    ensures 0 <= y * size + x < |data| && data[y * size + x] in {0, 255}
    ensures var r, c := y / scale - margin, x / scale - margin;
            data[y * size + x] == 0
            <==> 0 <= r < m.width && 0 <= c < m.width && 0 <= r * m.width + c < |m.data| && m.data[r * m.width + c] % 2 == 1
  {
    InMatrix(y, x, size);
    Quotient(y * size + x, y, size);
    assert y * size + x == (y * size + x) / size * size + (y * size + x) % size;
    var r, c := y / scale - margin, x / scale - margin;
    if 0 <= r < m.width && 0 <= c < m.width {
      InMatrix(r, c, m.width);
    }
  }

  /** What it shows before module (r, c) is drawn, in row order. */
  function Partial(m: Matrix, i: nat, size: nat, scale: int, margin: int, r: int, c: int): byte
    requires m.Matrix? && Sound(m) && size > 0 && scale > 0
  {
    var (r', c') := ModuleAt(i, size, scale, margin);
    if IsBlack(m, r', c') && (r' < r || (r' == r && c' < c)) then 0 else 255
  }

  /** The pixels of one stretch of a row, as flat indices and as coordinates. */
  lemma RowStretch(i: nat, size: nat, y: nat, x0: nat, n: nat)
    requires size > 0 && x0 + n <= size
    ensures y * size + x0 <= i < y * size + x0 + n <==> i / size == y && x0 <= i % size < x0 + n
  {
    Quotient(i, y, size);
    assert i == i / size * size + i % size;
  }

  /** The innermost loop. */
  method PaintRow(data: array<byte>, start: nat, n: nat)
    requires start + n <= data.Length
    modifies data
    ensures forall i :: 0 <= i < data.Length ==> data[i] == if start <= i < start + n then 0 else old(data[i])
  {
    var x := 0;
    while x < n
      invariant x <= n
      invariant forall i :: 0 <= i < data.Length ==> data[i] == if start <= i < start + x then 0 else old(data[i])
    {
      data[start + x] := 0;
      x := x + 1;
    }
  }

  lemma RowFits(y: nat, size: nat, x0: nat, n: nat)
    requires y < size && x0 + n <= size
    ensures 0 <= y * size + x0 && y * size + x0 + n <= size * size
  {
    TimesMonotone(y + 1, size, size);
    TimesMonotone(0, y, size);
    assert (y + 1) * size == y * size + size;
  }

  /** The two loops that draw one module. */
  method PaintModule(data: array<byte>, size: nat, y0: nat, x0: nat, scale: nat)
    requires size > 0 && data.Length == size * size && y0 + scale <= size && x0 + scale <= size
    modifies data
    ensures forall i :: 0 <= i < data.Length ==>
              data[i] == if y0 <= i / size < y0 + scale && x0 <= i % size < x0 + scale then 0 else old(data[i])
  {
    var y := 0;
    while y < scale
      invariant y <= scale
      invariant forall i :: 0 <= i < data.Length ==>
                  data[i] == if y0 <= i / size < y0 + y && x0 <= i % size < x0 + scale then 0 else old(data[i])
    {
      RowFits(y0 + y, size, x0, scale);
      var row := (y0 + y) * size;
      PaintRow(data, row + x0, scale);
      forall i | 0 <= i < data.Length
        ensures row + x0 <= i < row + x0 + scale <==> i / size == y0 + y && x0 <= i % size < x0 + scale
      {
        RowStretch(i, size, y0 + y, x0, scale);
      }
      y := y + 1;
    }
  }

  /** A module's square stays inside the image. */
  lemma ModuleFits(r: int, w: int, scale: int, margin: int, size: nat)
    requires 0 <= r < w && scale > 0 && margin >= 0 && size == (w + 2 * margin) * scale
    ensures 0 <= (margin + r) * scale && (margin + r) * scale + scale <= size
  {
    TimesMonotone(margin + r + 1, w + 2 * margin, scale);
    TimesMonotone(0, margin + r, scale);
    assert (margin + r + 1) * scale == (margin + r) * scale + scale;
  }

  /** A pixel lies in a module's square exactly when dividing by the scale gives the module. */
  lemma InSquare(n: nat, r: int, scale: int, margin: int)
    requires scale > 0
    ensures (margin + r) * scale <= n < (margin + r) * scale + scale <==> n / scale - margin == r
  {
    Quotient(n, margin + r, scale);
  }

  /** Drawing module (r, c), or skipping a white one, takes the partial image one step further. */
  lemma PartialStep(m: Matrix, i: nat, size: nat, scale: int, margin: int, r: int, c: int)
    requires m.Matrix? && Sound(m) && size > 0 && scale > 0 && 0 <= r < m.width && 0 <= c < m.width
    ensures Partial(m, i, size, scale, margin, r, c + 1)
         == if IsBlack(m, r, c)
               && (margin + r) * scale <= i / size < (margin + r) * scale + scale
               && (margin + c) * scale <= i % size < (margin + c) * scale + scale
            then 0 else Partial(m, i, size, scale, margin, r, c)
  {
    InSquare(i / size, r, scale, margin);
    InSquare(i % size, c, scale, margin);
  }

  lemma PartialNextRow(m: Matrix, i: nat, size: nat, scale: int, margin: int, r: int)
    requires m.Matrix? && Sound(m) && size > 0 && scale > 0
    ensures Partial(m, i, size, scale, margin, r, m.width) == Partial(m, i, size, scale, margin, r + 1, 0)
  {
  }

  lemma PartialDone(m: Matrix, i: nat, size: nat, scale: int, margin: int)
    requires m.Matrix? && Sound(m) && size > 0 && scale > 0
    ensures Partial(m, i, size, scale, margin, m.width, 0) == Colour(m, i, size, scale, margin)
    ensures Partial(m, i, size, scale, margin, 0, 0) == 255
  {
  }

  ghost predicate Shows(data: seq<byte>, m: Matrix, size: nat, scale: int, margin: int, r: int, c: int)
    requires m.Matrix? && Sound(m) && size > 0 && scale > 0
  {
    forall i :: 0 <= i < |data| ==> data[i] == Partial(m, i, size, scale, margin, r, c)
  }

  method DrawModule(data: array<byte>, m: Matrix, size: nat, scale: int, margin: int, r: int, c: int)
    requires m.Matrix? && Sound(m) && scale > 0 && margin >= 0 && 0 <= r < m.width && 0 <= c < m.width
    requires size == (m.width + 2 * margin) * scale && size > 0 && data.Length == size * size
    requires Shows(data[..], m, size, scale, margin, r, c)
    modifies data
    ensures Shows(data[..], m, size, scale, margin, r, c + 1)
  {
    ghost var before := data[..];
    InMatrix(r, c, m.width);
    var black := m.data[r * m.width + c] % 2 == 1;
    if black {
      ModuleFits(r, m.width, scale, margin, size);
      ModuleFits(c, m.width, scale, margin, size);
      PaintModule(data, size, (margin + r) * scale, (margin + c) * scale, scale);
    }
    forall i | 0 <= i < data.Length
      ensures data[..][i] == Partial(m, i, size, scale, margin, r, c + 1)
    {
      assert before[i] == Partial(m, i, size, scale, margin, r, c);
      PartialStep(m, i, size, scale, margin, r, c);
    }
  }

  /** The four rendering loops. */
  method Render(data: array<byte>, m: Matrix, size: nat, scale: int, margin: int)
    requires m.Matrix? && Sound(m) && m.width > 0 && scale > 0 && margin >= 0
    requires size == (m.width + 2 * margin) * scale && size > 0 && data.Length == size * size
    requires forall i :: 0 <= i < data.Length ==> data[i] == 255
    modifies data
    ensures forall i :: 0 <= i < data.Length ==> data[i] == Colour(m, i, size, scale, margin)
  {
    forall i | 0 <= i < data.Length
      ensures Partial(m, i, size, scale, margin, 0, 0) == 255
    {
      PartialDone(m, i, size, scale, margin);
    }
    var r := 0;
    while r < m.width
      invariant 0 <= r <= m.width && Shows(data[..], m, size, scale, margin, r, 0)
    {
      var c := 0;
      while c < m.width
        invariant 0 <= c <= m.width && Shows(data[..], m, size, scale, margin, r, c)
      {
        DrawModule(data, m, size, scale, margin, r, c);
        c := c + 1;
      }
      forall i | 0 <= i < data.Length
        ensures data[..][i] == Partial(m, i, size, scale, margin, r + 1, 0)
      {
        PartialNextRow(m, i, size, scale, margin, r);
      }
      r := r + 1;
    }
    forall i | 0 <= i < data.Length
      ensures data[i] == Colour(m, i, size, scale, margin)
    {
      assert data[..][i] == data[i];
      PartialDone(m, i, size, scale, margin);
    }
  }

  /** static_cast<int> of a 64-bit size. */
  function AsInt(n: nat): int {
    var low := n % 0x1_0000_0000;
    if low <= INT_MAX then low else low - 0x1_0000_0000
  }

  lemma AsIntKeeps(n: nat)
    ensures AsInt(n) == n <==> n <= INT_MAX
  {
  }

  /** What a call reports, in the order the checks are made. */
  function Outcome(text: string, m: Matrix, scale: int, margin: int): ErrorCode {
    if text == "" then InvalidText
    else if scale <= 0 then InvalidScale
    else if margin < 0 then InvalidMargin
    else if m.NoMatrix? || m.width <= 0 then EncodeFailed
    else if (m.width + 2 * margin) * scale * ((m.width + 2 * margin) * scale) > WORD - 1 then EncodeFailed
    else Ok
  }

  /** builder::encode: black pixels are exactly those whose module exists and is black; a failing call
      leaves the bitmap alone. */
  method Encode(out: Bitmap, text: string, m: Matrix, scale: int, margin: int) returns (e: ErrorCode)
    requires Sound(m) && scale <= INT_MAX && margin <= INT_MAX
    modifies out
    ensures e == Outcome(text, m, scale, margin)
    ensures e == InvalidText <==> text == ""
    ensures e == InvalidScale <==> text != "" && scale <= 0
    ensures e == InvalidMargin <==> text != "" && scale > 0 && margin < 0
    ensures e == Ok <==> text != "" && scale > 0 && margin >= 0 && m.Matrix? && m.width > 0
                         && (m.width + 2 * margin) * scale * ((m.width + 2 * margin) * scale) < 0x1_0000_0000_0000_0000
    ensures e != Ok ==> out.width == old(out.width) && out.height == old(out.height) && out.data == old(out.data)
    ensures e == Ok ==>
              var size := (m.width + 2 * margin) * scale;
              size > 0 && out.width == out.height == AsInt(size) && fresh(out.data) && out.data.Length == size * size
              && (forall i :: 0 <= i < out.data.Length ==>
                    var r, c := i / size / scale - margin, i % size / scale - margin;
                    out.data[i] == if 0 <= r < m.width && 0 <= c < m.width && (InMatrix(r, c, m.width); m.data[r * m.width + c] % 2 == 1)
                                   then 0 else 255)
              && Drawn(out.data[..], m, size, scale, margin)
  {
    if text == "" {
      return InvalidText;
    }
    if scale <= 0 {
      return InvalidScale;
    }
    if margin < 0 {
      return InvalidMargin;
    }
    if m.NoMatrix? || m.width <= 0 {
      return EncodeFailed;
    }
    var size := ImageSize(m.width, scale, margin);
    SizeDoesNotWrap(m.width, scale, margin);
    SquareFitsIff(size);
    if size > (WORD - 1) / size {
      return EncodeFailed;
    }
    out.width, out.height := AsInt(size), AsInt(size);
    var pixels := new byte[size * size](_ => 255);
    Render(pixels, m, size, scale, margin);
    ColoursAreDrawn(pixels[..], m, size, scale, margin);
    out.data := pixels;
    e := Ok;
  }
}
