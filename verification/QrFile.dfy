/** builder::encode into a PGM file of hj/ai/qrcode.hpp, and what the parser makes of the file. */
module QrFile {
  import opened Division
  import QrRender
  import Pgm

  lemma Wraps(size: nat)
    requires 0 < size < 0x1_0000_0000
    ensures -Pgm.INT_MAX - 1 <= QrRender.AsInt(size) <= Pgm.INT_MAX
    ensures if size <= Pgm.INT_MAX then QrRender.AsInt(size) == size else QrRender.AsInt(size) < 0
  {
  }

  /** An image of size * size pixels comes back from its file exactly when its side fits an int; the side
      that does not is written as a negative number, which the parser refuses. */
  lemma PictureSurvivesIff(size: nat, data: seq<byte>, extra: seq<byte>)
    requires 0 < size < 0x1_0000_0000 && |data| == size * size
    ensures var f := Pgm.Written(Pgm.Image(QrRender.AsInt(size), QrRender.AsInt(size), data)) + extra;
            Pgm.Parsed(f) == if size <= Pgm.INT_MAX then Pgm.Success(Pgm.Image(size, size, data))
                             else Pgm.Failure(Pgm.TokenOutOfRange)
  {
    var side := QrRender.AsInt(size);
    Wraps(size);
    Pgm.WrittenParses(Pgm.Image(side, side, data), extra);
    if size <= Pgm.INT_MAX {
      assert (data + extra)[..|data|] == data;
    }
  }

  /** A picture whose pixel count passed the overflow test has a side below 2^32. */
  lemma SideBelow(size: nat)
    requires size * size <= QrRender.WORD - 1
    ensures size < 0x1_0000_0000
  {
    if size >= 0x1_0000_0000 {
      TimesMonotone(0x1_0000_0000, size, 0x1_0000_0000);
      TimesMonotone(0x1_0000_0000, size, size);
    }
  }

  /** The image shows the modules. */
  ghost predicate Pictures(img: Pgm.Image, m: QrRender.Matrix, size: nat, scale: int, margin: int)
    requires m.Matrix? && QrRender.Sound(m) && size > 0 && scale > 0
  {
    && img.width == img.height == size && QrRender.Drawn(img.data, m, size, scale, margin)
  }

  /** builder::encode with a file: nothing is written unless the picture was made; then the file holds it,
      and it is the picture the parser reads exactly when the side fits an int. */
  method EncodeFile(text: string, m: QrRender.Matrix, scale: int, margin: int) returns (e: QrRender.ErrorCode, file: seq<byte>)
    requires QrRender.Sound(m) && scale <= QrRender.INT_MAX && margin <= QrRender.INT_MAX
    ensures e == QrRender.Outcome(text, m, scale, margin)
    ensures e != QrRender.Ok ==> file == []
    ensures e == QrRender.Ok ==>
              var size := (m.width + 2 * margin) * scale;
              size > 0
              && (Pgm.Parsed(file).Success? <==> size <= Pgm.INT_MAX)
              && (Pgm.Parsed(file).Success? ==> Pictures(Pgm.Parsed(file).value, m, size, scale, margin))
              && |file| >= size * size && QrRender.Drawn(file[|file| - size * size..], m, size, scale, margin)
  {
    file := [];
    var bm := new QrRender.Bitmap();
    e := QrRender.Encode(bm, text, m, scale, margin);
    if e == QrRender.Ok {
      ghost var size := (m.width + 2 * margin) * scale;
      file := Pgm.Written(Pgm.Image(bm.width, bm.height, bm.data[..]));
      SideBelow(size);
      PictureSurvivesIff(size, bm.data[..], []);
      assert file + [] == file;
      assert file[|file| - size * size..] == bm.data[..];
    }
  }
}
