/** Block padding of hj/crypto/aes.hpp: six styles, their inverses, and the reserved length. */
module AesPadding {
  import opened Division

  datatype Padding = Pkcs5 | Pkcs7 | Zero | Iso10126 | AnsiX923 | Iso7816 | NoPadding

  const SIZE_MODULUS: int := 0x1_0000_0000_0000_0000

  function Repeat(b: byte, n: nat): (s: seq<byte>)
    ensures |s| == n && forall i :: 0 <= i < n ==> s[i] == b
  {
    seq(n, _ => b)
  }

  predicate Pads(style: Padding, bs: nat) {
    style != NoPadding && bs > 1
  }

  /** How many bytes complete the last block: never zero, a whole block when it is already full. */
  function PadCount(n: nat, bs: nat): (p: nat)
    requires 1 < bs
    ensures 1 <= p <= bs
  {
    bs - n % bs
  }

  /** The bytes appended after a text of n bytes; `random` is what rand() yields. */
  function Tail(style: Padding, bs: nat, n: nat, random: seq<byte>): (t: seq<byte>)
    requires Pads(style, bs) && bs <= 255 && |random| >= bs
    ensures |t| == PadCount(n, bs)
  {
    var p := PadCount(n, bs);
    if style.Pkcs5? || style.Pkcs7? then Repeat(p, p)
    else if style.Zero? then Repeat(0, p)
    else if style.Iso10126? then random[..p - 1] + [p]
    else if style.AnsiX923? then Repeat(0, p - 1) + [p]
    else [0x80] + Repeat(0, p - 1)
  }

  function Padded(style: Padding, bs: nat, src: seq<byte>, random: seq<byte>): seq<byte>
    requires bs <= 255 && |random| >= bs
  {
    if Pads(style, bs) then src + Tail(style, bs, |src|, random) else src
  }

  /** The loop of pkcs5 and pkcs7. */
  method FillPad(padded: array<byte>, n: nat, p: byte)
    requires padded.Length == n + p
    modifies padded
    ensures padded[..] == old(padded[..n]) + Repeat(p, p)
  {
    var i := n;
    while i < padded.Length
      invariant n <= i <= padded.Length
      invariant forall k :: 0 <= k < n ==> padded[k] == old(padded[k])
      invariant forall k :: n <= k < i ==> padded[k] == p
    {
      padded[i] := p;
      i := i + 1;
    }
  }

  /** The padded text byte by byte: p bytes follow the text, p being what completes a block. */
  lemma PaddedBytes(style: Padding, bs: nat, src: seq<byte>, random: seq<byte>)
    requires style != NoPadding && 1 < bs <= 255 && |random| >= bs
    ensures var t := Padded(style, bs, src, random);
            var n, p := |src|, bs - |src| % bs;
            && |t| == n + p && t[..n] == src
            && (style == Pkcs5 || style == Pkcs7 ==> forall i :: n <= i < n + p ==> t[i] == p)
            && (style == Zero ==> forall i :: n <= i < n + p ==> t[i] == 0)
            && (style == Iso10126 ==> t[n + p - 1] == p && forall i :: n <= i < n + p - 1 ==> t[i] == random[i - n])
            && (style == AnsiX923 ==> t[n + p - 1] == p && forall i :: n <= i < n + p - 1 ==> t[i] == 0)
            && (style == Iso7816 ==> t[n] == 0x80 && forall i :: n < i < n + p ==> t[i] == 0)
  {
  }

  /** _padding_block: resize, copy, then fill in the bytes of the style. */
  method PaddingBlock(style: Padding, bs: nat, src: seq<byte>, random: seq<byte>) returns (padded: array<byte>)
    requires bs <= 255 && |random| >= bs
    ensures fresh(padded) && padded[..] == Padded(style, bs, src, random)
  {
    if !Pads(style, bs) {
      padded := new byte[|src|](i requires 0 <= i < |src| => src[i]);
      return;
    }
    var n := |src|;
    var p := bs - n % bs;
    padded := new byte[n + p](i => if 0 <= i < n then src[i] else 0);
    if style.Pkcs5? || style.Pkcs7? {
      FillPad(padded, n, p);
    } else if style.Iso10126? {
      var i := n;
      while i < n + p - 1
        invariant n <= i <= n + p - 1
        invariant forall k :: 0 <= k < n ==> padded[k] == src[k]
        invariant forall k :: n <= k < i ==> padded[k] == random[k - n]
      {
        padded[i] := random[i - n];
        i := i + 1;
      }
      padded[n + p - 1] := p;
    } else if style.AnsiX923? {
      padded[n + p - 1] := p;
    } else if style.Iso7816? {
      padded[n] := 0x80;
    }
  }

  // ---------------------------------------------------------------- unpadding

  /** `n - pad` in unsigned arithmetic. */
  function Minus(n: nat, pad: nat): nat {
    (n - pad) % SIZE_MODULUS
  }

  predicate AllAre(t: seq<byte>, from: nat, to: nat, b: byte)
    requires to <= |t|
  {
    forall i :: from <= i < to ==> t[i] == b
  }

  /** Where the trailing zeros begin. */
  function ZerosFrom(t: seq<byte>): (k: nat)
    ensures k <= |t|
    ensures forall i :: k <= i < |t| ==> t[i] == 0
    ensures k > 0 ==> t[k - 1] != 0
  {
    if t != [] && t[|t| - 1] == 0 then ZerosFrom(t[..|t| - 1]) else |t|
  }

  /** What the style demands of the bytes it is about to cut off. */
  predicate Confirms(style: Padding, t: seq<byte>, start: nat)
    requires t != []
  {
    if style.Pkcs5? || style.Pkcs7? then AllAre(t, start, |t|, t[|t| - 1])
    else if style.AnsiX923? then AllAre(t, start, |t| - 1, 0)
    else true
  }

  /** The length left by _unpadding_block. */
  function KeptLength(style: Padding, aead: bool, bs: nat, t: seq<byte>): nat {
    var n := |t|;
    if aead || !Pads(style, bs) then n
    else if style.Zero? then ZerosFrom(t)
    else if style.Iso7816? then
      var k := ZerosFrom(t);
      if k > 0 && t[k - 1] == 0x80 then k - 1 else n
    else if n == 0 || t[n - 1] == 0 || t[n - 1] > bs then n
    else
      var start := Minus(n, t[n - 1]);
      if Confirms(style, t, start) then start else n
  }

  method Check(dst: array<byte>, from: nat, to: nat, ghost len: nat, b: byte) returns (valid: bool)
    requires to <= len <= dst.Length
    ensures valid <==> AllAre(dst[..len], from, to, b)
  {
    valid := true;
    ghost var t := dst[..len];
    var i := from;
    while i < to
      invariant from <= i && (i <= to || i == from)
      invariant valid <==> AllAre(t, from, if i <= to then i else to, b)
    {
      assert t[i] == dst[i];
      if dst[i] != b {
        valid := false;
      }
      i := i + 1;
    }
  }

  method SkipZeros(dst: array<byte>, len: nat) returns (k: nat)
    requires len <= dst.Length
    ensures k == ZerosFrom(dst[..len])
  {
    k := len;
    while k > 0 && dst[k - 1] == 0
      invariant k <= len && ZerosFrom(dst[..k]) == ZerosFrom(dst[..len])
    {
      assert dst[..k][..k - 1] == dst[..k - 1];
      k := k - 1;
    }
  }

  /** _unpadding_block; the index of the iso_iec_7816_4 search is an int. */
  method UnpaddingBlock(dst: array<byte>, len: nat, style: Padding, aead: bool, bs: nat) returns (kept: nat)
    requires len <= dst.Length && (style == Iso7816 ==> len <= 0x7FFF_FFFF)
    ensures kept == KeptLength(style, aead, bs, dst[..len])
  {
    kept := len;
    if aead || !Pads(style, bs) {
      return;
    }
    if style.Zero? {
      kept := SkipZeros(dst, len);
    } else if style.Iso7816? {
      var k := SkipZeros(dst, len);
      if k > 0 && dst[k - 1] == 0x80 {
        kept := k - 1;
      }
    } else if len > 0 {
      var pad := dst[len - 1];
      if pad == 0 || pad > bs {
        return;
      }
      var start := Minus(len, pad);
      var valid := true;
      if style.Pkcs5? || style.Pkcs7? {
        valid := Check(dst, start, len, len, pad);
      } else if style.AnsiX923? {
        valid := Check(dst, start, len - 1, len, 0);
      }
      if valid {
        kept := start;
      }
    }
  }

  /** What the caller gets back: a prefix of the decrypted text, or a length beyond its end. */
  datatype Cut = Kept(text: seq<byte>) | Beyond(length: nat)

  function Unpadded(style: Padding, aead: bool, bs: nat, t: seq<byte>): Cut {
    var k := KeptLength(style, aead, bs, t);
    if k <= |t| then Kept(t[..k]) else Beyond(k)
  }

  predicate Counts(style: Padding) {
    style.Pkcs5? || style.Pkcs7? || style.Iso10126? || style.AnsiX923?
  }

  /** The length wraps exactly when a text is shorter than the count in its last byte and the count is
      acceptable; otherwise a counting style takes at most one block.  Whole blocks never wrap. */
  lemma {:induction false} BeyondIff(style: Padding, aead: bool, bs: nat, t: seq<byte>)
    requires |t| < SIZE_MODULUS
    ensures KeptLength(style, aead, bs, t) > |t|
       <==> !aead && Pads(style, bs) && Counts(style) && t != [] && |t| < t[|t| - 1] <= bs
    ensures KeptLength(style, aead, bs, t) <= |t| && Counts(style) ==> KeptLength(style, aead, bs, t) + bs >= |t|
  {
  }

  // ---------------------------------------------------------------- round trips

  lemma {:induction false} TailStripsTo(src: seq<byte>, p: nat)
    ensures ZerosFrom(src + Repeat(0, p)) == ZerosFrom(src)
    decreases p
  {
    var t := src + Repeat(0, p);
    if p == 0 {
      assert t == src;
    } else {
      assert t[..|t| - 1] == src + Repeat(0, p - 1);
      TailStripsTo(src, p - 1);
    }
  }

  lemma {:induction false} MarkIsFound(src: seq<byte>, zeros: nat)
    ensures ZerosFrom(src + ([0x80] + Repeat(0, zeros))) == |src| + 1
  {
    TailStripsTo(src + [0x80], zeros);
    assert src + [0x80] + Repeat(0, zeros) == src + ([0x80] + Repeat(0, zeros));
  }

  lemma {:induction false} CountIsRead(style: Padding, bs: nat, src: seq<byte>, tail: seq<byte>)
    requires style.Pkcs5? || style.Pkcs7? || style.Iso10126? || style.AnsiX923?
    requires 1 < bs <= 255 && |src| + bs < SIZE_MODULUS && 0 < |tail| <= bs && tail[|tail| - 1] == |tail|
    requires style.Pkcs5? || style.Pkcs7? ==> tail == Repeat(|tail|, |tail|)
    requires style.AnsiX923? ==> tail == Repeat(0, |tail| - 1) + [|tail|]
    ensures KeptLength(style, false, bs, src + tail) == |src|
  {
    var t := src + tail;
    assert t[|t| - 1] == |tail| && Minus(|t|, |tail|) == |src|;
    forall i | |src| <= i < |t|
      ensures t[i] == tail[i - |src|]
    {
    }
  }

  /** The padded bytes say themselves where they begin. */
  lemma {:induction false} UnpadPad(style: Padding, bs: nat, src: seq<byte>, random: seq<byte>)
    requires Pads(style, bs) && bs <= 255 && |random| >= bs && |src| + bs < SIZE_MODULUS
    ensures KeptLength(style, false, bs, Padded(style, bs, src, random)) == if style == Zero then ZerosFrom(src) else |src|
  {
    var p := PadCount(|src|, bs);
    if style.Zero? {
      TailStripsTo(src, p);
    } else if style.Iso7816? {
      MarkIsFound(src, p - 1);
    } else {
      CountIsRead(style, bs, src, Tail(style, bs, |src|, random));
    }
  }

  /** Unpadding after padding is the identity exactly when the mode unpads what it padded and, for the
      zero style, the text does not end in a zero byte.  The authenticated modes of the source (gcm, ccm)
      have block size 1, so that they never pad; the case is here for every block size. */
  lemma {:induction false} RoundTripIff(style: Padding, aead: bool, bs: nat, src: seq<byte>, random: seq<byte>)
    requires bs <= 255 && |random| >= bs && |src| + bs < SIZE_MODULUS
    ensures Unpadded(style, aead, bs, Padded(style, bs, src, random)) == Kept(src)
       <==> !Pads(style, bs) || (!aead && (style == Zero && src != [] ==> src[|src| - 1] != 0))
  {
    var t := Padded(style, bs, src, random);
    if Pads(style, bs) {
      if aead {
        assert Unpadded(style, aead, bs, t) == Kept(t);
      } else {
        UnpadPad(style, bs, src, random);
        assert t[..|src|] == src;
      }
    }
  }

  /** The zero style gives back the text without its trailing zeros. */
  lemma {:induction false} ZeroRoundTrip(bs: nat, src: seq<byte>, random: seq<byte>)
    requires 1 < bs <= 255 && |random| >= bs && |src| + bs < SIZE_MODULUS
    ensures Unpadded(Zero, false, bs, Padded(Zero, bs, src, random)) == Kept(src[..ZerosFrom(src)])
  {
    UnpadPad(Zero, bs, src, random);
    var t := Padded(Zero, bs, src, random);
    assert t[..ZerosFrom(src)] == src[..ZerosFrom(src)];
  }

  /** A text the zero style does not give back. */
  lemma {:induction false} ZeroIsLost(src: seq<byte>, random: seq<byte>)
    requires src == [0] && |random| >= 16
    ensures Unpadded(Zero, false, 16, Padded(Zero, 16, src, random)) != Kept(src)
  {
    RoundTripIff(Zero, false, 16, src, random);
  }

  lemma RestOfBlock(n: nat, p: nat, bs: nat)
    requires bs > 0 && n % bs == 0 && 1 <= p <= bs <= n
    ensures bs - (n - p) % bs == p
  {
    Divided(n, bs);
    assert (n / bs - 1) * bs == n / bs * bs - bs;
    Unique(n - p, n / bs - 1, bs - p, bs);
  }

  /** The random bytes that lead to a given tail. */
  lemma {:induction false} StrippedWasPadded(style: Padding, bs: nat, t: seq<byte>, k: nat) returns (random: seq<byte>)
    requires 1 < bs <= 255 && Counts(style) && |t| >= bs && |t| % bs == 0 && |t| < SIZE_MODULUS
    requires k == KeptLength(style, false, bs, t) < |t|
    ensures |random| >= bs && t == Padded(style, bs, t[..k], random)
  {
    var p := |t| - k;
    random := t[k..|t| - 1] + Repeat(0, bs);
    assert p == t[|t| - 1];
    RestOfBlock(|t|, p, bs);
    var tail := Tail(style, bs, k, random);
    assert t[k..] == tail;
    assert t == t[..k] + t[k..];
  }

  lemma OneBlock(q: nat, bs: nat)
    ensures q > 0 ==> q * bs >= bs
  {
  }

  lemma AtLeastOneBlock(n: nat, bs: nat)
    requires bs > 0 && n > 0 && n % bs == 0
    ensures n >= bs
  {
    Divided(n, bs);
    OneBlock(n / bs, bs);
  }

  /** On whole blocks the counting styles take off exactly what the padder puts on: a text loses bytes if
      and only if it is some text padded, and then that text is left. */
  lemma {:induction false} StripsPaddedOnly(style: Padding, bs: nat, t: seq<byte>)
    requires 1 < bs <= 255 && Counts(style) && t != [] && |t| % bs == 0 && |t| + bs < SIZE_MODULUS
    ensures KeptLength(style, false, bs, t) < |t|
       <==> exists src, random :: |random| >= bs && t == Padded(style, bs, src, random)
    ensures forall src, random :: |random| >= bs && t == Padded(style, bs, src, random) ==> KeptLength(style, false, bs, t) == |src|
  {
    var k := KeptLength(style, false, bs, t);
    AtLeastOneBlock(|t|, bs);
    if k < |t| {
      var random := StrippedWasPadded(style, bs, t, k);
      assert |random| >= bs && t == Padded(style, bs, t[..k], random);
    }
    forall src, random | |random| >= bs && t == Padded(style, bs, src, random)
      ensures k == |src| < |t|
    {
      UnpadPad(style, bs, src, random);
    }
  }

  /** A text, the mark and zeros. */
  function MarkedText(src: seq<byte>, zeros: nat): seq<byte> {
    src + ([0x80] + Repeat(0, zeros))
  }

  /** iso_iec_7816_4 takes off the last mark with nothing but zeros behind it, if there is one. */
  lemma {:induction false} IsoStripsMarkedOnly(bs: nat, t: seq<byte>)
    requires bs > 1
    ensures KeptLength(Iso7816, false, bs, t) < |t| <==> exists src, zeros: nat :: t == MarkedText(src, zeros)
    ensures forall src, zeros: nat :: t == MarkedText(src, zeros) ==> KeptLength(Iso7816, false, bs, t) == |src|
  {
    var k := KeptLength(Iso7816, false, bs, t);
    if k < |t| {
      assert t == MarkedText(t[..k], |t| - k - 1);
    }
    forall src, zeros: nat | t == MarkedText(src, zeros)
      ensures k == |src| < |t|
    {
      MarkIsFound(src, zeros);
      assert t[|src|] == 0x80;
    }
  }

  /** The zero style takes off the trailing zeros and nothing more; an authenticated mode, no_padding and a
      block of one byte take off nothing. */
  lemma {:induction false} OtherwiseStripped(style: Padding, aead: bool, bs: nat, t: seq<byte>)
    ensures style == Zero && !aead && bs > 1 ==>
              var k := KeptLength(style, aead, bs, t);
              k <= |t| && (forall i :: k <= i < |t| ==> t[i] == 0) && (k > 0 ==> t[k - 1] != 0)
    ensures aead || style == NoPadding || bs <= 1 ==> KeptLength(style, aead, bs, t) == |t|
  {
  }

  // ---------------------------------------------------------------- lengths

  function EncryptLenReserve(n: nat, bs: nat): nat {
    if bs >= 8 then (n / bs + 2) * bs else n + 16
  }

  lemma PlusOne(n: nat, m: nat)
    requires m > 0
    ensures (n + m) % m == n % m
  {
    Divided(n, m);
    Unique(n + m, n / m + 1, n % m, m);
  }

  lemma {:induction false} MultipleMod(q: nat, m: nat)
    requires m > 0
    ensures q * m % m == 0
  {
    if q > 0 {
      MultipleMod(q - 1, m);
      assert q * m == (q - 1) * m + m;
      PlusOne((q - 1) * m, m);
    }
  }

  lemma NextMultiple(n: nat, bs: nat)
    requires bs > 1
    ensures (n + PadCount(n, bs)) % bs == 0
    ensures (n / bs + 2) * bs == n + PadCount(n, bs) + bs
  {
    Divided(n, bs);
    MultipleMod(n / bs + 1, bs);
    assert (n / bs + 1) * bs == n / bs * bs + bs;
    assert (n / bs + 2) * bs == n / bs * bs + 2 * bs;
  }

  /** The padded length is the next multiple of the block size, strictly above the text's, and the
      reserved buffer holds it; it also holds a 16-byte tag when the block size is 1 or at least 16. */
  lemma PaddedLength(style: Padding, bs: nat, src: seq<byte>, random: seq<byte>)
    requires bs <= 255 && |random| >= bs
    ensures var m := |Padded(style, bs, src, random)|;
            && (Pads(style, bs) ==> m % bs == 0 && |src| < m <= |src| + bs)
            && m <= EncryptLenReserve(|src|, bs)
            && (bs <= 1 || bs >= 16 ==> m + 16 <= EncryptLenReserve(|src|, bs))
            && (bs < 8 ==> EncryptLenReserve(|src|, bs) == |src| + 16)
            && (bs >= 8 ==> EncryptLenReserve(|src|, bs) % bs == 0
                            && |src| + bs < EncryptLenReserve(|src|, bs) <= |src| + 2 * bs)
  {
    if bs > 1 {
      NextMultiple(|src|, bs);
      MultipleMod(|src| / bs + 2, bs);
    }
  }
}
