/** The stream forms of encrypt and decrypt in hj/crypto/aes.hpp, on the plain bytes: what is handed
    to the cipher chunk by chunk, and what is written after the last chunk is unpadded.

    The cipher itself keeps lengths and does not depend on how its input is cut. */
module AesStream {
  import opened Division
  import opened AesPadding

  const CHUNK: nat := 16384

  function Flat(parts: seq<seq<byte>>): seq<byte> {
    if parts == [] then [] else Flat(parts[..|parts| - 1]) + parts[|parts| - 1]
  }

  /** What has to happen to every feed but the last. */
  ghost predicate WholeChunks(parts: seq<seq<byte>>, n: nat)
    requires n <= |parts|
  {
    forall i :: 0 <= i < n ==> |parts[i]| == CHUNK
  }

  /** istream::read: at most CHUNK bytes from `pos`. */
  function ReadLength(size: nat, pos: nat): (n: nat)
    requires pos <= size
    ensures n <= CHUNK && pos + n <= size && (n < CHUNK ==> pos + n == size)
  {
    if size - pos < CHUNK then size - pos else CHUNK
  }

  lemma {:induction false} SameRemainder(n: nat, chunks: nat, bs: nat)
    requires bs > 0 && CHUNK % bs == 0
    ensures (n + chunks * CHUNK) % bs == n % bs
  {
    var q := chunks * (CHUNK / bs);
    Divided(CHUNK, bs);
    assert chunks * CHUNK == q * bs by {
      assert CHUNK == CHUNK / bs * bs;
      assert chunks * (CHUNK / bs * bs) == chunks * (CHUNK / bs) * bs;
    }
    Divided(n, bs);
    assert (n / bs + q) * bs == n / bs * bs + q * bs;
    Unique(n + q * bs, n / bs + q, n % bs, bs);
  }

  /** Padding what follows some whole chunks is padding everything. */
  lemma ChunksPadAlike(style: Padding, bs: nat, src: seq<byte>, chunks: nat, random: seq<byte>)
    requires 1 <= bs <= 255 && CHUNK % bs == 0 && |random| >= bs && chunks * CHUNK <= |src|
    ensures src[..chunks * CHUNK] + Padded(style, bs, src[chunks * CHUNK..], random) == Padded(style, bs, src, random)
  {
    var a, b := src[..chunks * CHUNK], src[chunks * CHUNK..];
    assert a + b == src;
    SameRemainder(|b|, chunks, bs);
    if Pads(style, bs) {
      assert Tail(style, bs, |b|, random) == Tail(style, bs, |src|, random);
      assert a + (b + Tail(style, bs, |b|, random)) == a + b + Tail(style, bs, |b|, random);
    }
  }

  /** The reading loop of stream encrypt: full chunks go to the cipher as they are, the short one is
      padded.  `feeds` are the buffers handed to EVP_EncryptUpdate. */
  method EncryptFeeds(style: Padding, bs: nat, src: seq<byte>, random: seq<byte>) returns (feeds: seq<seq<byte>>)
    requires 1 <= bs <= 255 && CHUNK % bs == 0 && |random| >= bs
    ensures Flat(feeds) == Padded(style, bs, src, random)
    ensures |src| / 16384 <= |feeds| <= |src| / 16384 + 1
    ensures forall i :: 0 <= i < |src| / 16384 ==> |feeds[i]| == 16384
  {
    feeds := [];
    var pos, chunks, last := 0, 0, false;
    var rest: seq<byte> := [];
    while !last
      invariant |feeds| == chunks && WholeChunks(feeds, chunks)
      invariant !last ==> pos == chunks * CHUNK <= |src| && Flat(feeds) == src[..pos]
      invariant last ==> chunks == |src| / CHUNK && Flat(feeds) == src[..chunks * CHUNK] && rest == src[chunks * CHUNK..]
      decreases !last, |src| - pos
    {
      var n := ReadLength(|src|, pos);
      var buf := src[pos..pos + n];
      if n < CHUNK {
        last := true;
        rest := buf;
      } else {
        feeds := feeds + [buf];
        chunks := chunks + 1;
      }
      pos := pos + n;
    }
    ChunksPadAlike(style, bs, src, chunks, random);
    var padded := PaddingBlock(style, bs, rest, random);
    if padded.Length > 0 {
      feeds := feeds + [padded[..]];
    }
  }

  // ---------------------------------------------------------------- decrypting

  /** Where the last chunk of the decrypting loop begins. */
  function LastStart(n: nat): (k: nat)
    ensures k <= n && (n > 0 ==> k < n <= k + 16384) && k % 16384 == 0
  {
    if n == 0 then 0 else (n - 1) / CHUNK * CHUNK
  }

  function After(pre: seq<byte>, c: Cut): Cut {
    if c.Kept? then Kept(pre + c.text) else c
  }

  /** Only the last decrypted chunk is unpadded. */
  function StreamUnpadded(style: Padding, aead: bool, bs: nat, plain: seq<byte>): Cut {
    var k := LastStart(|plain|);
    After(plain[..k], Unpadded(style, aead, bs, plain[k..]))
  }

  /** The loop of stream decrypt over the decrypted bytes. */
  method DecryptStream(style: Padding, aead: bool, bs: nat, plain: seq<byte>) returns (result: Cut)
    requires |plain| < SIZE_MODULUS
    ensures result == StreamUnpadded(style, aead, bs, plain)
  {
    var out: seq<byte> := [];
    var total, last := 0, false;
    var rest: seq<byte> := [];
    while total < |plain|
      invariant total <= |plain| && (last <==> total == |plain| && plain != [])
      invariant !last ==> out == plain[..total] && total % CHUNK == 0
      invariant last ==> out == plain[..LastStart(|plain|)] && rest == plain[LastStart(|plain|)..]
      invariant plain == [] ==> rest == []
    {
      var n := if |plain| - total < CHUNK then |plain| - total else CHUNK;
      var buf := plain[total..total + n];
      if total + n == |plain| {
        assert total == LastStart(|plain|);
        last := true;
        rest := buf;
      } else {
        out := out + buf;
      }
      total := total + n;
    }
    var outbuf := new byte[|rest|](i requires 0 <= i < |rest| => rest[i]);
    assert outbuf[..|rest|] == rest;
    var kept := UnpaddingBlock(outbuf, |rest|, style, aead, bs);
    result := if kept <= |rest| then Kept(out + outbuf[..kept]) else Beyond(kept);
  }

  lemma ConfirmsAlike(style: Padding, pre: seq<byte>, rest: seq<byte>, start: nat)
    requires rest != []
    ensures Confirms(style, pre + rest, |pre| + start) == Confirms(style, rest, start)
  {
    var t := pre + rest;
    if Confirms(style, t, |pre| + start) {
      forall i | start <= i < |rest|
        ensures t[|pre| + i] == rest[i]
      {
      }
    }
  }

  /** The last byte of a chunk asks for more bytes than the chunk has. */
  predicate Overdrawn(style: Padding, aead: bool, bs: nat, rest: seq<byte>) {
    !aead && Pads(style, bs) && Counts(style) && rest != [] && |rest| < rest[|rest| - 1] <= bs
  }

  lemma {:induction false} LastChunkDecides(style: Padding, aead: bool, bs: nat, pre: seq<byte>, rest: seq<byte>)
    requires rest != [] && |pre| + |rest| < SIZE_MODULUS && !Overdrawn(style, aead, bs, rest)
    requires style != Zero && style != Iso7816
    ensures After(pre, Unpadded(style, aead, bs, rest)) == Unpadded(style, aead, bs, pre + rest)
  {
    var t := pre + rest;
    var n := |rest|;
    assert t[|t| - 1] == rest[n - 1];
    if !aead && Pads(style, bs) && 0 < rest[n - 1] <= bs {
      var start := n - rest[n - 1];
      assert Minus(|t|, t[|t| - 1]) == |pre| + start;
      assert Minus(n, rest[n - 1]) == start;
      ConfirmsAlike(style, pre, rest, start);
      assert t[..|pre| + start] == pre + rest[..start];
    }
  }

  lemma {:induction false} OverdrawnDiffers(style: Padding, aead: bool, bs: nat, pre: seq<byte>, rest: seq<byte>)
    requires pre != [] && |pre| + |rest| < SIZE_MODULUS && Overdrawn(style, aead, bs, rest)
    ensures After(pre, Unpadded(style, aead, bs, rest)) != Unpadded(style, aead, bs, pre + rest)
  {
    BeyondIff(style, aead, bs, rest);
    assert (pre + rest)[|pre + rest| - 1] == rest[|rest| - 1];
  }

  /** The styles that read a count from the last byte: unpadding the last chunk is unpadding the whole
      exactly when that chunk is the only one or has as many bytes as the count asks for. */
  lemma {:induction false} CountStreamIff(style: Padding, aead: bool, bs: nat, plain: seq<byte>)
    requires |plain| < SIZE_MODULUS && Counts(style)
    ensures StreamUnpadded(style, aead, bs, plain) == Unpadded(style, aead, bs, plain)
       <==> var k := LastStart(|plain|); k == 0 || !Overdrawn(style, aead, bs, plain[k..])
  {
    var k := LastStart(|plain|);
    var pre, rest := plain[..k], plain[k..];
    assert pre + rest == plain;
    if k == 0 {
      assert rest == plain;
    } else if Overdrawn(style, aead, bs, rest) {
      OverdrawnDiffers(style, aead, bs, pre, rest);
    } else {
      LastChunkDecides(style, aead, bs, pre, rest);
    }
  }

  lemma LastChunkIsBlocks(n: nat, bs: nat)
    requires n > 0 && 1 <= bs <= 255 && CHUNK % bs == 0 && n % bs == 0
    ensures n - LastStart(n) >= bs
  {
    SameRemainder(n - LastStart(n), (n - 1) / CHUNK, bs);
    AtLeastOneBlock(n - LastStart(n), bs);
  }

  /** So they agree on every text of whole blocks, padded or not. */
  lemma {:induction false} LastChunkSuffices(style: Padding, aead: bool, bs: nat, plain: seq<byte>)
    requires 1 <= bs <= 255 && CHUNK % bs == 0 && |plain| % bs == 0 && |plain| < SIZE_MODULUS
    requires Counts(style)
    ensures StreamUnpadded(style, aead, bs, plain) == Unpadded(style, aead, bs, plain)
  {
    CountStreamIff(style, aead, bs, plain);
    if plain != [] {
      LastChunkIsBlocks(|plain|, bs);
    }
  }

  lemma {:induction false} ZerosFromAppend(pre: seq<byte>, rest: seq<byte>)
    ensures ZerosFrom(pre + rest) == if ZerosFrom(rest) > 0 then |pre| + ZerosFrom(rest) else ZerosFrom(pre)
    decreases |rest|
  {
    var t := pre + rest;
    if rest == [] {
      assert t == pre;
    } else if rest[|rest| - 1] == 0 {
      assert t[..|t| - 1] == pre + rest[..|rest| - 1];
      ZerosFromAppend(pre, rest[..|rest| - 1]);
    }
  }

  /** For zero padding the chunked form agrees exactly when the run of trailing zeros does not reach
      back over the start of the last chunk. */
  lemma {:induction false} ZeroStreamIff(bs: nat, plain: seq<byte>)
    requires 1 < bs
    ensures StreamUnpadded(Zero, false, bs, plain) == Unpadded(Zero, false, bs, plain)
       <==> var k := LastStart(|plain|); k == 0 || plain[k - 1] != 0 || ZerosFrom(plain) > k
  {
    var k := LastStart(|plain|);
    var pre, rest := plain[..k], plain[k..];
    assert pre + rest == plain;
    ZerosFromAppend(pre, rest);
    if ZerosFrom(rest) > 0 {
      assert plain[..k + ZerosFrom(rest)] == pre + rest[..ZerosFrom(rest)];
    } else {
      assert pre + rest[..0] == pre;
      assert |plain[..ZerosFrom(plain)]| == ZerosFrom(pre);
    }
  }

  /** A text for which it does not: nothing but zeros, one of them in a second chunk. */
  lemma {:induction false} ZerosAcrossChunks(plain: seq<byte>)
    requires plain == Repeat(0, CHUNK + 1)
    ensures StreamUnpadded(Zero, false, 16, plain) != Unpadded(Zero, false, 16, plain)
  {
    ZeroStreamIff(16, plain);
  }

  lemma {:induction false} IsoInLastChunk(bs: nat, pre: seq<byte>, rest: seq<byte>)
    requires 1 < bs && ZerosFrom(rest) > 0
    ensures After(pre, Unpadded(Iso7816, false, bs, rest)) == Unpadded(Iso7816, false, bs, pre + rest)
  {
    var t, z := pre + rest, ZerosFrom(rest);
    ZerosFromAppend(pre, rest);
    assert t[|pre| + z - 1] == rest[z - 1];
    assert t[..|pre| + z - 1] == pre + rest[..z - 1];
    assert t[..|t|] == t && rest[..|rest|] == rest;
  }

  lemma {:induction false} IsoBeforeLastChunk(bs: nat, pre: seq<byte>, rest: seq<byte>)
    requires 1 < bs && ZerosFrom(rest) == 0
    ensures After(pre, Unpadded(Iso7816, false, bs, rest)) == Kept(pre + rest)
    ensures var z := ZerosFrom(pre);
            Unpadded(Iso7816, false, bs, pre + rest) == Kept(pre + rest) <==> z == 0 || pre[z - 1] != 0x80
  {
    var t := pre + rest;
    ZerosFromAppend(pre, rest);
    assert t[..|t|] == t && rest[..|rest|] == rest;
    if ZerosFrom(pre) > 0 {
      assert t[ZerosFrom(pre) - 1] == pre[ZerosFrom(pre) - 1];
      assert |t[..ZerosFrom(pre) - 1]| < |t|;
    }
  }

  /** For iso_iec_7816_4 it agrees exactly when the mark is not in front of a last chunk of zeros. */
  lemma {:induction false} IsoStreamIff(bs: nat, plain: seq<byte>)
    requires 1 < bs
    ensures StreamUnpadded(Iso7816, false, bs, plain) == Unpadded(Iso7816, false, bs, plain)
       <==> var z := ZerosFrom(plain); z > LastStart(|plain|) || z == 0 || plain[z - 1] != 0x80
  {
    var k := LastStart(|plain|);
    var pre, rest := plain[..k], plain[k..];
    assert pre + rest == plain;
    ZerosFromAppend(pre, rest);
    if ZerosFrom(rest) > 0 {
      IsoInLastChunk(bs, pre, rest);
    } else {
      IsoBeforeLastChunk(bs, pre, rest);
    }
  }

  lemma {:induction false} ZerosUnpad(rest: seq<byte>, p: nat, bs: nat)
    requires 1 < bs
    ensures Unpadded(Zero, false, bs, rest + Repeat(0, p)) == Kept(rest[..ZerosFrom(rest)])
  {
    TailStripsTo(rest, p);
    assert (rest + Repeat(0, p))[..ZerosFrom(rest)] == rest[..ZerosFrom(rest)];
  }

  lemma Regroup(src: seq<byte>, tail: seq<byte>, k: nat)
    requires k <= |src|
    ensures src + tail == src[..k] + (src[k..] + tail)
  {
  }

  lemma {:induction false} StreamOf(style: Padding, bs: nat, pre: seq<byte>, rest: seq<byte>)
    requires LastStart(|pre| + |rest|) == |pre|
    ensures StreamUnpadded(style, false, bs, pre + rest) == After(pre, Unpadded(style, false, bs, rest))
  {
    assert (pre + rest)[..|pre|] == pre && (pre + rest)[|pre|..] == rest;
  }

  lemma {:induction false} ZeroStreamedIs(src: seq<byte>, p: nat, k: nat, bs: nat)
    requires 1 < bs && p > 0 && k <= |src| && k == LastStart(|src| + p)
    ensures StreamUnpadded(Zero, false, bs, src + Repeat(0, p)) == Kept(src[..k] + src[k..][..ZerosFrom(src[k..])])
  {
    Regroup(src, Repeat(0, p), k);
    StreamOf(Zero, bs, src[..k], src[k..] + Repeat(0, p));
    ZerosUnpad(src[k..], p, bs);
  }

  lemma WholeIff(src: seq<byte>, k: nat, z: nat)
    requires k <= |src| && z <= |src| - k
    ensures src[..k] + src[k..][..z] == src <==> z == |src| - k
  {
    if z == |src| - k {
      assert src[..k] + src[k..][..z] == src;
    }
    assert |src[..k] + src[k..][..z]| == k + z;
  }

  lemma {:induction false} FullIff(t: seq<byte>)
    ensures ZerosFrom(t) == |t| <==> t == [] || t[|t| - 1] != 0
  {
  }

  lemma {:induction false} ZeroStreamed(src: seq<byte>, p: nat, k: nat, bs: nat)
    requires 1 < bs && p > 0 && k <= |src| && k == LastStart(|src| + p)
    ensures StreamUnpadded(Zero, false, bs, src + Repeat(0, p)) == Kept(src) <==> k == |src| || src[|src| - 1] != 0
  {
    var rest := src[k..];
    ZeroStreamedIs(src, p, k, bs);
    WholeIff(src, k, ZerosFrom(rest));
    FullIff(rest);
  }

  lemma {:induction false} MarkUnpads(rest: seq<byte>, zeros: nat, bs: nat)
    requires 1 < bs
    ensures Unpadded(Iso7816, false, bs, rest + ([0x80] + Repeat(0, zeros))) == Kept(rest)
  {
    var t := rest + ([0x80] + Repeat(0, zeros));
    MarkIsFound(rest, zeros);
    assert t[|rest|] == 0x80;
    assert t[..|rest|] == rest;
  }

  lemma {:induction false} MarkStreamed(src: seq<byte>, zeros: nat, k: nat, bs: nat)
    requires 1 < bs && k <= |src| && k == LastStart(|src| + 1 + zeros)
    ensures StreamUnpadded(Iso7816, false, bs, src + ([0x80] + Repeat(0, zeros))) == Kept(src)
  {
    var tail := [0x80] + Repeat(0, zeros);
    Regroup(src, tail, k);
    StreamOf(Iso7816, bs, src[..k], src[k..] + tail);
    MarkUnpads(src[k..], zeros, bs);
    assert src[..k] + src[k..] == src;
  }

  lemma {:induction false} PaddedStreams(style: Padding, bs: nat, src: seq<byte>, random: seq<byte>, t: seq<byte>)
    requires Pads(style, bs) && bs <= 255 && CHUNK % bs == 0 && |random| >= bs && |src| + bs < SIZE_MODULUS
    requires t == Padded(style, bs, src, random) && |t| % bs == 0
    requires LastStart(|t|) <= |src| && (LastStart(|t|) == |src| <==> |src| % CHUNK == 0)
    ensures StreamUnpadded(style, false, bs, t) == Kept(src)
       <==> style != Zero || src == [] || src[|src| - 1] != 0 || |src| % CHUNK == 0
  {
    if style == Zero {
      ZeroStreamed(src, |t| - |src|, LastStart(|t|), bs);
    } else if style == Iso7816 {
      MarkStreamed(src, |t| - |src| - 1, LastStart(|t|), bs);
    } else {
      LastChunkSuffices(style, false, bs, t);
      RoundTripIff(style, false, bs, src, random);
    }
  }

  lemma UnpaddedPlain(style: Padding, bs: nat, t: seq<byte>)
    requires !Pads(style, bs)
    ensures StreamUnpadded(style, false, bs, t) == Kept(t)
  {
  }

  lemma ChunkSize(bs: nat)
    requires bs <= 255
    ensures bs <= CHUNK
  {
  }

  /** The padder's tail, at most a block, lies inside the last chunk. */
  lemma TailInLastChunk(n: nat, m: nat, bs: nat)
    requires 1 <= bs <= 255 && CHUNK % bs == 0 && m % bs == 0 && n < m <= n + bs
    ensures LastStart(m) <= n && (LastStart(m) == n <==> n % CHUNK == 0)
  {
    LastChunkIsBlocks(m, bs);
    ChunkSize(bs);
  }

  /** The stream forms undo each other exactly when zero padding meets no zero of the text's own in the
      last chunk: the text does not end in zero, or it ends with a chunk and only padding follows. */
  lemma {:induction false} StreamRoundTripIff(style: Padding, bs: nat, src: seq<byte>, random: seq<byte>)
    requires 1 <= bs <= 255 && CHUNK % bs == 0 && |random| >= bs && |src| + bs < SIZE_MODULUS
    ensures StreamUnpadded(style, false, bs, Padded(style, bs, src, random)) == Kept(src)
       <==> style != Zero || bs == 1 || src == [] || src[|src| - 1] != 0 || |src| % CHUNK == 0
  {
    var t := Padded(style, bs, src, random);
    if !Pads(style, bs) {
      UnpaddedPlain(style, bs, t);
    } else {
      PaddedLength(style, bs, src, random);
      TailInLastChunk(|src|, |t|, bs);
      PaddedStreams(style, bs, src, random, t);
    }
  }
}
