/**
 * The Mask -> RawImage converter: every pixel becomes an rgba8 pixel in the
 * palette colour of its winning class, the colour channels scaled by the
 * winning score and the alpha taken from the palette.
 */
module MaskImage {
  import opened Buffers
  import opened Arith
  import opened Palette
  import opened ClassArgmax
  import opened MaskDecode

  /** `(channel * max_val) / 255.0` stored into a Uint8Array, i.e. truncated. */
  function Shade(channel: byte, score: byte): (r: byte)
    ensures r <= channel && r <= score
    ensures score == 255 ==> r == channel
    ensures channel == 255 ==> r == score
  {
    MulMono(score, 255, channel);
    MulMono(channel, 255, score);
    channel * score / 255
  }

  /** The four bytes of one pixel for a winning class and score. */
  function RgbaPixel(b: Best): (px: seq<byte>)
    ensures |px| == 4
  {
    var c := ClassColor8(b.index);
    [Shade(c.r, b.score), Shade(c.g, b.score), Shade(c.b, b.score), c.a]
  }

  /** Byte k of the rgba8 buffer: byte k % 4 of pixel k / 4. */
  function RgbaByte(p: seq<byte>, classes: nat, k: nat): byte {
    RgbaPixel(PixelBest(p, classes, k / 4))[k % 4]
  }

  lemma RgbaBytesOfPixel(p: seq<byte>, classes: nat, i: nat)
    ensures var px := RgbaPixel(PixelBest(p, classes, i));
      RgbaByte(p, classes, i * 4) == px[0] && RgbaByte(p, classes, i * 4 + 1) == px[1] &&
      RgbaByte(p, classes, i * 4 + 2) == px[2] && RgbaByte(p, classes, i * 4 + 3) == px[3]
  {
    assert (i * 4) / 4 == i && (i * 4 + 1) / 4 == i && (i * 4 + 2) / 4 == i && (i * 4 + 3) / 4 == i;
    assert (i * 4) % 4 == 0 && (i * 4 + 1) % 4 == 1 && (i * 4 + 2) % 4 == 2 && (i * 4 + 3) % 4 == 3;
  }

  /** The rgba8 buffer of `pixels` pixels with `classes` scores each: pixel i occupies bytes 4i .. 4i+3. */
  function RgbaImage(p: seq<byte>, classes: nat, pixels: nat): (img: seq<byte>)
    ensures |img| == pixels * 4
    ensures forall k :: 0 <= k < |img| ==> img[k] == RgbaByte(p, classes, k)
  {
    seq<byte>(pixels * 4, k requires 0 <= k < pixels * 4 => RgbaByte(p, classes, k))
  }

  /** The converter's output buffer: all zero when the payload is unavailable. */
  function RgbaConversion(m: Mask, zstdLoaded: bool, decompress: seq<byte> -> seq<byte>): (img: seq<byte>)
    ensures |img| == m.height * m.width * 4
  {
    match Decode(m, zstdLoaded, decompress)
    case None => Zeros(m.height * m.width * 4)
    case Some(p) => RgbaImage(p, ClassCount(|p|, m.height, m.width), m.height * m.width)
  }

  /** The body of the converter's pixel loop: the argmax of pixel i, then its four bytes. */
  method PaintPixel(data: array<byte>, p: seq<byte>, classes: nat, i: nat)
    requires i * 4 + 4 <= data.Length
    modifies data
    ensures forall k :: 0 <= k < data.Length ==>
      data[k] == if i * 4 <= k < i * 4 + 4 then RgbaByte(p, classes, k) else old(data[k])
  {
    var best := PixelArgmax(p, i, classes);
    var px := RgbaPixel(best);
    RgbaBytesOfPixel(p, classes, i);
    var base := i * 4;
    data[base] := px[0];
    data[base + 1] := px[1];
    data[base + 2] := px[2];
    data[base + 3] := px[3];
  }

  /** Fills a fresh zeroed rgba8 buffer pixel by pixel. */
  method MaskToRgba(m: Mask, zstdLoaded: bool, decompress: seq<byte> -> seq<byte>) returns (data: array<byte>)
    ensures fresh(data)
    ensures data[..] == RgbaConversion(m, zstdLoaded, decompress)
  {
    var n := m.height * m.width;
    data := new byte[n * 4](_ => 0);
    var decoded := Decode(m, zstdLoaded, decompress);
    if decoded.None? {
      return;
    }
    var p := decoded.value;
    var classes := ClassCount(|p|, m.height, m.width);
    var i := 0;
    while i < n
      invariant 0 <= i <= n && data.Length == n * 4
      invariant forall k :: 0 <= k < i * 4 ==> data[k] == RgbaByte(p, classes, k)
      invariant forall k :: i * 4 <= k < n * 4 ==> data[k] == 0
    {
      PaintPixel(data, p, classes, i);
      i := i + 1;
    }
    assert data[..] == RgbaImage(p, classes, n);
  }

  /** Bytes 4i .. 4i+3 of the image are the pixel of pixel i's winning class and score. */
  lemma RgbaImageAt(p: seq<byte>, classes: nat, pixels: nat, i: nat)
    requires i < pixels
    ensures RgbaImage(p, classes, pixels)[i * 4 .. i * 4 + 4] == RgbaPixel(PixelBest(p, classes, i))
  {
    var img := RgbaImage(p, classes, pixels);
    var px := RgbaPixel(PixelBest(p, classes, i));
    assert i * 4 + 4 <= |img|;
    RgbaBytesOfPixel(p, classes, i);
    var slice := img[i * 4 .. i * 4 + 4];
    assert slice[0] == px[0] && slice[1] == px[1] && slice[2] == px[2] && slice[3] == px[3];
    assert |slice| == |px| == 4;
  }

  /**
   * What one pixel means: its alpha is the palette alpha of the winning
   * class, and each colour byte is the palette channel scaled by the winning
   * score, never above the channel and equal to it at score 255. A class
   * past the palette shows as opaque grey of the score's brightness, and the
   * background class is fully transparent black.
   */
  lemma RgbaPixelMeaning(b: Best)
    ensures var px, c := RgbaPixel(b), ClassColor8(b.index);
      px[3] == c.a &&
      px[0] == c.r * b.score / 255 && px[0] <= c.r &&
      px[1] == c.g * b.score / 255 && px[1] <= c.g &&
      px[2] == c.b * b.score / 255 && px[2] <= c.b &&
      (b.score == 255 ==> px[..3] == [c.r, c.g, c.b]) &&
      (b.index >= 21 ==> px == [b.score, b.score, b.score, 255]) &&
      (b.index == 0 ==> px == [0, 0, 0, 0])
  {
    ClassColorsAgree(b.index);
  }

  /** A pixel whose scores are all 0 is fully transparent black. */
  lemma ZeroScoresClearPixel(p: seq<byte>, c: nat, pixels: nat, i: nat)
    requires i < pixels
    requires forall j :: 0 <= j < c ==> PixelScores(p, i * c, c)[j] == 0
    ensures RgbaImage(p, c, pixels)[i * 4 .. i * 4 + 4] == [0, 0, 0, 0]
  {
    AllZeroScores(PixelScores(p, i * c, c));
    RgbaImageAt(p, c, pixels, i);
    RgbaPixelMeaning(PixelBest(p, c, i));
  }

  /**
   * A zstd mask that arrives before the decompressor has loaded yields the
   * untouched all-zero image; nothing is partially filled.
   */
  lemma NotLoadedGivesBlankImage(m: Mask, decompress: seq<byte> -> seq<byte>)
    requires m.encoding == "zstd"
    ensures forall k :: 0 <= k < m.height * m.width * 4 ==> RgbaConversion(m, false, decompress)[k] == 0
  {
  }
}
