/**
 * The Mask message and the optional zstd step both mask converters take
 * before reading scores. The decompressor and its asynchronous start-up are
 * outside the model: `decompress` stands for zstd.decompress and
 * `zstdLoaded` for the flag its start-up sets.
 */
module MaskDecode {
  import opened Buffers
  import opened Wrappers

  /** A mask message: dimensions, encoding tag and the score payload. */
  datatype Mask = Mask(height: nat, width: nat, encoding: string, mask: seq<byte>)

  /**
   * The payload the converters read, or None when the message is zstd
   * encoded and the decompressor has not loaded (the early return). Every
   * other encoding tag passes the payload through unchanged.
   */
  function Decode(m: Mask, zstdLoaded: bool, decompress: seq<byte> -> seq<byte>): (r: Option<seq<byte>>)
    ensures r.None? <==> m.encoding == "zstd" && !zstdLoaded
    ensures m.encoding != "zstd" ==> r == Some(m.mask)
    ensures m.encoding == "zstd" && zstdLoaded ==> r == Some(decompress(m.mask))
  {
    if m.encoding == "zstd" then
      if zstdLoaded then Some(decompress(m.mask)) else None
    else
      Some(m.mask)
  }
}
