/** The two page compressors of `src/compress.rs`, `Lz` and `Densa`. */
module Densa {
  import opened Options
  import opened Bytes
  import Lzss
  import RangeCoder

  /** What `Densa.decompress` returns for any bytes whatever. */
  function Decompressed(data: ByteString): (r: Option<ByteString>) {
    if |data| == 0 then None
    else if data[0] == 0 then Lzss.Decompressed(data[1..])
    else if data[0] == 1 then
      var inner := RangeCoder.Decompressed(data[1..]);
      if inner.None? then None else Lzss.Decompressed(inner.value)
    else None
  }

  method DecompressDensa(data: ByteString) returns (r: Option<ByteString>)
    ensures r == Decompressed(data)
  {
    hide Lzss.Decompressed, RangeCoder.Decompressed;
    if |data| == 0 {
      return None;
    }
    var rest := data[1..];
    if data[0] == 0 {
      r := Lzss.LzDecompress(rest);
    } else if data[0] == 1 {
      var inner := RangeCoder.RcDecompress(rest);
      if inner.None? {
        return None;
      }
      r := Lzss.LzDecompress(inner.value);
    } else {
      r := None;
    }
  }

  /** `Lz`: never inflates, and decodes to its input. */
  method CompressLz(body: ByteString) returns (r: Option<ByteString>)
    ensures r.Some? ==> |r.value| < |body|
    ensures r.Some? && |body| < TWO_64 ==> Lzss.Decompressed(r.value) == Some(body)
  {
    hide Lzss.Decompressed;
    var out, _ := Lzss.LzCompress(body);
    return if |out| < |body| then Some(out) else None;
  }

  /**
    `Densa`: never inflates, and decodes to its input.  The last ensures says the
    source's self-check is never what rejects the entropy stage: whenever the range
    coder shortens the LZSS stream, the stage is used.
  */
  method CompressDensa(body: ByteString) returns (r: Option<ByteString>, ghost lz: ByteString)
    ensures r.Some? ==> |r.value| < |body|
    ensures r.Some? && |body| < TWO_64 ==> Decompressed(r.value) == Some(body)
    ensures |body| < TWO_64 ==> Lzss.Decompressed(lz) == Some(body)
    ensures |lz| < TWO_64 ==>
      var rc := if |lz| >= RangeCoder.MIN_INPUT && |RangeCoder.Compressed(lz)| < |lz|
        then [1] + RangeCoder.Compressed(lz) else [0] + lz;
      r == if |rc| < |body| then Some(rc) else None
  {
    hide Lzss.Decompressed, RangeCoder.Decompressed, RangeCoder.Compressed;
    var stream, _ := Lzss.LzCompress(body);
    lz := stream;
    var sub: Byte, payload := 0, stream;
    var c := RangeCoder.RcCompress(stream);
    if c.Some? && |c.value| < |stream| {
      var back := RangeCoder.RcDecompress(c.value);
      if |stream| < TWO_64 {
        RangeCoder.RoundTrip(stream);
      }
      if back == Some(stream) {
        sub, payload := 1, c.value;
      }
    }
    var out := [sub] + payload;
    assert out[1..] == payload;
    return if |out| < |body| then Some(out) else None, lz;
  }
}
