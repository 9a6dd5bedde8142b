/** The two halves of the block codec together. */
module BlockCodec {
  import opened Bytes
  import opened BlockFormat
  import opened BlockCompressor
  import opened BlockDecoder
  import opened Lz4Stream

  /** A conforming block that decodes exactly decodes to the same bytes with 32-bit length sums. */
  lemma BlockDecodes(block: seq<byte>, dict: seq<byte>, content: seq<byte>)
    requires BlockFor(block, dict, content) && |content| < WRAP
    ensures Decode(block, dict, false) == Some(dict + content)
  {
    hide DecodeSeq, ConformsSeq;
    ConformingIgnoresWidth(block, 0, dict, |dict| + |content|);
  }

  /**
    LZ4_compress_fast into a buffer of LZ4_compressBound bytes, then LZ4_decompress_safe into
    `capacity` bytes: the data comes back exactly when it fits.
   */
  method RoundTrip(data: seq<byte>, acceleration: int, wordSize: nat, capacity: nat, fastLoop: bool)
      returns (n: nat, r: int, out: seq<byte>)
    requires |data| <= MAX_INPUT_SIZE && (wordSize == 8 || wordSize == 4)
    ensures 0 < n <= |data| + |data| / 255 + 2 && n <= CompressBound(|data|)
    ensures r >= 0 <==> |data| <= capacity
    ensures r >= 0 ==> r == |data| && out == data
  {
    hide Decode, Conforms, DecodeSeq, ConformsSeq;
    var stream := new Stream(wordSize);
    var bound := CompressBound(|data|);
    var packed := new byte[bound];
    n := stream.CompressFastExtState(data, packed, 0, bound, acceleration);
    var block := packed[0..n];
    var unpacked := new byte[capacity];
    r := DecompressSafe(block, unpacked, 0, capacity, fastLoop, |data|);
    BlockDecodes(block, [], data);
    assert [] + data == data;
    out := if r >= 0 then unpacked[0..r] else [];
  }
}
