/**
  The LZ4 legacy container of src/boot_crypto.cpp: a magic number, then blocks of at most 64 KB
  of data, each preceded by its compressed size.
 */
module LegacyStream {
  import opened Bytes
  import opened BlockFormat
  import opened BlockCompressor
  import opened BlockDecoder
  import opened Lz4Stream

  const MAGIC: seq<byte> := [0x02, 0x21, 0x4c, 0x18]
  const COMPRESS_BLOCK := 0x1_0000
  const BLOCK_MAX := 0x80_0000
  const COMP_BLOCK_MAX := 0x100_0000
  const DECOMP_TOTAL_MAX := 0x1000_0000

  /** The content of the blocks in `s`; a size of 0, or fewer than four bytes, ends them. */
  function BlocksContent(s: seq<byte>): (r: Option<seq<byte>>)
    decreases |s|
  {
    if |s| < 4 || Read32(s, 0) == 0 then Some([])
    else
      var n := Read32(s, 0);
      if n > |s| - 4 || n > COMP_BLOCK_MAX then None
      else
        match Decode(s[4..4 + n], [], true)
        case None => None
        case Some(c) => if |c| > BLOCK_MAX then None else InFront(c, BlocksContent(s[4 + n..]))
  }

  /** `s` is what lz4_legacy_compress writes for `content` behind the magic number, block by block. */
  ghost predicate Holds(s: seq<byte>, content: seq<byte>)
    decreases |s|
  {
    if content == [] then s == []
    else
      var k := Min(|content|, COMPRESS_BLOCK);
      && |s| >= 4 && 0 < Read32(s, 0) <= |s| - 4 && Read32(s, 0) <= COMP_BLOCK_MAX
      && BlockFor(s[4..4 + Read32(s, 0)], [], content[..k])
      && Holds(s[4 + Read32(s, 0)..], content[k..])
  }

  lemma {:induction false} HoldsContent(s: seq<byte>, content: seq<byte>)
    requires Holds(s, content)
    ensures BlocksContent(s) == Some(content)
    decreases |s|
  {
    hide Decode, Conforms, Read32;
    if content != [] {
      var k, n := Min(|content|, COMPRESS_BLOCK), Read32(s, 0);
      HoldsContent(s[4 + n..], content[k..]);
      assert [] + content[..k] == content[..k] && content == content[..k] + content[k..];
    }
  }

  /** One more block at the end. */
  lemma {:induction false} HoldsMore(s: seq<byte>, content: seq<byte>, block: seq<byte>, chunk: seq<byte>)
    requires Holds(s, content) && |content| % COMPRESS_BLOCK == 0
    requires 0 < |chunk| <= COMPRESS_BLOCK && 0 < |block| <= COMP_BLOCK_MAX && BlockFor(block, [], chunk)
    ensures Holds(s + (Write32(|block|) + block), content + chunk)
    decreases |s|
  {
    hide BlockFor, Read32, Write32;
    var more := Write32(|block|) + block;
    if content == [] {
      assert s + more == more && content + chunk == chunk;
      Write32Read32At(|block|, block);
      assert more[4..4 + |block|] == block && more[4 + |block|..] == [];
      assert chunk[..|chunk|] == chunk && chunk[|chunk|..] == [];
    } else {
      var n, k := Read32(s, 0), COMPRESS_BLOCK;
      Read32Prefix(s, more);
      assert (s + more)[4..4 + n] == s[4..4 + n] && (s + more)[4 + n..] == s[4 + n..] + more;
      assert (content + chunk)[..k] == content[..k] && (content + chunk)[k..] == content[k..] + chunk;
      HoldsMore(s[4 + n..], content[k..], block, chunk);
    }
  }

  lemma Write32Read32At(v: uint32, b: seq<byte>)
    ensures Read32(Write32(v) + b, 0) == v
  {
    hide Read32, Write32;
    var s := Write32(v) + b;
    Read32Injective(s, 0, Write32(v), 0);
    assert s[0..4] == Write32(v)[0..4];
  }

  lemma Read32Prefix(s: seq<byte>, t: seq<byte>)
    requires |s| >= 4
    ensures Read32(s + t, 0) == Read32(s, 0)
  {
  }

  /** lz4_legacy_compress */
  method Compress(input: seq<byte>, wordSize: nat) returns (out: seq<byte>)
    requires wordSize == 8 || wordSize == 4
    ensures MAGIC <= out && Holds(out[4..], input) && |out| <= 4 + 7 * |input|
  {
    hide Holds, BlockFor, Read32, Write32;
    out := MAGIC;
    var bound := CompressBound(COMPRESS_BLOCK);
    var buffer := new byte[bound];
    var stream := new Stream(wordSize);
    var pos := 0;
    Nothing();
    assert out[4..] == [] && input[..0] == [];
    while pos < |input|
      invariant pos <= |input| && (pos < |input| ==> pos % COMPRESS_BLOCK == 0)
      invariant stream.Valid() && fresh(stream) && fresh(stream.hashTable) && fresh(buffer)
        && stream.hashTable != buffer as object
      invariant MAGIC <= out && Holds(out[4..], input[..pos]) && |out| <= 4 + 7 * pos
    {
      var chunk := Min(|input| - pos, COMPRESS_BLOCK);
      var cSize := stream.CompressFastExtState(input[pos..pos + chunk], buffer, 0, bound, 1);
      var block := buffer[0..cSize];
      HoldsMore(out[4..], input[..pos], block, input[pos..pos + chunk]);
      assert input[..pos + chunk] == input[..pos] + input[pos..pos + chunk];
      assert (out + (Write32(cSize) + block))[4..] == out[4..] + (Write32(cSize) + block);
      out := out + (Write32(cSize) + block);
      pos := pos + chunk;
    }
    assert input[..pos] == input;
  }

  lemma Nothing()
    ensures Holds([], [])
  {
  }

  datatype Failure = TooShort | BadMagic | BlockOverrun | BlockTooLarge | DecompressFailed | OutputTooLarge

  /**
    lz4_legacy_decompress. Whatever it accepts it decodes as the reference does; and of what
    lz4_legacy_compress writes it accepts exactly what is neither empty nor larger than 256 MB.
   */
  method Decompress(input: seq<byte>, fastLoop: bool, ghost content: seq<byte>)
      returns (out: seq<byte>, failure: Option<Failure>)
    ensures failure == None ==>
      |input| > 8 && MAGIC <= input && BlocksContent(input[4..]) == Some(out) && |out| <= DECOMP_TOTAL_MAX
    ensures MAGIC <= input && Holds(input[4..], content) ==>
      failure == if content == [] then Some(TooShort) else if |content| > DECOMP_TOTAL_MAX then Some(OutputTooLarge)
        else None
  {
    hide Holds, BlocksContent, Decode, Conforms, Read32;
    out := [];
    if MAGIC <= input {
      HoldsSize(input[4..], content);
    }
    if |input| <= 8 {
      return out, Some(TooShort);
    }
    if !(MAGIC <= input) {
      return out, Some(BadMagic);
    }
    var buffer := new byte[BLOCK_MAX];
    var off := 4;
    Begun(input, content);
    while off + 4 <= |input|
      invariant 4 <= off <= |input| && |out| <= DECOMP_TOTAL_MAX && buffer.Length == BLOCK_MAX
      invariant Reached(input, off, out, content)
    {
      var n := Read32(input, off);
      if Holds(input[4..], content) {
        BlockHere(input, off, out, content);
      }
      off := off + 4;
      if n == 0 {
        LastBlock(input, off - 4, out, content);
        return out, None;
      }
      if n > |input| - off {
        return out, Some(BlockOverrun);
      }
      if n > COMP_BLOCK_MAX {
        return out, Some(BlockTooLarge);
      }
      ghost var k := if |out| < |content| then Min(|content| - |out|, COMPRESS_BLOCK) else 0;
      var r := DecompressSafe(input[off..off + n], buffer, 0, BLOCK_MAX, fastLoop, k);
      if r < 0 {
        return out, Some(DecompressFailed);
      }
      if |out| + r > DECOMP_TOTAL_MAX {
        return out, Some(OutputTooLarge);
      }
      NextBlock(input, off - 4, out, content, n, buffer[0..r]);
      out := out + buffer[0..r];
      off := off + n;
    }
    LastBlock(input, off, out, content);
    failure := None;
  }

  /** `out` has been decoded from what precedes `off`. */
  ghost predicate Reached(input: seq<byte>, off: nat, out: seq<byte>, content: seq<byte>)
    requires 4 <= off <= |input|
  {
    && BlocksContent(input[4..]) == InFront(out, BlocksContent(input[off..]))
    && (Holds(input[4..], content) ==>
        |out| <= |content| && out == content[..|out|] && Holds(input[off..], content[|out|..]))
  }

  lemma HoldsSize(s: seq<byte>, content: seq<byte>)
    ensures Holds(s, content) ==> (|s| > 4 <==> content != [])
  {
  }

  lemma Begun(input: seq<byte>, content: seq<byte>)
    requires |input| >= 4
    ensures Reached(input, 4, [], content)
  {
    hide Holds, BlocksContent;
    var r := BlocksContent(input[4..]);
    assert r.Some? ==> [] + r.value == r.value;
    assert content[..0] == [] && content[0..] == content;
  }

  /** What is known of the block at `off` when the stream was written by lz4_legacy_compress. */
  lemma BlockHere(input: seq<byte>, off: nat, out: seq<byte>, content: seq<byte>)
    requires 4 <= off && off + 4 <= |input| && Reached(input, off, out, content) && Holds(input[4..], content)
    ensures var n := Read32(input, off);
      && 0 < n <= |input| - off - 4 && n <= COMP_BLOCK_MAX && |out| < |content|
      && var k := Min(|content| - |out|, COMPRESS_BLOCK);
         BlockFor(input[off + 4..off + 4 + n], [], content[|out|..|out| + k])
  {
    hide BlockFor, Read32, BlocksContent, Holds;
    var s, rest, n := input[off..], content[|out|..], Read32(input, off);
    ReadAt(input, off);
    FirstBlock(s, rest);
    var k := Min(|rest|, COMPRESS_BLOCK);
    assert s[4..4 + n] == input[off + 4..off + 4 + n];
    assert rest[..k] == content[|out|..|out| + k];
  }

  lemma FirstBlock(s: seq<byte>, content: seq<byte>)
    requires |s| >= 4 && Holds(s, content)
    ensures var n, k := Read32(s, 0), Min(|content|, COMPRESS_BLOCK);
      && 0 < n <= |s| - 4 && n <= COMP_BLOCK_MAX && 0 < |content|
      && BlockFor(s[4..4 + n], [], content[..k]) && Holds(s[4 + n..], content[k..])
  {
    hide BlockFor, Read32;
  }

  lemma ReadAt(s: seq<byte>, i: nat)
    requires i + 4 <= |s|
    ensures Read32(s[i..], 0) == Read32(s, i)
  {
  }

  lemma NextBlock(input: seq<byte>, off: nat, out: seq<byte>, content: seq<byte>, n: nat, c: seq<byte>)
    requires 4 <= off && off + 4 <= |input| && Reached(input, off, out, content)
    requires n == Read32(input, off) && 0 < n <= |input| - off - 4 && n <= COMP_BLOCK_MAX && |c| <= BLOCK_MAX
    requires Decode(input[off + 4..off + 4 + n], [], false) == Some(c)
    ensures Reached(input, off + 4 + n, out + c, content)
  {
    hide Decode, BlockFor, Read32, Holds, BlocksContent;
    var s, t, b := input[off..], input[off + 4 + n..], input[off + 4..off + 4 + n];
    ReadAt(input, off);
    ShortBlock(b);
    assert s[4..4 + n] == b && s[4 + n..] == t;
    BlockInFront(s, out, c);
    if Holds(input[4..], content) {
      NextChunk(s, content, |out|, c);
    }
  }

  lemma BlockInFront(s: seq<byte>, out: seq<byte>, c: seq<byte>)
    requires |s| >= 4 && 0 < Read32(s, 0) <= |s| - 4 && Read32(s, 0) <= COMP_BLOCK_MAX && |c| <= BLOCK_MAX
    requires Decode(s[4..4 + Read32(s, 0)], [], true) == Some(c)
    ensures InFront(out, BlocksContent(s)) == InFront(out + c, BlocksContent(s[4 + Read32(s, 0)..]))
  {
    hide Decode, Read32;
    var r := BlocksContent(s[4 + Read32(s, 0)..]);
    assert r.Some? ==> out + (c + r.value) == (out + c) + r.value;
  }

  lemma NextChunk(s: seq<byte>, content: seq<byte>, done: nat, c: seq<byte>)
    requires done <= |content| && |s| >= 4 && Holds(s, content[done..])
    requires var n := Read32(s, 0); 0 < n <= |s| - 4 && Decode(s[4..4 + n], [], true) == Some(c)
    ensures done + |c| <= |content| && content[..done] + c == content[..done + |c|]
    ensures Holds(s[4 + Read32(s, 0)..], content[done + |c|..])
  {
    hide Decode, Conforms, Read32, Holds;
    var rest := content[done..];
    FirstBlock(s, rest);
    var k := Min(|rest|, COMPRESS_BLOCK);
    assert [] + rest[..k] == rest[..k] == c;
    assert content[..done + k] == content[..done] + c;
    assert rest[k..] == content[done + k..];
  }

  /** Below 16 MB the C code's 32-bit length sums are exact. */
  lemma ShortBlock(b: seq<byte>)
    requires |b| <= COMP_BLOCK_MAX
    ensures Decode(b, [], false) == Decode(b, [], true)
  {
    hide DecodeSeq;
    ShortInputIgnoresWidth(b, 0, []);
  }

  lemma LastBlock(input: seq<byte>, off: nat, out: seq<byte>, content: seq<byte>)
    requires 4 <= off <= |input| && Reached(input, off, out, content)
    requires off + 4 > |input| || Read32(input, off) == 0
    ensures BlocksContent(input[4..]) == Some(out) && (Holds(input[4..], content) ==> out == content)
  {
    hide Decode, BlockFor, Read32;
    if off + 4 <= |input| {
      ReadAt(input, off);
    }
    assert BlocksContent(input[off..]) == Some([]) && out + [] == out;
    assert content[..|content|] == content;
  }

  /** For every input: it comes back if and only if it has between 1 byte and 256 MB. */
  method RoundTrip(input: seq<byte>, wordSize: nat, fastLoop: bool) returns (out: seq<byte>, failure: Option<Failure>)
    requires wordSize == 8 || wordSize == 4
    ensures failure == None <==> 1 <= |input| <= DECOMP_TOTAL_MAX
    ensures failure == None ==> out == input
  {
    hide Holds, BlocksContent;
    var packed := Compress(input, wordSize);
    HoldsContent(packed[4..], input);
    out, failure := Decompress(packed, fastLoop, input);
  }
}
