/** The bytes of a frame: stored blocks, the end mark, and how large they can get. */
module FrameEncoding {
  import opened Bytes
  import opened BlockFormat
  import opened FrameFormat
  import opened FrameReference
  import opened Lz4Stream
  import XxHash32

  /** A block with its header and, if wanted, its checksum. */
  function StoredBlock(raw: bool, payload: seq<byte>, checksum: bool): (s: seq<byte>)
    requires |payload| < RAW_FLAG
    ensures |s| == 4 + |payload| + 4 * Bit(checksum)
  {
    Write32(|payload| + if raw then RAW_FLAG else 0) + payload
      + (if checksum then Write32(XxHash32.Hash(payload, 0)) else [])
  }

  function EndMark(info: FrameInfo, content: seq<byte>): (s: seq<byte>)
    ensures |s| == 4 + 4 * Bit(info.contentChecksum)
  {
    Write32(0) + if info.contentChecksum then Write32(XxHash32.Hash(content, 0)) else []
  }

  /** In the frame `f`, `bytes` are blocks that hold `content`, whatever comes behind them. */
  ghost predicate Writes(f: Frame, bytes: seq<byte>, content: seq<byte>) {
    forall s :: Blocks(true, f, bytes + s) == Blocks(true, f.Add(content), s)
  }

  lemma NothingWritten(f: Frame)
    ensures Writes(f, [], [])
  {
    hide Blocks;
    assert f.Add([]) == f by {
      assert f.out + [] == f.out;
    }
    forall s ensures Blocks(true, f, [] + s) == Blocks(true, f.Add([]), s) {
      assert [] + s == s;
    }
  }

  lemma WriteMore(f: Frame, b: seq<byte>, c: seq<byte>, b': seq<byte>, c': seq<byte>)
    requires Writes(f, b, c) && Writes(f.Add(c), b', c')
    ensures Writes(f, b + b', c + c')
  {
    hide Blocks;
    assert f.Add(c).Add(c') == f.Add(c + c') by {
      assert (f.out + c) + c' == f.out + (c + c');
    }
    forall s ensures Blocks(true, f, (b + b') + s) == Blocks(true, f.Add(c + c'), s) {
      assert (b + b') + s == b + (b' + s);
    }
  }

  /** The parts of a stored block in front of anything. */
  lemma BlockParts(raw: bool, payload: seq<byte>, checksum: bool, s: seq<byte>)
    requires |payload| < RAW_FLAG
    ensures var t := StoredBlock(raw, payload, checksum) + s;
      var n := |payload|;
      && Read32(t, 0) == n + (if raw then RAW_FLAG else 0)
      && t[4..][..n] == payload && t[4..][n + 4 * Bit(checksum)..] == s
      && (checksum ==>
          && Read32(t[4..][n..], 0) == XxHash32.Hash(payload, 0) && t[4..][n..][4..] == s
          && Read32(t[4..][..n + 4], n) == XxHash32.Hash(payload, 0))
  {
    hide Write32, Read32, XxHash32.Hash;
    var head: uint32 := |payload| + if raw then RAW_FLAG else 0;
    var tail := if checksum then Write32(XxHash32.Hash(payload, 0)) else [];
    var t := StoredBlock(raw, payload, checksum) + s;
    assert t == [] + Write32(head) + (payload + tail + s);
    Write32Read32([], head, payload + tail + s);
    assert t[4..] == payload + tail + s;
    if checksum {
      assert t[4..][|payload|..] == [] + tail + s;
      Write32Read32([], XxHash32.Hash(payload, 0), s);
      assert t[4..][..|payload| + 4] == payload + tail + [];
      Write32Read32(payload, XxHash32.Hash(payload, 0), []);
    }
  }

  /** A raw block writes its own bytes. */
  lemma RawWrites(f: Frame, src: seq<byte>)
    requires 0 < |src| <= f.info.MaxBlock() < RAW_FLAG
    ensures Writes(f, StoredBlock(true, src, f.info.blockChecksum), src)
  {
    var checksum := f.info.blockChecksum;
    forall s ensures Blocks(true, f, StoredBlock(true, src, checksum) + s) == Blocks(true, f.Add(src), s) {
      RawBlockRead(f, src, s);
    }
  }

  lemma RawBlockRead(f: Frame, src: seq<byte>, s: seq<byte>)
    requires 0 < |src| <= f.info.MaxBlock() < RAW_FLAG
    ensures Blocks(true, f, StoredBlock(true, src, f.info.blockChecksum) + s) == Blocks(true, f.Add(src), s)
  {
    hide StoredBlock, Read32, XxHash32.Hash, Compressed, FrameInfo.MaxBlock;
    var t := StoredBlock(true, src, f.info.blockChecksum) + s;
    BlockParts(true, src, f.info.blockChecksum, s);
    assert Read32(t, 0) % RAW_FLAG == |src|;
    assert Blocks(true, f, t) == Raw(true, f, |src|, [], t[4..]);
    assert [] + src == src;
  }

  /** A compressed block writes what it decodes to behind the history. */
  lemma BlockWrites(f: Frame, block: seq<byte>, src: seq<byte>)
    requires 0 < |block| <= f.info.MaxBlock() < RAW_FLAG && |src| <= f.info.MaxBlock()
      && BlockFor(block, f.History(), src)
    ensures Writes(f, StoredBlock(false, block, f.info.blockChecksum), src)
  {
    forall s ensures Blocks(true, f, StoredBlock(false, block, f.info.blockChecksum) + s)
      == Blocks(true, f.Add(src), s) {
      BlockRead(f, block, src, s);
    }
  }

  lemma BlockRead(f: Frame, block: seq<byte>, src: seq<byte>, s: seq<byte>)
    requires 0 < |block| <= f.info.MaxBlock() < RAW_FLAG && |src| <= f.info.MaxBlock()
      && BlockFor(block, f.History(), src)
    ensures Blocks(true, f, StoredBlock(false, block, f.info.blockChecksum) + s) == Blocks(true, f.Add(src), s)
  {
    hide StoredBlock, Read32, XxHash32.Hash, Raw, FrameInfo.MaxBlock, Frame.History, Decode, Conforms;
    var n := |block|;
    var t := StoredBlock(false, block, f.info.blockChecksum) + s;
    BlockParts(false, block, f.info.blockChecksum, s);
    assert Blocks(true, f, t) == Compressed(true, f, f.WithChecksum(n), t[4..]);
    var b := t[4..][..f.WithChecksum(n)];
    assert b[..n] == t[4..][..n] == block;
    assert (f.History() + src)[|f.History()|..] == src;
    assert BlockContent(true, f, block) == Some(src);
    assert BlockAt(true, f, b) == Some(src);
  }

  /** Whatever follows `frame`, it decodes to `content`. */
  ghost predicate IsFrame(frame: seq<byte>, content: seq<byte>) {
    forall rest :: Run(true, AtHeader(0, [], []), frame + rest) == Ended(content, rest)
  }

  lemma FrameComplete(info: FrameInfo, blocks: seq<byte>, content: seq<byte>)
    requires info.Valid() && Writes(Frame(info, [], [], 0), blocks, content)
    requires info.contentSize == 0 || info.contentSize == |content| % WRAP64
    ensures IsFrame(HeaderBytes(info) + blocks + EndMark(info, content), content)
  {
    hide Run, Writes, HeaderBytes, EndMark;
    var frame := HeaderBytes(info) + blocks + EndMark(info, content);
    forall rest ensures Run(true, AtHeader(0, [], []), frame + rest) == Ended(content, rest) {
      WholeFrame(info, blocks, content, rest);
    }
  }

  /** The whole frame decodes to its content and leaves what follows it. */
  lemma WholeFrame(info: FrameInfo, blocks: seq<byte>, content: seq<byte>, rest: seq<byte>)
    requires info.Valid() && Writes(Frame(info, [], [], 0), blocks, content)
    requires info.contentSize == 0 || info.contentSize == |content| % WRAP64
    ensures Run(true, AtHeader(0, [], []), HeaderBytes(info) + blocks + EndMark(info, content) + rest)
      == Ended(content, rest)
  {
    hide HeaderBytes, EndMark, ParseHeader, Blocks, Read32, XxHash32.Hash, FrameInfo.Valid, KnownHeaderSize;
    var s := HeaderBytes(info) + blocks + EndMark(info, content) + rest;
    var f := Frame(info, [], [], 0);
    assert s == HeaderBytes(info) + (blocks + (EndMark(info, content) + rest)) == [] + s;
    HeaderRoundTrip(info, blocks + (EndMark(info, content) + rest));
    assert s[|HeaderBytes(info)|..] == blocks + (EndMark(info, content) + rest);
    EndMarkRead(f.Add(content), rest);
    assert [] + content == content;
  }

  lemma EndMarkRead(f: Frame, rest: seq<byte>)
    requires f.Remaining() == 0
    ensures Blocks(true, f, EndMark(f.info, f.out) + rest) == Ended(f.out, rest)
  {
    hide Read32, Write32, XxHash32.Hash, Frame.Remaining, Raw, Compressed;
    var tail := if f.info.contentChecksum then Write32(XxHash32.Hash(f.out, 0)) else [];
    var t := EndMark(f.info, f.out) + rest;
    assert t == [] + Write32(0) + (tail + rest);
    Write32Read32([], 0, tail + rest);
    assert t[4..] == tail + rest;
    if f.info.contentChecksum {
      assert t[4..] == [] + tail + rest;
      Write32Read32([], XxHash32.Hash(f.out, 0), rest);
      assert t[4..][4..] == rest;
    } else {
      assert t[4..] == rest;
    }
  }

  // ---------- bounds ----------

  /** LZ4F_compressBound_internal; a compressor that is not told its preferences assumes both checksums. */
  function BoundInternal(srcSize: nat, info: FrameInfo, autoFlush: bool, alreadyBuffered: nat): nat {
    var blockSize := info.MaxBlock();
    var maxSrcSize := srcSize + Min(alreadyBuffered, blockSize - 1);
    var nbFullBlocks := maxSrcSize / blockSize;
    var lastBlockSize := if autoFlush || srcSize == 0 then maxSrcSize % blockSize else 0;
    var nbBlocks := nbFullBlocks + if lastBlockSize > 0 then 1 else 0;
    (4 + 4 * Bit(info.blockChecksum)) * nbBlocks + blockSize * nbFullBlocks + lastBlockSize
      + (4 + 4 * Bit(info.contentChecksum))
  }

  /** LZ4F_compressFrameBound */
  function FrameBound(srcSize: nat, info: FrameInfo): nat {
    HEADER_MAX + BoundInternal(srcSize, info, true, 0)
  }

  /** What the blocks of `n` bytes can take when none of them shrinks. */
  function BlocksRoom(n: nat, blockSize: nat, extra: nat, flush: bool): (r: nat)
    requires blockSize > 0
    ensures flush ==> r >= n
  {
    if n >= blockSize then extra + blockSize + BlocksRoom(n - blockSize, blockSize, extra, flush)
    else if flush && n > 0 then extra + n
    else 0
  }

  /** The bound is that room and the end mark. */
  lemma BoundIsRoom(srcSize: nat, info: FrameInfo, autoFlush: bool, alreadyBuffered: nat)
    requires info.blockSizeID <= 7 && alreadyBuffered < info.MaxBlock()
    ensures BoundInternal(srcSize, info, autoFlush, alreadyBuffered)
      == BlocksRoom(srcSize + alreadyBuffered, info.MaxBlock(), 4 + 4 * Bit(info.blockChecksum), autoFlush
        || srcSize == 0)
         + 4 + 4 * Bit(info.contentChecksum)
  {
    var n, b, extra := srcSize + alreadyBuffered, info.MaxBlock(), 4 + 4 * Bit(info.blockChecksum);
    RoomClosed(n, Max(info.blockSizeID, 4), extra, autoFlush || srcSize == 0);
  }

  lemma {:induction false} RoomClosed(n: nat, id: nat, extra: nat, flush: bool)
    requires 4 <= id <= 7
    ensures var b := BlockSize(id);
      var last := if flush then n % b else 0;
      BlocksRoom(n, b, extra, flush) == extra * (n / b + if last > 0 then 1 else 0) + b * (n / b) + last
  {
    hide BlockSize;
    var b := BlockSize(id);
    if n >= b {
      RoomClosed(n - b, id, extra, flush);
      OneBlockLess(n, id);
      var last := if flush then n % b else 0;
      OneMoreBlock(extra, b, (n - b) / b, if last > 0 then 1 else 0);
    } else {
      SmallQuotient(n, id);
      assert b * 0 == 0;
    }
  }

  lemma OneMoreBlock(extra: nat, b: nat, q: nat, one: nat)
    ensures extra + b + (extra * (q + one) + b * q) == extra * (q + 1 + one) + b * (q + 1)
  {
  }

  /** A smaller block size that still holds all of the source does not change the bound. */
  lemma SmallerBlocksSameBound(n: nat, info: FrameInfo, smaller: FrameInfo)
    requires info.blockSizeID <= 7 && smaller.blockSizeID <= 7 && smaller.MaxBlock() <= info.MaxBlock()
    requires smaller.blockChecksum == info.blockChecksum && smaller.contentChecksum == info.contentChecksum
    requires smaller.MaxBlock() == info.MaxBlock() || n <= smaller.MaxBlock()
    ensures FrameBound(n, smaller) == FrameBound(n, info)
  {
    hide BoundInternal, BlockSize;
    BoundIsRoom(n, smaller, true, 0);
    BoundIsRoom(n, info, true, 0);
  }

  lemma OneBlockLess(n: nat, id: nat)
    requires 4 <= id <= 7 && n >= BlockSize(id)
    ensures var b := BlockSize(id); n / b == (n - b) / b + 1 && n % b == (n - b) % b
  {
    if id == 4 {} else if id == 5 {} else if id == 6 {} else {}
  }

  lemma SmallQuotient(n: nat, id: nat)
    requires 4 <= id <= 7 && n < BlockSize(id)
    ensures n / BlockSize(id) == 0 && n % BlockSize(id) == n
  {
  }
}
