/**
  LZ4F_decompress: a state machine that can stop after any byte of input or output, and resume
  with other buffers. Whatever the slicing, it decodes the frame.
 */
module FrameDecoder {
  import opened Bytes
  import opened BlockFormat
  import opened FrameFormat
  import opened FrameReference
  import opened FrameHistory
  import opened XxHash32
  import opened Lz4Stream
  import opened Memory

  datatype Stage =
    | GetFrameHeader | StoreFrameHeader | Init | GetBlockHeader | StoreBlockHeader | CopyDirect | GetBlockChecksum
    | GetCBlock | StoreCBlock | FlushOut | GetSuffix | StoreSuffix | GetSFrameSize | StoreSFrameSize | SkipSkippable

  /** How one pass through the machine's switch ends. */
  datatype Step = Again | Stop(hint: nat) | Done | Fail(error: Error) {
    predicate Positive() {
      Stop? ==> hint > 0
    }
  }

  /** LZ4F_decompress allocates both buffers together, tmpIn for `block` bytes and their checksum. */
  ghost predicate Allocated(bufferSize: nat, block: nat) {
    && (block == 0 || block == BlockSize(4) || block == BlockSize(5) || block == BlockSize(6) || block == BlockSize(7))
    && bufferSize <= block + (if block == 0 then 0 else 2 * WINDOW)
  }

  function BufferNeeded(info: FrameInfo): nat {
    info.MaxBlock() + if info.linked then 2 * WINDOW else 0
  }

  ghost predicate Enough(bufferSize: nat, block: nat, info: FrameInfo) {
    bufferSize >= BufferNeeded(info) && info.MaxBlock() <= block
  }

  /** Only tmpOutBuffer's size is compared, and yet tmpIn is always large enough when the buffers of an earlier frame
      are kept. */
  lemma KeptBuffersSuffice(bufferSize: nat, block: nat, info: FrameInfo)
    requires Allocated(bufferSize, block) && info.Valid()
    ensures BufferNeeded(info) <= bufferSize ==> Enough(bufferSize, block, info)
    ensures Allocated(BufferNeeded(info), info.MaxBlock()) && Enough(BufferNeeded(info), info.MaxBlock(), info)
  {
  }

  class Decompressor {
    var stage: Stage
    var info: FrameInfo
    var frameRemainingSize: nat
    var maxBlockSize: nat
    var maxBufferSize: nat
    /** The bytes held in tmpIn or, while a header or a raw block's checksum is read, in header. */
    var tmpIn: seq<byte>
    var tmpInTarget: nat
    const hist: History
    const xxh: State
    const blockChecksum: State
    const fastLoop: bool
    /** The block size for which tmpIn was allocated, 0 when there is none. */
    ghost var tmpInBlock: nat
    ghost var base: seq<byte>
    ghost var out: seq<byte>
    ghost var raw: seq<byte>

    /** LZ4F_createDecompressionContext; `fastLoop` says how the block decoder was built. */
    constructor (fastLoop: bool)
      ensures Resting() && AtStop() && Abs() == AtHeader(0, [], []) && Delivered() == []
      ensures fresh(hist) && fresh(hist.tmpOutBuffer) && fresh(xxh) && fresh(xxh.mem) && fresh(blockChecksum)
        && fresh(blockChecksum.mem)
    {
      hide State.Valid;
      hist := new History();
      xxh := new State(0);
      blockChecksum := new State(0);
      this.fastLoop := fastLoop;
      stage, info, frameRemainingSize := GetFrameHeader, FrameInfo(true, false, false, 0, 0, 0), 0;
      maxBlockSize, maxBufferSize, tmpIn, tmpInTarget := 0, 0, [], 0;
      tmpInBlock, base, out, raw := 0, [], [], [];
    }

    ghost function F(): Frame
      reads `info, `base, `out, `frameRemainingSize
    {
      Frame(info, base, out, if info.contentSize != 0 then 0 else frameRemainingSize)
    }

    /** The point of the frame at which the machine stands. */
    ghost function Abs(): Point
      reads `stage, `info, `base, `out, `raw, `frameRemainingSize, `tmpIn, `tmpInTarget
    {
      match stage
      case GetFrameHeader => AtHeader(frameRemainingSize, base, [])
      case StoreFrameHeader => AtHeader(frameRemainingSize, base, tmpIn)
      case GetSFrameSize => AtSkipSize([])
      case StoreSFrameSize => AtSkipSize(tmpIn[Min(4, |tmpIn|)..])
      case SkipSkippable => Skipping(tmpInTarget)
      case Init => AtBlock(F(), [])
      case GetBlockHeader => AtBlock(F(), [])
      case StoreBlockHeader => AtBlock(F(), tmpIn)
      case CopyDirect => InRaw(F(), tmpInTarget, raw)
      case GetBlockChecksum => AtRawChecksum(F(), raw, tmpIn)
      case GetCBlock => InBlock(F(), tmpInTarget, [])
      case StoreCBlock => InBlock(F(), tmpInTarget, tmpIn)
      case FlushOut => AtBlock(F(), [])
      case GetSuffix => AtSuffix(F(), [])
      case StoreSuffix => AtSuffix(F(), tmpIn)
    }

    /** No frame has begun: the header, or a skippable frame, is being read. */
    ghost predicate InHeader()
      reads `stage
    {
      stage.GetFrameHeader? || stage.StoreFrameHeader? || stage.GetSFrameSize? || stage.StoreSFrameSize?
        || stage.SkipSkippable?
    }

    /** The fields that describe the frame agree with each other. */
    ghost predicate Body()
      reads `info, `base, `out, `frameRemainingSize, `maxBlockSize
    {
      info.Valid() && maxBlockSize == info.MaxBlock() && frameRemainingSize == F().Remaining()
    }

    /** The input fields fit the stage. */
    ghost predicate Fields()
      reads `stage, `tmpIn, `tmpInTarget, `info, `base, `out, `frameRemainingSize, `maxBlockSize
    {
      match stage
      case StoreFrameHeader =>
        && |tmpIn| < tmpInTarget
        && (tmpInTarget == HEADER_MIN || (|tmpIn| >= HEADER_MIN && ParseHeader(tmpIn) == Short(tmpInTarget)))
      case StoreSFrameSize => 4 <= |tmpIn| < tmpInTarget == 8
      case Init => out == []
      case StoreBlockHeader => |tmpIn| < 4
      case CopyDirect => tmpInTarget <= maxBlockSize
      case GetBlockChecksum => |tmpIn| < 4 && info.blockChecksum
      case GetCBlock => F().WithChecksum(1) <= tmpInTarget <= F().WithChecksum(maxBlockSize)
      case StoreCBlock => F().WithChecksum(1) <= tmpInTarget <= F().WithChecksum(maxBlockSize) && |tmpIn| < tmpInTarget
      case StoreSuffix => |tmpIn| < 4 && info.contentChecksum && frameRemainingSize == 0
      case _ => true
    }

    /** The buffers and checksum states are separate objects. */
    ghost predicate Separate()
      reads hist`tmpOutBuffer
    {
      && xxh != blockChecksum && xxh.mem != blockChecksum.mem && xxh.mem.Length == blockChecksum.mem.Length == 16
      && hist.tmpOutBuffer != xxh.mem && hist.tmpOutBuffer != blockChecksum.mem
    }

    ghost predicate Apart(dst: array<byte>)
      reads hist`tmpOutBuffer
    {
      dst != xxh.mem && dst != blockChecksum.mem && dst != hist.tmpOutBuffer
    }

    ghost predicate Buffers()
      reads `maxBufferSize, `tmpInBlock, hist`tmpOutBuffer
    {
      maxBufferSize == hist.tmpOutBuffer.Length && Allocated(maxBufferSize, tmpInBlock)
    }

    /** What holds in any stage. */
    ghost predicate Idle()
      reads `maxBufferSize, `tmpInBlock, hist`tmpOutBuffer, xxh, xxh.mem, blockChecksum, blockChecksum.mem
    {
      Separate() && Buffers() && xxh.Valid() && blockChecksum.Valid()
    }

    /** Room in tmpOutBuffer for the history and one more block, and in tmpIn for a block and its checksum. */
    ghost predicate Roomy()
      reads `info, `maxBufferSize, `tmpInBlock
    {
      Enough(maxBufferSize, tmpInBlock, info)
    }

    ghost predicate ContentSum()
      reads `info, `out, xxh`seed, xxh`content
    {
      info.contentChecksum ==> xxh.seed == 0 && xxh.content == out
    }

    ghost predicate RawSum()
      reads `info, `raw, blockChecksum`seed, blockChecksum`content
    {
      info.blockChecksum ==> blockChecksum.seed == 0 && blockChecksum.content == raw
    }

    /** What holds in the stages that read and write blocks. */
    ghost predicate InFrame()
      reads `info, `base, `out, `frameRemainingSize, `maxBlockSize, `maxBufferSize, `tmpInBlock,
        hist`tmpOutBuffer, xxh, xxh.mem, blockChecksum, blockChecksum.mem
    {
      Idle() && Body() && Roomy() && ContentSum()
    }

    ghost predicate Core()
      reads this, hist`tmpOutBuffer, xxh, xxh.mem, blockChecksum, blockChecksum.mem
    {
      && (if InHeader() then Idle() else if stage.Init? then Idle() && Body() else InFrame())
      && (stage.CopyDirect? || stage.GetBlockChecksum? ==> RawSum())
    }

    ghost function HistoryUse(): Use
      reads `stage
    {
      if InHeader() || stage.Init? then Initial
      else if stage.FlushOut? then Flush
      else if stage.GetSuffix? || stage.StoreSuffix? then Unused
      else Live
    }

    /** Decoded bytes that have not been handed over. */
    ghost function Waiting(): nat
      reads `stage, hist`tmpOutStart, hist`tmpOutSize
    {
      if stage.FlushOut? && hist.tmpOutStart <= hist.tmpOutSize then hist.tmpOutSize - hist.tmpOutStart else 0
    }

    /** What has been handed over of the frame's content. */
    ghost function Delivered(): seq<byte>
      reads `stage, `out, hist`tmpOutStart, hist`tmpOutSize
    {
      if InHeader() || Waiting() > |out| then [] else out[..|out| - Waiting()]
    }

    /** Inside a call whose next output goes to `op` of `dst`. */
    ghost predicate Valid(dst: array<byte>, op: nat)
      reads this, hist, hist.tmpOutBuffer, xxh, xxh.mem, blockChecksum, blockChecksum.mem, dst
    {
      Core() && Fields() && Apart(dst) && op <= dst.Length && hist.Serves(HistoryUse(), info.linked, base, out, dst, op)
    }

    /** Between calls. */
    ghost predicate Resting()
      reads this, hist, hist.tmpOutBuffer, xxh, xxh.mem, blockChecksum, blockChecksum.mem
    {
      Core() && Fields() && hist.Rests(HistoryUse(), info.linked, base, out)
    }

    // ---------- input ----------

    /** Takes input until `target` bytes are held. */
    method Fill(src: seq<byte>, ip: nat, target: nat) returns (next: nat)
      requires ip <= |src| && |tmpIn| <= target
      modifies this`tmpIn
      ensures next == Min(|src|, ip + target - |old(tmpIn)|) && ip <= next && tmpIn == old(tmpIn) + src[ip..next]
    {
      next := Min(|src|, ip + target - |tmpIn|);
      tmpIn := tmpIn + src[ip..next];
    }

    // ---------- frame header ----------

    /** LZ4F_decodeHeader, either on the input or on the header bytes held. */
    method DecodeHeader(s: seq<byte>, held: bool) returns (size: nat, error: Option<Error>)
      requires held ==> s == tmpIn
      modifies this`info, this`stage, this`tmpIn, this`tmpInTarget, this`maxBlockSize, this`frameRemainingSize
      ensures match ParseHeader(s)
        case Bad(e) => error == Some(e)
        case Skippable =>
          && error == None && frameRemainingSize == old(frameRemainingSize)
          && (if held then size == |s| && stage == StoreSFrameSize && tmpIn == s && tmpInTarget == 8
              else size == 4 && stage == GetSFrameSize)
        case Short(target) =>
          && error == None && size == |s| && stage == StoreFrameHeader && tmpIn == s && tmpInTarget == target
          && frameRemainingSize == old(frameRemainingSize)
        case Good(i, given, n) =>
          && error == None && size == n && stage == Init && info == i && maxBlockSize == i.MaxBlock()
          && frameRemainingSize == (if given then i.contentSize else old(frameRemainingSize))
    {
      hide HeaderChecksum, Read32, Read64;
      if |s| < HEADER_MIN {
        return 0, Some(FrameHeaderIncomplete);
      }
      info := FrameInfo(true, false, false, 0, 0, 0);
      if IsSkippable(s) {
        if held {
          tmpInTarget, stage := 8, StoreSFrameSize;
          return |s|, None;
        }
        stage := GetSFrameSize;
        return 4, None;
      }
      if Read32(s, 0) != FRAME_MAGIC {
        return 0, Some(FrameTypeUnknown);
      }
      var flg := s[4];
      if flg / 2 % 2 != 0 {
        return 0, Some(ReservedFlagSet);
      }
      if flg / 0x40 != 1 {
        return 0, Some(HeaderVersionWrong);
      }
      size := HEADER_MIN + (if flg / 8 % 2 == 1 then 8 else 0) + (if flg % 2 == 1 then 4 else 0);
      assert size == HeaderSize(flg);
      if |s| < size {
        tmpIn, tmpInTarget, stage := s, size, StoreFrameHeader;
        return |s|, None;
      }
      error := DecodeDescriptor(s, size);
    }

    /** The second half of LZ4F_decodeHeader. */
    method DecodeDescriptor(s: seq<byte>, size: nat) returns (error: Option<Error>)
      requires |s| >= HEADER_MIN && size == HeaderSize(s[4]) <= |s|
      modifies this`info, this`stage, this`maxBlockSize, this`frameRemainingSize
      ensures match ParseDescriptor(s, size)
        case Bad(e) => error == Some(e)
        case Good(i, given, _) =>
          && error == None && stage == Init && info == i && maxBlockSize == i.MaxBlock()
          && frameRemainingSize == (if given then i.contentSize else old(frameRemainingSize))
    {
      hide HeaderChecksum, Read32, Read64;
      var flg, bd := s[4], s[5];
      if bd / 0x80 != 0 {
        return Some(ReservedFlagSet);
      }
      if bd / 0x10 % 8 < 4 {
        return Some(MaxBlockSizeInvalid);
      }
      if bd % 0x10 != 0 {
        return Some(ReservedFlagSet);
      }
      if HeaderChecksum(s[4..size - 1]) != s[size - 1] {
        return Some(HeaderChecksumInvalid);
      }
      info := info.(linked := flg / 0x20 % 2 == 0, blockChecksum := flg / 0x10 % 2 == 1,
                    contentChecksum := flg / 4 % 2 == 1, blockSizeID := bd / 0x10 % 8, contentSize := 0, dictID := 0);
      maxBlockSize := BlockSize(info.blockSizeID);
      if flg / 8 % 2 == 1 {
        info := info.(contentSize := Read64(s, 6));
        frameRemainingSize := info.contentSize;
      }
      if flg % 2 == 1 {
        info := info.(dictID := Read32(s, size - 5));
      }
      stage := Init;
      return None;
    }

    /** What a pass that reads a header promises. */
    twostate predicate HeaderStep(stream: seq<byte>, ip: nat, next: nat, step: Step)
      requires ip <= next <= |stream|
      reads this
    {
      match step
      case Fail(e) => Stuck(e, old(Abs()), stream[ip..])
      case Done => Ends(old(Abs()), stream[ip..], [], stream[next..])
      case Stop(hint) => hint > 0 && Fields() && InHeader() && !stage.SkipSkippable?
        && Leads(old(Abs()), stream[ip..], Abs(), stream[next..])
      case Again =>
        && Fields() && (InHeader() || (stage.Init? && Body()))
        && Leads(old(Abs()), stream[ip..], Abs(), stream[next..])
    }

    /** dstage_getFrameHeader */
    method ReadFrameHeader(src: seq<byte>, ip: nat, ghost stream: seq<byte>) returns (next: nat, step: Step)
      requires Fields() && stage == GetFrameHeader && ip <= |src| && src <= stream
      modifies `stage, `tmpIn, `tmpInTarget, `info, `frameRemainingSize, `maxBlockSize, `out
      ensures ip <= next <= |src| && HeaderStep(stream, ip, next, step)
      ensures step != Done && (step.Again? || (step.Stop? && ip < |src|) ==> ip < next)
    {
      hide Stuck, Leads, Ends, ParseHeader;
      if |src| - ip >= HEADER_MAX {
        ghost var h, t := ParseHeader(src[ip..]), stream[|src|..];
        Split(src, stream, ip, |src|);
        HeaderKnown(frameRemainingSize, base, [], stream[ip..], src[ip..], t);
        var size, error := DecodeHeader(src[ip..], false);
        if error.Some? {
          return ip, Fail(error.value);
        }
        out := [];
        assert stream[ip + size..] == src[ip..][size..] + t;
        return ip + size, Again;
      }
      tmpIn := [];
      if ip == |src| {
        Stays(Abs(), stream[ip..]);
        return ip, Stop(HEADER_MIN);
      }
      tmpInTarget, stage := HEADER_MIN, StoreFrameHeader;
      next, step := StoreHeader(src, ip, stream);
    }

    /** dstage_storeFrameHeader */
    method StoreHeader(src: seq<byte>, ip: nat, ghost stream: seq<byte>) returns (next: nat, step: Step)
      requires Fields() && stage == StoreFrameHeader && ip <= |src| && src <= stream
      modifies `stage, `tmpIn, `tmpInTarget, `info, `frameRemainingSize, `maxBlockSize, `out
      ensures ip <= next <= |src| && HeaderStep(stream, ip, next, step)
      ensures step != Done && (step.Again? || ip < |src| ==> ip < next)
    {
      hide Stuck, Leads, Ends, ParseHeader;
      ghost var p, held, stale := Abs(), tmpIn, frameRemainingSize;
      next := Fill(src, ip, tmpInTarget);
      Split(src, stream, ip, next);
      if |held| >= HEADER_MIN {
        HeaderExtends(held, src[ip..next]);
      }
      if |tmpIn| < tmpInTarget {
        TakeIn(p, src[ip..next], stream[next..]);
        return next, Stop(tmpInTarget - |tmpIn| + 4);
      }
      ghost var h, t := ParseHeader(tmpIn), stream[next..];
      if !h.Short? {
        HeaderKnown(stale, base, held, stream[ip..], tmpIn, t);
        if h.Skippable? {
          SkippableHeld(stale, base, held, stream[ip..], tmpIn, t);
        }
      }
      ghost var full := tmpIn;
      var size, error := DecodeHeader(tmpIn, true);
      if error.Some? {
        return next, Fail(error.value);
      }
      out := [];
      step := Again;
      if h.Short? {
        TakeIn(p, src[ip..next], t);
      } else {
        assert h.Good? ==> full[h.size..] + t == t;
      }
    }

    // ---------- skippable frames ----------

    /** dstage_getSFrameSize */
    method ReadSkipSize(src: seq<byte>, ip: nat, ghost stream: seq<byte>) returns (next: nat, step: Step)
      requires Fields() && stage == GetSFrameSize && ip <= |src| && src <= stream
      modifies `stage, `tmpIn, `tmpInTarget
      ensures ip <= next <= |src| && HeaderStep(stream, ip, next, step)
      ensures !step.Fail? && step != Done && (step.Again? || ip < |src| ==> ip < next)
    {
      hide Leads, Ends, ParseHeader, Read32;
      if |src| - ip >= 4 {
        ghost var b := src[ip..ip + 4];
        Split(src, stream, ip, ip + 4);
        SkipSizeKnown(b, stream[ip + 4..]);
        TakeIn(AtSkipSize([]), b, stream[ip + 4..]);
        assert [] + b == b && Read32(b, 0) == Read32(src, ip) by {
          ReadWithin(src, ip);
        }
        LeadsTransitive(AtSkipSize([]), stream[ip..], AtSkipSize(b), stream[ip + 4..], Skipping(Read32(b, 0)),
          stream[ip + 4..]);
        tmpInTarget, stage := Read32(src, ip), SkipSkippable;
        return ip + 4, Again;
      }
      tmpIn, tmpInTarget, stage := [0, 0, 0, 0], 8, StoreSFrameSize;
      assert tmpIn[4..] == [];
      next, step := StoreSkipSize(src, ip, stream);
    }

    /** dstage_storeSFrameSize */
    method StoreSkipSize(src: seq<byte>, ip: nat, ghost stream: seq<byte>) returns (next: nat, step: Step)
      requires Fields() && stage == StoreSFrameSize && ip <= |src| && src <= stream
      modifies `stage, `tmpIn, `tmpInTarget
      ensures ip <= next <= |src| && HeaderStep(stream, ip, next, step)
      ensures !step.Fail? && step != Done && (step.Again? || ip < |src| ==> ip < next)
    {
      hide Leads, Ends, ParseHeader, Read32;
      ghost var p, held := Abs(), tmpIn;
      next := Fill(src, ip, tmpInTarget);
      ghost var x, t := src[ip..next], stream[next..];
      Split(src, stream, ip, next);
      TakeIn(p, x, t);
      assert tmpIn[4..] == held[4..] + x;
      if |tmpIn| < tmpInTarget {
        return next, Stop(tmpInTarget - |tmpIn|);
      }
      ReadWithin(tmpIn, 4);
      SkipSizeKnown(tmpIn[4..], t);
      LeadsTransitive(p, stream[ip..], AtSkipSize(tmpIn[4..]), t, Skipping(Read32(tmpIn[4..], 0)), t);
      tmpInTarget, stage := Read32(tmpIn, 4), SkipSkippable;
      step := Again;
    }

    lemma ReadWithin(s: seq<byte>, i: nat)
      requires i + 4 <= |s|
      ensures Read32(s[i..i + 4], 0) == Read32(s, i)
      ensures i + 4 == |s| ==> s[i..i + 4] == s[i..]
    {
    }

    /** LZ4F_resetDecompressionContext. The count of missing bytes is left as it is. */
    method Reset()
      requires Idle()
      modifies `stage, `base, hist`dict, hist`dictSize
      ensures Resting() && stage == GetFrameHeader && base == [] && frameRemainingSize == old(frameRemainingSize)
    {
      hide State.Valid;
      stage, hist.dict, hist.dictSize, base := GetFrameHeader, Nowhere, 0, [];
    }

    /** dstage_skipSkippable */
    method SkipFrame(src: seq<byte>, ip: nat, ghost stream: seq<byte>) returns (next: nat, step: Step)
      requires Idle() && Fields() && stage == SkipSkippable && ip <= |src| && src <= stream
      modifies `stage, `tmpInTarget, `base, hist`dict, hist`dictSize
      ensures ip <= next <= |src| && (step == Done || step.Stop?)
      ensures step.Stop? ==>
        && Fields() && stage == SkipSkippable && base == old(base) && step.hint == tmpInTarget > 0
          && (ip < |src| ==> ip < next)
        && hist.dict == old(hist.dict) && hist.dictSize == old(hist.dictSize)
        && Leads(old(Abs()), stream[ip..], Abs(), stream[next..])
      ensures step == Done ==> Ends(old(Abs()), stream[ip..], [], stream[next..])
      ensures step == Done ==>
        Resting() && stage == GetFrameHeader && base == [] && frameRemainingSize == old(frameRemainingSize)
    {
      hide Leads, Ends, State.Valid;
      next := Min(|src|, ip + tmpInTarget);
      Split(src, stream, ip, next);
      SkipStep(tmpInTarget, src[ip..next], stream[next..]);
      tmpInTarget := tmpInTarget - (next - ip);
      if tmpInTarget > 0 {
        return next, Stop(tmpInTarget);
      }
      Reset();
      step := Done;
    }

    // ---------- blocks ----------

    /** dstage_init */
    method StartFrame(ghost dst: array<byte>, ghost op: nat)
      requires Idle() && Body() && out == [] && hist.Serves(Initial, info.linked, base, [], dst, op) && op <= dst.Length
        && Apart(dst)
      modifies `stage, `tmpIn, `tmpInTarget, `maxBufferSize, `tmpInBlock, hist, xxh
      ensures InFrame() && stage == GetBlockHeader && hist.Serves(Live, info.linked, base, [], dst, op) && Apart(dst)
      ensures hist.tmpOutBuffer == old(hist.tmpOutBuffer) || fresh(hist.tmpOutBuffer)
    {
      hide State.Valid, History.Serves, Body, Buffers, Roomy;
      if info.contentChecksum {
        xxh.Reset(0);
      }
      Allocate(dst, op);
      tmpIn, tmpInTarget, stage := [], 0, GetBlockHeader;
    }

    /** The buffers of an earlier frame are kept when tmpOutBuffer is large enough. */
    method Allocate(ghost dst: array<byte>, ghost op: nat)
      requires Separate() && Buffers() && Body() && Apart(dst) && op <= dst.Length
      requires hist.Serves(Initial, info.linked, base, [], dst, op)
      modifies `maxBufferSize, `tmpInBlock, hist
      ensures Separate() && Buffers() && Roomy() && Apart(dst) && hist.Serves(Live, info.linked, base, [], dst, op)
      ensures hist.tmpOutBuffer == old(hist.tmpOutBuffer) || fresh(hist.tmpOutBuffer)
    {
      hide History.Serves, Frame.Remaining, Allocated, Enough, BufferNeeded, BlockSize;
      KeptBuffersSuffice(maxBufferSize, tmpInBlock, info);
      var bufferNeeded := BufferNeeded(info);
      if bufferNeeded > maxBufferSize {
        tmpInBlock, maxBufferSize := maxBlockSize, bufferNeeded;
      }
      hist.Prepare(bufferNeeded, info.linked, base, dst, op);
    }

    /** What a pass that only reads input promises. */
    twostate predicate InputStep(stream: seq<byte>, ip: nat, next: nat, step: Step)
      requires ip <= next <= |stream|
      reads this, hist`tmpOutBuffer, xxh, xxh.mem, blockChecksum, blockChecksum.mem
    {
      match step
      case Fail(e) => Stuck(e, old(Abs()), stream[ip..])
      case Done => false
      case _ =>
        && Core() && Fields() && !InHeader() && !stage.Init? && !stage.FlushOut?
        && Leads(old(Abs()), stream[ip..], Abs(), stream[next..]) && step.Positive()
          && (step.Stop? ==> stage.StoreBlockHeader? || stage.GetCBlock?)
    }

    /** dstage_getBlockHeader; `full` says that there is no room for output. */
    method ReadBlockHeader(src: seq<byte>, ip: nat, full: bool, ghost stream: seq<byte>) returns (next: nat, step: Step)
      requires InFrame() && stage == GetBlockHeader && ip <= |src| && src <= stream
      modifies `stage, `tmpIn, `tmpInTarget, `raw, blockChecksum
      ensures ip <= next <= |src| && InputStep(stream, ip, next, step)
      ensures step.Again? || ip < |src| ==> ip < next || step.Fail?
    {
      hide Leads, Ends, Stuck, Read32, InFrame, RawSum, AfterBlockHeader;
      ghost var f := F();
      if |src| - ip >= 4 {
        next := ip + 4;
        ghost var b := src[ip..next];
        step := InterpretBlockHeader(src[ip..next], full || next == |src|, stream[next..]);
        Split(src, stream, ip, next);
        TakeIn(AtBlock(f, []), b, stream[next..]);
        assert [] + b == b;
        FollowOn(step, AtBlock(f, []), stream[ip..], AtBlock(f, b), stream[next..], Abs(), stream[next..]);
        return;
      }
      tmpIn, stage := [], StoreBlockHeader;
      next, step := StoreBlockHeaderBytes(src, ip, full, stream);
    }

    /** Composes two steps. */
    static lemma FollowOn(step: Step, p: Point, s: seq<byte>, q: Point, t: seq<byte>, r: Point, u: seq<byte>)
      requires Leads(p, s, q, t)
      requires match step case Fail(e) => Stuck(e, q, t) case _ => Leads(q, t, r, u)
      ensures match step case Fail(e) => Stuck(e, p, s) case _ => Leads(p, s, r, u)
    {
      hide Leads, Stuck;
      match step {
        case Fail(e) => LeadsToError(e, p, s, q, t);
        case _ => LeadsTransitive(p, s, q, t, r, u);
      }
    }

    /** dstage_storeBlockHeader */
    method StoreBlockHeaderBytes(src: seq<byte>, ip: nat, full: bool, ghost stream: seq<byte>)
        returns (next: nat, step: Step)
      requires InFrame() && stage == StoreBlockHeader && |tmpIn| < 4 && ip <= |src| && src <= stream
      modifies `stage, `tmpIn, `tmpInTarget, `raw, blockChecksum
      ensures ip <= next <= |src| && InputStep(stream, ip, next, step)
      ensures step.Again? || ip < |src| ==> ip < next
    {
      hide Leads, Ends, Stuck, Read32, InFrame, RawSum, AfterBlockHeader;
      ghost var f, held := F(), tmpIn;
      next := Fill(src, ip, 4);
      Split(src, stream, ip, next);
      TakeIn(AtBlock(f, held), src[ip..next], stream[next..]);
      if |tmpIn| < 4 {
        return next, Stop(4 - |tmpIn|);
      }
      ghost var b := tmpIn;
      step := InterpretBlockHeader(tmpIn, full || next == |src|, stream[next..]);
      FollowOn(step, AtBlock(f, held), stream[ip..], AtBlock(f, b), stream[next..], Abs(), stream[next..]);
    }

    /** The block header `b` is known. */
    method InterpretBlockHeader(b: seq<byte>, ends: bool, ghost t: seq<byte>) returns (step: Step)
      requires InFrame() && |b| == 4
      modifies `stage, `tmpInTarget, `raw, blockChecksum
      ensures match step
        case Fail(e) => Stuck(e, AtBlock(F(), b), t)
        case Done => false
        case _ =>
          && InFrame() && Fields() && (stage.GetSuffix? || (stage.CopyDirect? && RawSum()) || stage.GetCBlock?)
          && Leads(AtBlock(F(), b), t, Abs(), t) && step.Positive() && (step.Stop? ==> stage.GetCBlock?)
    {
      hide Leads, Ends, Stuck, Read32, State.Valid, Roomy, ContentSum, Buffers, Frame.Remaining;
      var blockHeader := Read32(b, 0);
      var nextCBlockSize, crcSize := blockHeader % RAW_FLAG, 4 * Bit(info.blockChecksum);
      BlockHeaderKnown(F(), b, t);
      if blockHeader == 0 {
        stage := GetSuffix;
        return Again;
      }
      if nextCBlockSize > maxBlockSize {
        return Fail(MaxBlockSizeInvalid);
      }
      if blockHeader >= RAW_FLAG {
        tmpInTarget, raw := nextCBlockSize, [];
        if info.blockChecksum {
          blockChecksum.Reset(0);
        }
        stage := CopyDirect;
        return Again;
      }
      tmpInTarget, stage := nextCBlockSize + crcSize, GetCBlock;
      step := if ends then Stop(4 + nextCBlockSize + crcSize) else Again;
    }

    /** `x` has been decoded: checksum, count of missing bytes. */
    method Account(x: seq<byte>)
      requires xxh.Valid() && Body() && ContentSum()
      modifies `out, `frameRemainingSize, xxh, xxh.mem
      ensures xxh.Valid() && Body() && ContentSum() && F() == old(F()).Add(x)
    {
      hide State.Valid;
      if info.contentChecksum {
        xxh.Update(x);
      }
      if info.contentSize != 0 {
        CountDown(info.contentSize, |out|, |x|);
        frameRemainingSize := (frameRemainingSize - |x|) % WRAP64;
      }
      out := out + x;
    }

    static lemma CountDown(total: nat, done: nat, n: nat)
      ensures ((total - done) % WRAP64 - n) % WRAP64 == (total - (done + n)) % WRAP64
    {
    }

    /** dstage_copyDirect */
    method CopyRaw(src: seq<byte>, ip: nat, dst: array<byte>, d0: nat, op: nat, oend: nat, ghost stream: seq<byte>)
        returns (next: nat, end: nat, step: Step)
      requires InFrame() && RawSum() && stage == CopyDirect && tmpInTarget <= maxBlockSize && ip <= |src|
        && src <= stream
      requires d0 <= op <= oend <= dst.Length && Apart(dst)
      requires hist.Serves(Live, info.linked, base, out, dst, op) && EndOfHistory(dst[d0..op], base + out)
      modifies `stage, `tmpIn, `tmpInTarget, `raw, `out, `frameRemainingSize
      modifies xxh, xxh.mem, blockChecksum, blockChecksum.mem, hist`dict, hist`dictSize, hist.tmpOutBuffer, dst
      ensures ip <= next <= |src| && op <= end <= oend && next - ip == end - op && dst[..op] == old(dst[..op])
      ensures InFrame() && RawSum() && hist.Serves(Live, info.linked, base, out, dst, end)
        && out == old(out) + dst[op..end]
      ensures var p := old(InRaw(F(), tmpInTarget, raw));
        if step.Stop? then
          && stage.CopyDirect? && 0 < tmpInTarget <= maxBlockSize && step.hint > 0 && (next == |src| || end == oend)
          && Leads(p, stream[ip..], InRaw(F(), tmpInTarget, raw), stream[next..])
        else if info.blockChecksum then
          step.Again? && stage.GetBlockChecksum? && tmpIn == []
            && Leads(p, stream[ip..], AtRawChecksum(F(), raw, []), stream[next..])
        else step.Again? && stage.GetBlockHeader? && Leads(p, stream[ip..], AtBlock(F(), []), stream[next..])
    {
      hide Leads, InFrame, RawSum, History.Serves, EndOfHistory;
      var sizeToCopy := Min(tmpInTarget, Min(|src| - ip, oend - op));
      next, end := ip + sizeToCopy, op + sizeToCopy;
      Transfer(src, ip, sizeToCopy, dst, d0, op);
      Split(src, stream, ip, next);
      RawStep(old(F()), tmpInTarget, old(raw), src[ip..next], stream[next..]);
      if sizeToCopy == tmpInTarget {
        RawDone(F(), raw, stream[next..]);
        LeadsTransitive(old(InRaw(F(), tmpInTarget, raw)), stream[ip..], InRaw(F(), 0, raw), stream[next..],
                        if info.blockChecksum then AtRawChecksum(F(), raw, []) else AtBlock(F(), []), stream[next..]);
        if info.blockChecksum {
          tmpIn, stage := [], GetBlockChecksum;
        } else {
          stage := GetBlockHeader;
        }
        return next, end, Again;
      }
      tmpInTarget := tmpInTarget - sizeToCopy;
      step := Stop(tmpInTarget + 4 * Bit(info.blockChecksum) + 4);
    }

    /** The copy itself, with both checksums and the history. */
    method Transfer(src: seq<byte>, ip: nat, n: nat, dst: array<byte>, d0: nat, op: nat)
      requires InFrame() && RawSum() && ip + n <= |src| && d0 <= op && op + n <= dst.Length && Apart(dst)
      requires hist.Serves(Live, info.linked, base, out, dst, op) && EndOfHistory(dst[d0..op], base + out)
      modifies `raw, `out, `frameRemainingSize
      modifies xxh, xxh.mem, blockChecksum, blockChecksum.mem, hist`dict, hist`dictSize, hist.tmpOutBuffer, dst
      ensures InFrame() && RawSum() && F() == old(F()).Add(src[ip..ip + n]) && raw == old(raw) + src[ip..ip + n]
      ensures dst[..op] == old(dst[..op]) && dst[op..op + n] == src[ip..ip + n]
      ensures hist.Serves(Live, info.linked, base, out, dst, op + n)
    {
      hide State.Valid, History.Serves, Roomy, Buffers, Body, ContentSum, EndOfHistory;
      Room3();
      hist.CopyOut(src, ip, n, dst, d0, op, info.linked, base, out);
      if info.blockChecksum {
        blockChecksum.Update(src[ip..ip + n]);
      }
      raw := raw + src[ip..ip + n];
      Account(src[ip..ip + n]);
    }

    /** dstage_getBlockChecksum */
    method CheckRawChecksum(src: seq<byte>, ip: nat, ghost stream: seq<byte>) returns (next: nat, step: Step)
      requires InFrame() && RawSum() && info.blockChecksum && stage == GetBlockChecksum && |tmpIn| < 4 && ip <= |src|
        && src <= stream
      modifies `stage, `tmpIn
      ensures ip <= next <= |src|
      ensures var p := old(AtRawChecksum(F(), raw, tmpIn));
        match step
        case Fail(e) => Stuck(e, p, stream[ip..])
        case Stop(hint) =>
          && stage.GetBlockChecksum? && |tmpIn| < 4 && hint > 0 && next == |src|
          && Leads(p, stream[ip..], AtRawChecksum(F(), raw, tmpIn), stream[next..])
        case Again => stage.GetBlockHeader? && ip < next && Leads(p, stream[ip..], AtBlock(F(), []), stream[next..])
        case Done => false
    {
      hide Leads, Stuck, Read32, Hash, State.Valid;
      ghost var p := AtRawChecksum(F(), raw, tmpIn);
      var crc: seq<byte>;
      if |src| - ip >= 4 && tmpIn == [] {
        next := ip + 4;
        crc := src[ip..next];
      } else {
        next := Fill(src, ip, 4);
        crc := tmpIn;
      }
      Split(src, stream, ip, next);
      TakeIn(p, src[ip..next], stream[next..]);
      assert old(tmpIn) + src[ip..next] == crc;
      if |crc| < 4 {
        return next, Stop(1);
      }
      RawChecksumKnown(F(), raw, crc, stream[next..]);
      var calcCRC := blockChecksum.Digest();
      if Read32(crc, 0) != calcCRC {
        LeadsToError(BlockChecksumInvalid, p, stream[ip..], AtRawChecksum(F(), raw, crc), stream[next..]);
        return next, Fail(BlockChecksumInvalid);
      }
      LeadsTransitive(p, stream[ip..], AtRawChecksum(F(), raw, crc), stream[next..], AtBlock(F(), []), stream[next..]);
      stage, step := GetBlockHeader, Again;
    }

    /** dstage_getCBlock and dstage_storeCBlock, up to the point where the whole block is at hand. */
    method ReadBlock(src: seq<byte>, ip: nat, ghost stream: seq<byte>)
        returns (next: nat, block: Option<seq<byte>>, step: Step)
      requires ip <= |src| && src <= stream
      requires stage.GetCBlock? || (stage.StoreCBlock? && |tmpIn| < tmpInTarget)
      modifies `stage, `tmpIn
      ensures ip <= next <= |src|
      ensures var p := old(InBlock(F(), tmpInTarget, if stage.GetCBlock? then [] else tmpIn));
        match block
        case Some(b) => |b| == tmpInTarget && (ip < next || tmpInTarget == 0)
          && Leads(p, stream[ip..], InBlock(F(), tmpInTarget, b), stream[next..])
        case None =>
          && stage.StoreCBlock? && |tmpIn| < tmpInTarget
          && Leads(p, stream[ip..], InBlock(F(), tmpInTarget, tmpIn), stream[next..])
          && match step
             case Again => old(stage).GetCBlock? && next == ip
             case Stop(hint) => hint > 0 && next == |src| && old(stage).StoreCBlock?
             case _ => false
    {
      hide Leads;
      if stage.GetCBlock? {
        if |src| - ip < tmpInTarget {
          tmpIn, stage := [], StoreCBlock;
          Stays(InBlock(F(), tmpInTarget, []), stream[ip..]);
          return ip, None, Again;
        }
        next := ip + tmpInTarget;
        Split(src, stream, ip, next);
        TakeIn(InBlock(F(), tmpInTarget, []), src[ip..next], stream[next..]);
        assert [] + src[ip..next] == src[ip..next];
        return next, Some(src[ip..next]), Again;
      }
      ghost var held := tmpIn;
      next := Fill(src, ip, tmpInTarget);
      Split(src, stream, ip, next);
      TakeIn(InBlock(F(), tmpInTarget, held), src[ip..next], stream[next..]);
      if |tmpIn| < tmpInTarget {
        return next, None, Stop(tmpInTarget - |tmpIn| + 4 * Bit(info.blockChecksum) + 4);
      }
      return next, Some(tmpIn), Again;
    }

    /** A whole block `b`, its checksum included, is decoded: straight into the caller's buffer if it is sure to fit,
        else into tmpOut. */
    method DecodeBlock(b: seq<byte>, dst: array<byte>, d0: nat, op: nat, oend: nat, ghost t: seq<byte>)
        returns (end: nat, step: Step)
      requires InFrame() && |b| == tmpInTarget && F().WithChecksum(1) <= |b| <= F().WithChecksum(maxBlockSize)
      requires d0 <= op <= oend <= dst.Length && Apart(dst)
      requires hist.Serves(Live, info.linked, base, out, dst, op) && EndOfHistory(dst[d0..op], base + out)
      modifies `stage, `tmpInTarget, `out, `frameRemainingSize, xxh, xxh.mem
      modifies hist`dict, hist`dictSize, hist`tmpOut, hist`tmpOutSize, hist`tmpOutStart, hist.tmpOutBuffer, dst
      ensures op <= end <= oend && dst[..op] == old(dst[..op])
      ensures match step
        case Fail(e) => Stuck(e, InBlock(old(F()), |b|, b), t)
        case Again =>
          && InFrame() && Leads(InBlock(old(F()), |b|, b), t, AtBlock(F(), []), t)
          && if stage.FlushOut? then Tmp(old(out), dst, op) && end == op
             else stage.GetBlockHeader? && Direct(old(out), dst, op, end)
        case _ => false
    {
      hide Leads, Stuck, Read32, Hash, InFrame, History.Serves, EndOfHistory, BlockContent;
      ghost var f, p := F(), InBlock(F(), |b|, b);
      BlockKnown(f, b, t);
      if info.blockChecksum {
        tmpInTarget := tmpInTarget - 4;
        var calcBlockCrc := OneShot(b[..tmpInTarget], 0);
        if Read32(b, tmpInTarget) != calcBlockCrc {
          assert Stuck(BlockChecksumInvalid, p, t) by {
            WrongChecksum(f, b, t);
          }
          return op, Fail(BlockChecksumInvalid);
        }
      }
      ghost var payload := b[..tmpInTarget];
      if oend - op >= maxBlockSize {
        end, step := DecodeDirect(b[..tmpInTarget], dst, d0, op);
      } else {
        step := DecodeToTmp(b[..tmpInTarget], dst, op);
        end := op;
      }
      BlockOutcome(step, f, b, t, payload, out);
    }

    /** The block went to the caller's buffer. */
    ghost predicate Direct(before: seq<byte>, dst: array<byte>, op: nat, end: nat)
      reads this, hist, hist.tmpOutBuffer, dst
    {
      op <= end <= dst.Length && out == before + dst[op..end] && hist.Serves(Live, info.linked, base, out, dst, end)
    }

    /** The block waits in tmpOut. */
    ghost predicate Tmp(before: seq<byte>, dst: array<byte>, op: nat)
      reads this, hist, hist.tmpOutBuffer, dst
    {
      && hist.tmpOutStart == 0 && |out| == |before| + hist.tmpOutSize && out[..|before|] == before
      && hist.Serves(Flush, info.linked, base, out, dst, op)
    }

    static lemma WrongChecksum(f: Frame, b: seq<byte>, t: seq<byte>)
      requires f.info.blockChecksum && 4 <= |b| && Read32(b, |b| - 4) != Hash(b[..|b| - 4], 0)
      ensures Stuck(BlockChecksumInvalid, InBlock(f, |b|, b), t)
    {
      hide Read32, Hash, BlockContent, Blocks;
      BlockKnown(f, b, t);
    }

    /** The content decoded, or the failure to decode, of a block is that of the reference. */
    static lemma BlockOutcome(step: Step, f: Frame, b: seq<byte>, t: seq<byte>, payload: seq<byte>, out: seq<byte>)
      requires f.WithChecksum(0) <= |b| && payload == b[..|b| - f.WithChecksum(0)]
      requires f.info.blockChecksum ==> Read32(b, |payload|) == Hash(payload, 0)
      requires match step
        case Fail(e) => (e.Generic? || e.DecompressionFailed?) && BlockContent(true, f, payload) == None
        case _ => |f.out| <= |out| && out[..|f.out|] == f.out && BlockContent(false, f, payload) == Some(out[|f.out|..])
      ensures match step
        case Fail(e) => Stuck(e, InBlock(f, |b|, b), t)
        case _ => Leads(InBlock(f, |b|, b), t, AtBlock(f.(out := out), []), t)
    {
      hide Read32, Hash, BlockContent, Run;
      BlockKnown(f, b, t);
      if !step.Fail? {
        assert out == f.out + out[|f.out|..];
      }
    }

    method DecodeDirect(payload: seq<byte>, dst: array<byte>, d0: nat, op: nat) returns (end: nat, step: Step)
      requires InFrame() && |payload| <= maxBlockSize && d0 <= op && op + maxBlockSize <= dst.Length && Apart(dst)
      requires hist.Serves(Live, info.linked, base, out, dst, op) && EndOfHistory(dst[d0..op], base + out)
      modifies `stage, `out, `frameRemainingSize, xxh, xxh.mem, hist`dict, hist`dictSize, hist.tmpOutBuffer, dst
      ensures op <= end <= op + maxBlockSize && dst[..op] == old(dst[..op])
      ensures match step
        case Fail(e) => e.Generic? && BlockContent(true, old(F()), payload) == None
        case Again =>
          && InFrame() && stage.GetBlockHeader? && Direct(old(out), dst, op, end)
          && F() == old(F()).(out := out) && BlockContent(false, old(F()), payload) == Some(dst[op..end])
        case _ => false
    {
      hide State.Valid, History.Serves, EndOfHistory, Body, ContentSum, BlockContent, Decode, Conforms, BlockSize;
      ghost var f := F();
      ghost var strict := BlockContent(true, f, payload);
      Room3();
      var r := hist.DecodeOut(payload, dst, d0, op, maxBlockSize, info.linked, fastLoop, base, out,
                              if strict.Some? then |strict.value| else 0);
      StrictContent(f, payload);
      if r < 0 {
        return op, Fail(Generic);
      }
      end := op + r;
      ContentDecoded(f, payload, dst[op..end]);
      Account(dst[op..end]);
      stage, step := GetBlockHeader, Again;
    }

    method DecodeToTmp(payload: seq<byte>, dst: array<byte>, op: nat) returns (step: Step)
      requires InFrame() && |payload| <= maxBlockSize && op <= dst.Length && Apart(dst)
      requires hist.Serves(Live, info.linked, base, out, dst, op)
      modifies `stage, `out, `frameRemainingSize, xxh, xxh.mem
      modifies hist`dictSize, hist`tmpOut, hist`tmpOutSize, hist`tmpOutStart, hist.tmpOutBuffer
      ensures match step
        case Fail(e) => e.DecompressionFailed? && BlockContent(true, old(F()), payload) == None
        case Again =>
          && InFrame() && stage.FlushOut? && Tmp(old(out), dst, op) && |out| >= |old(out)|
          && F() == old(F()).(out := out) && BlockContent(false, old(F()), payload) == Some(out[|old(out)|..])
        case _ => false
    {
      hide State.Valid, History.Serves, Body, ContentSum, BlockContent, Decode, Conforms, BlockSize;
      ghost var f := F();
      ghost var strict := BlockContent(true, f, payload);
      Room3();
      var r := hist.DecodeIntoTmp(payload, dst, op, maxBlockSize, info.linked, fastLoop, base, out,
                                  if strict.Some? then |strict.value| else 0);
      StrictContent(f, payload);
      if r < 0 {
        return Fail(DecompressionFailed);
      }
      var block := hist.tmpOutBuffer[hist.tmpOut..hist.tmpOut + r];
      ContentDecoded(f, payload, block);
      Account(block);
      assert out[|f.out|..] == block;
      stage, step := FlushOut, Again;
    }

    /** dstage_flushOut */
    method FlushTmpOut(dst: array<byte>, d0: nat, op: nat, oend: nat) returns (end: nat, step: Step)
      requires InFrame() && stage == FlushOut && d0 <= op <= oend <= dst.Length && Apart(dst)
      requires hist.Serves(Flush, info.linked, base, out, dst, op) && hist.tmpOutStart <= hist.tmpOutSize <= |out|
      requires EndOfHistory(dst[d0..op], base + Delivered())
      modifies `stage, hist`dict, hist`dictSize, hist`tmpOutStart, hist.tmpOutBuffer, dst
      ensures op <= end <= oend && dst[..op] == old(dst[..op]) && InFrame()
      ensures hist.tmpOutStart == old(hist.tmpOutStart) + (end - op) <= hist.tmpOutSize
        && Delivered() == old(Delivered()) + dst[op..end]
      ensures match step
        case Again => stage.GetBlockHeader? && hist.Serves(Live, info.linked, base, out, dst, end)
        case Stop(hint) =>
          && stage.FlushOut? && hint > 0 && end == oend && hist.Serves(Flush, info.linked, base, out, dst, end)
          && (info.linked ==> hist.dict == InTmp || hist.dict.InDst?)
        case _ => false
    {
      hide State.Valid, History.Serves, Body, ContentSum, Roomy, Buffers, EndOfHistory;
      Room3();
      ghost var left := hist.tmpOutSize - hist.tmpOutStart;
      var n := hist.EmptyTmpOut(dst, d0, op, oend, info.linked, base, out);
      end := op + n;
      assert out[..|out| - left] + out[|out| - left..][..n] == out[..|out| - left + n];
      if hist.tmpOutStart == hist.tmpOutSize {
        stage, step := GetBlockHeader, Again;
      } else {
        step := Stop(4);
      }
    }

    // ---------- end of the frame ----------

    /** dstage_getSuffix */
    method ReadSuffix(src: seq<byte>, ip: nat, ghost stream: seq<byte>) returns (next: nat, step: Step)
      requires InFrame() && stage == GetSuffix && ip <= |src| && src <= stream
      modifies `stage, `tmpIn, `base, hist`dict, hist`dictSize
      ensures ip <= next <= |src| && SuffixPromise(old(F()), old(AtSuffix(F(), [])), stream, ip, next, step, |src|)
    {
      hide Leads, Ends, Stuck, Read32, Hash, InFrame;
      SuffixStep(F(), stream[ip..]);
      if frameRemainingSize != 0 {
        Remains();
        return ip, Fail(FrameSizeWrong);
      }
      Remains();
      if !info.contentChecksum {
        Finish();
        return ip, Done;
      }
      if |src| - ip < 4 {
        tmpIn, stage := [], StoreSuffix;
        next, step := StoreSuffixBytes(src, ip, stream);
        return;
      }
      next := ip + 4;
      ghost var p, b := AtSuffix(F(), []), src[ip..next];
      Split(src, stream, ip, next);
      TakeIn(p, b, stream[next..]);
      assert [] + b == b;
      step := CheckSuffix(src[ip..next], p, stream[ip..], stream[next..]);
    }

    lemma Remains()
      requires InFrame()
      ensures frameRemainingSize == F().Remaining()
    {
    }

    /** What the passes over the suffix promise. */
    ghost predicate SuffixPromise(f: Frame, p: Point, stream: seq<byte>, ip: nat, next: nat, step: Step, end: nat)
      requires ip <= next <= |stream|
      reads this, hist, hist.tmpOutBuffer, xxh, xxh.mem, blockChecksum, blockChecksum.mem
    {
      match step
      case Fail(e) => Stuck(e, p, stream[ip..])
      case Done => Ends(p, stream[ip..], f.out, stream[next..]) && Fresh() && frameRemainingSize == 0
      case Stop(hint) =>
        && InFrame() && F() == f && stage.StoreSuffix? && |tmpIn| < 4 && info.contentChecksum && frameRemainingSize == 0
        && hint > 0 && next == end && Leads(p, stream[ip..], AtSuffix(f, tmpIn), stream[next..])
      case Again => false
    }

    /** Ready for a new frame. */
    ghost predicate Fresh()
      reads this, hist, hist.tmpOutBuffer, xxh, xxh.mem, blockChecksum, blockChecksum.mem
    {
      Resting() && stage == GetFrameHeader && base == []
    }

    /** dstage_storeSuffix */
    method StoreSuffixBytes(src: seq<byte>, ip: nat, ghost stream: seq<byte>) returns (next: nat, step: Step)
      requires InFrame() && stage == StoreSuffix && ip <= |src| && src <= stream
      requires |tmpIn| < 4 && info.contentChecksum && frameRemainingSize == 0
      modifies `stage, `tmpIn, `base, hist`dict, hist`dictSize
      ensures ip <= next <= |src| && SuffixPromise(old(F()), old(AtSuffix(F(), tmpIn)), stream, ip, next, step, |src|)
    {
      hide Leads, Ends, Stuck, Read32, Hash, InFrame;
      ghost var p := AtSuffix(F(), tmpIn);
      next := Fill(src, ip, 4);
      Split(src, stream, ip, next);
      TakeIn(p, src[ip..next], stream[next..]);
      if |tmpIn| < 4 {
        return next, Stop(4 - |tmpIn|);
      }
      Remains();
      step := CheckSuffix(tmpIn, p, stream[ip..], stream[next..]);
    }

    /** The four bytes `b` must be the checksum of the whole content. */
    method CheckSuffix(b: seq<byte>, ghost p: Point, ghost s: seq<byte>, ghost t: seq<byte>) returns (step: Step)
      requires InFrame() && |b| == 4 && info.contentChecksum && F().Remaining() == 0 && Leads(p, s, AtSuffix(F(), b), t)
      modifies `stage, `base, hist`dict, hist`dictSize
      ensures match step
        case Fail(e) => Stuck(e, p, s)
        case Done => Ends(p, s, old(out), t) && Fresh()
        case _ => false
    {
      hide Leads, Ends, Stuck, Read32, Hash, State.Valid, Frame.Remaining;
      SuffixKnown(F(), b, t);
      var resultCRC := xxh.Digest();
      if Read32(b, 0) != resultCRC {
        LeadsToError(ContentChecksumInvalid, p, s, AtSuffix(F(), b), t);
        return Fail(ContentChecksumInvalid);
      }
      LeadsToEnd(p, s, AtSuffix(F(), b), t, out, t);
      Finish();
      step := Done;
    }

    method Finish()
      requires InFrame()
      modifies `stage, `base, hist`dict, hist`dictSize
      ensures Fresh()
    {
      hide State.Valid;
      Reset();
    }

    /** The sizes behind InFrame. */
    lemma Room3()
      requires InFrame()
      ensures info.linked ==> 3 * WINDOW <= hist.tmpOutBuffer.Length
      ensures hist.tmpOutBuffer.Length >= maxBlockSize + if info.linked then 2 * WINDOW else 0
      ensures maxBlockSize == info.MaxBlock() <= 0x40_0000
    {
    }

    // ---------- the machine ----------

    /** Passes that take no input lead to a stage of smaller rank. */
    ghost function Rank(): nat
      reads `stage
    {
      match stage
      case Init => 2
      case FlushOut => 2
      case CopyDirect => 2
      case GetBlockHeader => 1
      case GetBlockChecksum => 1
      case GetCBlock => 1
      case _ => 0
    }

    /** A call can end here: there is more to come of the frame. */
    ghost predicate AtStop()
      reads `stage, `tmpInTarget
    {
      !stage.Init? && !stage.GetSuffix? && (stage.SkipSkippable? || stage.CopyDirect? ==> tmpInTarget > 0)
    }

    /** If the stream ended at such a point, the input would have run out. */
    lemma Unfinished(strict: bool)
      requires Resting() && AtStop()
      ensures Run(strict, Abs(), []) == RanOut(ContentAt(Abs())) && Delivered() <= ContentAt(Abs())
    {
      hide Run, ParseHeader, State.Valid, History.Rests;
      if stage.StoreSuffix? {
        Remains();
      }
      Truncated(strict, Abs());
    }

    /** What one pass through the switch promises, wherever it leads. */
    twostate predicate Moves(stream: seq<byte>, ip: nat, next: nat, dst: array<byte>, op: nat, end: nat, step: Step)
      requires ip <= next <= |stream| && op <= end <= dst.Length
      reads this, hist, hist.tmpOutBuffer, xxh, xxh.mem, blockChecksum, blockChecksum.mem, dst
    {
      && dst[..op] == old(dst[..op])
      && (step.Fail? ==> Stuck(step.error, old(Abs()), stream[ip..]))
      && (step.Done? ==> Ends(old(Abs()), stream[ip..], old(Delivered()) + dst[op..end], stream[next..]) && Fresh())
      && (step.Again? || step.Stop? ==>
          && Valid(dst, end) && Leads(old(Abs()), stream[ip..], Abs(), stream[next..])
          && Delivered() == old(Delivered()) + dst[op..end]
          && (next == ip ==> Waiting() + (end - op) <= old(Waiting())))
      && (step.Again? ==> next > ip || Rank() < old(Rank()))
      && (step.Stop? ==>
          step.hint > 0 && AtStop() && (stage.FlushOut? && info.linked ==> hist.dict == InTmp || hist.dict.InDst?))
    }

    method PassFrameHeader(src: seq<byte>, ip: nat, dst: array<byte>, op: nat, ghost stream: seq<byte>)
        returns (next: nat, step: Step)
      requires Valid(dst, op) && (stage.GetFrameHeader? || stage.StoreFrameHeader?) && ip <= |src| && src <= stream
      modifies `stage, `tmpIn, `tmpInTarget, `info, `frameRemainingSize, `maxBlockSize, `out
      ensures ip <= next <= |src| && Moves(stream, ip, next, dst, op, op, step)
      ensures step.Stop? ==> next > ip || next == |src|
    {
      hide Leads, Ends, Stuck, Idle, InFrame, RawSum, Body, History.Serves, ParseHeader;
      if stage.GetFrameHeader? {
        next, step := ReadFrameHeader(src, ip, stream);
      } else {
        next, step := StoreHeader(src, ip, stream);
      }
      if !step.Fail? {
        hist.OnlyGiven(old(info.linked), base, old(out), dst, op, info.linked, out);
        assert Valid(dst, op) && old(Delivered()) + dst[op..op] == [];
      }
    }

    method PassSkippable(src: seq<byte>, ip: nat, dst: array<byte>, op: nat, ghost stream: seq<byte>)
        returns (next: nat, step: Step)
      requires Valid(dst, op) && (stage.GetSFrameSize? || stage.StoreSFrameSize? || stage.SkipSkippable?) && ip <= |src|
        && src <= stream
      modifies `stage, `tmpIn, `tmpInTarget, `base, hist`dict, hist`dictSize
      ensures ip <= next <= |src| && Moves(stream, ip, next, dst, op, op, step)
      ensures step.Stop? ==> next > ip || next == |src|
    {
      hide Leads, Ends, Stuck, Idle, InFrame, RawSum, Body, History.Serves;
      assert old(Delivered()) + dst[op..op] == [];
      match stage {
        case GetSFrameSize => next, step := ReadSkipSize(src, ip, stream);
        case StoreSFrameSize => next, step := StoreSkipSize(src, ip, stream);
        case SkipSkippable => next, step := SkipFrame(src, ip, stream);
      }
      if !step.Done? {
        assert Valid(dst, op);
      }
    }

    method PassStart(dst: array<byte>, op: nat)
      requires Valid(dst, op) && stage.Init?
      modifies `stage, `tmpIn, `tmpInTarget, `maxBufferSize, `tmpInBlock, hist, xxh
      ensures Valid(dst, op) && stage.GetBlockHeader? && out == []
      ensures hist.tmpOutBuffer == old(hist.tmpOutBuffer) || fresh(hist.tmpOutBuffer)
    {
      hide Idle, InFrame, Body, History.Serves;
      hist.OnlyGiven(info.linked, base, out, dst, op, info.linked, []);
      StartFrame(dst, op);
      assert Core();
      assert Valid(dst, op);
    }

    method PassBlockHeader(src: seq<byte>, ip: nat, dst: array<byte>, op: nat, full: bool, ghost stream: seq<byte>)
        returns (next: nat, step: Step)
      requires Valid(dst, op) && (stage.GetBlockHeader? || stage.StoreBlockHeader?) && ip <= |src| && src <= stream
      modifies `stage, `tmpIn, `tmpInTarget, `raw, blockChecksum
      ensures ip <= next <= |src| && Moves(stream, ip, next, dst, op, op, step)
      ensures step.Stop? ==> next > ip || next == |src|
    {
      hide Leads, Ends, Stuck, InFrame, RawSum, History.Serves;
      if stage.GetBlockHeader? {
        next, step := ReadBlockHeader(src, ip, full, stream);
      } else {
        next, step := StoreBlockHeaderBytes(src, ip, full, stream);
      }
      if !step.Fail? {
        hist.NoMoreNeeded(info.linked, base, out, dst, op);
        assert Valid(dst, op) && old(Delivered()) + dst[op..op] == out;
      }
    }

    method PassRaw(src: seq<byte>, ip: nat, dst: array<byte>, d0: nat, op: nat, oend: nat, ghost stream: seq<byte>)
        returns (next: nat, end: nat, step: Step)
      requires Valid(dst, op) && stage.CopyDirect? && ip <= |src| && src <= stream
      requires d0 <= op <= oend <= dst.Length && EndOfHistory(dst[d0..op], base + out)
      modifies `stage, `tmpIn, `tmpInTarget, `raw, `out, `frameRemainingSize
      modifies xxh, xxh.mem, blockChecksum, blockChecksum.mem, hist`dict, hist`dictSize, hist.tmpOutBuffer, dst
      ensures ip <= next <= |src| && op <= end <= oend && Moves(stream, ip, next, dst, op, end, step)
      ensures step.Stop? ==> next == |src| || end == oend
    {
      hide Leads, Ends, Stuck, InFrame, RawSum, History.Serves, EndOfHistory;
      next, end, step := CopyRaw(src, ip, dst, d0, op, oend, stream);
      assert Valid(dst, end);
    }

    method PassRawChecksum(src: seq<byte>, ip: nat, dst: array<byte>, op: nat, ghost stream: seq<byte>)
        returns (next: nat, step: Step)
      requires Valid(dst, op) && stage.GetBlockChecksum? && ip <= |src| && src <= stream
      modifies `stage, `tmpIn
      ensures ip <= next <= |src| && Moves(stream, ip, next, dst, op, op, step)
      ensures step.Stop? ==> next == |src|
    {
      hide Leads, Ends, Stuck, InFrame, RawSum, History.Serves;
      next, step := CheckRawChecksum(src, ip, stream);
      if !step.Fail? {
        assert Valid(dst, op) && old(Delivered()) + dst[op..op] == out;
      }
    }

    method PassBlock(src: seq<byte>, ip: nat, dst: array<byte>, d0: nat, op: nat, oend: nat, ghost stream: seq<byte>)
        returns (next: nat, end: nat, step: Step)
      requires Valid(dst, op) && (stage.GetCBlock? || stage.StoreCBlock?) && ip <= |src| && src <= stream
      requires d0 <= op <= oend <= dst.Length && EndOfHistory(dst[d0..op], base + out)
      modifies `stage, `tmpIn, `tmpInTarget, `out, `frameRemainingSize, xxh, xxh.mem
      modifies hist`dict, hist`dictSize, hist`tmpOut, hist`tmpOutSize, hist`tmpOutStart, hist.tmpOutBuffer, dst
      ensures ip <= next <= |src| && op <= end <= oend && Moves(stream, ip, next, dst, op, end, step)
      ensures step.Stop? ==> next == |src|
    {
      hide Leads, Ends, Stuck, InFrame, RawSum, History.Serves, EndOfHistory;
      ghost var p := Abs();
      var block: Option<seq<byte>>;
      next, block, step := ReadBlock(src, ip, stream);
      if block == None {
        end := op;
        assert Valid(dst, op) && old(Delivered()) + dst[op..op] == out;
        return;
      }
      end, step := PassWholeBlock(block.value, dst, d0, op, oend, p, stream[ip..], stream[next..]);
    }

    /** The whole block `b` has been read since the point `p`. */
    method PassWholeBlock(b: seq<byte>, dst: array<byte>, d0: nat, op: nat, oend: nat, ghost p: Point,
        ghost s: seq<byte>, ghost t: seq<byte>)
        returns (end: nat, step: Step)
      requires InFrame() && |b| == tmpInTarget && F().WithChecksum(1) <= |b| <= F().WithChecksum(maxBlockSize)
      requires d0 <= op <= oend <= dst.Length && Apart(dst) && Leads(p, s, InBlock(F(), |b|, b), t)
      requires hist.Serves(Live, info.linked, base, out, dst, op) && EndOfHistory(dst[d0..op], base + out)
      modifies `stage, `tmpInTarget, `out, `frameRemainingSize, xxh, xxh.mem
      modifies hist`dict, hist`dictSize, hist`tmpOut, hist`tmpOutSize, hist`tmpOutStart, hist.tmpOutBuffer, dst
      ensures op <= end <= oend && dst[..op] == old(dst[..op])
      ensures if step.Fail? then Stuck(step.error, p, s)
        else step.Again? && Valid(dst, end) && Leads(p, s, Abs(), t) && Delivered() == old(out) + dst[op..end]
    {
      hide Leads, Ends, Stuck, InFrame, RawSum, History.Serves, EndOfHistory;
      ghost var q := InBlock(F(), |b|, b);
      end, step := DecodeBlock(b, dst, d0, op, oend, t);
      FollowOn(step, p, s, q, t, AtBlock(F(), []), t);
      if !step.Fail? {
        assert Valid(dst, end);
      }
    }

    method PassFlush(dst: array<byte>, d0: nat, op: nat, oend: nat, ghost stream: seq<byte>, ghost ip: nat)
        returns (end: nat, step: Step)
      requires Valid(dst, op) && stage.FlushOut? && ip <= |stream|
      requires d0 <= op <= oend <= dst.Length && EndOfHistory(dst[d0..op], base + Delivered())
      modifies `stage, hist`dict, hist`dictSize, hist`tmpOutStart, hist.tmpOutBuffer, dst
      ensures op <= end <= oend && Moves(stream, ip, ip, dst, op, end, step)
      ensures step.Stop? ==> end == oend
    {
      hide Leads, Ends, Stuck, InFrame, RawSum, EndOfHistory, History.Serves;
      hist.FlushSizes(info.linked, base, out, dst, op);
      Stays(Abs(), stream[ip..]);
      end, step := FlushTmpOut(dst, d0, op, oend);
      assert Valid(dst, end);
    }

    method PassSuffix(src: seq<byte>, ip: nat, dst: array<byte>, op: nat, ghost stream: seq<byte>)
        returns (next: nat, step: Step)
      requires Valid(dst, op) && (stage.GetSuffix? || stage.StoreSuffix?) && ip <= |src| && src <= stream
      modifies `stage, `tmpIn, `base, hist`dict, hist`dictSize
      ensures ip <= next <= |src| && Moves(stream, ip, next, dst, op, op, step)
      ensures step.Stop? ==> next == |src|
      ensures step.Done? ==> frameRemainingSize == 0
    {
      hide Leads, Ends, Stuck, InFrame, RawSum, History.Serves, Fresh;
      if stage.GetSuffix? {
        next, step := ReadSuffix(src, ip, stream);
      } else {
        next, step := StoreSuffixBytes(src, ip, stream);
      }
      assert old(Delivered()) + dst[op..op] == out;
      if step.Stop? {
        hist.NoMoreNeeded(info.linked, base, out, dst, op);
        assert Valid(dst, op);
      }
    }

    /** The switch of LZ4F_decompress. */
    method Pass(src: seq<byte>, ip: nat, dst: array<byte>, d0: nat, op: nat, oend: nat, ghost stream: seq<byte>)
        returns (next: nat, end: nat, step: Step)
      requires Valid(dst, op) && !stage.Init? && ip <= |src| && src <= stream
      requires d0 <= op <= oend <= dst.Length && EndOfHistory(dst[d0..op], base + Delivered())
      modifies this, xxh, xxh.mem, blockChecksum, blockChecksum.mem
      modifies hist`dict, hist`dictSize, hist`tmpOut, hist`tmpOutSize, hist`tmpOutStart, hist.tmpOutBuffer, dst
      ensures ip <= next <= |src| && op <= end <= oend && Moves(stream, ip, next, dst, op, end, step)
      ensures step.Stop? ==> next > ip || next == |src| || end == oend
    {
      hide Moves, Valid, EndOfHistory;
      end := op;
      if stage.GetFrameHeader? || stage.StoreFrameHeader? {
        next, step := PassFrameHeader(src, ip, dst, op, stream);
      } else if stage.GetSFrameSize? || stage.StoreSFrameSize? || stage.SkipSkippable? {
        next, step := PassSkippable(src, ip, dst, op, stream);
      } else if stage.GetBlockHeader? || stage.StoreBlockHeader? {
        next, step := PassBlockHeader(src, ip, dst, op, op == oend, stream);
      } else if stage.CopyDirect? {
        AllDelivered();
        next, end, step := PassRaw(src, ip, dst, d0, op, oend, stream);
      } else if stage.GetBlockChecksum? {
        next, step := PassRawChecksum(src, ip, dst, op, stream);
      } else if stage.GetCBlock? || stage.StoreCBlock? {
        AllDelivered();
        next, end, step := PassBlock(src, ip, dst, d0, op, oend, stream);
      } else if stage.FlushOut? {
        next := ip;
        end, step := PassFlush(dst, d0, op, oend, stream, ip);
      } else {
        next, step := PassSuffix(src, ip, dst, op, stream);
      }
    }

    lemma AllDelivered()
      requires !InHeader() && !stage.FlushOut?
      ensures Delivered() == out
    {
    }

    /** The end of a call. */
    method KeepHistory(dst: array<byte>, op: nat)
      requires Valid(dst, op) && AtStop() && (stage.FlushOut? && info.linked ==> hist.dict == InTmp || hist.dict.InDst?)
      modifies hist`dict, hist`dictSize, hist`tmpOut, hist.tmpOutBuffer
      ensures Resting() && Waiting() == old(Waiting())
    {
      hide State.Valid, History.Serves, History.Rests, Body, ContentSum, Roomy, Buffers;
      if stage.GetBlockHeader? || stage.StoreBlockHeader? || stage.CopyDirect? || stage.GetBlockChecksum?
        || stage.GetCBlock? || stage.StoreCBlock? || stage.FlushOut?
      {
        Room3();
        hist.Keep(stage.FlushOut?, dst, op, info.linked, base, out);
      } else {
        hist.NothingToKeep(HistoryUse(), info.linked, base, out, dst, op);
      }
    }

    /**
      LZ4F_decompress without options, on `src` of a stream that goes on with `tail`. Either it
      reports an error, and then nothing can come of the stream; or it returns 0, and then the frame
      ended here and all of its content has been handed over; or it has led on, handing over the
      next bytes of the content, to a point from which the rest of the stream decodes to the rest.
     */
    method Decompress(src: seq<byte>, dst: array<byte>, d0: nat, capacity: nat, ghost tail: seq<byte>)
        returns (used: nat, produced: nat, hint: nat, error: Option<Error>)
      requires Resting() && AtStop() && Apart(dst) && d0 + capacity <= dst.Length
      modifies this, xxh, xxh.mem, blockChecksum, blockChecksum.mem, hist, hist.tmpOutBuffer, dst
      ensures used <= |src| && produced <= capacity && dst[..d0] == old(dst[..d0])
      ensures hist.tmpOutBuffer == old(hist.tmpOutBuffer) || fresh(hist.tmpOutBuffer)
      ensures error.Some? ==> Stuck(error.value, old(Abs()), src + tail)
      ensures error.None? && hint == 0 ==>
        Ends(old(Abs()), src + tail, old(Delivered()) + dst[d0..d0 + produced], src[used..] + tail) && Fresh()
      ensures error.None? && hint > 0 ==>
        && Leads(old(Abs()), src + tail, Abs(), src[used..] + tail) && Resting() && AtStop()
        && Delivered() == old(Delivered()) + dst[d0..d0 + produced]
        && (|src| > 0 && capacity > 0 ==> used > 0 || produced > 0)
        && (used == 0 ==> Waiting() + produced <= old(Waiting()))
    {
      hide Leads, Ends, Stuck, Valid, Resting, Fresh;
      ghost var stream := src + tail;
      Enter(dst, d0);
      Stays(Abs(), stream);
      assert stream[0..] == stream && Delivered() + dst[d0..d0] == Delivered();
      var next, end, step := Loop(src, dst, d0, d0 + capacity, Abs(), Delivered(), Waiting(), stream);
      assert stream[next..] == src[next..] + tail;
      match step {
        case Fail(e) => return 0, 0, 0, Some(e);
        case Done => return next, end - d0, 0, None;
        case Stop(h) =>
          KeepHistory(dst, end);
          return next, end - d0, h, None;
      }
    }

    /** LZ4F_decompress_usingDict: until the header has been read, every call sets the dictionary anew. */
    method DecompressUsingDict(src: seq<byte>, dst: array<byte>, d0: nat, capacity: nat, dictionary: seq<byte>,
        ghost tail: seq<byte>)
        returns (used: nat, produced: nat, hint: nat, error: Option<Error>)
      requires Resting() && AtStop() && Apart(dst) && d0 + capacity <= dst.Length
      modifies this, xxh, xxh.mem, blockChecksum, blockChecksum.mem, hist, hist.tmpOutBuffer, dst
      ensures used <= |src| && produced <= capacity && dst[..d0] == old(dst[..d0])
      ensures error.Some? ==> Stuck(error.value, GivenDict(old(Abs()), dictionary), src + tail)
      ensures error.None? && hint == 0 ==>
        Ends(GivenDict(old(Abs()), dictionary), src + tail, old(Delivered()) + dst[d0..d0 + produced],
          src[used..] + tail) && Fresh()
      ensures error.None? && hint > 0 ==>
        && Leads(GivenDict(old(Abs()), dictionary), src + tail, Abs(), src[used..] + tail) && Resting() && AtStop()
        && Delivered() == old(Delivered()) + dst[d0..d0 + produced]
    {
      hide Leads, Ends, Stuck, Core, Fresh, Fields, History.Rests;
      if stage.GetFrameHeader? || stage.StoreFrameHeader? || stage.Init? {
        SetDictionary(dictionary);
      }
      used, produced, hint, error := Decompress(src, dst, d0, capacity, tail);
    }

    method SetDictionary(dictionary: seq<byte>)
      requires Resting() && (stage.GetFrameHeader? || stage.StoreFrameHeader?)
      modifies `base, hist`dict, hist`dictSize
      ensures Resting() && base == dictionary
    {
      hide State.Valid;
      hist.dict, hist.dictSize, base := Outside(dictionary), |dictionary|, dictionary;
    }

    /** A dictionary given before the header is complete becomes the frame's; later it has no effect. */
    static function GivenDict(p: Point, dictionary: seq<byte>): Point {
      if p.AtHeader? then p.(base := dictionary) else p
    }

    /** The loop around the switch. */
    method Loop(src: seq<byte>, dst: array<byte>, d0: nat, oend: nat, ghost p: Point, ghost d: seq<byte>, ghost w: nat,
        ghost stream: seq<byte>)
        returns (ip: nat, op: nat, step: Step)
      requires src <= stream && d0 <= oend <= dst.Length && !stage.Init? && Reached(p, d, w, stream, 0, dst, d0, d0)
      modifies this, xxh, xxh.mem, blockChecksum, blockChecksum.mem, hist, hist.tmpOutBuffer, dst
      ensures ip <= |src| && d0 <= op <= oend && dst[..d0] == old(dst[..d0]) && !step.Again?
      ensures hist.tmpOutBuffer == old(hist.tmpOutBuffer) || fresh(hist.tmpOutBuffer)
      ensures step.Fail? ==> Stuck(step.error, p, stream)
      ensures step.Done? ==> Ends(p, stream, d + dst[d0..op], stream[ip..]) && Fresh()
      ensures step.Stop? ==>
        && Reached(p, d, w, stream, ip, dst, d0, op) && step.hint > 0 && AtStop()
        && (stage.FlushOut? && info.linked ==> hist.dict == InTmp || hist.dict.InDst?)
        && (|src| > 0 && oend > d0 ==> ip > 0 || op > d0)
    {
      hide Leads, Ends, Stuck, Valid, Resting, Fresh, Reached;
      ip, op, step := 0, d0, Again;
      while step.Again?
        invariant ip <= |src| && d0 <= op <= oend && dst[..d0] == old(dst[..d0])
        invariant hist.tmpOutBuffer == old(hist.tmpOutBuffer) || fresh(hist.tmpOutBuffer)
        invariant step.Again? || step.Stop? ==> Reached(p, d, w, stream, ip, dst, d0, op)
        invariant step.Fail? ==> Stuck(step.error, p, stream)
        invariant step.Done? ==> Ends(p, stream, d + dst[d0..op], stream[ip..]) && Fresh()
        invariant step.Stop? ==>
          && step.hint > 0 && AtStop() && (stage.FlushOut? && info.linked ==> hist.dict == InTmp || hist.dict.InDst?)
          && (|src| > 0 && oend > d0 ==> ip > 0 || op > d0)
        decreases step.Again?, |src| - ip, Rank()
      {
        if stage.Init? {
          Begin(p, d, w, stream, ip, dst, d0, op);
        }
        ip, op, step := Turn(src, ip, dst, d0, op, oend, p, d, w, stream);
      }
    }

    /** A call that started at `p`, with `d` handed over and `w` bytes waiting, has come this far. */
    ghost predicate Reached(p: Point, d: seq<byte>, w: nat, stream: seq<byte>, ip: nat, dst: array<byte>, d0: nat,
        op: nat)
      requires ip <= |stream| && d0 <= op <= dst.Length
      reads this, hist, hist.tmpOutBuffer, xxh, xxh.mem, blockChecksum, blockChecksum.mem, dst
    {
      && Valid(dst, op) && Leads(p, stream, Abs(), stream[ip..]) && Delivered() == d + dst[d0..op]
      && (ip == 0 ==> Waiting() + (op - d0) <= w)
    }

    method Begin(ghost p: Point, ghost d: seq<byte>, ghost w: nat, ghost stream: seq<byte>, ghost ip: nat,
        dst: array<byte>, d0: nat, op: nat)
      requires ip <= |stream| && d0 <= op <= dst.Length && Reached(p, d, w, stream, ip, dst, d0, op) && stage.Init?
      modifies `stage, `tmpIn, `tmpInTarget, `maxBufferSize, `tmpInBlock, hist, xxh
      ensures Reached(p, d, w, stream, ip, dst, d0, op) && stage.GetBlockHeader?
      ensures hist.tmpOutBuffer == old(hist.tmpOutBuffer) || fresh(hist.tmpOutBuffer)
    {
      hide Leads, Core, Apart, History.Serves;
      PassStart(dst, op);
    }

    /** One pass, seen from the start of the call. */
    method Turn(src: seq<byte>, ip: nat, dst: array<byte>, d0: nat, op: nat, oend: nat,
                ghost p: Point, ghost d: seq<byte>, ghost w: nat, ghost stream: seq<byte>)
                  returns (next: nat, end: nat, step: Step)
      requires ip <= |src| && src <= stream && d0 <= op <= oend <= dst.Length && !stage.Init?
      requires Reached(p, d, w, stream, ip, dst, d0, op)
      modifies this, xxh, xxh.mem, blockChecksum, blockChecksum.mem
      modifies hist`dict, hist`dictSize, hist`tmpOut, hist`tmpOutSize, hist`tmpOutStart, hist.tmpOutBuffer, dst
      ensures ip <= next <= |src| && op <= end <= oend && dst[..op] == old(dst[..op])
      ensures match step
        case Fail(e) => Stuck(e, p, stream)
        case Done => Ends(p, stream, d + dst[d0..end], stream[next..]) && Fresh()
        case Again => Reached(p, d, w, stream, next, dst, d0, end) && (next > ip || Rank() < old(Rank()))
        case Stop(hint) =>
          && Reached(p, d, w, stream, next, dst, d0, end) && hint > 0 && AtStop()
            && (next > ip || next == |src| || end == oend)
          && (stage.FlushOut? && info.linked ==> hist.dict == InTmp || hist.dict.InDst?)
    {
      hide Leads, Ends, Stuck, Valid, Fresh;
      ghost var q, before := Abs(), Delivered();
      Sent(dst, d0, op, d);
      next, end, step := Pass(src, ip, dst, d0, op, oend, stream);
      SameBefore(old(dst[..]), dst[..], d0, op);
      Cut(dst[..], d0, op, end);
      assert before + dst[op..end] == d + dst[d0..end];
      match step {
        case Fail(e) => LeadsToError(e, p, stream, q, stream[ip..]);
        case Done => LeadsToEnd(p, stream, q, stream[ip..], d + dst[d0..end], stream[next..]);
        case _ => LeadsTransitive(p, stream, q, stream[ip..], Abs(), stream[next..]);
      }
    }

    lemma Enter(dst: array<byte>, op: nat)
      requires Resting() && Apart(dst) && op <= dst.Length
      ensures Valid(dst, op)
    {
      hide Core, Fields, History.Serves, History.Rests;
      hist.Enter(HistoryUse(), info.linked, base, out, dst, op);
    }

    lemma Sent(dst: array<byte>, d0: nat, op: nat, before: seq<byte>)
      requires d0 <= op <= dst.Length && Delivered() == before + dst[d0..op]
      ensures EndOfHistory(dst[d0..op], base + Delivered())
    {
    }
  }
}
