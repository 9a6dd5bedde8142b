/**
  Decoding a whole stream with LZ4F_decompress: with any slicing of input and output, and the way
  src/boot_crypto.cpp does it.
 */
module FrameStreams {
  import opened Bytes
  import opened FrameFormat
  import opened FrameReference
  import opened FrameDecoder
  import opened FrameEncoding
  import opened FrameCompressor

  /** How a stream of calls ended: the frame was complete, the input ran out, or a call failed. */
  datatype Result = Complete(content: seq<byte>, rest: seq<byte>) | Truncated(content: seq<byte>) | Failed(error: Error)

  const START := AtHeader(0, [], [])

  /** The result is right for `input`. */
  predicate Correct(input: seq<byte>, r: Result) {
    match r
    case Complete(content, rest) => Ends(START, input, content, rest)
    case Truncated(content) => Run(false, START, input).RanOut? && content <= Run(false, START, input).content
    case Failed(e) => Stuck(e, START, input)
  }

  /** Every block met in the input keeps the block format's restrictions, or an error comes first. */
  predicate Conforming(input: seq<byte>) {
    Run(true, START, input) == Run(false, START, input)
  }

  /**
    On an input of well-formed blocks there is only one kind of correct result, so slicing cannot
    matter: the frame, the content as far as the input goes, or an error.
   */
  lemma OneResult(input: seq<byte>, r: Result)
    requires Correct(input, r)
    ensures match Run(true, START, input)
      case Ended(content, rest) => r == Complete(content, rest)
      case RanOut(content) => r.Truncated? && r.content <= content
      case Malformed => true
    ensures r.Complete? ==> Run(false, START, input) == Ended(r.content, r.rest)
    ensures Run(true, START, input) != Malformed ==> Conforming(input)
    ensures Conforming(input) ==>
      && (r.Complete? <==> Run(false, START, input).Ended?) && (r.Truncated? <==> Run(false, START, input).RanOut?)
      && (r.Failed? <==> Run(false, START, input) == Malformed)
  {
    hide Run;
    if Run(true, START, input) != Malformed {
      StrictRun(START, input);
    }
  }

  /**
    Call number k gets at most `give(k)` more bytes of input and room for `room(k)` bytes of
    output, in a buffer of its own.
   */
  method DecodeSliced(input: seq<byte>, give: nat -> nat, room: nat -> nat, fastLoop: bool) returns (r: Result)
    requires forall k: nat :: give(k) > 0
    requires forall k: nat :: room(k) > 0
    ensures Correct(input, r)
  {
    hide Leads, Ends, Stuck, Run, Decompressor.Resting;
    var dctx := new Decompressor(fastLoop);
    var pos, k := 0, 0;
    var out: seq<byte> := [];
    Stays(START, input);
    assert input[0..] == input;
    while pos < |input|
      invariant pos <= |input| && dctx.Resting() && dctx.AtStop()
      invariant fresh(dctx) && fresh(dctx.hist) && fresh(dctx.hist.tmpOutBuffer)
      invariant fresh(dctx.xxh) && fresh(dctx.xxh.mem) && fresh(dctx.blockChecksum) && fresh(dctx.blockChecksum.mem)
      invariant Leads(START, input, dctx.Abs(), input[pos..]) && dctx.Delivered() == out
      decreases |input| - pos, dctx.Waiting()
    {
      var end := Min(pos + give(k), |input|);
      var buffer := new byte[room(k)];
      ghost var q := dctx.Abs();
      assert input[pos..end] + input[end..] == input[pos..];
      var used, produced, hint, error := dctx.Decompress(input[pos..end], buffer, 0, room(k), input[end..]);
      assert input[pos..end][used..] + input[end..] == input[pos + used..];
      if error.Some? {
        LeadsToError(error.value, START, input, q, input[pos..]);
        return Failed(error.value);
      }
      out := out + buffer[0..produced];
      if hint == 0 {
        LeadsToEnd(START, input, q, input[pos..], out, input[pos + used..]);
        return Complete(out, input[pos + used..]);
      }
      LeadsTransitive(START, input, q, input[pos..], dctx.Abs(), input[pos + used..]);
      pos, k := pos + used, k + 1;
    }
    assert input[pos..] == [];
    Exhausted(dctx, input);
    r := Truncated(out);
  }

  lemma Exhausted(dctx: Decompressor, input: seq<byte>)
    requires dctx.Resting() && dctx.AtStop() && Leads(START, input, dctx.Abs(), [])
    ensures Correct(input, Truncated(dctx.Delivered()))
  {
    hide Run;
    dctx.Unfinished(false);
  }

  /** What success and failure say about the input. */
  lemma Reported(input: seq<byte>, r: Result, out: seq<byte>, ok: bool)
    requires Correct(input, r) && ok == !r.Failed? && (ok ==> out == r.content)
    ensures match Run(true, START, input)
      case Ended(content, _) => ok && out == content
      case RanOut(content) => ok && out <= content
      case Malformed => true
    ensures ok ==>
      match Run(false, START, input)
      case Ended(content, _) => out == content
      case RanOut(content) => out <= content
      case Malformed => false
    ensures Conforming(input) ==> (ok <==> Run(false, START, input) != Malformed)
  {
    hide Run;
    OneResult(input, r);
  }

  /**
    lz4f_decompress: all of the rest of the input each time, and one buffer of 64 KB, written out
    after each call. Success is reported for a frame, and just as well when the input runs out
    before the frame ends; on input whose blocks keep the restrictions, for nothing else.
   */
  method Lz4fDecompress(input: seq<byte>, fastLoop: bool) returns (out: seq<byte>, ok: bool)
    ensures match Run(true, START, input)
      case Ended(content, _) => ok && out == content
      case RanOut(content) => ok && out <= content
      case Malformed => true
    ensures ok ==>
      match Run(false, START, input)
      case Ended(content, _) => out == content
      case RanOut(content) => out <= content
      case Malformed => false
    ensures Conforming(input) ==> (ok <==> Run(false, START, input) != Malformed)
  {
    hide Leads, Ends, Stuck, Run, Conforming, Decompressor.Resting;
    var dctx := new Decompressor(fastLoop);
    var buffer := new byte[0x1_0000];
    var pos := 0;
    out := [];
    Stays(START, input);
    assert input[0..] == input;
    while pos < |input|
      invariant pos <= |input| && dctx.Resting() && dctx.AtStop() && dctx.Apart(buffer)
      invariant fresh(dctx) && fresh(dctx.hist) && fresh(dctx.hist.tmpOutBuffer) && fresh(buffer)
        && buffer.Length == 0x1_0000
      invariant fresh(dctx.xxh) && fresh(dctx.xxh.mem) && fresh(dctx.blockChecksum) && fresh(dctx.blockChecksum.mem)
      invariant Leads(START, input, dctx.Abs(), input[pos..]) && dctx.Delivered() == out
      decreases |input| - pos, dctx.Waiting()
    {
      ghost var q := dctx.Abs();
      assert input[pos..] + [] == input[pos..];
      var used, produced, hint, error := dctx.Decompress(input[pos..], buffer, 0, 0x1_0000, []);
      assert input[pos..][used..] + [] == input[pos + used..];
      if error.Some? {
        LeadsToError(error.value, START, input, q, input[pos..]);
        Reported(input, Failed(error.value), out, false);
        return out, false;
      }
      out := out + buffer[0..produced];
      if hint == 0 {
        LeadsToEnd(START, input, q, input[pos..], out, input[pos + used..]);
        Reported(input, Complete(out, input[pos + used..]), out, true);
        return out, true;
      }
      LeadsTransitive(START, input, q, input[pos..], dctx.Abs(), input[pos + used..]);
      pos := pos + used;
    }
    assert input[pos..] == [];
    Exhausted(dctx, input);
    Reported(input, Truncated(out), out, true);
    ok := true;
  }

  /** The preferences that LZ4F_compressFrame assumes when it is given none. */
  const NO_PREFERENCES := FrameInfo(true, false, false, 0, 0, 0)

  /** lz4f_compress: a buffer of LZ4F_compressFrameBound bytes is always enough. */
  method Lz4fCompress(input: seq<byte>, srcAddr: nat, wordSize: nat) returns (out: seq<byte>)
    requires (wordSize == 8 || wordSize == 4) && |input| < WRAP64
    ensures IsFrame(out, input) && |out| <= FrameBound(|input|, NO_PREFERENCES)
  {
    hide IsFrame, BoundInternal;
    var bound := FrameBound(|input|, NO_PREFERENCES);
    var buffer := new byte[bound];
    var cctx := new Compressor(wordSize);
    var n, error := cctx.CompressFrame(buffer, 0, bound, input, srcAddr, NO_PREFERENCES, 0);
    out := buffer[0..n];
  }

  lemma FrameDecodes(frame: seq<byte>, content: seq<byte>)
    requires IsFrame(frame, content)
    ensures Run(true, START, frame) == Ended(content, [])
  {
    hide Run;
    FrameFollowed(frame, content, []);
    assert frame + [] == frame;
  }

  /** What lz4f_compress writes, lz4f_decompress reads back: the compressor works in prefix mode, the decoder from its
      own copy of the history. */
  method Lz4fRoundTrip(input: seq<byte>, srcAddr: nat, wordSize: nat, fastLoop: bool) returns (out: seq<byte>, ok: bool)
    requires (wordSize == 8 || wordSize == 4) && |input| < WRAP64
    ensures ok && out == input
  {
    hide IsFrame, Run;
    var frame := Lz4fCompress(input, srcAddr, wordSize);
    FrameDecodes(frame, input);
    out, ok := Lz4fDecompress(frame, fastLoop);
  }

  /** The same with any preferences for the compressor, any slices for the decoder, and anything behind the frame. */
  method SlicedRoundTrip(input: seq<byte>, srcAddr: nat, wordSize: nat, prefs: FrameInfo, level: int, behind: seq<byte>,
                         give: nat -> nat, room: nat -> nat, fastLoop: bool) returns (r: Result)
    requires (wordSize == 8 || wordSize == 4) && |input| < WRAP64 && Compressor.WithDefaults(prefs).Valid() && level < 3
    requires forall k: nat :: give(k) > 0
    requires forall k: nat :: room(k) > 0
    ensures r == Complete(input, behind)
  {
    hide IsFrame, Run, FrameInfo.Valid, FrameBound, Correct;
    var bound := FrameBound(|input|, prefs);
    var buffer := new byte[bound];
    var cctx := new Compressor(wordSize);
    var n, error := cctx.CompressFrame(buffer, 0, bound, input, srcAddr, prefs, level);
    var frame := buffer[0..n];
    FrameFollowed(frame, input, behind);
    r := DecodeSliced(frame + behind, give, room, fastLoop);
    OneResult(frame + behind, r);
  }

  lemma FrameFollowed(frame: seq<byte>, content: seq<byte>, behind: seq<byte>)
    requires IsFrame(frame, content)
    ensures Run(true, START, frame + behind) == Ended(content, behind)
  {
    hide Run;
  }

  // ---------- truncated frames ----------

  /** A frame that is cut off anywhere runs out of input; what there is of its content is a prefix of it. */
  lemma CutFrame(input: seq<byte>, missing: seq<byte>)
    requires Run(true, START, input + missing).Ended? && |Run(true, START, input + missing).rest| < |missing|
    ensures Run(true, START, input).RanOut? && Conforming(input)
    ensures Run(true, START, input).content <= Run(true, START, input + missing).content
  {
    hide FrameFrom;
    assert [] + input == input && [] + (input + missing) == input + missing;
    FrameCutShort(true, 0, [], input, missing);
    StrictRun(START, input);
  }

  /** The magic number alone, for one. */
  lemma MagicAlone()
    ensures Run(true, START, [0x04, 0x22, 0x4d, 0x18]) == RanOut([]) && Conforming([0x04, 0x22, 0x4d, 0x18])
  {
    assert [] + [0x04, 0x22, 0x4d, 0x18] == [0x04, 0x22, 0x4d, 0x18];
  }

  /** lz4f_decompress does not notice that a file was cut off: it succeeds, with some first part of the data. */
  method Lz4fCutOff(input: seq<byte>, n: nat, srcAddr: nat, wordSize: nat, fastLoop: bool)
      returns (out: seq<byte>, ok: bool, size: nat)
    requires (wordSize == 8 || wordSize == 4) && |input| < WRAP64
    ensures ok && out <= input && size <= FrameBound(|input|, NO_PREFERENCES) && (n >= size ==> out == input)
  {
    hide IsFrame, Run, Conforming, FrameBound;
    var frame := Lz4fCompress(input, srcAddr, wordSize);
    FrameDecodes(frame, input);
    size := |frame|;
    if n < size {
      assert frame[..n] + frame[n..] == frame;
      CutFrame(frame[..n], frame[n..]);
      out, ok := Lz4fDecompress(frame[..n], fastLoop);
    } else {
      out, ok := Lz4fDecompress(frame, fastLoop);
    }
  }
}
