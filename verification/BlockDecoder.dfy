/**
  LZ4_decompress_generic for its `endOnInputSize` callers: the fast loop, the safe loop with its
  two-stage shortcut, and the three ways a match can lie with respect to a dictionary. The
  C function's labels are kept: `Label` names the places control can jump to.
 */
module BlockDecoder {
  import opened Bytes
  import opened BlockFormat
  import opened Memory

  const FASTLOOP_SAFE_DISTANCE := 64
  const MATCH_SAFEGUARD_DISTANCE := 12

  datatype Mode = NoDict | WithPrefix64k | UsingExtDict

  /**
    One call: the compressed block, the output window [start, oend) of `dst`, and the history,
    which is `ext` followed by the bytes of `dst` from the prefix on.
   */
  datatype Job = Job(src: seq<byte>, dst: array<byte>, start: nat, oend: nat, mode: Mode, lowPrefix: int,
    ext: seq<byte>, partial: bool) {

    function Low(): nat {
      if lowPrefix < 0 then 0 else lowPrefix
    }

    predicate Valid() {
      && |src| < 0x8000_0000
      && lowPrefix <= start <= oend <= dst.Length
      && (mode == WithPrefix64k ==> lowPrefix == start - 0x1_0000 && start >= DISTANCE_MAX)
      && (mode != WithPrefix64k ==> lowPrefix >= 0)
      && (mode != UsingExtDict ==> ext == [])
      && (partial ==> mode == NoDict)
    }

    /** History and output up to `op`. */
    ghost function Out(op: nat): (s: seq<byte>)
      requires Low() <= op <= dst.Length
      reads dst
      ensures |s| == |ext| + op - Low()
    {
      ext + dst[Low()..op]
    }

    predicate ChecksOffset() {
      |ext| < 0x1_0000
    }

    /** The test that makes the decoder give up on an offset. */
    predicate OffsetOutside(op: nat, offset: nat) {
      ChecksOffset() && op - offset + |ext| < lowPrefix
    }
  }

  /** Unless the offset test fires, the match lies within the history and the output so far. */
  lemma OffsetInside(job: Job, op: nat, offset: nat)
    requires job.Valid() && job.start <= op <= job.oend && offset <= DISTANCE_MAX
    ensures job.OffsetOutside(op, offset) <==> offset > |job.Out(op)|
  {
  }

  // ---------- where the parse stands ----------

  /** The block is conforming and announces `total` bytes, history included. */
  ghost predicate Conf(job: Job, hist: seq<byte>, total: nat) {
    total < |hist| + WRAP && ConformsSeq(job.src, 0, |hist|, total)
  }

  /** Partial decoding only speaks about conforming blocks. */
  ghost predicate Lax(job: Job, hist: seq<byte>, total: nat) {
    job.partial && !Conf(job, hist, total)
  }

  ghost predicate AtSeq(job: Job, hist: seq<byte>, total: nat, ip: nat, out: seq<byte>) {
    && ip <= |job.src| && |hist| <= |out|
    && (|| Lax(job, hist, total)
        || (&& Decode(job.src, hist, false) == DecodeSeq(job.src, ip, out, false)
            && (Conf(job, hist, total) ==> ConformsSeq(job.src, ip, |out|, total))))
  }

  /** Literals of the given length start at `ip`; or the length is known to overrun the input. */
  ghost predicate AtLits(job: Job, hist: seq<byte>, total: nat, ip: nat, nibble: nat, len: nat, out: seq<byte>) {
    && ip <= |job.src| && |hist| <= |out|
    && (|| Lax(job, hist, total)
        || (!Conf(job, hist, total) && ip + len > |job.src|)
        || (&& Decode(job.src, hist, false) == DecodeLits(job.src, ip, nibble, len, out, false)
            && (Conf(job, hist, total) ==> ConformsLits(job.src, ip, nibble, len, |out|, total))))
  }

  ghost predicate AtOffset(job: Job, hist: seq<byte>, total: nat, ip: nat, nibble: nat, out: seq<byte>) {
    && ip <= |job.src| && |hist| <= |out|
    && (|| Lax(job, hist, total)
        || (&& Decode(job.src, hist, false) == DecodeOffset(job.src, ip, nibble, out, false)
            && (Conf(job, hist, total) ==> ConformsOffset(job.src, ip, nibble, |out|, total))))
  }

  ghost predicate AtCopy(job: Job, hist: seq<byte>, total: nat, ip: nat, offset: nat, len: nat, out: seq<byte>) {
    && ip <= |job.src| && |hist| <= |out|
    && (|| Lax(job, hist, total)
        || (&& Decode(job.src, hist, false) == DecodeCopy(job.src, ip, offset, len, out, false)
            && (Conf(job, hist, total) ==> ConformsCopy(job.src, ip, offset, len, |out|, total))))
  }

  // ---------- read_variable_length ----------

  datatype LengthError = Ok | InitialError | LoopError

  /** The extension starting at `i`, given that everything before `j` was 255. */
  ghost predicate AllFull(src: seq<byte>, i: nat, j: nat)
    requires i <= j <= |src|
  {
    forall k :: i <= k < j ==> src[k] == 255
  }

  lemma {:induction false} ExtensionAfterFull(src: seq<byte>, i: nat, j: nat)
    requires i <= j <= |src| && AllFull(src, i, j)
    ensures ReadExtension(src, i) ==
      match ReadExtension(src, j)
      case None => None
      case Some(f) => Some(Field(255 * (j - i) + f.value, f.next))
    decreases j - i
  {
    if i < j {
      ExtensionAfterFull(src, i + 1, j);
    }
  }

  method ReadVariableLength(src: seq<byte>, start: nat, lencheck: int, initialCheck: bool)
      returns (length: nat, ip: nat, error: LengthError)
    requires lencheck <= |src|
    requires initialCheck || start < |src|
    ensures error == InitialError ==> initialCheck && ip == start && start >= lencheck
    ensures error != InitialError ==> start < ip <= |src| && AllFull(src, start, ip - 1)
    ensures error != InitialError ==> length == (255 * (ip - 1 - start) + src[ip - 1]) % WRAP
    ensures error == Ok ==> ip < lencheck && src[ip - 1] != 255
    ensures error == LoopError ==> ip >= lencheck
  {
    length, ip := 0, start;
    if initialCheck && ip >= lencheck {
      return length, ip, InitialError;
    }
    ghost var sum := 0;
    while true
      invariant start <= ip < |src|
      invariant AllFull(src, start, ip)
      invariant sum == 255 * (ip - start) && length == sum % WRAP
      decreases |src| - ip
    {
      var s := src[ip];
      ip := ip + 1;
      WrappedSum(sum, s);
      length := (length + s) % WRAP;
      sum := sum + s;
      if ip >= lencheck {
        return length, ip, LoopError;
      }
      if s != 255 {
        return length, ip, Ok;
      }
    }
  }

  lemma WrappedSum(a: nat, b: nat)
    ensures (a % WRAP + b) % WRAP == (a + b) % WRAP
  {
    var q := a / WRAP;
    assert a + b == WRAP * q + (a % WRAP + b);
    assert forall x: nat :: (WRAP * q + x) % WRAP == x % WRAP;
  }

  /** A complete extension, as read. */
  lemma CompleteExtension(src: seq<byte>, i: nat, ip: nat)
    requires i < ip <= |src| && AllFull(src, i, ip - 1) && src[ip - 1] != 255
    ensures ReadExtension(src, i) == Some(Field(255 * (ip - 1 - i) + src[ip - 1], ip))
  {
    ExtensionAfterFull(src, i, ip - 1);
  }

  /** An extension that goes on past `ip`. */
  lemma UnfinishedExtension(src: seq<byte>, i: nat, ip: nat)
    requires i < ip <= |src| && AllFull(src, i, ip)
    ensures ReadExtension(src, i).Some? ==>
      ReadExtension(src, i).value.next > ip && ReadExtension(src, i).value.value >= 255 * (ip - i)
  {
    ExtensionAfterFull(src, i, ip);
  }

  /** 255 * k never wraps to exactly zero for k below 2^31. */
  lemma FullRunDoesNotVanish(k: nat)
    requires 0 < k < 0x8000_0000
    ensures 255 * k % WRAP != 0
  {
  }

  // ---------- the literal length ----------

  datatype Label = TokenLabel | LiteralCopy | CopyMatchLabel | MatchCopy | Finished | Failed

  /** In a conforming block the literals announced by the token at `ip` fit in the input. */
  lemma ConformingLiterals(job: Job, hist: seq<byte>, total: nat, ip: nat, out: seq<byte>)
    requires AtSeq(job, hist, total, ip, out) && Conf(job, hist, total) && ip < |job.src|
    ensures var f := ReadLength(job.src, ip + 1, job.src[ip] / 16, true);
      && f.Some? && f.value.next + f.value.value <= |job.src| && f.value.value < WRAP
      && ConformsLits(job.src, f.value.next, job.src[ip] % 16, f.value.value, |out|, total)
  {
    var f := ReadLength(job.src, ip + 1, job.src[ip] / 16, true).value;
    assert ConformsLits(job.src, f.next, job.src[ip] % 16, f.value, |out|, total);
  }

  /** A long literal length whose extension was read to the end. */
  lemma LiteralLengthRead(job: Job, hist: seq<byte>, total: nat, ip0: nat, ip: nat, extra: nat, out: seq<byte>)
    requires AtSeq(job, hist, total, ip0, out) && ip0 + 1 < ip <= |job.src| && job.src[ip0] / 16 == 15
    requires AllFull(job.src, ip0 + 1, ip - 1) && extra == (255 * (ip - 2 - ip0) + job.src[ip - 1]) % WRAP
    requires job.src[ip - 1] != 255
    ensures AtLits(job, hist, total, ip, job.src[ip0] % 16, 15 + extra, out)
  {
    if Conf(job, hist, total) && !Lax(job, hist, total) {
      ConformingLiterals(job, hist, total, ip0, out);
    }
    CompleteExtension(job.src, ip0 + 1, ip);
    assert ReadLength(job.src, ip0 + 1, 15, false) == Some(Field(15 + extra, ip));
  }

  /** One that was cut by the bound: the literals cannot fit any more. */
  lemma LiteralLengthCut(job: Job, hist: seq<byte>, total: nat, ip0: nat, ip: nat, extra: nat, out: seq<byte>)
    requires |job.src| < 0x8000_0000 && AtSeq(job, hist, total, ip0, out) && ip0 + 1 < ip <= |job.src|
      && job.src[ip0] / 16 == 15
    requires AllFull(job.src, ip0 + 1, ip) && extra == 255 * (ip - 1 - ip0) % WRAP
    requires ip >= |job.src| - RUN_MASK
    ensures AtLits(job, hist, total, ip, job.src[ip0] % 16, 15 + extra, out)
  {
    if Conf(job, hist, total) {
      ConformingLiterals(job, hist, total, ip0, out);
    }
    UnfinishedExtension(job.src, ip0 + 1, ip);
    FullRunDoesNotVanish(ip - ip0 - 1);
  }

  /** Reads the literal length of the token at `ip0`. */
  method LiteralLength(job: Job, ghost hist: seq<byte>, ghost total: nat, ip0: nat, ghost out: seq<byte>)
      returns (ok: bool, ip: nat, nibble: nat, length: nat)
    requires job.Valid() && AtSeq(job, hist, total, ip0, out) && ip0 < |job.src|
    ensures nibble == job.src[ip0] % 16 && ip0 < ip <= |job.src|
    ensures job.src[ip0] / 16 != RUN_MASK ==> ok && ip == ip0 + 1 && length == job.src[ip0] / 16
    ensures ok ==> AtLits(job, hist, total, ip, nibble, length, out)
    ensures !ok ==> !Conf(job, hist, total)
  {
    var src := job.src;
    var token := src[ip0];
    ip := ip0 + 1;
    nibble := token % 16;
    length := token / 16;
    if length != RUN_MASK {
      return true, ip, nibble, length;
    }
    var extra, next, error := ReadVariableLength(src, ip, |src| - RUN_MASK, true);
    if error == InitialError {
      if Conf(job, hist, total) {
        ConformingLiterals(job, hist, total, ip0, out);
      }
      return false, ip, nibble, length;
    }
    if src[next - 1] != 255 {
      LiteralLengthRead(job, hist, total, ip0, next, extra, out);
    } else {
      assert 255 * (next - 1 - ip) + src[next - 1] == 255 * (next - 1 - ip0);
      LiteralLengthCut(job, hist, total, ip0, next, extra, out);
    }
    ip, length := next, length + extra;
    return true, ip, nibble, length;
  }

  // ---------- the fast loop ----------

  lemma LiteralsDone(job: Job, hist: seq<byte>, total: nat, ip: nat, nibble: nat, len: nat, out: seq<byte>)
    requires AtLits(job, hist, total, ip, nibble, len, out) && ip + len <= |job.src|
    ensures ip + len < |job.src| ==> AtOffset(job, hist, total, ip + len, nibble, out + job.src[ip..ip + len])
    ensures ip + len == |job.src| && !Lax(job, hist, total) ==>
      Decode(job.src, hist, false) == Some(out + job.src[ip..ip + len])
    ensures ip + len == |job.src| && Conf(job, hist, total) ==> |out| + len == total
  {
    assert ip + len == |job.src| ==> job.src[ip..] == job.src[ip..ip + len];
  }

  lemma CopyDone(job: Job, hist: seq<byte>, total: nat, ip: nat, offset: nat, len: nat, out: seq<byte>)
    requires AtCopy(job, hist, total, ip, offset, len, out) && offset <= |out|
    ensures AtSeq(job, hist, total, ip, CopyMatch(out, offset, len))
  {
  }

  /** Writing from `op` on does not disturb what comes before. */
  lemma OutputKept(job: Job, op: nat, was: seq<byte>)
    requires job.Low() <= op <= job.dst.Length && |was| == job.dst.Length
    requires forall k :: 0 <= k < op ==> job.dst[k] == was[k]
    ensures job.Out(op) == job.ext + was[job.Low()..op]
  {
    assert job.dst[job.Low()..op] == was[job.Low()..op];
  }

  /** An offset that reaches before the history rules a conforming block out. */
  lemma OffsetTooFar(job: Job, hist: seq<byte>, total: nat, ip: nat, offset: nat, len: nat, out: seq<byte>)
    requires AtCopy(job, hist, total, ip, offset, len, out) && offset > |out|
    ensures !Conf(job, hist, total)
  {
  }

  lemma OutputPrefix(job: Job, op: nat, op': nat)
    requires job.Low() <= op <= op' <= job.dst.Length
    ensures job.Out(op')[..|job.Out(op)|] == job.Out(op)
  {
    var low := job.Low();
    assert job.dst[low..op'][..op - low] == job.dst[low..op];
  }

  /** The output grows by literals that were copied to `op`. */
  lemma OutputPlusLiterals(job: Job, before: seq<byte>, op: nat, ip: nat, len: nat)
    requires job.Valid() && job.start <= op && op + len <= job.oend && ip + len <= |job.src|
    requires job.Out(op) == before
    requires forall k :: op <= k < op + len ==> job.dst[k] == job.src[ip + (k - op)]
    ensures job.Out(op + len) == before + job.src[ip..ip + len]
  {
    var low := job.Low();
    assert job.dst[low..op + len] == job.dst[low..op] + job.src[ip..ip + len];
  }

  /** The output grows by a match whose source starts at or after the prefix. */
  lemma OutputPlusMatch(job: Job, before: seq<byte>, op: nat, offset: nat, len: nat)
    requires job.Valid() && job.start <= op && op + len <= job.oend && job.Low() + offset <= op
    requires job.Out(op) == before
    requires Repeats(job.dst, op, op + len, offset)
    ensures job.Out(op + len) == CopyMatch(before, offset, len)
  {
    var r := job.Out(op + len);
    var shift := |job.ext| - job.Low();
    OutputPrefix(job, op, op + len);
    forall k | |before| <= k < |r| ensures r[k] == if offset == 0 then 0 else r[k - offset] {
      assert r[k] == job.dst[k - shift];
      if offset != 0 { assert r[k - offset] == job.dst[k - shift - offset]; }
    }
    SelfReferenceIsCopy(before, offset, r);
  }

  /** A match length below 15 needs no extension. */
  lemma LengthInToken(job: Job, hist: seq<byte>, total: nat, ip: nat, nibble: nat, out: seq<byte>)
    requires 2 <= ip <= |job.src| && nibble < 15 && AtOffset(job, hist, total, ip - 2, nibble, out)
    ensures AtCopy(job, hist, total, ip, Le16(job.src[ip - 2], job.src[ip - 1]), nibble + MINMATCH, out)
  {
  }

  method FastLiterals(job: Job, ghost hist: seq<byte>, ghost total: nat, ip0: nat, op0: nat)
      returns (next: Label, ip: nat, op: nat, nibble: nat, length: nat)
    requires job.Valid() && job.start <= op0 && op0 + FASTLOOP_SAFE_DISTANCE <= job.oend && ip0 < |job.src|
    requires AtSeq(job, hist, total, ip0, job.Out(op0))
    modifies job.dst
    ensures OnlyChanges(job.dst, op0, job.oend)
    ensures next in {CopyMatchLabel, LiteralCopy, Failed}
    ensures next == Failed ==> !Conf(job, hist, total)
    ensures next != Failed ==> ip0 < ip && job.start <= op && op + 32 <= job.oend && nibble < 16
    ensures next == LiteralCopy ==>
      && AtLits(job, hist, total, ip, nibble, length, job.Out(op)) && op == op0
    ensures next == CopyMatchLabel ==> AtOffset(job, hist, total, ip, nibble, job.Out(op)) && ip + 2 < |job.src|
  {
    hide AtSeq, AtLits, AtOffset, AtCopy, Conf;
    var src, dst, oend := job.src, job.dst, job.oend;
    ghost var before := job.Out(op0);
    op := op0;
    var ok;
    ok, ip, nibble, length := LiteralLength(job, hist, total, ip0, before);
    if !ok {
      return Failed, ip, op, nibble, length;
    }
    if src[ip0] / 16 == RUN_MASK {
      if op + length + 32 > oend || ip + length + 32 > |src| {
        return LiteralCopy, ip, op, nibble, length;
      }
      WildCopy32In(dst, op, src, ip, op + length);
    } else {
      if ip + 17 > |src| {
        return LiteralCopy, ip, op, nibble, length;
      }
      CopyIn(dst, op, src, ip, 16);
    }
    OutputKept(job, op, old(job.dst[..]));
    OutputPlusLiterals(job, before, op, ip, length);
    LiteralsDone(job, hist, total, ip, nibble, length, before);
    return CopyMatchLabel, ip + length, op + length, nibble, length;
  }

  /**
    LZ4_memcpy_using_offset: a match at distance below 16. At least two 8-byte strides are
    written, so a 4-byte match needs 12 writable bytes after its end, not the 8 the C comment names.
   */
  method CopyUsingOffset(dst: array<byte>, to: nat, end: nat, offset: nat)
    requires offset <= to && to + MINMATCH <= end && end + 12 <= dst.Length
    modifies dst
    ensures OnlyChanges(dst, to, end + 12)
    ensures Repeats(dst, to, end, offset)
    ensures offset in {1, 2, 4} ==> OnlyChanges(dst, to, end + 8)
    ensures offset !in {1, 2, 4} ==> Repeats(dst, to, WildEnd(to + 8, end, 8), offset)
    ensures offset !in {1, 2, 4} ==> (WildEnd(to + 8, end, 8) > end + 8 <==> end < to + 8)
  {
    if offset == 1 || offset == 2 || offset == 4 {
      CopyPattern(dst, to, end, offset);
    } else {
      StrideEnd(to, end);
      CopyStrides(dst, to, end, offset);
    }
  }

  /** The second stride starts 8 bytes behind the first one, also where the match has ended by then. */
  lemma StrideEnd(to: nat, end: nat)
    requires to + MINMATCH <= end
    ensures end <= WildEnd(to + 8, end, 8) <= end + 12
    ensures WildEnd(to + 8, end, 8) > end + 8 <==> end < to + 8
  {
  }

  /** Eight bytes by themselves, then strides of eight. */
  method CopyStrides(dst: array<byte>, to: nat, end: nat, offset: nat)
    requires offset <= to && WildEnd(to + 8, end, 8) <= dst.Length
    modifies dst
    ensures OnlyChanges(dst, to, WildEnd(to + 8, end, 8))
    ensures Repeats(dst, to, WildEnd(to + 8, end, 8), offset)
  {
    hide WildEnd;
    var from;
    if offset < 8 {
      from := SpreadShortOffset(dst, to, offset);
    } else {
      CopyWithin(dst, to, to - offset, 8);
      from := to - offset + 8;
    }
    WildCopy8Within(dst, to + 8, from, end);
    if offset < 8 {
      ContinuedPeriod(dst, to, WildEnd(to + 8, end, 8), offset, to + 8 - from);
    }
  }

  /** The cases whose period divides 8: one 8-byte pattern is laid down over and over. */
  method CopyPattern(dst: array<byte>, to: nat, end: nat, offset: nat)
    requires offset in {1, 2, 4} && offset <= to && to + MINMATCH <= end && end + 8 <= dst.Length
    modifies dst
    ensures OnlyChanges(dst, to, end + 8)
    ensures Repeats(dst, to, end, offset)
  {
    var b := dst[to - offset..to];
    var v := MakePattern(offset, b);
    assert forall k :: to - offset <= k < to ==> dst[k] == b[k - (to - offset)] == v[8 + k - to];
    LayPattern(dst, to, v, offset);
    var d := to + 8;
    while d < end
      invariant to + 8 <= d < end + 8
      invariant OnlyChanges(dst, to, d)
      invariant forall k :: d - offset <= k < d ==> dst[k] == v[8 + k - d]
      invariant Repeats(dst, to, d, offset)
    {
      LayPattern(dst, d, v, offset);
      d := d + 8;
    }
  }

  /** Eight bytes of the pattern behind a place that already ends with its period. */
  method LayPattern(dst: array<byte>, d: nat, v: seq<byte>, offset: nat)
    requires offset in {1, 2, 4} && offset <= d && d + 8 <= dst.Length && |v| == 8
    requires forall i :: offset <= i < 8 ==> v[i] == v[i - offset]
    requires forall i :: 0 <= i < offset ==> v[i] == v[8 - offset + i]
    requires forall k :: d - offset <= k < d ==> dst[k] == v[8 + k - d]
    modifies dst
    ensures OnlyChanges(dst, d, d + 8)
    ensures Repeats(dst, d, d + 8, offset)
    ensures forall k :: d + 8 - offset <= k < d + 8 ==> dst[k] == v[k - d]
  {
    CopyIn(dst, d, v, 0, 8);
    forall k | d <= k < d + 8 ensures dst[k] == dst[k - offset] {
      var i := k - d;
      assert i < offset ==> v[i] == v[8 - offset + i] == dst[k - offset];
    }
  }

  /** An 8-byte pattern of period `offset`, whether laid behind itself or behind its source. */
  method MakePattern(offset: nat, b: seq<byte>) returns (v: seq<byte>)
    requires offset in {1, 2, 4} && |b| == offset
    ensures |v| == 8
    ensures forall i :: offset <= i < 8 ==> v[i] == v[i - offset]
    ensures forall i :: 0 <= i < offset ==> v[i] == v[8 - offset + i] && v[i] == b[i]
  {
    if offset == 1 {
      v := [b[0], b[0], b[0], b[0], b[0], b[0], b[0], b[0]];
    } else if offset == 2 {
      v := [b[0], b[1], b[0], b[1], b[0], b[1], b[0], b[1]];
    } else {
      v := [b[0], b[1], b[2], b[3], b[0], b[1], b[2], b[3]];
    }
  }

  // ---------- matches that start in an external dictionary ----------

  /** Copies a match that starts in the dictionary, and may run on into the start of the prefix. */
  method ExtDictCopy(job: Job, op: nat, offset: nat, len: nat)
    requires job.Valid() && job.mode == UsingExtDict && job.start <= op && op + len <= job.oend
    requires op - offset < job.lowPrefix <= op - offset + |job.ext|
    modifies job.dst
    ensures OnlyChanges(job.dst, op, op + len)
    ensures job.Out(op + len) == CopyMatch(old(job.Out(op)), offset, len)
  {
    var dst, ext, low := job.dst, job.ext, job.Low();
    ghost var before := job.Out(op);
    var copySize := low - (op - offset);
    if len <= copySize {
      CopyIn(dst, op, ext, |ext| - copySize, len);
    } else {
      var restSize := len - copySize;
      CopyIn(dst, op, ext, |ext| - copySize, copySize);
      var op1 := op + copySize;
      if restSize > op1 - low {
        CopyForward(dst, op1, low, op1 + restSize);
      } else {
        CopyWithin(dst, op1, low, restSize);
      }
    }
    OutputPlusExtMatch(job, before, op, offset, len);
  }

  lemma OutputPlusExtMatch(job: Job, before: seq<byte>, op: nat, offset: nat, len: nat)
    requires job.Valid() && job.lowPrefix >= 0 && job.start <= op && op + len <= job.oend
    requires op - offset < job.lowPrefix <= op - offset + |job.ext|
    requires job.Out(op) == before
    requires forall k :: op <= k < Min(op + len, job.lowPrefix + offset) ==>
      job.dst[k] == job.ext[k - offset - job.lowPrefix + |job.ext|]
    requires forall k :: Max(op, job.lowPrefix + offset) <= k < op + len ==> job.dst[k] == job.dst[k - offset]
    ensures job.Out(op + len) == CopyMatch(before, offset, len)
  {
    var r := job.Out(op + len);
    var shift := |job.ext| - job.Low();
    OutputPrefix(job, op, op + len);
    forall k | |before| <= k < |r| ensures r[k] == r[k - offset] {
      var d := k - shift;
      assert r[k] == job.dst[d];
      if d - offset < job.lowPrefix {
        assert r[k - offset] == job.ext[k - offset];
      } else {
        assert r[k - offset] == job.dst[d - offset];
      }
    }
    SelfReferenceIsCopy(before, offset, r);
  }

  // ---------- the match half of the fast loop ----------

  /** Match length, once the offset is known. `ip` stands behind the offset. */
  method MatchLength(job: Job, ghost hist: seq<byte>, ghost total: nat, ip0: nat, nibble: nat, ghost out: seq<byte>)
      returns (ok: bool, ip: nat, length: nat)
    requires job.Valid() && nibble < 16 && 2 <= ip0 < |job.src|
    requires AtOffset(job, hist, total, ip0 - 2, nibble, out)
    ensures ok ==> ip0 <= ip < |job.src| && (nibble != ML_MASK ==> length == nibble + MINMATCH) && length >= MINMATCH
    ensures ok ==> AtCopy(job, hist, total, ip, Le16(job.src[ip0 - 2], job.src[ip0 - 1]), length, out)
    ensures !ok ==> !Conf(job, hist, total)
  {
    var src := job.src;
    hide AtOffset, AtCopy, Conf;
    ip, length := ip0, nibble;
    if length == ML_MASK {
      var extra, next, error := ReadVariableLength(src, ip, |src| - LASTLITERALS + 1, false);
      MatchLengthRead(job, hist, total, ip0, next, extra, out);
      if error != Ok {
        return false, next, length;
      }
      ip, length := next, length + extra;
    }
    ok, length := true, length + MINMATCH;
    if nibble != ML_MASK {
      LengthInToken(job, hist, total, ip0, nibble, out);
    }
  }

  lemma MatchLengthExact(job: Job, hist: seq<byte>, total: nat, ip0: nat, nibble: nat, out: seq<byte>)
    requires 2 <= ip0 <= |job.src| && AtOffset(job, hist, total, ip0 - 2, nibble, out)
    ensures Conf(job, hist, total) ==>
      var f := ReadLength(job.src, ip0, nibble, true);
      && f.Some? && f.value.value < WRAP
      && ConformsCopy(job.src, f.value.next, Le16(job.src[ip0 - 2], job.src[ip0 - 1]), f.value.value + MINMATCH, |out|,
        total)
      && |job.src| - f.value.next >= 1 + LASTLITERALS
  {
    if Conf(job, hist, total) {
      var f := ReadLength(job.src, ip0, nibble, true).value;
      assert ConformsCopy(job.src, f.next, Le16(job.src[ip0 - 2], job.src[ip0 - 1]), f.value + MINMATCH, |out|, total);
      ConformingTail(job.src, f.next, |out| + f.value + MINMATCH, total);
    }
  }

  lemma MatchLengthRead(job: Job, hist: seq<byte>, total: nat, ip0: nat, ip: nat, extra: nat, out: seq<byte>)
    requires 2 <= ip0 < ip <= |job.src| && AtOffset(job, hist, total, ip0 - 2, 15, out)
    requires AllFull(job.src, ip0, ip - 1) && extra == (255 * (ip - 1 - ip0) + job.src[ip - 1]) % WRAP
    ensures ip >= |job.src| - LASTLITERALS + 1 ==> !Conf(job, hist, total)
    ensures job.src[ip - 1] != 255 ==>
      AtCopy(job, hist, total, ip, Le16(job.src[ip0 - 2], job.src[ip0 - 1]), 15 + extra + MINMATCH, out)
  {
    MatchLengthExact(job, hist, total, ip0, 15, out);
    if job.src[ip - 1] != 255 {
      CompleteExtension(job.src, ip0, ip);
      assert ReadLength(job.src, ip0, 15, false) == Some(Field(15 + extra, ip));
    } else {
      UnfinishedExtension(job.src, ip0, ip);
    }
  }

  method FastMatch(job: Job, ghost hist: seq<byte>, ghost total: nat, ip0: nat, op0: nat, nibble: nat)
      returns (next: Label, ip: nat, op: nat, offset: nat, length: nat)
    requires job.Valid() && job.start <= op0 <= job.oend && nibble < 16 && ip0 + 2 < |job.src|
    requires AtOffset(job, hist, total, ip0, nibble, job.Out(op0))
    modifies job.dst
    ensures OnlyChanges(job.dst, op0, job.oend)
    ensures next in {TokenLabel, MatchCopy, Failed}
    ensures next == Failed ==> !Conf(job, hist, total)
    ensures next != Failed ==> ip0 < ip < |job.src| && job.start <= op <= job.oend
    ensures next == MatchCopy ==>
      && op == op0 && AtCopy(job, hist, total, ip, offset, length, job.Out(op)) && offset <= DISTANCE_MAX
      && length >= MINMATCH
    ensures next == TokenLabel ==> op + FASTLOOP_SAFE_DISTANCE < job.oend && AtSeq(job, hist, total, ip, job.Out(op))
  {
    hide AtSeq, AtLits, AtOffset, AtCopy, Conf;
    var src, dst, oend := job.src, job.dst, job.oend;
    ghost var before := job.Out(op0);
    op := op0;
    offset := Le16(src[ip0], src[ip0 + 1]);
    length := nibble;
    ip := ip0 + 2;
    var ok;
    if nibble == ML_MASK && job.OffsetOutside(op, offset) {
      OffsetInside(job, op, offset);
      MatchLengthExact(job, hist, total, ip, nibble, before);
      return Failed, ip, op, offset, length;
    }
    ok, ip, length := MatchLength(job, hist, total, ip, nibble, before);
    if !ok {
      return Failed, ip, op, offset, length;
    }
    if op + length + FASTLOOP_SAFE_DISTANCE >= oend {
      return MatchCopy, ip, op, offset, length;
    }
    ok := FastCopyMatch(job, op, offset, length, nibble != ML_MASK);
    if !ok {
      OffsetTooFar(job, hist, total, ip, offset, length, before);
      return Failed, ip, op, offset, length;
    }
    CopyDone(job, hist, total, ip, offset, length, before);
    return TokenLabel, ip, op + length, offset, length;
  }

  /** The copies of the fast loop, for a match that ends more than 64 bytes before the end of the window. */
  method FastCopyMatch(job: Job, op: nat, offset: nat, length: nat, inToken: bool) returns (ok: bool)
    requires job.Valid() && job.start <= op && op + length + FASTLOOP_SAFE_DISTANCE < job.oend
    requires offset <= DISTANCE_MAX && length >= MINMATCH && (inToken ==> length <= 18)
    modifies job.dst
    ensures OnlyChanges(job.dst, op, job.oend)
    ensures !ok ==> offset > |old(job.Out(op))|
    ensures ok ==> offset <= |old(job.Out(op))| && job.Out(op + length) == CopyMatch(old(job.Out(op)), offset, length)
  {
    var dst := job.dst;
    ghost var before := job.Out(op);
    OffsetInside(job, op, offset);
    if inToken && (job.mode == WithPrefix64k || op - offset >= job.lowPrefix) && offset >= 8 {
      CopyEighteen(dst, op, offset);
    } else {
      if job.OffsetOutside(op, offset) {
        return false;
      }
      if job.mode == UsingExtDict && op - offset < job.lowPrefix {
        ExtDictCopy(job, op, offset, length);
        return true;
      }
      if offset < 16 {
        CopyUsingOffset(dst, op, op + length, offset);
      } else {
        WildCopy32Within(dst, op, op - offset, op + length);
      }
    }
    OutputKept(job, op, old(job.dst[..]));
    OutputPlusMatch(job, before, op, offset, length);
    return true;
  }

  /** Three copies that cover any match of at most 18 bytes at distance 8 or more. */
  method CopyEighteen(dst: array<byte>, op: nat, offset: nat)
    requires 8 <= offset <= op && op + 18 <= dst.Length
    modifies dst
    ensures OnlyChanges(dst, op, op + 18)
    ensures Repeats(dst, op, op + 18, offset)
  {
    CopyWithin(dst, op, op - offset, 8);
    CopyWithin(dst, op + 8, op - offset + 8, 8);
    CopyWithin(dst, op + 16, op - offset + 16, 2);
  }

  method FastLoop(job: Job, ghost hist: seq<byte>, ghost total: nat)
      returns (next: Label, ip: nat, op: nat, nibble: nat, offset: nat, length: nat)
    requires job.Valid() && job.start + FASTLOOP_SAFE_DISTANCE <= job.oend && |job.src| > 0
    requires AtSeq(job, hist, total, 0, job.Out(job.start))
    modifies job.dst
    ensures OnlyChanges(job.dst, job.start, job.oend)
    ensures next in {LiteralCopy, MatchCopy, Failed}
    ensures next == Failed ==> !Conf(job, hist, total)
    ensures next != Failed ==> job.start <= op && op + MFLIMIT <= job.oend && nibble < 16
    ensures next == LiteralCopy ==> AtLits(job, hist, total, ip, nibble, length, job.Out(op))
    ensures next == MatchCopy ==>
      && AtCopy(job, hist, total, ip, offset, length, job.Out(op)) && ip < |job.src| && offset <= DISTANCE_MAX
      && length >= MINMATCH
  {
    hide AtSeq, AtLits, AtOffset, AtCopy, Conf;
    ip, op, offset := 0, job.start, 0;
    while true
      invariant ip < |job.src| && job.start <= op && op + FASTLOOP_SAFE_DISTANCE <= job.oend
      invariant OnlyChanges(job.dst, job.start, job.oend)
      invariant AtSeq(job, hist, total, ip, job.Out(op))
      decreases |job.src| - ip
    {
      next, ip, op, nibble, length := FastLiterals(job, hist, total, ip, op);
      if next != CopyMatchLabel {
        return next, ip, op, nibble, offset, length;
      }
      next, ip, op, offset, length := FastMatch(job, hist, total, ip, op, nibble);
      if next != TokenLabel {
        return next, ip, op, nibble, offset, length;
      }
    }
  }

  // ---------- the safe loop ----------

  /** History and window agree in size. */
  ghost predicate Fits(job: Job, hist: seq<byte>) {
    job.Valid() && |hist| == |job.ext| + job.start - job.Low()
  }

  /** The decoder may stop here with everything up to `op` as its result. */
  ghost predicate Complete(job: Job, hist: seq<byte>, total: nat, op: nat, out: seq<byte>) {
    if job.partial then
      Conf(job, hist, total) ==>
        && Decode(job.src, hist, false).Some? && out <= Decode(job.src, hist, false).value
        && (op == job.oend || |out| == total)
    else
      && Decode(job.src, hist, false) == Some(out)
      && (Conf(job, hist, total) ==> |out| == total)
  }

  /** The only reasons to fail: the block is not conforming, or (full decoding) the window is too small. */
  ghost predicate MayFail(job: Job, hist: seq<byte>, total: nat) {
    !Conf(job, hist, total) || (!job.partial && total - |hist| > job.oend - job.start)
  }

  /** From a token: the shortcut when there is room on both sides, else the literal length. */
  method SafeToken(job: Job, ghost hist: seq<byte>, ghost total: nat, ip0: nat, op0: nat)
      returns (next: Label, ip: nat, op: nat, nibble: nat, length: nat)
    requires job.Valid() && job.start <= op0 <= job.oend && ip0 < |job.src|
    requires AtSeq(job, hist, total, ip0, job.Out(op0))
    modifies job.dst
    ensures OnlyChanges(job.dst, op0, job.oend)
    ensures next in {TokenLabel, LiteralCopy, CopyMatchLabel, Failed}
    ensures next == Failed ==> !Conf(job, hist, total)
    ensures next != Failed ==> ip0 < ip <= |job.src| && job.start <= op <= job.oend && nibble < 16
    ensures next == TokenLabel ==> ip < |job.src| && AtSeq(job, hist, total, ip, job.Out(op))
    ensures next == LiteralCopy ==> AtLits(job, hist, total, ip, nibble, length, job.Out(op))
    ensures next == CopyMatchLabel ==>
      2 <= ip < |job.src| && op + MFLIMIT <= job.oend && AtOffset(job, hist, total, ip - 2, nibble, job.Out(op))
  {
    hide AtSeq, AtLits, AtOffset, AtCopy, Conf;
    var src, dst := job.src, job.dst;
    ghost var before := job.Out(op0);
    op := op0;
    var ok;
    ok, ip, nibble, length := LiteralLength(job, hist, total, ip0, before);
    if src[ip0] / 16 != RUN_MASK && ip + 16 < |src| && op + 32 <= job.oend {
      CopyIn(dst, op, src, ip, 16);
      OutputKept(job, op, old(job.dst[..]));
      OutputPlusLiterals(job, before, op, ip, length);
      LiteralsDone(job, hist, total, ip, nibble, length, before);
      ip, op := ip + length, op + length;
      var offset := Le16(src[ip], src[ip + 1]);
      ip := ip + 2;
      if nibble != ML_MASK && offset >= 8 && (job.mode == WithPrefix64k || op - offset >= job.lowPrefix) {
        ShortcutMatch(job, hist, total, ip, op, nibble, offset);
        return TokenLabel, ip, op + nibble + MINMATCH, nibble, length;
      }
      return CopyMatchLabel, ip, op, nibble, length;
    }
    return if ok then LiteralCopy else Failed, ip, op, nibble, length;
  }

  method ShortcutMatch(job: Job, ghost hist: seq<byte>, ghost total: nat, ip: nat, op: nat, nibble: nat, offset: nat)
    requires job.Valid() && job.start <= op && op + 18 <= job.oend && 2 <= ip < |job.src| && nibble < 15
    requires AtOffset(job, hist, total, ip - 2, nibble, job.Out(op))
      && offset == Le16(job.src[ip - 2], job.src[ip - 1]) >= 8
    requires job.mode == WithPrefix64k || op - offset >= job.lowPrefix
    modifies job.dst
    ensures OnlyChanges(job.dst, op, job.oend)
    ensures AtSeq(job, hist, total, ip, job.Out(op + nibble + MINMATCH))
  {
    hide AtSeq, AtLits, AtOffset, AtCopy, Conf;
    ghost var before := job.Out(op);
    OffsetInside(job, op, offset);
    CopyEighteen(job.dst, op, offset);
    OutputKept(job, op, old(job.dst[..]));
    OutputPlusMatch(job, before, op, offset, nibble + MINMATCH);
    LengthInToken(job, hist, total, ip, nibble, before);
    CopyDone(job, hist, total, ip, offset, nibble + MINMATCH, before);
  }

  /** The literals of one sequence; the last sequence ends here, and so may a partial decoding. */
  method SafeLiterals(job: Job, ghost hist: seq<byte>, ghost total: nat, ip0: nat, op0: nat, nibble: nat, len: nat)
      returns (next: Label, ip: nat, op: nat)
    requires Fits(job, hist) && job.start <= op0 <= job.oend && ip0 <= |job.src| && nibble < 16
    requires AtLits(job, hist, total, ip0, nibble, len, job.Out(op0))
    modifies job.dst
    ensures OnlyChanges(job.dst, op0, job.oend)
    ensures next in {CopyMatchLabel, Finished, Failed}
    ensures next == Failed ==> MayFail(job, hist, total)
    ensures next != Failed ==> ip0 <= ip <= |job.src| && job.start <= op <= job.oend
    ensures next == Finished ==> Complete(job, hist, total, op, job.Out(op))
    ensures next == CopyMatchLabel ==>
      && ip0 + 2 <= ip < |job.src| && AtOffset(job, hist, total, ip - 2, nibble, job.Out(op))
      && (!job.partial ==> op + MFLIMIT <= job.oend)
  {
    hide AtLits, AtOffset, Conf, Complete, MayFail;
    var src, dst, oend := job.src, job.dst, job.oend;
    ghost var before := job.Out(op0);
    ip, op := ip0, op0;
    if op + len + MFLIMIT > oend || ip + len + 2 + 1 + LASTLITERALS > |src| {
      var length := len;
      if job.partial {
        if ip + length > |src| {
          length := |src| - ip;
        }
        if op + length > oend {
          length := oend - op;
        }
      } else if ip + length != |src| || op + length > oend {
        LastLiteralsFail(job, hist, total, ip, nibble, len, op, before);
        return Failed, ip, op;
      }
      CopyIn(dst, op, src, ip, length);
      OutputKept(job, op, old(dst[..]));
      OutputPlusLiterals(job, before, op, ip, length);
      if !job.partial || op + length == oend || ip + length + 2 >= |src| {
        LastLiteralsFinish(job, hist, total, ip, nibble, len, length, op, before);
        return Finished, ip + length, op + length;
      }
    } else {
      WildCopy8In(dst, op, src, ip, op + len);
      OutputKept(job, op, old(dst[..]));
      OutputPlusLiterals(job, before, op, ip, len);
    }
    LiteralsDone(job, hist, total, ip, nibble, len, before);
    return CopyMatchLabel, ip + len + 2, op + len;
  }

  lemma LastLiteralsFail(job: Job, hist: seq<byte>, total: nat, ip: nat, nibble: nat, len: nat, op: nat, out: seq<byte>)
    requires Fits(job, hist) && !job.partial && AtLits(job, hist, total, ip, nibble, len, out) && nibble < 16
    requires job.start <= op <= job.oend && |out| == |hist| + op - job.start
    requires ip + len != |job.src| || op + len > job.oend
    requires op + len + MFLIMIT > job.oend || ip + len + 2 + 1 + LASTLITERALS > |job.src|
    ensures MayFail(job, hist, total)
  {
    if Conf(job, hist, total) && ip + len < |job.src| {
      TailAfterLiterals(job.src, ip, nibble, len, |out|, total);
    }
  }

  /** Behind the literals of a sequence that has a match, a conforming block has at least 8 bytes. */
  lemma TailAfterLiterals(src: seq<byte>, ip: nat, nibble: nat, len: nat, n: nat, total: nat)
    requires ip <= |src| && ip + len < |src| && ConformsLits(src, ip, nibble, len, n, total)
    ensures ip + len + 2 + 1 + LASTLITERALS <= |src| && n + len + MFLIMIT <= total
  {
    var k := ip + len;
    assert ConformsOffset(src, k, nibble, n + len, total);
    var f := ReadLength(src, k + 2, nibble, true).value;
    assert ConformsCopy(src, f.next, Le16(src[k], src[k + 1]), f.value + MINMATCH, n + len, total);
    ConformingTail(src, f.next, n + len + f.value + MINMATCH, total);
  }

  lemma LastLiteralsFinish(job: Job, hist: seq<byte>, total: nat, ip: nat, nibble: nat, len: nat, part: nat, op: nat,
      out: seq<byte>)
    requires Fits(job, hist) && AtLits(job, hist, total, ip, nibble, len, out) && nibble < 16
    requires job.start <= op && op + part <= job.oend && part <= len && ip + part <= |job.src|
    requires if job.partial then
        (op + part == job.oend || ip + part + 2 >= |job.src|)
          && (part == len || op + part == job.oend || ip + part == |job.src|)
      else part == len && ip + len == |job.src|
    ensures Complete(job, hist, total, op + part, out + job.src[ip..ip + part])
  {
    if !job.partial {
      LiteralsDone(job, hist, total, ip, nibble, len, out);
    } else if Conf(job, hist, total) {
      ConformingDecodes(job.src, 0, hist, total);
      ConformingIgnoresWidth(job.src, 0, hist, total);
      var full := Decode(job.src, hist, false).value;
      if ip + len < |job.src| {
        TailAfterLiterals(job.src, ip, nibble, len, |out|, total);
        assert out + job.src[ip..ip + len] <= full;
        assert job.src[ip..ip + part] <= job.src[ip..ip + len];
      } else {
        assert full == out + job.src[ip..];
      }
      assert full[..|out|] == out;
      assert full[..|out| + part] == out + job.src[ip..ip + part];
    }
  }

  /** The match copy of the safe loop within one buffer, for a match that may end close to the window's end. */
  method SafeCopyWithin(job: Job, op: nat, offset: nat, len: nat) returns (ok: bool)
    requires job.Valid() && job.start <= op && op + MFLIMIT <= job.oend && len >= MINMATCH
    requires job.Low() + offset <= op
    modifies job.dst
    ensures OnlyChanges(job.dst, op, job.oend)
    ensures !ok ==> op + len + LASTLITERALS > job.oend
    ensures ok ==> op + len <= job.oend && Repeats(job.dst, op, op + len, offset)
  {
    var from := FirstEightBytes(job.dst, op, offset);
    ok := RestOfMatch(job.dst, op + 8, from, op + len, job.oend);
    if ok && op + 8 < op + len {
      if offset < 8 {
        ContinuedPeriod(job.dst, op, op + len, offset, op + 8 - from);
      }
    }
  }

  method FirstEightBytes(dst: array<byte>, op: nat, offset: nat) returns (from: nat)
    requires offset <= op && op + 8 <= dst.Length
    modifies dst
    ensures OnlyChanges(dst, op, op + 8)
    ensures Repeats(dst, op, op + 8, offset)
    ensures from <= op && op + 8 - from == if offset < 8 then [8, 8, 8, 9, 8, 10, 12, 14][offset] else offset
  {
    if offset < 8 {
      from := SpreadShortOffset(dst, op, offset);
    } else {
      CopyWithin(dst, op, op - offset, 8);
      from := op - offset + 8;
    }
  }

  method RestOfMatch(dst: array<byte>, op: nat, from: nat, cpy: nat, oend: nat) returns (ok: bool)
    requires from + 8 <= op && op + 4 <= oend <= dst.Length && op <= cpy + 4
    modifies dst
    ensures OnlyChanges(dst, op, oend)
    ensures !ok ==> cpy + LASTLITERALS > oend
    ensures ok ==> cpy <= oend && forall k :: op <= k < cpy ==> dst[k] == dst[k - (op - from)]
  {
    if cpy + MATCH_SAFEGUARD_DISTANCE > oend {
      if cpy + LASTLITERALS > oend {
        return false;
      }
      CopyNearEnd(dst, op, from, cpy, oend);
    } else {
      CopyWithin(dst, op, from, 8);
      if cpy > op + 8 {
        WildCopy8Within(dst, op + 8, from + 8, cpy);
      }
    }
    return true;
  }

  /** The end of a match within 12 bytes of the window's end: strides up to 7 bytes before it, then single bytes. */
  method CopyNearEnd(dst: array<byte>, op0: nat, from0: nat, cpy: nat, oend: nat)
    requires from0 + 8 <= op0 && op0 <= oend <= dst.Length && cpy + LASTLITERALS <= oend
    modifies dst
    ensures OnlyChanges(dst, op0, oend)
    ensures forall k :: op0 <= k < cpy ==> dst[k] == dst[k - (op0 - from0)]
  {
    var op, from := op0, from0;
    var oCopyLimit := oend - 7;
    if op < oCopyLimit {
      WildCopy8Within(dst, op, from, oCopyLimit);
      from := from + oCopyLimit - op;
      op := oCopyLimit;
    }
    if op < cpy {
      CopyForward(dst, op, from, cpy);
    }
  }

  method SafeMatch(job: Job, ghost hist: seq<byte>, ghost total: nat, ip: nat, op0: nat, offset: nat, len: nat)
      returns (next: Label, op: nat)
    requires Fits(job, hist) && job.start <= op0 <= job.oend && ip < |job.src| && offset <= DISTANCE_MAX
      && len >= MINMATCH
    requires !job.partial ==> op0 + MFLIMIT <= job.oend
    requires AtCopy(job, hist, total, ip, offset, len, job.Out(op0))
    modifies job.dst
    ensures OnlyChanges(job.dst, op0, job.oend)
    ensures next in {TokenLabel, Finished, Failed}
    ensures next == Failed ==> MayFail(job, hist, total)
    ensures next != Failed ==> job.start <= op <= job.oend
    ensures next == TokenLabel ==> AtSeq(job, hist, total, ip, job.Out(op))
    ensures next == Finished ==> Complete(job, hist, total, op, job.Out(op))
  {
    hide AtCopy, AtSeq, Conf, Complete, MayFail;
    var dst, oend := job.dst, job.oend;
    ghost var before := job.Out(op0);
    op := op0;
    OffsetInside(job, op, offset);
    if job.OffsetOutside(op, offset) {
      OffsetTooFar(job, hist, total, ip, offset, len, before);
      NotConforming(job, hist, total);
      return Failed, op;
    }
    if job.mode == UsingExtDict && op - offset < job.lowPrefix {
      if op + len + LASTLITERALS > oend {
        MatchTooLong(job, hist, total, ip, op, offset, len, before);
        return Failed, op;
      }
      ExtDictCopy(job, op, offset, len);
      CopyDone(job, hist, total, ip, offset, len, before);
      return TokenLabel, op + len;
    }
    if job.partial && op + len + MATCH_SAFEGUARD_DISTANCE > oend {
      next, op := PartialMatch(job, hist, total, ip, op, offset, len);
      return next, op;
    }
    var ok := SafeCopyWithin(job, op, offset, len);
    if !ok {
      MatchTooLong(job, hist, total, ip, op, offset, len, before);
      return Failed, op;
    }
    OutputKept(job, op, old(dst[..]));
    OutputPlusMatch(job, before, op, offset, len);
    CopyDone(job, hist, total, ip, offset, len, before);
    return TokenLabel, op + len;
  }

  lemma NotConforming(job: Job, hist: seq<byte>, total: nat)
    requires !Conf(job, hist, total)
    ensures MayFail(job, hist, total)
  {
  }

  lemma MatchTooLong(job: Job, hist: seq<byte>, total: nat, ip: nat, op: nat, offset: nat, len: nat, out: seq<byte>)
    requires Fits(job, hist) && !job.partial && AtCopy(job, hist, total, ip, offset, len, out)
    requires job.start <= op && |out| == |hist| + op - job.start && op + len + LASTLITERALS > job.oend
    ensures MayFail(job, hist, total)
  {
  }

  /** Partial decoding: a match that may end anywhere in the window is copied byte by byte, up to its end. */
  method PartialMatch(job: Job, ghost hist: seq<byte>, ghost total: nat, ip: nat, op0: nat, offset: nat, len: nat)
      returns (next: Label, op: nat)
    requires Fits(job, hist) && job.partial && job.start <= op0 <= job.oend && job.Low() + offset <= op0
      && offset <= |job.Out(op0)|
    requires AtCopy(job, hist, total, ip, offset, len, job.Out(op0))
    modifies job.dst
    ensures OnlyChanges(job.dst, op0, job.oend)
    ensures next in {TokenLabel, Finished} && job.start <= op <= job.oend
    ensures next == TokenLabel ==> AtSeq(job, hist, total, ip, job.Out(op))
    ensures next == Finished ==> Complete(job, hist, total, op, job.Out(op))
  {
    hide AtCopy, AtSeq, Conf, Complete;
    var dst, oend := job.dst, job.oend;
    ghost var before := job.Out(op0);
    op := op0;
    var mlen := Min(len, oend - op);
    if mlen > offset {
      CopyForward(dst, op, op - offset, op + mlen);
    } else {
      CopyWithin(dst, op, op - offset, mlen);
    }
    OutputKept(job, op, old(dst[..]));
    if offset > 0 {
      OutputPlusMatch(job, before, op, offset, mlen);
    }
    ghost var out := job.Out(op + mlen);
    PartialMatchDone(job, hist, total, ip, op, offset, len, mlen, before, out);
    return if op + mlen == oend then Finished else TokenLabel, op + mlen;
  }

  lemma PartialMatchDone(job: Job, hist: seq<byte>, total: nat, ip: nat, op: nat, offset: nat, len: nat, mlen: nat,
      before: seq<byte>, out: seq<byte>)
    requires Fits(job, hist) && job.partial && AtCopy(job, hist, total, ip, offset, len, before)
    requires op + mlen <= job.oend && mlen == Min(len, job.oend - op) && offset <= |before|
    requires |out| == |before| + mlen && (offset > 0 ==> out == CopyMatch(before, offset, mlen))
    ensures op + mlen == job.oend ==> Complete(job, hist, total, op + mlen, out)
    ensures op + mlen < job.oend ==> AtSeq(job, hist, total, ip, out)
  {
    if Conf(job, hist, total) {
      CopyDone(job, hist, total, ip, offset, len, before);
      ConformingDecodes(job.src, 0, hist, total);
      ConformingIgnoresWidth(job.src, 0, hist, total);
      CopyMatchPrefix(before, offset, mlen, len);
    }
  }

  /** What holds at each label of the safe loop. */
  ghost predicate AtLabel(job: Job, hist: seq<byte>, total: nat, at: Label, ip: nat, op: nat, nibble: nat, offset: nat,
      len: nat)
    requires Fits(job, hist) && job.start <= op <= job.oend
    reads job.dst
  {
    if at == Failed then MayFail(job, hist, total) else
    ip <= |job.src| && nibble < 16 &&
    match at
    case TokenLabel => ip < |job.src| && AtSeq(job, hist, total, ip, job.Out(op))
    case LiteralCopy => AtLits(job, hist, total, ip, nibble, len, job.Out(op))
    case CopyMatchLabel => 2 <= ip < |job.src| && AtOffset(job, hist, total, ip - 2, nibble, job.Out(op))
      && (!job.partial ==> op + MFLIMIT <= job.oend)
    case MatchCopy => ip < |job.src| && AtCopy(job, hist, total, ip, offset, len, job.Out(op)) && MINMATCH <= len
      && offset <= DISTANCE_MAX && (!job.partial ==> op + MFLIMIT <= job.oend)
    case Finished => Complete(job, hist, total, op, job.Out(op))
  }

  function Rank(at: Label): nat {
    match at
    case CopyMatchLabel => 2
    case MatchCopy => 1
    case _ => 0
  }

  method SafeLoop(job: Job, ghost hist: seq<byte>, ghost total: nat, at0: Label, ip0: nat, op0: nat, nibble0: nat,
      offset0: nat, len0: nat)
      returns (ok: bool, ip: nat, op: nat)
    requires Fits(job, hist) && job.start <= op0 <= job.oend
    requires AtLabel(job, hist, total, at0, ip0, op0, nibble0, offset0, len0)
    modifies job.dst
    ensures OnlyChanges(job.dst, job.start, job.oend)
    ensures job.start <= op <= job.oend
    ensures ok ==> Complete(job, hist, total, op, job.Out(op))
    ensures !ok ==> MayFail(job, hist, total)
  {
    hide AtSeq, AtLits, AtOffset, AtCopy, Conf, Complete, MayFail;
    var at, nibble, offset, len := at0, nibble0, offset0, len0;
    ip, op := ip0, op0;
    while at != Finished && at != Failed
      invariant job.start <= op <= job.oend
      invariant OnlyChanges(job.dst, job.start, job.oend)
      invariant AtLabel(job, hist, total, at, ip, op, nibble, offset, len)
      decreases at != Finished && at != Failed, |job.src| - ip, Rank(at)
    {
      at, ip, op, nibble, offset, len := SafeStep(job, hist, total, at, ip, op, nibble, offset, len);
    }
    ok := at == Finished;
  }

  method SafeStep(job: Job, ghost hist: seq<byte>, ghost total: nat, at0: Label, ip0: nat, op0: nat, nibble0: nat,
      offset0: nat, len0: nat)
      returns (at: Label, ip: nat, op: nat, nibble: nat, offset: nat, len: nat)
    requires Fits(job, hist) && job.start <= op0 <= job.oend && at0 != Finished && at0 != Failed
    requires AtLabel(job, hist, total, at0, ip0, op0, nibble0, offset0, len0)
    modifies job.dst
    ensures OnlyChanges(job.dst, op0, job.oend)
    ensures job.start <= op <= job.oend && AtLabel(job, hist, total, at, ip, op, nibble, offset, len)
    ensures at in {Finished, Failed} || ip > ip0 || (ip == ip0 && Rank(at) < Rank(at0))
  {
    hide AtSeq, AtLits, AtOffset, AtCopy, Conf, Complete, MayFail;
    at, ip, op, nibble, offset, len := at0, ip0, op0, nibble0, offset0, len0;
    match at0 {
      case TokenLabel =>
        at, ip, op, nibble, len := SafeToken(job, hist, total, ip0, op0);
      case LiteralCopy =>
        at, ip, op := SafeLiterals(job, hist, total, ip0, op0, nibble, len);
      case CopyMatchLabel =>
        var ok;
        offset := Le16(job.src[ip - 2], job.src[ip - 1]);
        ok, ip, len := MatchLength(job, hist, total, ip, nibble, job.Out(op));
        at := if ok then MatchCopy else Failed;
      case MatchCopy =>
        at, op := SafeMatch(job, hist, total, ip, op, offset, len);
    }
    if at == Failed {
      if (at0 == TokenLabel || at0 == CopyMatchLabel) { NotConforming(job, hist, total); }
      op := op0;
    }
  }

  // ---------- LZ4_decompress_generic and its callers ----------

  /** Errors are negative and tell how much input had been read. */
  function ErrorCode(ip: int): int {
    -ip - 1
  }

  lemma EmptyWindow(job: Job, hist: seq<byte>, total: nat)
    requires Conf(job, hist, total)
    ensures total >= |hist| && |job.src| > 0
    ensures total == |hist| ==> job.src == [0]
    ensures Decode(job.src, hist, false).Some? && |Decode(job.src, hist, false).value| == total
  {
    ConformingDecodes(job.src, 0, hist, total);
    ConformingIgnoresWidth(job.src, 0, hist, total);
    ConformsStep(job.src, 0, |hist|, total);
  }

  /** The block that is a single zero token decodes to nothing. */
  lemma EmptyBlock(hist: seq<byte>, exact: bool)
    ensures Decode([0], hist, exact) == Some(hist)
  {
    var src: seq<byte> := [0];
    assert DecodeSeq(src, 0, hist, exact) == DecodeLits(src, 1, 0, 0, hist, exact);
    assert hist + src[1..] == hist;
  }

  /**
    The whole decoder, with or without its fast loop. A non-negative result is the number of
    bytes of the reference decoding, whatever the input; a conforming block that fits is never
    refused; partial decoding yields a prefix. Nothing outside the window is written.
   */
  method DecompressGeneric(job: Job, fastLoop: bool, ghost hist: seq<byte>, ghost total: nat) returns (r: int)
    requires Fits(job, hist) && job.Out(job.start) == hist
    modifies job.dst
    ensures OnlyChanges(job.dst, job.start, job.oend)
    ensures r <= job.oend - job.start
    ensures !job.partial && r >= 0 ==> Decode(job.src, hist, false) == Some(job.Out(job.start + r))
    ensures !job.partial && Conf(job, hist, total) && total - |hist| <= job.oend - job.start ==> r == total - |hist|
    ensures job.partial && Conf(job, hist, total) ==>
      && r == Min(job.oend - job.start, total - |hist|)
      && Decode(job.src, hist, false).Some? && job.Out(job.start + r) <= Decode(job.src, hist, false).value
  {
    hide DecodeSeq, ConformsSeq;
    if Conf(job, hist, total) {
      EmptyWindow(job, hist, total);
    }
    if job.start == job.oend {
      if job.partial {
        return 0;
      }
      if |job.src| == 1 && job.src[0] == 0 {
        EmptyBlock(hist, false);
        assert job.src == [0];
        return 0;
      }
      return -1;
    }
    if |job.src| == 0 {
      return -1;
    }
    var at, ip, op, nibble, offset, len := TokenLabel, 0, job.start, 0, 0, 0;
    if fastLoop && job.oend - op >= FASTLOOP_SAFE_DISTANCE {
      at, ip, op, nibble, offset, len := FastLoop(job, hist, total);
    }
    if at == Failed {
      return ErrorCode(ip);
    }
    var ok;
    ok, ip, op := SafeLoop(job, hist, total, at, ip, op, nibble, offset, len);
    r := if ok then op - job.start else ErrorCode(ip);
  }

  /** LZ4_decompress_safe */
  method DecompressSafe(src: seq<byte>, dst: array<byte>, start: nat, capacity: nat, fastLoop: bool,
      ghost contentSize: nat)
      returns (r: int)
    requires |src| < 0x8000_0000 && start + capacity <= dst.Length
    modifies dst
    ensures OnlyChanges(dst, start, start + capacity) && r <= capacity
    ensures r >= 0 ==> Decode(src, [], false) == Some(dst[start..start + r])
    ensures contentSize < WRAP && Conforms(src, 0, contentSize) && contentSize <= capacity ==> r == contentSize
  {
    var job := Job(src, dst, start, start + capacity, NoDict, start, [], false);
    assert job.Out(start) == [];
    r := DecompressGeneric(job, fastLoop, [], contentSize);
    assert r >= 0 ==> job.Out(start + r) == dst[start..start + r];
  }

  /** LZ4_decompress_safe_partial */
  method DecompressSafePartial(src: seq<byte>, dst: array<byte>, start: nat, target: nat, capacity: nat, fastLoop: bool,
      ghost contentSize: nat)
      returns (r: int)
    requires |src| < 0x8000_0000 && start + capacity <= dst.Length
    modifies dst
    ensures OnlyChanges(dst, start, start + Min(target, capacity)) && r <= Min(target, capacity)
    ensures contentSize < WRAP && Conforms(src, 0, contentSize) ==>
      && r == Min(Min(target, capacity), contentSize)
      && Decode(src, [], true).Some? && |Decode(src, [], true).value| == contentSize
      && dst[start..start + r] == Decode(src, [], true).value[..r]
  {
    var job := Job(src, dst, start, start + Min(target, capacity), NoDict, start, [], true);
    assert job.Out(start) == [];
    r := DecompressGeneric(job, fastLoop, [], contentSize);
    if contentSize < WRAP && Conforms(src, 0, contentSize) {
      ConformingIgnoresWidth(src, 0, [], contentSize);
      ConformingDecodes(src, 0, [], contentSize);
      assert job.Out(start + r) == dst[start..start + r];
    }
  }

  /**
    LZ4_decompress_safe_usingDict. The history is either the `dictSize` bytes in front of the
    window (`prefix`) or `ext`, elsewhere. Although a long prefix is cut to 64 KB, and a prefix of
    65535 bytes is extended to 64 KB, the result is that of decoding with the whole history.
   */
  method DecompressSafeUsingDict(src: seq<byte>, dst: array<byte>, start: nat, capacity: nat,
                                 prefix: bool, dictSize: nat, ext: seq<byte>, fastLoop: bool,
                                 ghost hist: seq<byte>, ghost contentSize: nat) returns (r: int)
    requires |src| < 0x8000_0000 && start + capacity <= dst.Length
    requires if prefix then dictSize <= start && hist == dst[start - dictSize..start]
             else dictSize == |ext| && hist == ext
    modifies dst
    ensures OnlyChanges(dst, start, start + capacity) && r <= capacity
    ensures r >= 0 ==> Decode(src, hist, false) == Some(hist + dst[start..start + r])
    ensures contentSize < WRAP && Conforms(src, |hist|, contentSize) && contentSize <= capacity ==> r == contentSize
  {
    if dictSize == 0 {
      assert hist == [];
      r := DecompressSafe(src, dst, start, capacity, fastLoop, contentSize);
      assert r >= 0 ==> hist + dst[start..start + r] == dst[start..start + r];
    } else if !prefix {
      r := DecompressForceExtDict(src, dst, start, capacity, ext, fastLoop, contentSize);
    } else if dictSize < DISTANCE_MAX {
      r := DecompressWithSmallPrefix(src, dst, start, capacity, dictSize, fastLoop, hist, contentSize);
    } else {
      r := DecompressWithPrefix64k(src, dst, start, capacity, fastLoop, hist, contentSize);
    }
  }

  /** LZ4_decompress_safe_forceExtDict */
  method DecompressForceExtDict(src: seq<byte>, dst: array<byte>, start: nat, capacity: nat, ext: seq<byte>,
      fastLoop: bool, ghost contentSize: nat) returns (r: int)
    requires |src| < 0x8000_0000 && start + capacity <= dst.Length
    modifies dst
    ensures OnlyChanges(dst, start, start + capacity) && r <= capacity
    ensures r >= 0 ==> Decode(src, ext, false) == Some(ext + dst[start..start + r])
    ensures contentSize < WRAP && Conforms(src, |ext|, contentSize) && contentSize <= capacity ==> r == contentSize
  {
    var job := Job(src, dst, start, start + capacity, UsingExtDict, start, ext, false);
    assert job.Out(start) == ext;
    r := DecompressGeneric(job, fastLoop, ext, |ext| + contentSize);
    assert r >= 0 ==> job.Out(start + r) == ext + dst[start..start + r];
  }

  /** LZ4_decompress_safe_withSmallPrefix */
  method DecompressWithSmallPrefix(src: seq<byte>, dst: array<byte>, start: nat, capacity: nat, dictSize: nat,
      fastLoop: bool, ghost hist: seq<byte>, ghost contentSize: nat) returns (r: int)
    requires |src| < 0x8000_0000 && start + capacity <= dst.Length
    requires dictSize <= start && hist == dst[start - dictSize..start]
    modifies dst
    ensures OnlyChanges(dst, start, start + capacity) && r <= capacity
    ensures r >= 0 ==> Decode(src, hist, false) == Some(hist + dst[start..start + r])
    ensures contentSize < WRAP && Conforms(src, |hist|, contentSize) && contentSize <= capacity ==> r == contentSize
  {
    var job := Job(src, dst, start, start + capacity, NoDict, start - dictSize, [], false);
    assert job.Out(start) == hist;
    r := DecompressGeneric(job, fastLoop, hist, dictSize + contentSize);
    if r >= 0 {
      OutputKept(job, start, old(dst[..]));
      PrefixThenOutput(job, hist, start + r);
    }
  }

  lemma PrefixThenOutput(job: Job, hist: seq<byte>, op: nat)
    requires job.Valid() && job.ext == [] && job.start <= op <= job.oend && job.Out(job.start) == hist
    ensures job.Out(op) == hist + job.dst[job.start..op]
  {
    assert job.dst[job.Low()..op] == job.dst[job.Low()..job.start] + job.dst[job.start..op];
  }

  /** LZ4_decompress_safe_withPrefix64k */
  method DecompressWithPrefix64k(src: seq<byte>, dst: array<byte>, start: nat, capacity: nat, fastLoop: bool,
                                 ghost hist: seq<byte>, ghost contentSize: nat) returns (r: int)
    requires |src| < 0x8000_0000 && start + capacity <= dst.Length
    requires DISTANCE_MAX <= |hist| <= start && hist == dst[start - |hist|..start]
    modifies dst
    ensures OnlyChanges(dst, start, start + capacity) && r <= capacity
    ensures r >= 0 ==> Decode(src, hist, false) == Some(hist + dst[start..start + r])
    ensures contentSize < WRAP && Conforms(src, |hist|, contentSize) && contentSize <= capacity ==> r == contentSize
  {
    var job := Job(src, dst, start, start + capacity, WithPrefix64k, start - 0x1_0000, [], false);
    ghost var seen := job.Out(start);
    if Conforms(src, |hist|, contentSize) {
      ConformsWithHistory(src, 0, |hist|, |seen|, contentSize);
    }
    r := DecompressGeneric(job, fastLoop, seen, |seen| + contentSize);
    if r >= 0 {
      OutputKept(job, start, old(dst[..]));
      PrefixThenOutput(job, seen, start + r);
      assert dst[start - |hist|..start] == hist;
      assert seen == dst[job.Low()..start];
      LongPrefix(src, dst[..], start, start - |hist|, job.Low(), dst[start..start + r]);
    }
  }

  /** Two long prefixes of the same memory give a block the same content. */
  lemma LongPrefix(src: seq<byte>, mem: seq<byte>, start: nat, a: nat, b: nat, out: seq<byte>)
    requires a + DISTANCE_MAX <= start <= |mem| && b + DISTANCE_MAX <= start
    requires Decode(src, mem[b..start], false) == Some(mem[b..start] + out)
    ensures Decode(src, mem[a..start], false) == Some(mem[a..start] + out)
  {
    hide Decode;
    SameSuffix(mem, start, a, b);
    SameWindow(src, mem[a..start], mem[b..start], out);
  }

  /** Two histories that end in the same place of one buffer share their last 65535 bytes. */
  lemma SameSuffix(mem: seq<byte>, end: nat, a: nat, b: nat)
    requires a + DISTANCE_MAX <= end <= |mem| && b + DISTANCE_MAX <= end
    ensures mem[a..end][end - a - DISTANCE_MAX..] == mem[b..end][end - b - DISTANCE_MAX..]
  {
  }

  /** Histories that agree in their last 65535 bytes give the same content. */
  lemma SameWindow(src: seq<byte>, hist: seq<byte>, seen: seq<byte>, out: seq<byte>)
    requires DISTANCE_MAX <= |hist| && DISTANCE_MAX <= |seen|
    requires hist[|hist| - DISTANCE_MAX..] == seen[|seen| - DISTANCE_MAX..]
    requires Decode(src, seen, false) == Some(seen + out)
    ensures Decode(src, hist, false) == Some(hist + out)
  {
    var w := hist[|hist| - DISTANCE_MAX..];
    var a, b := hist[..|hist| - DISTANCE_MAX], seen[..|seen| - DISTANCE_MAX];
    assert hist == a + w && seen == b + w;
    HistoryInFront(src, 0, a, w, false);
    HistoryInFront(src, 0, b, w, false);
    var z := Decode(src, w, false).value;
    assert b + z == b + (w + out);
    assert z == (b + z)[|b|..] == (b + (w + out))[|b|..] == w + out;
    assert hist + out == a + (w + out);
  }
}
