/**
  The frame compressor: input is collected in tmpBuff until a block is full, blocks that do not
  shrink are stored raw, and linked blocks refer to the 64 KB before them, which are kept in
  tmpBuff when they cannot be found in the caller's buffer. An address is an integer; tmpBuff
  occupies the addresses from 0 on.
 */
module FrameCompressor {
  import opened Bytes
  import opened FrameFormat
  import opened FrameReference
  import opened FrameEncoding
  import opened FrameHistory
  import opened Lz4Stream
  import opened Memory
  import opened XxHash32

  /** LZ4F_optimalBSID */
  method OptimalBSID(requested: nat, srcSize: nat) returns (id: nat)
    requires requested <= 7
    ensures id <= Max(requested, 4) && (requested <= 4 ==> id == requested)
    ensures requested > 4 ==> 4 <= id <= requested && (id < requested ==> srcSize <= BlockSize(id))
    ensures requested > 4 ==> forall smaller :: 4 <= smaller < id ==> srcSize > BlockSize(smaller)
  {
    var proposed, maxBlockSize := 4, 0x1_0000;
    while requested > proposed
      invariant 4 <= proposed && (requested > 4 ==> proposed <= requested)
      invariant proposed <= 7 ==> maxBlockSize == BlockSize(proposed)
      invariant forall smaller :: 4 <= smaller < proposed && requested > 4 ==> srcSize > BlockSize(smaller)
    {
      if srcSize <= maxBlockSize {
        return proposed;
      }
      proposed, maxBlockSize := proposed + 1, 4 * maxBlockSize;
    }
    return requested;
  }

  /** `dict`, which ends at the address `dictEnd`, lies in the memory `mem` in front of `at`. */
  predicate EndsAt(mem: seq<byte>, at: nat, dict: seq<byte>, dictEnd: int) {
    dictEnd == at && |dict| <= at <= |mem| && mem[at - |dict|..at] == dict
  }

  lemma StillEndsAt(was: seq<byte>, now: seq<byte>, at: nat, dict: seq<byte>, dictEnd: int)
    requires at <= |was| == |now| && was[..at] == now[..at] && EndsAt(was, at, dict, dictEnd)
    ensures EndsAt(now, at, dict, dictEnd)
  {
    SliceOfPrefix(was, at, at - |dict|, at);
    SliceOfPrefix(now, at, at - |dict|, at);
  }

  class Compressor {
    var info: FrameInfo
    var autoFlush: bool
    var level: int
    /** cStage: a header has been written, blocks may follow. */
    var started: bool
    var maxBlockSize: nat
    var maxBufferSize: nat
    var tmpBuff: array<byte>
    var tmpIn: nat
    var tmpInSize: nat
    var totalInSize: nat
    const xxh: State
    const lz4: Stream
    /** The history was left in the caller's buffer, which stays as it is. */
    ghost var left: bool
    /** What has been written behind the header, what it holds, and all that has been taken in. */
    ghost var blocks: seq<byte>
    ghost var content: seq<byte>
    ghost var input: seq<byte>

    constructor (wordSize: nat)
      requires wordSize == 8 || wordSize == 4
      ensures Sep() && xxh.Valid() && lz4.Valid() && !started && maxBufferSize == tmpBuff.Length == 0
      ensures fresh(tmpBuff) && fresh(xxh) && fresh(xxh.mem) && fresh(lz4) && fresh(lz4.hashTable)
    {
      hide State.Valid, Stream.Valid;
      xxh := new State(0);
      lz4 := new Stream(wordSize);
      tmpBuff := new byte[0];
      info, autoFlush, level, started := FrameInfo(true, false, false, 0, 0, 0), false, 0, false;
      maxBlockSize, maxBufferSize, tmpIn, tmpInSize, totalInSize := 0, 0, 0, 0, 0;
      left, blocks, content, input := false, [], [], [];
    }

    ghost predicate Sep()
      reads `tmpBuff
    {
      && tmpBuff != xxh.mem && tmpBuff as object != lz4.hashTable && xxh.mem as object != lz4.hashTable
      && xxh.mem.Length == 16
    }

    ghost predicate Apart(dst: array<byte>)
      reads `tmpBuff
    {
      dst != tmpBuff && dst != xxh.mem && dst as object != lz4.hashTable
    }

    /** The frame that is being written, before its first block. */
    ghost function Start(): Frame
      reads `info
    {
      Frame(info, [], [], 0)
    }

    /** The blocks written hold the content. */
    ghost predicate Emitted()
      reads `info, `maxBlockSize, `blocks, `content
    {
      info.Valid() && maxBlockSize == info.MaxBlock() && Writes(Start(), blocks, content)
    }

    /** The compression stream's history is an end of what came before. */
    ghost predicate Engine(before: seq<byte>)
      reads `info, lz4, lz4.hashTable
    {
      if info.linked then lz4.Linked() && EndOfHistory(lz4.dict, before) else lz4.Valid()
    }

    /** `n` bytes at `addr` lie apart from the stream's history, or behind it. */
    ghost predicate Clear(addr: int, n: nat)
      reads `info, lz4
    {
      info.linked ==> lz4.dict == [] || addr >= lz4.dictEnd || addr + n < lz4.dictEnd
    }

    function Acceleration(): int
      reads `level
    {
      if level < 0 then -level + 1 else 1
    }

    /** LZ4F_makeBlock with the compression function of the block mode. */
    method MakeBlock(src: seq<byte>, srcAddr: int, dst: array<byte>, d: nat) returns (end: nat)
      requires Sep() && Apart(dst) && Emitted() && Engine(content) && 0 < |src| <= maxBlockSize && Clear(srcAddr, |src|)
      requires d + 4 + |src| + 4 * Bit(info.blockChecksum) <= dst.Length
      modifies `blocks, `content, lz4, lz4.hashTable, dst
      ensures d < end <= d + 4 + |src| + 4 * Bit(info.blockChecksum) && dst[..d] == old(dst[..d])
      ensures Emitted() && Engine(content) && content == old(content) + src && blocks == old(blocks) + dst[d..end]
      ensures info.linked ==>
        lz4.dictEnd == srcAddr + |src| && |lz4.dict| >= |src| && EndOfHistory(lz4.dict, old(lz4.dict) + src)
    {
      hide Writes, BlockFor, StoredBlock, Engine, Clear, Sep, Apart, EndOfHistory;
      SmallBlocks(info);
      var cSize := Compress(src, srcAddr, dst, d + 4);
      var raw := cSize == 0;
      if raw {
        cSize := |src|;
        CopySlice(dst, d + 4, src, 0, cSize);
        assert src[0..cSize] == src;
      }
      end := FinishBlock(raw, cSize, dst, d, dst[d + 4..d + 4 + cSize]);
      assert Writes(Start(), blocks + dst[d..end], content + src) by {
        WriteMore(Start(), blocks, content, dst[d..end], src);
      }
      blocks, content := blocks + dst[d..end], content + src;
    }

    /** LZ4F_compressBlock or LZ4F_compressBlock_continue, with room for one byte less than the source. */
    method Compress(src: seq<byte>, srcAddr: int, dst: array<byte>, d: nat) returns (cSize: nat)
      requires Sep() && Apart(dst) && Engine(content) && 0 < |src| <= 0x40_0000 && Clear(srcAddr, |src|)
        && d + |src| <= dst.Length
      requires |src| <= info.MaxBlock() && info.Valid()
      modifies lz4, lz4.hashTable, dst
      ensures cSize < |src| && dst[..d] == old(dst[..d])
      ensures cSize > 0 ==> Writes(Start().Add(content), StoredBlock(false, dst[d..d + cSize], info.blockChecksum), src)
      ensures Writes(Start().Add(content), StoredBlock(true, src, info.blockChecksum), src)
      ensures Engine(content + src)
      ensures info.linked ==>
        lz4.dictEnd == srcAddr + |src| && |lz4.dict| >= |src| && EndOfHistory(lz4.dict, old(lz4.dict) + src)
    {
      hide Writes, BlockFor, StoredBlock, EndOfHistory, Stream.Linked, Stream.Valid;
      ghost var dict := lz4.dict;
      if info.linked {
        cSize := lz4.CompressFastContinue(src, srcAddr, dst, d, |src| - 1, Acceleration());
        EndGrows(dict, content, lz4.dict, src);
      } else {
        cSize := lz4.CompressFastReset(src, dst, d, |src| - 1, Acceleration());
      }
      BlockMade(true, src, src, dict);
      if cSize > 0 {
        BlockMade(false, dst[d..d + cSize], src, dict);
      }
    }

    /** The block header and the checksum around a payload that is already in place. */
    method FinishBlock(raw: bool, cSize: nat, dst: array<byte>, d: nat, payload: seq<byte>) returns (end: nat)
      requires cSize < RAW_FLAG && d + 4 + cSize + 4 * Bit(info.blockChecksum) <= dst.Length
        && payload == dst[d + 4..d + 4 + cSize]
      modifies dst
      ensures end == d + 4 + cSize + 4 * Bit(info.blockChecksum) && dst[..d] == old(dst[..d])
      ensures dst[d..end] == StoredBlock(raw, payload, info.blockChecksum)
    {
      hide Write32, Hash;
      var head := Write32(cSize + if raw then RAW_FLAG else 0);
      CopySlice(dst, d, head, 0, 4);
      end := d + 4 + cSize;
      assert dst[d..end] == head + payload by {
        SliceOfSuffix(old(dst[..]), d + 4, end);
        SliceOfSuffix(dst[..], d + 4, end);
        Cut(dst[..], d, d + 4, end);
      }
      if info.blockChecksum {
        AppendChecksum(payload, dst, d, end);
        end := end + 4;
      }
    }

    method AppendChecksum(payload: seq<byte>, dst: array<byte>, d: nat, end: nat)
      requires d <= end && end + 4 <= dst.Length
      modifies dst
      ensures dst[..d] == old(dst[..d]) && dst[d..end + 4] == old(dst[d..end]) + Write32(Hash(payload, 0))
    {
      hide Write32, Hash;
      var crc32 := OneShot(payload, 0);
      Put32(crc32, dst, d, end);
    }

    // ---------- input ----------

    /** tmpBuff has its nominal size. */
    ghost predicate Sized()
      reads `maxBufferSize, `tmpBuff
    {
      maxBufferSize <= tmpBuff.Length
    }

    /** The part of Room that does not depend on where tmpIn is. */
    ghost predicate RoomInPrinciple()
      reads `info, `autoFlush, `maxBlockSize, `maxBufferSize, `tmpBuff
    {
      && (Sized() && info.linked ==> maxBufferSize >= WINDOW)
      && (!autoFlush ==> Sized() && (info.linked ==> maxBufferSize >= maxBlockSize + WINDOW))
    }

    /** Room in tmpBuff for the rest of a block behind tmpIn. */
    ghost predicate Room()
      reads `info, `autoFlush, `maxBlockSize, `maxBufferSize, `tmpBuff, `tmpIn, `tmpInSize
    {
      && tmpInSize < maxBlockSize && tmpIn <= tmpBuff.Length && RoomInPrinciple()
      && if autoFlush then tmpInSize == 0 else tmpIn + maxBlockSize <= maxBufferSize
    }

    /** The input that waits in tmpBuff. */
    ghost function Waiting(): seq<byte>
      requires tmpIn + tmpInSize <= tmpBuff.Length || tmpInSize == 0
      reads `tmpIn, `tmpInSize, `tmpBuff, tmpBuff
    {
      if tmpInSize == 0 then [] else tmpBuff[tmpIn..tmpIn + tmpInSize]
    }

    /** The history `dict` lies in front of tmpIn. */
    ghost predicate InTmpBuff(dict: seq<byte>, dictEnd: int)
      reads `info, `tmpIn, `tmpBuff, tmpBuff
    {
      info.linked && dict != [] ==> EndsAt(tmpBuff[..], tmpIn, dict, dictEnd)
    }

    ghost predicate Located()
      reads `info, `tmpIn, `tmpBuff, tmpBuff, lz4`dict, lz4`dictEnd
    {
      InTmpBuff(lz4.dict, lz4.dictEnd)
    }

    /** The history can be found again: in front of tmpIn, or where the caller keeps it. */
    ghost predicate Settled()
      reads `left, `autoFlush, `info, `tmpIn, `tmpBuff, tmpBuff, lz4`dict, lz4`dictEnd
    {
      if left then autoFlush else Located()
    }

    lemma LeftFlushes()
      requires Settled()
      ensures left ==> autoFlush
    {
    }

    /** A block is completed in tmpBuff and compressed, or all of `src` joins what waits there. */
    method CompleteTmp(src: seq<byte>, dst: array<byte>, d: nat) returns (pos: nat, end: nat)
      requires Sep() && Apart(dst) && Emitted() && Engine(content) && Room() && Located() && tmpInSize > 0
        && d <= dst.Length
      requires |src| >= maxBlockSize - tmpInSize ==> d + 4 + maxBlockSize + 4 * Bit(info.blockChecksum) <= dst.Length
      modifies `blocks, `content, `tmpIn, `tmpInSize, lz4, lz4.hashTable, tmpBuff, dst
      ensures Emitted() && Engine(content) && Located() && pos <= |src| && dst[..d] == old(dst[..d])
      ensures d <= end <= dst.Length && blocks == old(blocks) + dst[d..end] && (!info.linked ==> tmpIn == old(tmpIn))
      ensures if |src| < maxBlockSize - old(tmpInSize) then
          Room() && pos == |src| && end == d && content == old(content) && Waiting() == old(Waiting()) + src
        else
          && pos == maxBlockSize - old(tmpInSize) && end <= d + 4 + maxBlockSize + 4 * Bit(info.blockChecksum)
          && tmpInSize == 0 && content == old(content) + (old(Waiting()) + src[..pos]) && tmpIn <= tmpBuff.Length
    {
      hide Emitted, Engine, Sep, Located;
      var sizeToCopy := maxBlockSize - tmpInSize;
      if sizeToCopy > |src| {
        StoreInTmp(src, 0, |src|);
        assert src[0..|src|] == src && dst[d..d] == [];
        return |src|, d;
      }
      StoreInTmp(src, 0, sizeToCopy);
      pos := sizeToCopy;
      assert src[0..pos] == src[..pos];
      end := CompressTmp(dst, d);
    }

    /** What waits in tmpBuff becomes a block. */
    method CompressTmp(dst: array<byte>, d: nat) returns (end: nat)
      requires Sep() && Apart(dst) && Emitted() && Engine(content) && Located()
      requires 0 < tmpInSize <= maxBlockSize && tmpIn + tmpInSize <= tmpBuff.Length
      requires d + 4 + tmpInSize + 4 * Bit(info.blockChecksum) <= dst.Length
      modifies `blocks, `content, `tmpIn, `tmpInSize, lz4, lz4.hashTable, dst
      ensures Emitted() && Engine(content) && Located() && tmpInSize == 0 && dst[..d] == old(dst[..d])
      ensures d < end <= d + 4 + old(tmpInSize) + 4 * Bit(info.blockChecksum) && blocks == old(blocks) + dst[d..end]
      ensures content == old(content) + old(Waiting()) && tmpIn == old(tmpIn) + if info.linked then old(tmpInSize)
        else 0
    {
      hide Emitted, Engine, EndOfHistory;
      ghost var dict := lz4.dict;
      end := MakeBlock(tmpBuff[tmpIn..tmpIn + tmpInSize], tmpIn, dst, d);
      if info.linked {
        InFront(tmpBuff[..], tmpIn, tmpIn + tmpInSize, dict, lz4.dict);
        tmpIn := tmpIn + tmpInSize;
      }
      tmpInSize := 0;
    }

    /** The history and the block behind it, in one piece of memory. */
    static lemma InFront(mem: seq<byte>, at: nat, end: nat, dict: seq<byte>, dict': seq<byte>)
      requires |dict| <= at <= end <= |mem| && mem[at - |dict|..at] == dict && EndOfHistory(dict', dict + mem[at..end])
      ensures |dict'| <= end && mem[end - |dict'|..end] == dict'
    {
      Cut(mem, at - |dict|, at, end);
      var all := mem[at - |dict|..end];
      assert all[|all| - |dict'|..] == mem[end - |dict'|..end];
    }

    /** Input is copied behind what waits in tmpBuff. */
    method StoreInTmp(src: seq<byte>, from: nat, n: nat)
      requires from + n <= |src| && tmpIn + tmpInSize + n <= tmpBuff.Length && Located()
      modifies `tmpInSize, tmpBuff
      ensures tmpInSize == old(tmpInSize) + n && Waiting() == old(Waiting()) + src[from..from + n] && Located()
    {
      hide EndsAt, Sized;
      ghost var was := tmpBuff[..];
      CopySlice(tmpBuff, tmpIn + tmpInSize, src, from, n);
      assert tmpBuff[tmpIn..tmpIn + tmpInSize + n] == was[tmpIn..tmpIn + tmpInSize] + src[from..from + n]
        && tmpBuff[..tmpIn] == was[..tmpIn] by {
        Extended(was, tmpBuff[..], tmpIn, tmpIn + tmpInSize, tmpIn + tmpInSize + n);
      }
      if info.linked && lz4.dict != [] {
        StillEndsAt(was, tmpBuff[..], tmpIn, lz4.dict, lz4.dictEnd);
      }
      tmpInSize := tmpInSize + n;
    }

    /** Full blocks straight from the source, and the rest of it too if nothing may wait. */
    method CompressSource(src: seq<byte>, srcAddr: int, start: nat, dst: array<byte>, d: nat, op: nat,
                          ghost blocks0: seq<byte>, ghost content0: seq<byte>) returns (pos: nat, end: nat)
      requires Sep() && Apart(dst) && Emitted() && Engine(content) && start <= |src| && maxBlockSize > 0
      requires Clear(srcAddr, |src|)
      requires d <= op && op + BlocksRoom(|src| - start, maxBlockSize, Extra(), autoFlush) <= dst.Length
      requires blocks == blocks0 + dst[d..op] && content == content0 + src[..start]
      modifies `blocks, `content, lz4, lz4.hashTable, dst
      ensures Emitted() && Engine(content) && dst[..op] == old(dst[..op]) && start <= pos <= |src| < pos + maxBlockSize
      ensures autoFlush ==> pos == |src|
      ensures op <= end <= op + BlocksRoom(|src| - start, maxBlockSize, Extra(), autoFlush)
      ensures blocks == blocks0 + dst[d..end] && content == content0 + src[..pos]
      ensures if pos == start then old(Located()) ==> Located() else info.linked ==> lz4.dict != []
    {
      hide Emitted, Engine, Located, Sep, Apart, BlocksRoom;
      ghost var all := op + BlocksRoom(|src| - start, maxBlockSize, Extra(), autoFlush);
      pos, end := start, op;
      while |src| - pos >= maxBlockSize
        invariant start <= pos <= |src| && op <= end <= dst.Length && dst[..op] == old(dst[..op])
        invariant Emitted() && Engine(content)
        invariant blocks == blocks0 + dst[d..end] && content == content0 + src[..pos]
        invariant end + BlocksRoom(|src| - pos, maxBlockSize, Extra(), autoFlush) <= all
        invariant if pos == start then (old(Located()) ==> Located()) && Clear(srcAddr, |src|)
                  else info.linked ==> lz4.dict != [] && lz4.dictEnd == srcAddr + pos
      {
        RoomStep(|src| - pos);
        end := CompressPiece(src, srcAddr, pos, pos + maxBlockSize, dst, d, end, blocks0, content0);
        pos := pos + maxBlockSize;
      }
      RoomStep(|src| - pos);
      if autoFlush && pos < |src| {
        end := CompressPiece(src, srcAddr, pos, |src|, dst, d, end, blocks0, content0);
        pos := |src|;
      }
    }

    lemma RoomStep(n: nat)
      requires maxBlockSize > 0
      ensures BlocksRoom(n, maxBlockSize, Extra(), autoFlush)
        == if n >= maxBlockSize
          then Extra() + maxBlockSize + BlocksRoom(n - maxBlockSize, maxBlockSize, Extra(), autoFlush)
           else if autoFlush && n > 0 then Extra() + n else 0
    {
    }

    /** One block from the source. */
    method CompressPiece(src: seq<byte>, srcAddr: int, pos: nat, next: nat, dst: array<byte>, d: nat, op: nat,
                         ghost blocks0: seq<byte>, ghost content0: seq<byte>) returns (end: nat)
      requires Sep() && Apart(dst) && Emitted() && Engine(content) && pos < next <= |src| && next - pos <= maxBlockSize
        && d <= op
      requires op + 4 + (next - pos) + 4 * Bit(info.blockChecksum) <= dst.Length
      requires info.linked ==> lz4.dict == [] || srcAddr + pos >= lz4.dictEnd || srcAddr + |src| < lz4.dictEnd
      requires blocks == blocks0 + dst[d..op] && content == content0 + src[..pos]
      modifies `blocks, `content, lz4, lz4.hashTable, dst
      ensures op < end <= op + 4 + (next - pos) + 4 * Bit(info.blockChecksum) && dst[..op] == old(dst[..op])
      ensures Emitted() && Engine(content) && blocks == blocks0 + dst[d..end] && content == content0 + src[..next]
      ensures info.linked ==> lz4.dict != [] && lz4.dictEnd == srcAddr + next
    {
      hide Emitted, Engine, Sep, Apart, EndOfHistory;
      end := MakeBlock(src[pos..next], srcAddr + pos, dst, op);
      Extended(old(dst[..]), dst[..], d, op, end);
      assert src[..next] == src[..pos] + src[pos..next];
    }

    /** LZ4F_localSaveDict: the last 64 KB of the history move to the start of tmpBuff. */
    method LocalSaveDict() returns (realDictSize: nat)
      requires Sep() && Engine(content) && info.linked && WINDOW <= tmpBuff.Length
      modifies `tmpIn, lz4`dict, lz4`dictEnd, tmpBuff
      ensures Engine(content) && realDictSize == Min(WINDOW, |old(lz4.dict)|) && tmpIn == realDictSize && Located()
    {
      hide Stream.Linked;
      ghost var dict := lz4.dict;
      var was := lz4.dict;
      realDictSize := lz4.SaveDict(0, WINDOW);
      CopySlice(tmpBuff, 0, was, |was| - realDictSize, realDictSize);
      tmpIn := realDictSize;
      assert was[|was| - realDictSize..|was|] == was[|was| - realDictSize..];
      EndOfEnd(lz4.dict, dict, content);
    }

    static lemma EndOfEnd(a: seq<byte>, b: seq<byte>, c: seq<byte>)
      requires EndOfHistory(a, b) && EndOfHistory(b, c)
      ensures EndOfHistory(a, c)
    {
      assert c[|c| - |b|..][|b| - |a|..] == c[|c| - |a|..];
    }

    // ---------- a frame ----------

    ghost predicate Sum()
      reads `info, `input, xxh`seed, xxh`content
    {
      info.contentChecksum ==> xxh.seed == 0 && xxh.content == input
    }

    /** The number of bytes taken in is kept, in 64 bits, only when the header announces one. */
    ghost predicate Total()
      reads `info, `input, `totalInSize
    {
      info.contentSize > 0 ==> totalInSize == |input| % WRAP64
    }

    /** What every call keeps. */
    ghost predicate Core()
      reads this, xxh, xxh.mem, lz4, lz4.hashTable, tmpBuff
    {
      && Sep() && Emitted() && Engine(content) && Room() && xxh.Valid() && Sum() && Total()
      && Settled()
    }

    /** Nothing is lost: what has been taken in is what the blocks hold and what waits. */
    ghost predicate Valid()
      reads this, xxh, xxh.mem, lz4, lz4.hashTable, tmpBuff
    {
      Core() && input == content + Waiting()
    }

    /** What LZ4F_compressBegin needs of a context. */
    ghost predicate Usable()
      reads `tmpBuff, xxh, xxh.mem, lz4, lz4.hashTable
    {
      Sep() && xxh.Valid() && lz4.Valid()
    }

    lemma StillUsable()
      requires Valid()
      ensures Usable()
    {
    }

    static function WithDefaults(prefs: FrameInfo): FrameInfo {
      prefs.(blockSizeID := if prefs.blockSizeID == 0 then 4 else prefs.blockSizeID)
    }

    /** The header stands in [d, end). */
    ghost predicate HeaderAt(dst: array<byte>, d: nat, end: nat)
      reads `info, dst
    {
      info.Valid() && d <= end <= dst.Length && dst[d..end] == HeaderBytes(info)
    }

    /** LZ4F_compressBegin */
    method Begin(dst: array<byte>, d: nat, capacity: nat, prefs: FrameInfo, flush: bool, level: int)
        returns (n: nat, error: Option<Error>)
      requires Sep() && Apart(dst) && xxh.Valid() && lz4.Valid() && d + capacity <= dst.Length
      requires WithDefaults(prefs).Valid() && level < 3 && (Sized() || flush)
      modifies this, xxh, lz4, lz4.hashTable, dst
      ensures error == if capacity < HEADER_MAX then Some(DstMaxSizeTooSmall) else None
      ensures tmpBuff == old(tmpBuff) || fresh(tmpBuff)
      ensures error == None ==>
        && Valid() && started && !left && blocks == content == input == [] && info == WithDefaults(prefs)
          && autoFlush == flush && tmpInSize == 0
        && Apart(dst) && n <= HEADER_MAX && n == |HeaderBytes(info)| && dst[..d] == old(dst[..d])
          && HeaderAt(dst, d, d + n)
        && (old(Sized()) ==> Sized()) && this.level == level
          && (flush && old(maxBufferSize) >= WINDOW ==> tmpBuff == old(tmpBuff))
    {
      hide HeaderBytes, Valid, Sep, Sized, FrameInfo.Valid, BlockSize, Read32, Write32;
      if capacity < HEADER_MAX {
        return 0, Some(DstMaxSizeTooSmall);
      }
      Configure(prefs, flush, level);
      n := PutHeader(info, dst, d);
      error := None;
    }

    static method PutHeader(info: FrameInfo, dst: array<byte>, d: nat) returns (n: nat)
      requires info.Valid() && d + HEADER_MAX <= dst.Length
      modifies dst
      ensures n == |HeaderBytes(info)| && dst[..d] == old(dst[..d]) && dst[d..d + n] == HeaderBytes(info)
    {
      hide HeaderBytes;
      var header := HeaderBytes(info);
      n := |header|;
      CopySlice(dst, d, header, 0, n);
      assert header[0..n] == header;
    }

    /** The state of a frame without blocks. */
    method Configure(prefs: FrameInfo, flush: bool, level: int)
      requires Sep() && xxh.Valid() && lz4.Valid() && WithDefaults(prefs).Valid() && level < 3 && (Sized() || flush)
      modifies this, xxh, lz4, lz4.hashTable
      ensures tmpBuff == old(tmpBuff) || fresh(tmpBuff)
      ensures Valid() && started && !left && blocks == content == input == [] && info == WithDefaults(prefs)
        && autoFlush == flush && tmpInSize == 0
      ensures (old(Sized()) ==> Sized()) && this.level == level
        && (flush && old(maxBufferSize) >= WINDOW ==> tmpBuff == old(tmpBuff))
    {
      hide State.Valid, Stream.Valid, Stream.Linked, Writes;
      var i := WithDefaults(prefs);
      AllocateTmp(if flush then if i.linked then WINDOW else 0 else i.MaxBlock() + if i.linked then 2 * WINDOW else 0);
      xxh.Reset(0);
      if i.linked {
        lz4.ResetFast();
      }
      FrameEncoding.NothingWritten(Frame(i, [], [], 0));
      SetFields(i, flush, level);
      assert Emitted() && Engine(content);
      assert Room();
    }

    method SetFields(i: FrameInfo, flush: bool, level: int)
      modifies `info, `maxBlockSize, `autoFlush, `level, `tmpIn, `tmpInSize, `totalInSize, `started, `left, `blocks,
        `content, `input
      ensures info == i && maxBlockSize == i.MaxBlock() && autoFlush == flush && this.level == level
        && tmpIn == tmpInSize == 0
      ensures (i.contentSize > 0 ==> totalInSize == 0) && started && !left && blocks == content == input == []
    {
      info, maxBlockSize, autoFlush, this.level := i, i.MaxBlock(), flush, level;
      tmpIn, tmpInSize, totalInSize := 0, 0, if i.contentSize > 0 then 0 else totalInSize;
      started, left, blocks, content, input := true, false, [], [], [];
    }

    /** tmpBuff grows to what the block mode and flushing require. */
    method AllocateTmp(requiredBuffSize: nat)
      modifies `maxBufferSize, `tmpBuff
      ensures tmpBuff == old(tmpBuff) || fresh(tmpBuff)
      ensures maxBufferSize == Max(requiredBuffSize, old(maxBufferSize)) && (old(Sized()) ==> Sized())
      ensures requiredBuffSize <= old(maxBufferSize) ==> tmpBuff == old(tmpBuff)
    {
      if maxBufferSize < requiredBuffSize {
        tmpBuff := new byte[requiredBuffSize];
        maxBufferSize := requiredBuffSize;
      }
    }

    ghost function Extra(): (n: nat)
      reads `info
      ensures n >= 4
    {
      4 + 4 * Bit(info.blockChecksum)
    }

    /** The source does not overlap tmpBuff. */
    ghost predicate ApartFromTmp(srcAddr: int, n: nat)
      reads `tmpBuff
    {
      srcAddr >= tmpBuff.Length || srcAddr + n <= 0
    }

    /**
      LZ4F_compressUpdate. Nothing is lost: what has been taken in is what the blocks hold and what
      waits. It fails only for lack of room or outside a frame, and then before anything is done.
     */
    method Update(src: seq<byte>, srcAddr: int, dst: array<byte>, d: nat, capacity: nat, stableSrc: bool)
        returns (n: nat, error: Option<Error>)
      requires Apart(dst) && d + capacity <= dst.Length && ApartFromTmp(srcAddr, |src|)
      requires left ==> Clear(srcAddr, |src|)
      requires if stableSrc then autoFlush else Sized()
      requires Valid()
      modifies `blocks, `content, `input, `tmpIn, `tmpInSize, `left, `totalInSize, xxh, xxh.mem, lz4, lz4.hashTable,
        tmpBuff, dst
      ensures error == if !started then Some(Generic)
        else if capacity < BoundInternal(|src|, info, autoFlush, old(tmpInSize)) then Some(DstMaxSizeTooSmall) else None
      ensures error == None ==>
        && n + 4 + 4 * Bit(info.contentChecksum) <= BoundInternal(|src|, info, autoFlush, old(tmpInSize))
        && (left ==> stableSrc || old(left)) && n <= capacity && dst[..d] == old(dst[..d]) && input == old(input) + src
          && blocks == old(blocks) + dst[d..d + n]
        && Valid()
    {
      hide Valid, ApartFromTmp, BoundInternal, Sep, Apart, Sized, FrameInfo.Valid;
      if !started {
        return 0, Some(Generic);
      }
      if capacity < BoundInternal(|src|, info, autoFlush, tmpInSize) {
        return 0, Some(DstMaxSizeTooSmall);
      }
      n := TakeIn(src, srcAddr, dst, d, stableSrc);
      error := None;
    }

    method TakeIn(src: seq<byte>, srcAddr: int, dst: array<byte>, d: nat, stableSrc: bool) returns (n: nat)
      requires Apart(dst) && ApartFromTmp(srcAddr, |src|) && if stableSrc then autoFlush else Sized()
      requires left ==> Clear(srcAddr, |src|)
      requires d + BoundInternal(|src|, info, autoFlush, tmpInSize) <= dst.Length
      requires Valid()
      modifies `blocks, `content, `input, `tmpIn, `tmpInSize, `left, `totalInSize, xxh, xxh.mem, lz4, lz4.hashTable,
        tmpBuff, dst
      ensures n + 4 + 4 * Bit(info.contentChecksum) <= BoundInternal(|src|, info, autoFlush, old(tmpInSize))
      ensures d + n <= dst.Length && dst[..d] == old(dst[..d]) && blocks == old(blocks) + dst[d..d + n]
      ensures input == old(input) + src && (left ==> stableSrc || old(left))
      ensures Valid()
    {
      hide Emitted, Engine, Located, State.Valid, BoundInternal, Sum, Total, Extra;
      EnoughRoom(|src|);
      n := Compressed(src, srcAddr, dst, d, stableSrc);
      Account(src);
      assert Core();
    }

    method Compressed(src: seq<byte>, srcAddr: int, dst: array<byte>, d: nat, stableSrc: bool) returns (n: nat)
      requires Sep() && Emitted() && Engine(content) && Room() && Settled()
      requires Apart(dst) && ApartFromTmp(srcAddr, |src|) && if stableSrc then autoFlush else Sized()
      requires left ==> Clear(srcAddr, |src|)
      requires d + BlocksRoom(|src| + tmpInSize, maxBlockSize, Extra(), autoFlush) <= dst.Length
      modifies `blocks, `content, `tmpIn, `tmpInSize, `left, lz4, lz4.hashTable, tmpBuff, dst
      ensures n <= BlocksRoom(|src| + old(tmpInSize), maxBlockSize, Extra(), autoFlush)
      ensures dst[..d] == old(dst[..d]) && blocks == old(blocks) + dst[d..d + n] && (left ==> stableSrc || old(left))
      ensures Emitted() && Engine(content) && Room() && Settled()
        && content + Waiting() == old(content + Waiting()) + src
    {
      hide Emitted, Engine, Settled, BlocksRoom, ApartFromTmp, Clear;
      LeftFlushes();
      var pos, end, fromSrc := Consume(src, srcAddr, dst, d);
      ghost var waiting, taken := Waiting(), old(content + Waiting());
      Settle(src, pos, fromSrc, stableSrc);
      assert content + Waiting() == (content + waiting) + src[pos..] == taken + src by {
        assert src == src[..pos] + src[pos..];
      }
      n := end - d;
    }

    /** The bound covers the blocks to come and an end mark. */
    lemma EnoughRoom(n: nat)
      requires Emitted() && Room()
      ensures BlocksRoom(n + tmpInSize, maxBlockSize, Extra(), autoFlush) + 4 + 4 * Bit(info.contentChecksum)
        <= BoundInternal(n, info, autoFlush, tmpInSize)
    {
      BoundIsRoom(n, info, autoFlush, tmpInSize);
    }

    /** First the block begun in tmpBuff, then blocks from the source. */
    method Consume(src: seq<byte>, srcAddr: int, dst: array<byte>, d: nat) returns (pos: nat, end: nat, fromSrc: bool)
      requires Sep() && Apart(dst) && Emitted() && Engine(content) && Room() && Settled()
        && ApartFromTmp(srcAddr, |src|) && (left ==> Clear(srcAddr, |src|))
      requires d + BlocksRoom(|src| + tmpInSize, maxBlockSize, Extra(), autoFlush) <= dst.Length
      modifies `blocks, `content, `tmpIn, `tmpInSize, lz4, lz4.hashTable, tmpBuff, dst
      ensures Emitted() && Engine(content) && dst[..d] == old(dst[..d]) && pos <= |src|
      ensures d <= end <= d + BlocksRoom(|src| + old(tmpInSize), maxBlockSize, Extra(), autoFlush)
      ensures blocks == old(blocks) + dst[d..end]
      ensures tmpInSize == 0
        || (tmpInSize < maxBlockSize && pos == |src| && !fromSrc && tmpIn + maxBlockSize <= maxBufferSize)
      ensures tmpIn <= tmpBuff.Length && tmpInSize <= tmpBuff.Length - tmpIn
        && content + Waiting() == old(content + Waiting()) + src[..pos]
      ensures |src| < pos + maxBlockSize && (autoFlush ==> pos == |src| && tmpInSize == 0)
      ensures if fromSrc then info.linked ==> lz4.dict != [] else Settled()
      ensures !info.linked ==> tmpIn == old(tmpIn)
    {
      hide Emitted, Engine, Sep, Apart, BlocksRoom, Located, ApartFromTmp;
      ghost var taken := content + Waiting();
      pos, end := ConsumeTmp(src, dst, d);
      if tmpInSize > 0 {
        return pos, end, false;
      }
      if !left {
        Beside(srcAddr, |src|);
      }
      var next, op := CompressSource(src, srcAddr, pos, dst, d, end, old(blocks), taken);
      SliceOfPrefix(old(dst[..]), d, 0, d);
      fromSrc := next > pos;
      pos, end := next, op;
    }

    /** What begins in tmpBuff. */
    method ConsumeTmp(src: seq<byte>, dst: array<byte>, d: nat) returns (pos: nat, end: nat)
      requires Sep() && Apart(dst) && Emitted() && Engine(content) && Room() && (tmpInSize > 0 ==> Located())
      requires d + BlocksRoom(|src| + tmpInSize, maxBlockSize, Extra(), autoFlush) <= dst.Length
      modifies `blocks, `content, `tmpIn, `tmpInSize, lz4, lz4.hashTable, tmpBuff, dst
      ensures Emitted() && Engine(content) && dst[..d] == old(dst[..d]) && pos <= |src| && d <= end <= dst.Length
      ensures (old(Located()) ==> Located()) && (old(tmpInSize) == 0 ==> unchanged(lz4))
      ensures end + BlocksRoom(|src| - pos, maxBlockSize, Extra(), autoFlush)
        <= d + BlocksRoom(|src| + old(tmpInSize), maxBlockSize, Extra(), autoFlush)
      ensures blocks == old(blocks) + dst[d..end] && tmpIn <= tmpBuff.Length && (!info.linked ==> tmpIn == old(tmpIn))
      ensures tmpInSize == 0 || (Room() && pos == |src|)
      ensures content + Waiting() == old(content + Waiting()) + src[..pos]
    {
      hide Emitted, Engine, Sep, Apart, BlocksRoom, Located;
      pos, end := 0, d;
      RoomShare(|src|);
      if tmpInSize > 0 {
        pos, end := CompleteTmp(src, dst, d);
      }
    }

    /** A source apart from tmpBuff is apart from a history in it. */
    lemma Beside(srcAddr: int, n: nat)
      requires Located() && ApartFromTmp(srcAddr, n)
      ensures Clear(srcAddr, n)
    {
    }

    /** Completing the block in tmpBuff takes its share of the room. */
    lemma RoomShare(n: nat)
      requires tmpInSize < maxBlockSize
      ensures var all := BlocksRoom(n + tmpInSize, maxBlockSize, Extra(), autoFlush);
        if tmpInSize == 0 then all == BlocksRoom(n, maxBlockSize, Extra(), autoFlush)
        else if n >= maxBlockSize - tmpInSize then
          all == Extra() + maxBlockSize + BlocksRoom(n - (maxBlockSize - tmpInSize), maxBlockSize, Extra(), autoFlush)
        else BlocksRoom(0, maxBlockSize, Extra(), autoFlush) == 0
    {
    }

    /** The history is preserved if necessary, tmpIn kept within limits, and the rest of the source stored. */
    method Settle(src: seq<byte>, pos: nat, fromSrc: bool, stableSrc: bool)
      requires Sep() && Engine(content) && pos <= |src| < pos + maxBlockSize
        && (if stableSrc then autoFlush else Sized())
      requires (left ==> autoFlush) && if fromSrc then info.linked ==> lz4.dict != [] else Settled()
      requires tmpInSize == 0
        || (pos == |src| && !fromSrc && tmpIn + maxBlockSize <= maxBufferSize && tmpInSize < maxBlockSize)
      requires autoFlush ==> pos == |src| && tmpInSize == 0
      requires tmpIn <= tmpBuff.Length && RoomInPrinciple()
        && (!info.linked && !autoFlush ==> tmpIn + maxBlockSize <= maxBufferSize)
      modifies `tmpIn, `tmpInSize, `left, lz4`dict, lz4`dictEnd, tmpBuff
      ensures Engine(content) && Room() && Settled() && (left ==> stableSrc || old(left))
        && Waiting() == old(Waiting()) + src[pos..]
    {
      hide Engine, Sep, InTmpBuff;
      if info.linked && fromSrc {
        if stableSrc {
          tmpIn, left := 0, true;
        } else {
          var realDictSize := LocalSaveDict();
          assert realDictSize != 0;
          left := false;
        }
      } else if !info.linked {
        NoHistory();
      }
      if tmpIn + maxBlockSize > maxBufferSize && !autoFlush {
        var realDictSize := LocalSaveDict();
      }
      assert src[pos..] == src[pos..|src|];
      if pos < |src| {
        StoreInTmp(src, pos, |src| - pos);
      }
    }

    lemma NoHistory()
      requires !info.linked
      ensures Located()
    {
    }

    method Account(src: seq<byte>)
      requires xxh.Valid() && Sum() && Total()
      modifies `input, `totalInSize, xxh, xxh.mem
      ensures xxh.Valid() && Sum() && Total() && input == old(input) + src
    {
      hide State.Valid;
      if info.contentChecksum {
        xxh.Update(src);
      }
      totalInSize := (totalInSize + |src|) % WRAP64;
      input := input + src;
    }

    /** LZ4F_flush */
    method Flush(dst: array<byte>, d: nat, capacity: nat) returns (n: nat, error: Option<Error>)
      requires Apart(dst) && d + capacity <= dst.Length
      requires Valid()
      modifies `blocks, `content, `tmpIn, `tmpInSize, lz4, lz4.hashTable, tmpBuff, dst
      ensures error == if old(tmpInSize) == 0 then None else if !started then Some(Generic)
        else if capacity < old(tmpInSize) + 8 then Some(DstMaxSizeTooSmall) else None
      ensures error == None ==>
        && n <= capacity && n <= (if old(tmpInSize) == 0 then 0 else Extra() + old(tmpInSize))
        && dst[..d] == old(dst[..d]) && blocks == old(blocks) + dst[d..d + n]
        && tmpInSize == 0 && content == input
      ensures Valid()
    {
      hide Emitted, Engine, InTmpBuff, State.Valid, Sum, Total;
      if tmpInSize == 0 {
        assert dst[d..d] == [] && content + [] == content;
        return 0, None;
      }
      if !started {
        return 0, Some(Generic);
      }
      if capacity < tmpInSize + 8 {
        return 0, Some(DstMaxSizeTooSmall);
      }
      var end := CompressTmp(dst, d);
      if tmpIn + maxBlockSize > maxBufferSize {
        var realDictSize := LocalSaveDict();
      }
      n, error := end - d, None;
      assert content + Waiting() == content;
    }

    /** LZ4F_compressEnd. With the header and the blocks written before, the bytes are a frame of all the input. */
    method End(dst: array<byte>, d: nat, capacity: nat) returns (n: nat, error: Option<Error>)
      requires started && Apart(dst) && d + capacity <= dst.Length
      requires Valid()
      modifies `blocks, `content, `tmpIn, `tmpInSize, `started, `maxBufferSize, lz4, lz4.hashTable, tmpBuff, dst
      ensures error == None || error == Some(DstMaxSizeTooSmall) || error == Some(FrameSizeWrong)
      ensures error == Some(DstMaxSizeTooSmall) ==> capacity < BoundInternal(0, info, autoFlush, old(tmpInSize))
      ensures error == Some(FrameSizeWrong) ==> info.contentSize > 0 && info.contentSize != |input| % WRAP64
      ensures error == None ==>
        && n <= capacity && n <= BoundInternal(0, info, autoFlush, old(tmpInSize)) && dst[..d] == old(dst[..d])
        && !started && info.Valid() && IsFrame(HeaderBytes(info) + old(blocks) + dst[d..d + n], input)
      ensures Usable() && (error != Some(DstMaxSizeTooSmall) ==> Sized())
    {
      hide IsFrame, HeaderBytes, Valid, BoundInternal, FrameInfo.Valid, Usable, Extra, Sized, Apart;
      EndRoom();
      n, error := Flush(dst, d, capacity);
      if error != None {
        StillUsable();
        return;
      }
      ghost var before, end, blocks0 := dst[..], d + n, old(blocks);
      var size: nat;
      size, error := Seal(dst, d + n, capacity - n);
      n := n + size;
      if error == None {
        InTwoParts(HeaderBytes(info), blocks0, before, dst[..], d, end, d + n);
      }
    }

    static lemma InTwoParts(header: seq<byte>, blocks: seq<byte>, was: seq<byte>, now: seq<byte>, d: nat, op: nat,
        end: nat)
      requires d <= op <= end <= |now| == |was| && was[..op] == now[..op]
      ensures header + (blocks + was[d..op]) + now[op..end] == header + blocks + now[d..end] && now[..d] == was[..d]
    {
      Extended(was, now, d, op, end);
    }

    /** The end of a frame of which nothing waits. */
    method Seal(dst: array<byte>, d: nat, capacity: nat) returns (n: nat, error: Option<Error>)
      requires Apart(dst) && d + capacity <= dst.Length
      requires Valid() && content == input
      modifies `started, `maxBufferSize, dst
      ensures dst[..d] == old(dst[..d])
        && (error == None || error == Some(DstMaxSizeTooSmall) || error == Some(FrameSizeWrong))
      ensures error == Some(DstMaxSizeTooSmall) ==> capacity < 4 + 4 * Bit(info.contentChecksum)
      ensures error == Some(FrameSizeWrong) ==> info.contentSize > 0 && info.contentSize != |input| % WRAP64
      ensures error == None ==>
        n == 4 + 4 * Bit(info.contentChecksum) <= capacity && !started && info.Valid()
          && IsFrame(HeaderBytes(info) + blocks + dst[d..d + n], input)
      ensures Usable() && (error != Some(DstMaxSizeTooSmall) ==> Sized())
    {
      hide IsFrame, HeaderBytes, Valid, EndMark, FrameInfo.Valid, Sum, State.Valid, Stream.Valid;
      StillUsable();
      Checksummed();
      Written();
      n, error := WriteEndMark(dst, d, capacity);
      if error == None {
        started, maxBufferSize := false, 0;
        if info.contentSize > 0 && info.contentSize != totalInSize {
          error := Some(FrameSizeWrong);
        }
      }
    }

    lemma Written()
      requires Valid() && content == input
      ensures info.Valid() && (info.contentSize == 0 || info.contentSize == |input| % WRAP64 ==>
        IsFrame(HeaderBytes(info) + blocks + EndMark(info, input), input))
    {
      if info.contentSize == 0 || info.contentSize == |input| % WRAP64 {
        FrameComplete(info, blocks, input);
      }
    }

    /** What End may need. */
    lemma EndRoom()
      requires Valid()
      ensures BoundInternal(0, info, autoFlush, tmpInSize) == (if tmpInSize == 0 then 0 else Extra() + tmpInSize) + 4
        + 4 * Bit(info.contentChecksum)
    {
      BoundIsRoom(0, info, autoFlush, tmpInSize);
    }

    lemma Checksummed()
      requires Valid()
      ensures xxh.Valid() && Sum() && info.Valid() && (info.contentSize > 0 ==> totalInSize == |input| % WRAP64)
    {
    }

    /** The end mark and, if wanted, the checksum of all the input. */
    method WriteEndMark(dst: array<byte>, d: nat, capacity: nat) returns (n: nat, error: Option<Error>)
      requires xxh.Valid() && Sum() && Apart(dst) && d + capacity <= dst.Length
      modifies dst
      ensures dst[..d] == old(dst[..d])
      ensures error == if capacity < 4 + 4 * Bit(info.contentChecksum) then Some(DstMaxSizeTooSmall) else None
      ensures error == None ==> n == 4 + 4 * Bit(info.contentChecksum) && dst[d..d + n] == EndMark(info, input)
    {
      hide Write32, Hash, State.Valid, Read32;
      if capacity < 4 {
        return 0, Some(DstMaxSizeTooSmall);
      }
      Put32(0, dst, d, d);
      assert dst[d..d + 4] == Write32(0);
      if !info.contentChecksum {
        return 4, None;
      }
      var digest := xxh.Digest();
      if capacity < 8 {
        return 4, Some(DstMaxSizeTooSmall);
      }
      Put32(digest, dst, d, d + 4);
      n, error := 8, None;
    }

    /** LZ4F_writeLE32 behind what lies between `d` and `end`. */
    static method Put32(digest: uint32, dst: array<byte>, d: nat, end: nat)
      requires d <= end && end + 4 <= dst.Length
      modifies dst
      ensures dst[..d] == old(dst[..d]) && dst[d..end + 4] == old(dst[d..end]) + Write32(digest)
    {
      hide Write32;
      CopySlice(dst, end, Write32(digest), 0, 4);
      Extended(old(dst[..]), dst[..], d, end, end + 4);
    }

    /** The preferences LZ4F_compressFrame really uses for `srcSize` bytes. */
    static method Adjust(prefs: FrameInfo, srcSize: nat) returns (p: FrameInfo)
      requires WithDefaults(prefs).Valid() && srcSize < WRAP64
      ensures WithDefaults(p).Valid()
        && (p.blockSizeID == prefs.blockSizeID || srcSize <= p.MaxBlock() < prefs.MaxBlock())
      ensures p.contentSize == if prefs.contentSize != 0 then srcSize else 0
      ensures p.linked <==> prefs.linked && srcSize > p.MaxBlock()
      ensures p.(linked := prefs.linked, contentSize := prefs.contentSize, blockSizeID := prefs.blockSizeID) == prefs
    {
      p := prefs;
      if p.contentSize != 0 {
        p := p.(contentSize := srcSize);
      }
      var id := OptimalBSID(prefs.blockSizeID, srcSize);
      p := p.(blockSizeID := id);
      if srcSize <= p.MaxBlock() {
        p := p.(linked := false);
      }
    }

    /**
      LZ4F_compressFrame on a new context: the whole source at once, every block flushed, and the
      nominal size of tmpBuff set to 5 MB so that none is ever allocated.
     */
    method CompressFrame(dst: array<byte>, d: nat, capacity: nat, src: seq<byte>, srcAddr: nat, prefs: FrameInfo,
        level: int)
        returns (n: nat, error: Option<Error>)
      requires Sep() && Apart(dst) && xxh.Valid() && lz4.Valid() && tmpBuff.Length == 0 && d + capacity <= dst.Length
      requires WithDefaults(prefs).Valid() && level < 3 && |src| < WRAP64
      modifies this, xxh, xxh.mem, lz4, lz4.hashTable, tmpBuff, dst
      ensures error == if capacity < FrameBound(|src|, prefs) then Some(DstMaxSizeTooSmall) else None
      ensures error == None ==>
        n <= FrameBound(|src|, prefs) && dst[..d] == old(dst[..d]) && IsFrame(dst[d..d + n], src)
    {
      hide IsFrame, Valid, BoundInternal, BlockSize, FrameInfo.Valid, WithDefaults, Sep, Sized;
      SmallIDs(prefs);
      var used := Adjust(prefs, |src|);
      SmallIDs(used);
      SmallerBlocksSameBound(|src|, prefs, used);
      if capacity < FrameBound(|src|, used) {
        return 0, Some(DstMaxSizeTooSmall);
      }
      maxBufferSize := 0x50_0000;
      n := CompressAdjusted(dst, d, capacity, src, srcAddr, used, level);
      error := None;
    }

    method CompressAdjusted(dst: array<byte>, d: nat, capacity: nat, src: seq<byte>, srcAddr: nat, prefs: FrameInfo,
        level: int) returns (n: nat)
      requires Sep() && Apart(dst) && xxh.Valid() && lz4.Valid() && tmpBuff.Length == 0 && d + capacity <= dst.Length
        && maxBufferSize >= WINDOW
      requires WithDefaults(prefs).Valid() && level < 3
        && (prefs.contentSize == 0 || prefs.contentSize == |src| < WRAP64)
      requires capacity >= FrameBound(|src|, prefs)
      modifies this, xxh, xxh.mem, lz4, lz4.hashTable, tmpBuff, dst
      ensures n <= FrameBound(|src|, prefs) && n <= capacity && dst[..d] == old(dst[..d]) && IsFrame(dst[d..d + n], src)
    {
      hide IsFrame, HeaderBytes, Valid, Sep, Apart, BoundInternal, FrameInfo.MaxBlock, FrameInfo.Valid, WithDefaults,
        Sized, HeaderAt, Usable, State.Valid, Stream.Valid, Clear;
      DefaultsKeepBound(|src|, prefs);
      var headerSize, error := Begin(dst, d, capacity, prefs, true, level);
      var rest: nat;
      rest, error := CompressAll(dst, d, d + headerSize, capacity - headerSize, src, srcAddr);
      n := headerSize + rest;
      assert n <= FrameBound(|src|, prefs) && n <= capacity;
    }

    static lemma SmallIDs(prefs: FrameInfo)
      requires WithDefaults(prefs).Valid()
      ensures prefs.blockSizeID <= 7
    {
    }

    static lemma DefaultsKeepBound(n: nat, p: FrameInfo)
      ensures var q := WithDefaults(p);
        && BoundInternal(n, q, true, 0) == BoundInternal(n, p, true, 0)
        && q.contentSize == p.contentSize && q.contentChecksum == p.contentChecksum
    {
    }

    /** All blocks and the end of a frame whose header lies between `d0` and `d`. */
    method CompressAll(dst: array<byte>, ghost d0: nat, d: nat, capacity: nat, src: seq<byte>, srcAddr: nat)
        returns (n: nat, error: Option<Error>)
      requires Apart(dst) && d + capacity <= dst.Length && tmpBuff.Length == 0 && started && !left && autoFlush
        && tmpInSize == 0
      requires blocks == [] && input == [] && (info.contentSize == 0 || info.contentSize == |src| < WRAP64)
      requires capacity >= BoundInternal(|src|, info, true, 0)
      requires HeaderAt(dst, d0, d)
      requires Valid()
      modifies `blocks, `content, `input, `tmpIn, `tmpInSize, `left, `totalInSize, `started, `maxBufferSize
      modifies xxh, xxh.mem, lz4, lz4.hashTable, tmpBuff, dst
      ensures error == None && n <= BoundInternal(|src|, info, true, 0) && n <= capacity
      ensures dst[..d0] == old(dst[..d0]) && IsFrame(dst[d0..d + n], src)
    {
      hide IsFrame, HeaderBytes, Valid, BoundInternal, FrameInfo.Valid, Usable, Clear, Sized;
      var cSize, tailSize: nat;
      cSize, error := Update(src, srcAddr, dst, d, capacity, true);
      assert dst[..d0] == old(dst[..d0]) && dst[d0..d + cSize] == HeaderBytes(info) + blocks by {
        Extended(old(dst[..]), dst[..], d0, d, d + cSize);
      }
      EndRoom();
      AllFlushed();
      ghost var before := dst[..];
      tailSize, error := End(dst, d + cSize, capacity - cSize);
      n := cSize + tailSize;
      assert dst[d0..d + n] == before[d0..d + cSize] + dst[d + cSize..d + n] && dst[..d0] == before[..d0] by {
        Extended(before, dst[..], d0, d + cSize, d + n);
      }
      assert [] + src == src;
    }

    lemma AllFlushed()
      requires Valid() && autoFlush
      ensures tmpInSize == 0
    {
    }

    /** The stored block holds `src` behind the content so far. */
    lemma BlockMade(raw: bool, payload: seq<byte>, src: seq<byte>, dict: seq<byte>)
      requires info.Valid() && 0 < |payload| <= info.MaxBlock() && |src| <= info.MaxBlock()
      requires if raw then payload == src
               else && BlockFor(payload, if info.linked then dict else [], src)
                    && (info.linked ==> EndOfHistory(dict, content))
      ensures info.MaxBlock() < RAW_FLAG
        && Writes(Start().Add(content), StoredBlock(raw, payload, info.blockChecksum), src)
    {
      hide Writes, BlockFor, EndOfHistory, StoredBlock;
      SmallBlocks(info);
      var f := Start().Add(content);
      assert f.History() == if info.linked then content else [] by {
        assert [] + ([] + content) == content;
      }
      if raw {
        RawWrites(f, src);
      } else {
        if info.linked {
          LongerHistory(payload, dict, content, src);
        }
        BlockWrites(f, payload, src);
      }
    }
  }

  lemma SmallBlocks(info: FrameInfo)
    ensures info.MaxBlock() <= 0x40_0000 < RAW_FLAG
  {
  }

  /** An end of an end, with new bytes behind it. */
  lemma EndGrows(dict: seq<byte>, content: seq<byte>, dict': seq<byte>, src: seq<byte>)
    ensures EndOfHistory(dict, content) && EndOfHistory(dict', dict + src) ==> EndOfHistory(dict', content + src)
  {
    if EndOfHistory(dict, content) && EndOfHistory(dict', dict + src) {
      var a := content[..|content| - |dict|];
      assert content == a + dict;
      assert content + src == a + (dict + src);
      assert (a + (dict + src))[|a| + |dict + src| - |dict'|..] == (dict + src)[|dict + src| - |dict'|..];
    }
  }
}
