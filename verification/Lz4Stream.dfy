/**
  The compression stream: a hash table that is reused from block to block, and the history that
  precedes the next block. A memory address is an integer; the history lies just below `dictEnd`.
 */
module Lz4Stream {
  import opened Bytes
  import opened BlockFormat
  import opened BlockCompressor

  const SIZE_64K := 0x1_0000
  const SIZE_1G := 0x4000_0000
  const RENORM_LIMIT := 0x8000_0000
  const ACCELERATION_MAX := 65537

  function Clamp(acceleration: int): (a: nat)
    ensures 1 <= a <= ACCELERATION_MAX
  {
    if acceleration < 1 then 1 else if acceleration > ACCELERATION_MAX then ACCELERATION_MAX else acceleration
  }

  /** `a` is the end of `h`. */
  predicate EndOfHistory(a: seq<byte>, h: seq<byte>) {
    |a| <= |h| && h[|h| - |a|..] == a
  }

  /** What a compressed block promises: decoded after any history that ends with `dict`, it gives `content`. */
  ghost predicate BlockFor(block: seq<byte>, dict: seq<byte>, content: seq<byte>) {
    Decode(block, dict, true) == Some(dict + content) && Conforms(block, |dict|, |content|)
  }

  lemma LongerHistory(block: seq<byte>, dict: seq<byte>, hist: seq<byte>, content: seq<byte>)
    requires BlockFor(block, dict, content) && EndOfHistory(dict, hist)
    ensures BlockFor(block, hist, content)
  {
    var a := hist[..|hist| - |dict|];
    assert hist == a + dict;
    HistoryInFront(block, 0, a, dict, true);
    assert hist + content == a + (dict + content);
    ConformsWithHistory(block, 0, |dict|, |hist|, |content|);
  }

  /** The empty block decodes to nothing. */
  lemma EmptyBlock(hist: seq<byte>)
    ensures BlockFor([0], hist, [])
  {
    var src: seq<byte> := [0];
    assert ReadLength(src, 1, src[0] / 16, true) == Some(Field(0, 1));
    ConformsEnd(src, 0, |hist|, |hist|, Field(0, 1));
    LastSequence(src, 0, hist, true);
    assert hist + src[1..] == hist + [] == hist;
  }

  class Stream {
    const hashTable: array<uint32>
    const wordSize: nat
    var currentOffset: nat
    var tableType: Option<TableType>
    var dict: seq<byte>
    var dictEnd: int

    ghost predicate Valid()
      reads this, hashTable
    {
      && hashTable.Length == TABLE_SIZE && (wordSize == 8 || wordSize == 4)
      && |dict| <= currentOffset <= SIZE_1G + SIZE_64K + MAX_INPUT_SIZE
      && (if tableType == None then currentOffset == 0 && forall h :: 0 <= h < TABLE_SIZE ==> hashTable[h] == 0
          else TableFor(hashTable, currentOffset))
      && (tableType == Some(ByU16) ==> currentOffset < LIMIT_64K)
    }

    /** LZ4_initStream on a machine with the given register size. */
    constructor (wordSize: nat)
      requires wordSize == 8 || wordSize == 4
      ensures Valid() && fresh(hashTable) && currentOffset == 0 && dict == [] && this.wordSize == wordSize
        && tableType == None
    {
      this.wordSize := wordSize;
      hashTable := new uint32[TABLE_SIZE](_ => 0);
      currentOffset, tableType, dict, dictEnd := 0, None, [], 0;
    }

    method ClearTable()
      requires hashTable.Length == TABLE_SIZE
      modifies this`currentOffset, this`tableType, hashTable
      ensures currentOffset == 0 && tableType == None && forall h :: 0 <= h < TABLE_SIZE ==> hashTable[h] == 0
    {
      forall h | 0 <= h < TABLE_SIZE {
        hashTable[h] := 0;
      }
      currentOffset, tableType := 0, None;
    }

    /** LZ4_prepareTable: keep the table if its indices stay apart from the next block's, else clear it. */
    method PrepareTable(inputSize: nat, next: TableType)
      requires Valid() && inputSize <= MAX_INPUT_SIZE
      modifies this, hashTable
      ensures Valid() && dict == []
      ensures tableType == None || tableType == Some(next)
      ensures currentOffset <= SIZE_1G + SIZE_64K
      ensures tableType == None ==> currentOffset == 0
      ensures next == ByU16 && tableType != None ==> currentOffset + inputSize < 0xFFFF
      ensures next == ByU32 && currentOffset != 0 ==>
        forall h :: 0 <= h < TABLE_SIZE ==> hashTable[h] + SIZE_64K <= currentOffset
    {
      if tableType != None {
        if tableType != Some(next)
          || (next == ByU16 && currentOffset + inputSize >= 0xFFFF)
          || (next == ByU32 && currentOffset > SIZE_1G)
          || inputSize >= 0x1000
        {
          ClearTable();
        }
      }
      if currentOffset != 0 && next == ByU32 {
        currentOffset := currentOffset + SIZE_64K;
      }
      dict := [];
    }

    /**
      LZ4_compress_generic: sizes out of range, the empty block, and the bookkeeping that precedes
      the compression proper. The history in use is `used`, below `startIndex`.
     */
    method CompressGeneric(used: seq<byte>, src: seq<byte>, dst: array<byte>, d0: nat, capacity: nat, limited: bool,
                           table: TableType, directive: Directive, small: bool, acceleration: nat) returns (r: nat)
      requires Valid() && dst as object != hashTable && d0 + capacity <= dst.Length && acceleration >= 1
      requires |src| <= MAX_INPUT_SIZE && (!limited ==> capacity == CompressBound(|src|))
      requires tableType == None || tableType == Some(table)
      requires |src| > 0 ==> Input(used, src, currentOffset, directive, small, table, wordSize).Valid()
      requires |src| > 0 ==>
        TableOk(Input(used, src, currentOffset, directive, small, table, wordSize), hashTable, currentOffset)
      requires currentOffset + |src| <= SIZE_1G + SIZE_64K + MAX_INPUT_SIZE && used == dict
      modifies this, hashTable, dst
      ensures forall k :: 0 <= k < dst.Length && !(d0 <= k < d0 + capacity) ==> dst[k] == old(dst[k])
      ensures Valid() && dict == used + src && dictEnd == old(dictEnd) && tableType in {old(tableType), Some(table)}
      ensures currentOffset == old(currentOffset) + |src|
      ensures r <= capacity && (r == 0 ==> limited) && r <= |src| + |src| / 255 + 2
      ensures r > 0 ==> BlockFor(dst[d0..d0 + r], used, src)
    {
      hide ConformsSeq, DecodeSeq, TableOk, EntryOk, Decode, Conforms;
      if |src| == 0 {
        assert used + src == used;
        if limited && capacity == 0 {
          return 0;
        }
        dst[d0] := 0;
        EmptyBlock(used);
        assert dst[d0..d0 + 1] == [0];
        return 1;
      }
      var inp := Input(used, src, currentOffset, directive, small, table, wordSize);
      currentOffset, tableType, dict := currentOffset + |src|, Some(table), used + src;
      r := CompressValidated(inp, hashTable, dst, d0, d0 + capacity, limited, acceleration);
    }
 
    /** Which table an independent block of this size uses. */
    static function TableForSize(n: nat): TableType {
      if n < LIMIT_64K then ByU16 else ByU32
    }

    /** Without history: an empty table, or one whose old indices cannot be mistaken for new ones. */
    method CompressFresh(src: seq<byte>, dst: array<byte>, d0: nat, capacity: nat, acceleration: int) returns (r: nat)
      requires Valid() && dst as object != hashTable && d0 + capacity <= dst.Length && dict == []
      requires tableType == None || tableType == Some(TableForSize(|src|))
      requires currentOffset <= SIZE_1G + SIZE_64K && (tableType == None ==> currentOffset == 0)
      requires |src| <= MAX_INPUT_SIZE
      requires TableForSize(|src|) == ByU16 ==> currentOffset + |src| < LIMIT_64K
      requires TableForSize(|src|) == ByU32 && currentOffset != 0 ==>
        forall h :: 0 <= h < TABLE_SIZE ==> hashTable[h] + SIZE_64K <= currentOffset
      modifies this, hashTable, dst
      ensures forall k :: 0 <= k < dst.Length && !(d0 <= k < d0 + capacity) ==> dst[k] == old(dst[k])
      ensures Valid() && r <= capacity && (r == 0 ==> capacity < CompressBound(|src|))
      ensures r > 0 ==> BlockFor(dst[d0..d0 + r], [], src) && r <= |src| + |src| / 255 + 2
    {
      var next := TableForSize(|src|);
      var small := next == ByU16 && currentOffset != 0;
      if |src| > 0 {
        FreshTable(Input([], src, currentOffset, BlockCompressor.NoDict, small, next, wordSize));
      }
      if capacity >= CompressBound(|src|) {
        ghost var was := dst[..];
        r := CompressGeneric([], src, dst, d0, CompressBound(|src|), false, next, BlockCompressor.NoDict, small,
          Clamp(acceleration));
      } else {
        r := CompressGeneric([], src, dst, d0, capacity, true, next, BlockCompressor.NoDict, small,
          Clamp(acceleration));
      }
    }

    lemma FreshTable(inp: Input)
      requires Valid() && inp.Valid() && inp.dict == [] && inp.startIndex == currentOffset
      requires inp.small || currentOffset == 0 ||
        (inp.tableType == ByU32 && forall h :: 0 <= h < TABLE_SIZE ==> hashTable[h] + SIZE_64K <= currentOffset)
      ensures TableOk(inp, hashTable, currentOffset)
    {
    }

    /** LZ4_compress_fast_extState, and so LZ4_compress_fast and LZ4_compress_default: a cleared stream each time. */
    method CompressFastExtState(src: seq<byte>, dst: array<byte>, d0: nat, capacity: nat, acceleration: int)
        returns (r: nat)
      requires Valid() && dst as object != hashTable && d0 + capacity <= dst.Length
      modifies this, hashTable, dst
      ensures forall k :: 0 <= k < dst.Length && !(d0 <= k < d0 + capacity) ==> dst[k] == old(dst[k])
      ensures Valid() && r <= capacity
      ensures r == 0 ==> |src| > MAX_INPUT_SIZE || capacity < CompressBound(|src|)
      ensures r > 0 ==> BlockFor(dst[d0..d0 + r], [], src) && r <= |src| + |src| / 255 + 2
    {
      ClearTable();
      dict := [];
      if |src| > MAX_INPUT_SIZE {
        return 0;
      }
      r := CompressFresh(src, dst, d0, capacity, acceleration);
    }

    /** LZ4_compress_fast_extState_fastReset: the table of earlier, unrelated blocks is kept when it can do no harm. */
    method CompressFastReset(src: seq<byte>, dst: array<byte>, d0: nat, capacity: nat, acceleration: int)
        returns (r: nat)
      requires Valid() && dst as object != hashTable && d0 + capacity <= dst.Length && |src| <= MAX_INPUT_SIZE
      modifies this, hashTable, dst
      ensures forall k :: 0 <= k < dst.Length && !(d0 <= k < d0 + capacity) ==> dst[k] == old(dst[k])
      ensures Valid() && r <= capacity && (r == 0 ==> capacity < CompressBound(|src|))
      ensures r > 0 ==> BlockFor(dst[d0..d0 + r], [], src) && r <= |src| + |src| / 255 + 2
    {
      PrepareTable(|src|, TableForSize(|src|));
      r := CompressFresh(src, dst, d0, capacity, acceleration);
    }

    /** LZ4_resetStream_fast */
    method ResetFast()
      requires Valid()
      modifies this, hashTable
      ensures Linked() && dict == []
    {
      PrepareTable(0, ByU32);
    }

    // ---------- linked blocks ----------

    /** Fit for LZ4_compress_fast_continue: 32-bit indices with room for renormalisation. */
    ghost predicate Linked()
      reads this, hashTable
    {
      Valid() && tableType in {None, Some(ByU32)} && currentOffset <= RENORM_LIMIT
    }

    /**
      LZ4_renormDictT. Indices are shifted down so that the next block starts at 64 KB: an index
      within 64 KB of the next block keeps its distance to it, any other becomes 0, which lies too
      far back to be used. The history is cut to its last 64 KB.
     */
    method Renorm(nextSize: nat)
      requires Linked() && nextSize <= MAX_INPUT_SIZE
      modifies this, hashTable
      ensures Linked() && tableType == old(tableType) && dictEnd == old(dictEnd)
      ensures currentOffset + nextSize <= RENORM_LIMIT
      ensures EndOfHistory(dict, old(dict)) && |dict| >= Min(|old(dict)|, SIZE_64K)
      ensures old(currentOffset) + nextSize <= RENORM_LIMIT ==> currentOffset == old(currentOffset) && dict == old(dict)
      ensures forall h :: 0 <= h < TABLE_SIZE ==>
        if old(hashTable[h]) + SIZE_64K >= old(currentOffset)
          then currentOffset - hashTable[h] == old(currentOffset) - old(hashTable[h])
        else hashTable[h] + DISTANCE_MAX < currentOffset
    {
      if currentOffset + nextSize > RENORM_LIMIT {
        var delta := currentOffset - SIZE_64K;
        var i := 0;
        while i < TABLE_SIZE
          invariant 0 <= i <= TABLE_SIZE
          invariant currentOffset == old(currentOffset) && dict == old(dict) && tableType == old(tableType)
            && dictEnd == old(dictEnd)
          invariant forall h :: i <= h < TABLE_SIZE ==> hashTable[h] == old(hashTable[h])
          invariant forall h :: 0 <= h < i ==> hashTable[h] == if old(hashTable[h]) < delta then 0
            else old(hashTable[h]) - delta
        {
          hashTable[i] := if hashTable[i] < delta then 0 else hashTable[i] - delta;
          i := i + 1;
        }
        currentOffset := SIZE_64K;
        if |dict| > SIZE_64K {
          dict := dict[|dict| - SIZE_64K..];
        }
      }
    }
 
    /** The part of the history that `src`, placed at `srcAddr`, leaves usable. */
    method TrimHistory(srcAddr: int, n: nat)
      requires Linked()
      requires dict == [] || srcAddr >= dictEnd || srcAddr + n < dictEnd
      modifies this`dict, this`dictEnd
      ensures Linked() && EndOfHistory(dict, old(dict)) && currentOffset == old(currentOffset)
      ensures dictEnd != srcAddr ==> dict == [] || |dict| >= MINMATCH
    {
      if 1 <= |dict| < MINMATCH && dictEnd != srcAddr {
        dict, dictEnd := [], srcAddr;
      }
      if srcAddr + n > dictEnd - |dict| && srcAddr + n < dictEnd {
        var size := Min(dictEnd - (srcAddr + n), SIZE_64K);
        if size < MINMATCH {
          size := 0;
        }
        dict := dict[|dict| - size..];
      }
    }

    /**
      LZ4_compress_fast_continue. Whatever the memory layout, the block decodes to `src` after the
      old history, and the new history is the end of the old one followed by `src` — also when
      the block did not fit and the caller stores it raw.
     */
    method CompressFastContinue(src: seq<byte>, srcAddr: int, dst: array<byte>, d0: nat, capacity: nat,
        acceleration: int) returns (r: nat)
      requires Linked() && dst as object != hashTable && d0 + capacity <= dst.Length && |src| <= MAX_INPUT_SIZE
      requires dict == [] || srcAddr >= dictEnd || srcAddr + |src| < dictEnd
      modifies this, hashTable, dst
      ensures forall k :: 0 <= k < dst.Length && !(d0 <= k < d0 + capacity) ==> dst[k] == old(dst[k])
      ensures Linked() && dictEnd == srcAddr + |src|
      ensures EndOfHistory(dict, old(dict) + src) && |dict| >= |src|
      ensures r <= capacity
      ensures r > 0 ==> BlockFor(dst[d0..d0 + r], old(dict), src)
    {
      hide BlockFor, TableOk, TableFor, Linked, Valid;
      Renorm(|src|);
      TrimHistory(srcAddr, |src|);
      ghost var used := dict;
      r := CompressAfterHistory(src, srcAddr, dst, d0, capacity, acceleration);
      if r > 0 {
        LongerHistory(dst[d0..d0 + r], used, old(dict), src);
      }
      NewHistory(used, old(dict), src);
    }

    /** Prefix mode when the source follows the history in memory, external dictionary mode otherwise. */
    method CompressAfterHistory(src: seq<byte>, srcAddr: int, dst: array<byte>, d0: nat, capacity: nat,
        acceleration: int) returns (r: nat)
      requires Linked() && dst as object != hashTable && d0 + capacity <= dst.Length && |src| <= MAX_INPUT_SIZE
      requires dictEnd != srcAddr ==> dict == [] || |dict| >= MINMATCH
      requires currentOffset + |src| <= RENORM_LIMIT
      modifies this, hashTable, dst
      ensures forall k :: 0 <= k < dst.Length && !(d0 <= k < d0 + capacity) ==> dst[k] == old(dst[k])
      ensures Linked() && dictEnd == srcAddr + |src| && (dict == old(dict) + src || dict == src)
      ensures r <= capacity
      ensures r > 0 ==> BlockFor(dst[d0..d0 + r], old(dict), src)
    {
      hide BlockFor, TableOk, TableFor;
      var small := |dict| < SIZE_64K && |dict| < currentOffset;
      var directive := if dictEnd == srcAddr then BlockCompressor.WithPrefix64k else UsingExtDict;
      if |src| > 0 {
        LinkedTable(Input(dict, src, currentOffset, directive, small, ByU32, wordSize));
      }
      r := CompressGeneric(dict, src, dst, d0, capacity, true, ByU32, directive, small, Clamp(acceleration));
      if directive == UsingExtDict {
        dict := src;
      }
      dictEnd := srcAddr + |src|;
    }

    lemma LinkedTable(inp: Input)
      requires Linked() && inp.Valid() && inp.dict == dict && inp.startIndex == currentOffset && inp.tableType == ByU32
      requires inp.small <==> |dict| < SIZE_64K && |dict| < currentOffset
      ensures TableOk(inp, hashTable, currentOffset)
    {
    }

    lemma NewHistory(used: seq<byte>, hist: seq<byte>, src: seq<byte>)
      requires EndOfHistory(used, hist)
      ensures EndOfHistory(used + src, hist + src) && EndOfHistory(src, hist + src)
    {
    }

    /** LZ4_saveDict: the last `size` bytes of the history, at most 64 KB, move to another place. */
    method SaveDict(bufferAddr: int, size: nat) returns (saved: nat)
      requires Linked()
      modifies this`dict, this`dictEnd
      ensures Linked() && saved == Min(Min(size, SIZE_64K), |old(dict)|) == |dict|
      ensures EndOfHistory(dict, old(dict)) && dictEnd == bufferAddr + saved
    {
      saved := Min(Min(size, SIZE_64K), |dict|);
      dict := dict[|dict| - saved..];
      dictEnd := bufferAddr + saved;
    }
  }
}
