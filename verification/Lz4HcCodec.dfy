/** The entry points of lz4hc.c for the levels of the optimal parser, and the round trip with the decoder. */
module Lz4HcCodec {
  import opened Bytes
  import opened BlockFormat
  import opened BlockCompressor
  import opened BlockDecoder
  import opened BlockCodec
  import opened Lz4Stream
  import opened Lz4HcChains
  import opened Lz4HcOptimal

  const CLEVEL_OPT_MIN := 10
  const CLEVEL_MAX := 12

  /** A compression context; `size` is the C code's end - base. */
  class HcState {
    const index: Index
    var size: nat
    var dirty: bool

    constructor ()
      ensures fresh(index) && fresh(index.hashTable) && fresh(index.chainTable) && Ready()
    {
      index := new Index();
      size, dirty := 0, false;
    }

    ghost predicate Ready()
      reads this, index, index.hashTable, index.chainTable
    {
      index.hashTable.Length == HASH_TABLE_SIZE && index.chainTable.Length == MAXD && (!dirty ==> index.UsedUpTo(size))
    }

    /** LZ4_resetStreamHC_fast: only a context whose last compression failed is zeroed. */
    method ResetFast()
      requires Ready()
      modifies this, index.hashTable, index.chainTable
      ensures Ready() && !dirty && (!old(dirty) ==> size == old(size))
    {
      if dirty {
        index.Zero();
        size, dirty := 0, false;
      }
    }

    /**
      LZ4_compress_HC_extStateHC_fastReset at the levels of the optimal parser, on any context that
      was used before. The block decodes to the input whatever earlier inputs left in the tables.
     */
    method CompressFastReset(src: seq<byte>, dst: array<byte>, d0: nat, capacity: nat, level: nat, favorDecSpeed: bool,
        wordSize: nat)
        returns (r: nat)
      requires Ready() && d0 + capacity <= dst.Length && level >= CLEVEL_OPT_MIN && (wordSize == 8 || wordSize == 4)
      requires |src| <= MAX_INPUT_SIZE
      modifies this, index, index.hashTable, index.chainTable, dst
      ensures Ready()
      ensures forall k :: 0 <= k < dst.Length && !(d0 <= k < d0 + capacity) ==> dst[k] == old(dst[k])
      ensures r <= capacity && (r == 0 ==> capacity < CompressBound(|src|))
      ensures r > 0 ==> Decode(dst[d0..d0 + r], [], true) == Some(src) && Conforms(dst[d0..d0 + r], 0, |src|)
      ensures r <= |src| + |src| / 255 + 2
    {
      hide Decode, Conforms, Indexed;
      ResetFast();
      var start := index.InitInternal(size);
      var inp := Input([], src, start, BlockCompressor.Directive.NoDict, false, ByU32, wordSize);
      assert inp.W() == src;
      if |src| >= MFLIMIT {
        NothingIndexed(inp, index.hashTable[..], index.chainTable[..]);
      }
      var limited := capacity < CompressBound(|src|);
      var olimit := if limited then d0 + capacity else d0 + CompressBound(|src|);
      var nbSearches, sufficient := 96, 64;
      if level == 11 {
        nbSearches, sufficient := 512, 128;
      } else if level >= CLEVEL_MAX {
        nbSearches, sufficient := 16384, OPT_NUM;
      }
      size := start + |src|;
      r := CompressOptimal(inp, index, dst, d0, nbSearches, sufficient, level >= CLEVEL_MAX, favorDecSpeed, olimit,
        limited);
      if r == 0 {
        dirty := true;
      }
      forall h | 0 <= h < HASH_TABLE_SIZE ensures index.hashTable[h] <= size {
        if |src| >= MFLIMIT {
          IndexedBelow(inp, index.nextToUpdate, index.hashTable[..], index.chainTable[..], h);
          IndexedEnds(inp, index.nextToUpdate, index.hashTable[..], index.chainTable[..]);
        }
      }
    }
  }

  lemma IndexedEnds(inp: Input, next: int, ht: seq<uint32>, ct: seq<uint16>)
    requires Indexed(inp, next, ht, ct)
    ensures next <= inp.startIndex + |inp.src|
  {
  }

  /** Compressed at one of these levels into a buffer that is large enough, the data come back exactly when they fit. */
  method RoundTrip(state: HcState, data: seq<byte>, level: nat, favorDecSpeed: bool, wordSize: nat, capacity: nat,
      fastLoop: bool)
      returns (n: nat, r: int, out: seq<byte>)
    requires state.Ready() && |data| <= MAX_INPUT_SIZE && level >= CLEVEL_OPT_MIN && (wordSize == 8 || wordSize == 4)
    modifies state, state.index, state.index.hashTable, state.index.chainTable
    ensures state.Ready() && 0 < n <= |data| + |data| / 255 + 2
    ensures r >= 0 <==> |data| <= capacity
    ensures r >= 0 ==> r == |data| && out == data
  {
    hide Decode, Conforms, DecodeSeq, ConformsSeq;
    var bound := CompressBound(|data|);
    var packed := new byte[bound];
    n := state.CompressFastReset(data, packed, 0, bound, level, favorDecSpeed, wordSize);
    var block := packed[0..n];
    var unpacked := new byte[capacity];
    assert BlockFor(block, [], data) by {
      assert [] + data == data;
    }
    r := DecompressSafe(block, unpacked, 0, capacity, fastLoop, |data|);
    BlockDecodes(block, [], data);
    assert [] + data == data;
    out := if r >= 0 then unpacked[0..r] else [];
  }
}
