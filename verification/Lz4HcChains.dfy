/**
  The index of lz4hc.c: the hash table of latest positions and the chain table of distances to
  the previous position with the same hash. Positions are table indices; history and block are
  one contiguous segment whose first byte has index `Low`.
 */
module Lz4HcChains {
  import opened Bytes
  import opened BlockCompressor

  const HASH_TABLE_SIZE := 32768
  const MAXD := 0x1_0000
  const MAX_DELTA := 65535
  const GB := 0x4000_0000

  /** LZ4HC_hashPtr, of the four bytes at a position. */
  function Hash(v: uint32): (h: nat)
    ensures h < HASH_TABLE_SIZE
  {
    v * 2654435761 % 0x1_0000_0000 / 0x2_0000
  }

  function Low(inp: Input): int {
    inp.startIndex - |inp.dict|
  }

  /** The index behind the last position whose four bytes lie inside the data. */
  function End(inp: Input): int {
    inp.startIndex + |inp.src| - 3
  }

  /** An index that can be hashed. */
  predicate Hashable(inp: Input, i: int) {
    Low(inp) <= i < End(inp)
  }

  function HashAt(inp: Input, i: int): (h: nat)
    requires Hashable(inp, i)
    ensures h < HASH_TABLE_SIZE
  {
    Hash(Read32(inp.W(), i - Low(inp)))
  }

  /** The latest index below `i` whose hash is `h`, by looking at all of them. */
  function Latest(inp: Input, i: int, h: nat): (r: Option<int>)
    requires Low(inp) <= i <= End(inp)
    ensures r.Some? ==> Low(inp) <= r.value < i && HashAt(inp, r.value) == h
    ensures r.Some? ==> forall j :: r.value < j < i ==> HashAt(inp, j) != h
    ensures r == None ==> forall j :: Low(inp) <= j < i ==> HashAt(inp, j) != h
    decreases i - Low(inp)
  {
    if i == Low(inp) then None
    else if HashAt(inp, i - 1) == h then Some(i - 1)
    else Latest(inp, i - 1, h)
  }

  /** What an entry of the hash table says: the latest index, or one from before this data. */
  predicate HashEntryOk(inp: Input, next: int, h: nat, e: uint32)
    requires Low(inp) <= next <= End(inp)
  {
    match Latest(inp, next, h)
    case Some(j) => e == j
    case None => e < Low(inp)
  }

  /** What an entry of the chain table says: the distance to the index before with the same hash, capped. */
  predicate ChainEntryOk(inp: Input, i: int, delta: uint16)
    requires Hashable(inp, i)
  {
    match Latest(inp, i, HashAt(inp, i))
    case Some(j) => delta == Min(i - j, MAX_DELTA)
    case None => delta > 0 && (delta == MAX_DELTA || i - delta < Low(inp))
  }

  /** The tables describe every index below `next`; the chain table those of the last 65536. */
  ghost predicate Indexed(inp: Input, next: int, hashTable: seq<uint32>, chainTable: seq<uint16>) {
    && Low(inp) <= next <= End(inp) && |hashTable| == HASH_TABLE_SIZE && |chainTable| == MAXD && Low(inp) >= MAXD
    && (forall h :: 0 <= h < HASH_TABLE_SIZE ==> HashEntryOk(inp, next, h, hashTable[h]))
    && (forall i :: Max(Low(inp), next - MAXD) <= i < next ==> ChainEntryOk(inp, i, chainTable[i % MAXD]))
  }

  /** One index inserted. */
  lemma IndexedMore(inp: Input, next: int, ht: seq<uint32>, ct: seq<uint16>)
    requires Indexed(inp, next, ht, ct) && next < End(inp) && inp.Valid()
    ensures var h := HashAt(inp, next);
      && ht[h] < next && Indexed(inp, next + 1, ht[h := next], ct[next % MAXD := Min(next - ht[h], MAX_DELTA)])
  {
    hide Hash;
    var h := HashAt(inp, next);
    assert HashEntryOk(inp, next, h, ht[h]);
    var delta := Min(next - ht[h], MAX_DELTA);
    assert ChainEntryOk(inp, next, delta);
    var ht', ct' := ht[h := next], ct[next % MAXD := delta];
    forall k | 0 <= k < HASH_TABLE_SIZE ensures HashEntryOk(inp, next + 1, k, ht'[k]) {
      assert HashEntryOk(inp, next, k, ht[k]);
    }
    forall i | Max(Low(inp), next + 1 - MAXD) <= i < next + 1 ensures ChainEntryOk(inp, i, ct'[i % MAXD]) {
      if i < next {
        SlotsDiffer(i, next);
        assert ChainEntryOk(inp, i, ct[i % MAXD]);
      }
    }
  }

  /** At the start of data without history the tables hold lower indices only. */
  lemma NothingIndexed(inp: Input, ht: seq<uint32>, ct: seq<uint16>)
    requires inp.dict == [] && |inp.src| >= 3 && inp.startIndex >= MAXD && |ht| == HASH_TABLE_SIZE && |ct| == MAXD
    requires forall h :: 0 <= h < HASH_TABLE_SIZE ==> ht[h] < inp.startIndex
    ensures Indexed(inp, inp.startIndex, ht, ct)
  {
    hide HashAt;
  }

  lemma IndexedBelow(inp: Input, next: int, ht: seq<uint32>, ct: seq<uint16>, h: nat)
    requires Indexed(inp, next, ht, ct) && h < HASH_TABLE_SIZE
    ensures ht[h] < next
  {
    hide HashAt;
    assert HashEntryOk(inp, next, h, ht[h]);
  }

  lemma SlotsDiffer(i: int, j: int)
    requires i < j < i + MAXD
    ensures i % MAXD != j % MAXD
  {
  }

  // ---------- walking a chain ----------

  /** The indices in [lowest, i) whose hash is `h`, latest first: a full scan. */
  function Scan(inp: Input, i: int, lowest: int, h: nat): (r: seq<int>)
    requires Low(inp) <= lowest && i <= End(inp)
    decreases i - lowest
  {
    if i <= lowest then []
    else (if HashAt(inp, i - 1) == h then [i - 1] else []) + Scan(inp, i - 1, lowest, h)
  }

  /** The indices met from `i` on by following the chain table down to `lowest`. */
  function Walk(chainTable: seq<uint16>, i: int, lowest: int): (r: seq<int>)
    requires |chainTable| == MAXD
    decreases i - lowest
  {
    if i < lowest || chainTable[i % MAXD] == 0 then []
    else [i] + Walk(chainTable, i - chainTable[i % MAXD], lowest)
  }

  lemma {:induction false} ScanSkips(inp: Input, i: int, j: int, lowest: int, h: nat)
    requires Low(inp) <= lowest && j <= i <= End(inp)
    requires forall k :: Max(j, lowest) <= k < i ==> HashAt(inp, k) != h
    ensures Scan(inp, i, lowest, h) == Scan(inp, j, lowest, h)
    decreases i - j
  {
    if j < i && lowest < i {
      ScanSkips(inp, i - 1, j, lowest, h);
    }
  }

  /** From an index on, the chain meets what the scan finds from there on. */
  lemma {:induction false} ChainIsScan(inp: Input, next: int, ht: seq<uint32>, ct: seq<uint16>, i: int, lowest: int)
    requires Indexed(inp, next, ht, ct) && Max(Low(inp), next - MAX_DELTA) <= lowest && lowest <= i < next
    ensures Walk(ct, i, lowest) == Scan(inp, i + 1, lowest, HashAt(inp, i))
    decreases i - lowest
  {
    hide Hash;
    var h, delta := HashAt(inp, i), ct[i % MAXD];
    assert ChainEntryOk(inp, i, delta);
    match Latest(inp, i, h) {
      case Some(j) =>
        ScanSkips(inp, i, j + 1, lowest, h);
        if j >= lowest {
          ChainIsScan(inp, next, ht, ct, j, lowest);
        } else {
          ScanSkips(inp, i, lowest, lowest, h);
        }
      case None =>
        ScanSkips(inp, i, lowest, lowest, h);
    }
  }

  /** The walk from the hash table's entry meets exactly the positions in the window with that hash, latest first. */
  lemma WalkIsScan(inp: Input, next: int, ht: seq<uint32>, ct: seq<uint16>, h: nat, lowest: int)
    requires Indexed(inp, next, ht, ct) && h < HASH_TABLE_SIZE && lowest <= next
      && Max(Low(inp), next - MAX_DELTA) <= lowest
    ensures Walk(ct, ht[h], lowest) == Scan(inp, next, lowest, h)
  {
    hide Hash;
    assert HashEntryOk(inp, next, h, ht[h]);
    match Latest(inp, next, h) {
      case Some(j) =>
        ScanSkips(inp, next, j + 1, lowest, h);
        if j >= lowest {
          ChainIsScan(inp, next, ht, ct, j, lowest);
        } else {
          ScanSkips(inp, next, lowest, lowest, h);
        }
      case None =>
        ScanSkips(inp, next, lowest, lowest, h);
    }
  }

  lemma {:induction false} ScanIsExact(inp: Input, i: int, lowest: int, h: nat, j: int)
    requires Low(inp) <= lowest && i <= End(inp)
    ensures j in Scan(inp, i, lowest, h) <==> lowest <= j < i && HashAt(inp, j) == h
    decreases i - lowest
  {
    if lowest < i {
      ScanIsExact(inp, i - 1, lowest, h, j);
    }
  }

  /** The part of LZ4HC_CCtx_internal that holds the index. */
  class Index {
    const hashTable: array<uint32>
    const chainTable: array<uint16>
    var nextToUpdate: nat

    constructor ()
      ensures fresh(hashTable) && fresh(chainTable) && hashTable.Length == HASH_TABLE_SIZE && chainTable.Length == MAXD
      ensures UsedUpTo(0)
    {
      hashTable := new uint32[HASH_TABLE_SIZE](_ => 0);
      chainTable := new uint16[MAXD](_ => 0);
      nextToUpdate := 0;
    }

    /** The tables of a context that has been used for data with indices up to `size`. */
    ghost predicate UsedUpTo(size: nat)
      reads this, hashTable, chainTable
    {
      && hashTable.Length == HASH_TABLE_SIZE && chainTable.Length == MAXD
      && forall h :: 0 <= h < HASH_TABLE_SIZE ==> hashTable[h] <= size
    }

    /** The zeroing of LZ4_initStreamHC. */
    method Zero()
      requires hashTable.Length == HASH_TABLE_SIZE && chainTable.Length == MAXD
      modifies hashTable, chainTable
      ensures UsedUpTo(0)
    {
      forall h | 0 <= h < hashTable.Length {
        hashTable[h] := 0;
      }
      forall i | 0 <= i < chainTable.Length {
        chainTable[i] := 0;
      }
    }

    /** LZ4HC_clearTables. */
    method Clear()
      requires hashTable.Length == HASH_TABLE_SIZE && chainTable.Length == MAXD
      modifies hashTable, chainTable
      ensures UsedUpTo(0)
    {
      forall h | 0 <= h < hashTable.Length {
        hashTable[h] := 0;
      }
      forall i | 0 <= i < chainTable.Length {
        chainTable[i] := 0xffff;
      }
    }

    /** LZ4HC_init_internal: the new data's indices start behind all earlier ones, with a gap of 64 KB. */
    method InitInternal(size: nat) returns (start: nat)
      requires UsedUpTo(size)
      modifies this, hashTable, chainTable
      ensures MAXD <= start <= GB + MAXD && UsedUpTo(start - MAXD) && nextToUpdate == start
    {
      start := size;
      if start > GB {
        Clear();
        start := 0;
      }
      start := start + MAXD;
      nextToUpdate := start;
    }

    ghost predicate Holds(inp: Input)
      reads this, hashTable, chainTable
    {
      Indexed(inp, nextToUpdate, hashTable[..], chainTable[..])
    }

    /** LZ4HC_Insert: enter every position below `target`; the searches of a parse go forward. */
    method Insert(inp: Input, target: nat)
      requires inp.Valid() && Holds(inp) && nextToUpdate <= target <= End(inp)
      modifies this, hashTable, chainTable
      ensures Holds(inp) && nextToUpdate == target
    {
      var idx := nextToUpdate;
      while idx < target
        invariant nextToUpdate == old(nextToUpdate) <= idx <= target
        invariant Indexed(inp, idx, hashTable[..], chainTable[..])
      {
        InsertOne(inp, idx);
        idx := idx + 1;
      }
      nextToUpdate := target;
    }

    method InsertOne(inp: Input, idx: nat)
      requires inp.Valid() && Indexed(inp, idx, hashTable[..], chainTable[..]) && idx < End(inp)
      modifies hashTable, chainTable
      ensures Indexed(inp, idx + 1, hashTable[..], chainTable[..])
    {
      hide HashAt, HashEntryOk, ChainEntryOk;
      IndexedMore(inp, idx, hashTable[..], chainTable[..]);
      ghost var ht, ct := hashTable[..], chainTable[..];
      var h := HashAt(inp, idx);
      var delta: nat := idx - hashTable[h];
      if delta > MAX_DELTA {
        delta := MAX_DELTA;
      }
      chainTable[idx % MAXD] := delta;
      hashTable[h] := idx;
      ghost var i32: uint32 := idx;
      ghost var d16: uint16 := delta;
      assert hashTable[..] == ht[h := i32];
      assert chainTable[..] == ct[idx % MAXD := d16];
    }
  }
}
