/**
  The memory primitives of the codec: constant-size memcpy, and the "wild" copies that work
  in strides and may write past the end they are given. `memcpy` requires that its two
  regions do not overlap, as C does.
 */
module Memory {
  import opened Bytes

  /** Only the bytes [from, to) of the buffer may differ. */
  twostate predicate OnlyChanges(dst: array<byte>, from: nat, to: nat)
    reads dst
  {
    forall k :: 0 <= k < dst.Length && !(from <= k < to) ==> dst[k] == old(dst[k])
  }

  /** memcpy from read-only memory. */
  method CopyIn(dst: array<byte>, to: nat, src: seq<byte>, from: nat, n: nat)
    requires to + n <= dst.Length && from + n <= |src|
    modifies dst
    ensures forall k :: 0 <= k < dst.Length && !(to <= k < to + n) ==> dst[k] == old(dst[k])
    ensures forall k :: to <= k < to + n ==> dst[k] == src[from + (k - to)]
  {
    forall k | to <= k < to + n {
      dst[k] := src[from + (k - to)];
    }
  }

  /** memcpy between two regions of one buffer. */
  method CopyWithin(dst: array<byte>, to: nat, from: nat, n: nat)
    requires to + n <= dst.Length && from + n <= dst.Length
    requires from + n <= to || to + n <= from
    modifies dst
    ensures forall k :: 0 <= k < dst.Length && !(to <= k < to + n) ==> dst[k] == old(dst[k])
    ensures forall k :: to <= k < to + n ==> dst[k] == old(dst[from + (k - to)])
  {
    forall k | to <= k < to + n {
      dst[k] := dst[from + (k - to)];
    }
  }

  /** Where a copy of [to, end) in strides of `stride` bytes stops writing: at least one stride is written. */
  function WildEnd(to: nat, end: nat, stride: nat): (e: nat)
    requires stride > 0
    ensures to + stride <= e && end <= e && e < Max(to + 1, end) + stride
    decreases Max(0, end - to)
  {
    if to + stride >= end then to + stride else WildEnd(to + stride, end, stride)
  }

  /** LZ4_wildCopy8 from read-only memory. */
  method WildCopy8In(dst: array<byte>, to: nat, src: seq<byte>, from: nat, end: nat)
    requires WildEnd(to, end, 8) <= dst.Length && from + (WildEnd(to, end, 8) - to) <= |src|
    modifies dst
    ensures forall k :: 0 <= k < dst.Length && !(to <= k < WildEnd(to, end, 8)) ==> dst[k] == old(dst[k])
    ensures forall k :: to <= k < WildEnd(to, end, 8) ==> dst[k] == src[from + (k - to)]
  {
    CopyIn(dst, to, src, from, 8);
    var d, s := to + 8, from + 8;
    while d < end
      invariant to + 8 <= d && s - d == from - to
      invariant if d < end then WildEnd(d, end, 8) == WildEnd(to, end, 8) else d == WildEnd(to, end, 8)
      invariant forall k :: 0 <= k < dst.Length && !(to <= k < d) ==> dst[k] == old(dst[k])
      invariant forall k :: to <= k < d ==> dst[k] == src[from + (k - to)]
    {
      CopyIn(dst, d, src, s, 8);
      d, s := d + 8, s + 8;
    }
  }

  /** LZ4_wildCopy32 from read-only memory. */
  method WildCopy32In(dst: array<byte>, to: nat, src: seq<byte>, from: nat, end: nat)
    requires WildEnd(to, end, 32) <= dst.Length && from + (WildEnd(to, end, 32) - to) <= |src|
    modifies dst
    ensures forall k :: 0 <= k < dst.Length && !(to <= k < WildEnd(to, end, 32)) ==> dst[k] == old(dst[k])
    ensures forall k :: to <= k < WildEnd(to, end, 32) ==> dst[k] == src[from + (k - to)]
  {
    CopyIn(dst, to, src, from, 16);
    CopyIn(dst, to + 16, src, from + 16, 16);
    var d, s := to + 32, from + 32;
    while d < end
      invariant to + 32 <= d && s - d == from - to
      invariant if d < end then WildEnd(d, end, 32) == WildEnd(to, end, 32) else d == WildEnd(to, end, 32)
      invariant forall k :: 0 <= k < dst.Length && !(to <= k < d) ==> dst[k] == old(dst[k])
      invariant forall k :: to <= k < d ==> dst[k] == src[from + (k - to)]
    {
      CopyIn(dst, d, src, s, 16);
      CopyIn(dst, d + 16, src, s + 16, 16);
      d, s := d + 32, s + 32;
    }
  }

  /** LZ4_wildCopy8 behind itself: the distance is at least one stride, the run may overlap its source. */
  method WildCopy8Within(dst: array<byte>, to: nat, from: nat, end: nat)
    requires from + 8 <= to && WildEnd(to, end, 8) <= dst.Length
    modifies dst
    ensures forall k :: 0 <= k < dst.Length && !(to <= k < WildEnd(to, end, 8)) ==> dst[k] == old(dst[k])
    ensures forall k :: to <= k < WildEnd(to, end, 8) ==> dst[k] == dst[k - (to - from)]
  {
    CopyWithin(dst, to, from, 8);
    var d, s := to + 8, from + 8;
    while d < end
      invariant to + 8 <= d && d - s == to - from
      invariant if d < end then WildEnd(d, end, 8) == WildEnd(to, end, 8) else d == WildEnd(to, end, 8)
      invariant forall k :: 0 <= k < dst.Length && !(to <= k < d) ==> dst[k] == old(dst[k])
      invariant forall k :: to <= k < d ==> dst[k] == dst[k - (to - from)]
    {
      CopyWithin(dst, d, s, 8);
      d, s := d + 8, s + 8;
    }
  }

  /** LZ4_wildCopy32 behind itself: two 16-byte copies a turn, so the distance is at least 16. */
  method WildCopy32Within(dst: array<byte>, to: nat, from: nat, end: nat)
    requires from + 16 <= to && WildEnd(to, end, 32) <= dst.Length
    modifies dst
    ensures forall k :: 0 <= k < dst.Length && !(to <= k < WildEnd(to, end, 32)) ==> dst[k] == old(dst[k])
    ensures forall k :: to <= k < WildEnd(to, end, 32) ==> dst[k] == dst[k - (to - from)]
  {
    CopyWithin(dst, to, from, 16);
    CopyWithin(dst, to + 16, from + 16, 16);
    var d, s := to + 32, from + 32;
    while d < end
      invariant to + 32 <= d && d - s == to - from
      invariant if d < end then WildEnd(d, end, 32) == WildEnd(to, end, 32) else d == WildEnd(to, end, 32)
      invariant forall k :: 0 <= k < dst.Length && !(to <= k < d) ==> dst[k] == old(dst[k])
      invariant forall k :: to <= k < d ==> dst[k] == dst[k - (to - from)]
    {
      CopyWithin(dst, d, s, 16);
      CopyWithin(dst, d + 16, s + 16, 16);
      d, s := d + 32, s + 32;
    }
  }

  /** memmove from a possibly overlapping region before `to`, one byte at a time (the overlap copy loops). */
  method CopyForward(dst: array<byte>, to: nat, from: nat, end: nat)
    requires from <= to <= end <= dst.Length
    modifies dst
    ensures forall k :: 0 <= k < dst.Length && !(to <= k < end) ==> dst[k] == old(dst[k])
    ensures from < to ==> forall k :: to <= k < end ==> dst[k] == dst[k - (to - from)]
    ensures from == to ==> forall k :: to <= k < end ==> dst[k] == old(dst[k])
  {
    var d, s := to, from;
    while d < end
      invariant to <= d <= end && d - s == to - from
      invariant forall k :: 0 <= k < dst.Length && !(to <= k < d) ==> dst[k] == old(dst[k])
      invariant from < to ==> forall k :: to <= k < d ==> dst[k] == dst[k - (to - from)]
      invariant from == to ==> forall k :: to <= k < d ==> dst[k] == old(dst[k])
    {
      dst[d] := dst[s];
      d, s := d + 1, s + 1;
    }
  }

  // ---------- matches closer than 8 bytes ----------

  const INC32TABLE: seq<nat> := [0, 1, 2, 1, 0, 4, 4, 4]
  const DEC64TABLE: seq<int> := [0, 0, 0, -1, -4, 1, 2, 3]

  /** Every byte of [to, end) repeats the byte `offset` before it; offset 0 gives zeros. */
  ghost predicate Repeats(dst: array<byte>, to: nat, end: nat, offset: nat)
    requires offset <= to && end <= dst.Length
    reads dst
  {
    forall k :: to <= k < end ==> dst[k] == if offset == 0 then 0 else dst[k - offset]
  }

  /**
    The first 8 bytes of a match whose offset is below 8, and the source position from which
    the copy may continue in 8-byte strides: at a distance that is a multiple of the offset.
   */
  method SpreadShortOffset(dst: array<byte>, to: nat, offset: nat) returns (from: nat)
    requires offset < 8 && offset <= to && to + 8 <= dst.Length
    modifies dst
    ensures forall k :: 0 <= k < dst.Length && !(to <= k < to + 8) ==> dst[k] == old(dst[k])
    ensures Repeats(dst, to, to + 8, offset)
    ensures from <= to && 8 <= to + 8 - from <= 14
    ensures to + 8 - from == [8, 8, 8, 9, 8, 10, 12, 14][offset]
  {
    FirstFourBytes(dst, to, offset);
    var match_ := to - offset + INC32TABLE[offset];
    CopyWithin(dst, to + 4, match_, 4);
    SpreadRepeats(dst, to, offset, match_);
    from := match_ - DEC64TABLE[offset];
  }

  method FirstFourBytes(dst: array<byte>, to: nat, offset: nat)
    requires offset <= to && to + 4 <= dst.Length
    modifies dst
    ensures forall k :: 0 <= k < dst.Length && !(to <= k < to + 4) ==> dst[k] == old(dst[k])
    ensures Repeats(dst, to, to + 4, offset)
  {
    dst[to], dst[to + 1], dst[to + 2], dst[to + 3] := 0, 0, 0, 0;
    var i := 0;
    while i < 4
      invariant 0 <= i <= 4
      invariant forall k :: 0 <= k < dst.Length && !(to <= k < to + 4) ==> dst[k] == old(dst[k])
      invariant offset == 0 ==> forall k :: to <= k < to + 4 ==> dst[k] == 0
      invariant Repeats(dst, to, to + i, offset)
    {
      dst[to + i] := dst[to - offset + i];
      i := i + 1;
    }
  }

  lemma SpreadRepeats(dst: array<byte>, to: nat, offset: nat, from: nat)
    requires offset < 8 && offset <= to && to + 8 <= dst.Length
    requires from == to - offset + INC32TABLE[offset]
    requires Repeats(dst, to, to + 4, offset)
    requires forall k :: to + 4 <= k < to + 8 ==> dst[k] == dst[from + (k - to - 4)]
    ensures Repeats(dst, to, to + 8, offset)
  {
    assert dst[to + 4] == dst[from] && dst[to + 5] == dst[from + 1] && dst[to + 6] == dst[from + 2]
      && dst[to + 7] == dst[from + 3];
    if offset == 3 {
      assert dst[from] == dst[to - 2] == dst[to + 1] && dst[from + 1] == dst[to - 1] == dst[to + 2];
      assert dst[from + 2] == dst[to] && dst[to + 3] == dst[to];
    }
  }

  /** Continuing at any of those distances keeps the period. */
  lemma ContinuedPeriod(dst: array<byte>, to: nat, end: nat, offset: nat, distance: nat)
    requires offset < 8 && offset <= to && to + 8 <= end <= dst.Length
    requires distance == [8, 8, 8, 9, 8, 10, 12, 14][offset] && distance <= to + 8
    requires Repeats(dst, to, to + 8, offset)
    requires forall k :: to + 8 <= k < end ==> dst[k] == dst[k - distance]
    ensures Repeats(dst, to, end, offset)
  {
    var k := to + 8;
    while k < end
      invariant to + 8 <= k <= end
      invariant Repeats(dst, to, k, offset)
    {
      PeriodStep(dst, to, k, offset, distance);
      k := k + 1;
    }
  }

  lemma PeriodStep(dst: array<byte>, to: nat, k: nat, offset: nat, distance: nat)
    requires offset < 8 && offset <= to && to + 8 <= k < dst.Length
    requires distance == [8, 8, 8, 9, 8, 10, 12, 14][offset] && distance <= to + 8
    requires Repeats(dst, to, k, offset)
    requires dst[k] == dst[k - distance]
    ensures Repeats(dst, to, k + 1, offset)
  {
    var j := k - distance;
    match offset
    case 0 =>
    case 1 => assert dst[j + 1] == dst[j] && dst[j + 2] == dst[j + 1] && dst[j + 3] == dst[j + 2]
      && dst[j + 4] == dst[j + 3]
        && dst[j + 5] == dst[j + 4] && dst[j + 6] == dst[j + 5] && dst[j + 7] == dst[j + 6];
    case 2 => assert dst[j + 2] == dst[j] && dst[j + 4] == dst[j + 2] && dst[j + 6] == dst[j + 4];
    case 3 => assert dst[j + 3] == dst[j] && dst[j + 6] == dst[j + 3];
    case 4 => assert dst[j + 4] == dst[j];
    case 5 => assert dst[j + 5] == dst[j];
    case 6 => assert dst[j + 6] == dst[j];
    case 7 => assert dst[j + 7] == dst[j];
  }

  function Zeros(n: nat): (s: seq<byte>)
    ensures |s| == n && forall i :: 0 <= i < n ==> s[i] == 0
  {
    seq(n, _ => 0)
  }

  // ---------- slices ----------

  /** memcpy, described by slices. */
  method CopySlice(dst: array<byte>, to: nat, src: seq<byte>, from: nat, n: nat)
    requires to + n <= dst.Length && from + n <= |src|
    modifies dst
    ensures dst[..to] == old(dst[..to]) && dst[to..to + n] == src[from..from + n] && dst[to + n..] == old(dst[to + n..])
  {
    CopyIn(dst, to, src, from, n);
  }

  lemma SliceOfSlice(s: seq<byte>, a: nat, b: nat, i: nat, j: nat)
    requires a <= b <= |s| && i <= j <= b - a
    ensures s[a..b][i..j] == s[a + i..a + j]
  {
    assert forall k :: 0 <= k < j - i ==> s[a..b][i..j][k] == s[a + i..a + j][k];
  }

  lemma SliceOfSuffix(s: seq<byte>, a: nat, b: nat)
    requires a <= b <= |s|
    ensures s[a..b] == s[a..][..b - a]
  {
  }

  lemma Cut(s: seq<byte>, a: nat, b: nat, c: nat)
    requires a <= b <= c <= |s|
    ensures s[a..c] == s[a..b] + s[b..c]
  {
  }

  lemma SameEnd(h: seq<byte>, d: seq<byte>, k: nat, skip: nat)
    requires skip <= k <= |h| && k <= |d| && h[|h| - k..] == d[|d| - k..]
    ensures h[|h| - k..|h| - skip] == d[|d| - k..|d| - skip]
  {
    assert h[|h| - k..|h| - skip] == h[|h| - k..][..k - skip];
    assert d[|d| - k..|d| - skip] == d[|d| - k..][..k - skip];
  }

  lemma SliceOfPrefix(s: seq<byte>, n: nat, a: nat, b: nat)
    requires a <= b <= n <= |s|
    ensures s[..n][a..b] == s[a..b]
  {
  }

  lemma SameBefore(was: seq<byte>, now: seq<byte>, at: nat, op: nat)
    requires at <= op <= |was| == |now| && was[..op] == now[..op]
    ensures was[at..op] == now[at..op]
  {
    assert was[at..op] == was[..op][at..];
    assert now[at..op] == now[..op][at..];
  }

  lemma Extended(was: seq<byte>, now: seq<byte>, d: nat, op: nat, end: nat)
    requires d <= op <= end <= |now| == |was| && was[..op] == now[..op]
    ensures now[d..end] == was[d..op] + now[op..end] && now[..d] == was[..d]
  {
    SameBefore(was, now, d, op);
    Cut(now, d, op, end);
    assert now[..d] == now[..op][..d] && was[..d] == was[..op][..d];
  }
}
