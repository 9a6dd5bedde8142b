/**
  The match search of lz4hc.c (LZ4HC_InsertAndGetWiderMatch, forward only) with its two short
  cuts: changing to a faster chain, and jumping inside runs of one byte. History and block are
  contiguous, so every index is in the prefix and LZ4HC_protectDictEnd always passes.
 */
module Lz4HcSearch {
  import opened Bytes
  import opened BlockFormat
  import opened BlockCompressor
  import opened Lz4HcChains

  // ---------- counting a pattern ----------

  /** The byte of a repeated 4-byte pattern at a distance from its start; distances may be negative. */
  function PatternByte(pattern: uint32, k: int): byte {
    Write32(pattern)[k % 4]
  }

  /** The bytes [ip, ip + n) continue the pattern. */
  ghost predicate Continues(w: seq<byte>, ip: nat, n: nat, pattern: uint32)
    requires ip + n <= |w|
  {
    forall k :: 0 <= k < n ==> w[ip + k] == PatternByte(pattern, k)
  }

  /** The pattern repeated up to the size of a register. */
  function Register(pattern: uint32, size: nat): (s: seq<byte>)
    ensures |s| == size && forall k :: 0 <= k < size ==> s[k] == PatternByte(pattern, k)
  {
    seq(size, k => PatternByte(pattern, k))
  }

  lemma RegisterContinues(w: seq<byte>, ip: nat, n: nat, pattern: uint32, more: nat, size: nat)
    requires ip + n + more <= |w| && more <= size && n % 4 == 0
    requires Continues(w, ip, n, pattern) && Agree(w, ip + n, Register(pattern, size), 0, more)
    ensures Continues(w, ip, n + more, pattern)
  {
    forall k | 0 <= k < n + more ensures w[ip + k] == PatternByte(pattern, k) {
      if k >= n {
        assert w[ip + k] == Register(pattern, size)[k - n];
        SamePlace(k, n);
      }
    }
  }

  lemma SamePlace(k: int, n: int)
    requires n % 4 == 0
    ensures (k - n) % 4 == k % 4
  {
  }

  /** LZ4HC_countPattern: how far the bytes from `ip` on, up to `iEnd`, continue the pattern. */
  method CountPattern(w: seq<byte>, ip: nat, iEnd: nat, pattern: uint32, wordSize: nat) returns (n: nat)
    requires ip <= iEnd <= |w| && (wordSize == 8 || wordSize == 4)
    ensures ip + n <= iEnd && Continues(w, ip, n, pattern)
    ensures ip + n == iEnd || w[ip + n] != PatternByte(pattern, n)
  {
    hide Agree, PatternByte, Continues, Register;
    n := 0;
    var word := Register(pattern, wordSize);
    assert Continues(w, ip, 0, pattern) by { ContinuesMore(w, ip, 0, pattern); }
    while ip + n + (wordSize - 1) < iEnd
      invariant ip + n <= iEnd && n % 4 == 0 && Continues(w, ip, n, pattern)
      decreases iEnd - n
    {
      SlicesAgree(w, ip + n, word, 0, wordSize);
      if w[ip + n..ip + n + wordSize] != word[0..0 + wordSize] {
        var common := CommonBytes(w, ip + n, word, 0, wordSize);
        RegisterContinues(w, ip, n, pattern, common, wordSize);
        SamePattern(pattern, n, common);
        return n + common;
      }
      RegisterContinues(w, ip, n, pattern, wordSize, wordSize);
      n := n + wordSize;
    }
    while ip + n < iEnd && w[ip + n] == PatternByte(pattern, n)
      invariant ip + n <= iEnd && Continues(w, ip, n, pattern)
      decreases iEnd - n
    {
      ContinuesMore(w, ip, n, pattern);
      n := n + 1;
    }
  }

  lemma ContinuesMore(w: seq<byte>, ip: nat, n: nat, pattern: uint32)
    requires ip + n <= |w|
    ensures n == 0 ==> Continues(w, ip, n, pattern)
    ensures ip + n < |w| && Continues(w, ip, n, pattern) && w[ip + n] == PatternByte(pattern, n) ==>
      Continues(w, ip, n + 1, pattern)
  {
  }

  lemma SamePattern(pattern: uint32, n: nat, k: nat)
    requires n % 4 == 0
    ensures PatternByte(pattern, n + k) == PatternByte(pattern, k)
  {
    SamePlace(n + k, n);
  }

  predicate BackByte(w: seq<byte>, ip: nat, k: nat, pattern: uint32)
    requires 1 <= k <= ip <= |w|
  {
    w[ip - k] == PatternByte(pattern, 0 - k)
  }

  /** The `n` bytes before `ip` end in the pattern. */
  ghost predicate Precedes(w: seq<byte>, ip: nat, n: nat, pattern: uint32)
    requires n <= ip <= |w|
  {
    forall k :: 1 <= k <= n ==> BackByte(w, ip, k, pattern)
  }

  /** LZ4HC_reverseCountPattern: how far the bytes before `ip`, down to `iLow`, are the pattern. */
  method ReverseCountPattern(w: seq<byte>, ip: nat, iLow: nat, pattern: uint32) returns (n: nat)
    requires iLow <= ip <= |w|
    ensures n <= ip - iLow && Precedes(w, ip, n, pattern)
    ensures n == ip - iLow || w[ip - (n + 1)] != PatternByte(pattern, 0 - (n + 1))
  {
    hide PatternByte, Read32, Precedes;
    n := 0;
    assert Precedes(w, ip, 0, pattern) by { NothingPrecedes(w, ip, pattern); }
    while ip - n >= iLow + 4 && Read32(w, ip - n - 4) == pattern
      invariant n <= ip - iLow && n % 4 == 0 && Precedes(w, ip, n, pattern)
      decreases ip - n
    {
      FourBack(w, ip, n, pattern);
      n := n + 4;
    }
    var more := ReverseCountTail(w, ip, iLow, pattern, n);
    n := n + more;
  }

  /** The last bytes, compared with the pattern's own from its end on; there is never a fifth one. */
  method ReverseCountTail(w: seq<byte>, ip: nat, iLow: nat, pattern: uint32, n: nat) returns (c: nat)
    requires iLow <= ip <= |w| && n <= ip - iLow && n % 4 == 0 && Precedes(w, ip, n, pattern)
    requires ip - n >= iLow + 4 ==> Read32(w, ip - n - 4) != pattern
    ensures n + c <= ip - iLow && Precedes(w, ip, n + c, pattern)
    ensures n + c == ip - iLow || w[ip - (n + c + 1)] != PatternByte(pattern, 0 - (n + c + 1))
  {
    hide Read32, PatternByte;
    c := 0;
    var bytes := Write32(pattern);
    if ip - n >= iLow + 4 {
      FourBack(w, ip, n, pattern);
    }
    PlaceBack(pattern, n, 0);
    while ip - (n + c) > iLow && w[ip - (n + c + 1)] == bytes[3 - c]
      invariant n + c <= ip - iLow && c <= 3 && Precedes(w, ip, n + c, pattern)
      invariant bytes[3 - c] == PatternByte(pattern, 0 - (n + c + 1))
      decreases ip - c
    {
      c := c + 1;
      assert Precedes(w, ip, n + c, pattern);
      PlaceBack(pattern, n, c);
    }
  }

  lemma NothingPrecedes(w: seq<byte>, ip: nat, pattern: uint32)
    requires ip <= |w|
    ensures Precedes(w, ip, 0, pattern)
  {
  }

  lemma PlaceBack(pattern: uint32, n: nat, c: nat)
    requires n % 4 == 0
    ensures c <= 3 ==> Write32(pattern)[3 - c] == PatternByte(pattern, 0 - (n + c + 1))
  {
    if c <= 3 {
      SamePlace(0 - (c + 1), n);
    }
  }

  /** Four more bytes precede exactly when they read as the pattern. */
  lemma FourBack(w: seq<byte>, ip: nat, n: nat, pattern: uint32)
    requires n + 4 <= ip <= |w| && n % 4 == 0 && Precedes(w, ip, n, pattern)
    ensures Precedes(w, ip, n + 4, pattern) <==> Read32(w, ip - n - 4) == pattern
  {
    hide Read32, PatternByte;
    var b, at := Write32(pattern), ip - n - 4;
    Read32Bytes(w, at);
    PlaceBack(pattern, n, 0);
    PlaceBack(pattern, n, 1);
    PlaceBack(pattern, n, 2);
    PlaceBack(pattern, n, 3);
    if Read32(w, at) == pattern {
      assert b == w[at..at + 4];
      assert w[ip - (n + 1)] == b[3] && w[ip - (n + 2)] == b[2] && w[ip - (n + 3)] == b[1] && w[ip - (n + 4)] == b[0];
    }
    if Precedes(w, ip, n + 4, pattern) {
      assert BackByte(w, ip, n + 1, pattern) && BackByte(w, ip, n + 2, pattern);
      assert BackByte(w, ip, n + 3, pattern) && BackByte(w, ip, n + 4, pattern);
      assert w[at..at + 4] == b;
      Read32Injective(w, at, b, 0);
      assert b[0..4] == b;
    }
  }

  // ---------- one candidate ----------

  /** A call whose history lies directly in front of the block. */
  ghost predicate OneSegment(inp: Input) {
    inp.Valid() && inp.directive != UsingExtDict && Low(inp) >= MAXD
  }

  /** A position a match may refer to from `ip`. */
  predicate Reachable(inp: Input, ip: nat, index: int) {
    Low(inp) <= index < inp.startIndex + ip && inp.startIndex + ip - index <= DISTANCE_MAX
  }

  /** Whenever more than `minLen` bytes are reported, they are a real match with the position `m`. */
  ghost predicate Best(inp: Input, ip: nat, minLen: nat, longest: nat, m: int) {
    && minLen <= longest && ip + longest + LASTLITERALS <= |inp.src|
    && (longest > minLen ==>
        longest >= MINMATCH && Reachable(inp, ip, m) && MatchAt(inp, ip, inp.startIndex + ip - m, longest))
  }

  /** A match with position `index` that the format allows. */
  ghost predicate MatchWith(inp: Input, ip: nat, index: int, len: nat)
    requires Reachable(inp, ip, index)
  {
    MINMATCH <= len && ip + len + LASTLITERALS <= |inp.src| && MatchAt(inp, ip, inp.startIndex + ip - index, len)
  }

  /** No match with position `index` is longer than `longest`. */
  ghost predicate NoLonger(inp: Input, ip: nat, index: int, longest: nat)
    requires Reachable(inp, ip, index)
  {
    forall len: nat :: MatchWith(inp, ip, index, len) ==> len <= longest
  }

  /**
    A candidate in the prefix: two bytes at the end of the best match so far, then four at the
    start, then the rest.
   */
  method TryCandidate(inp: Input, ip: nat, index: int, longest0: nat, m0: int, ghost minLen: nat)
      returns (matchLength: nat, longest: nat, m: int)
    requires OneSegment(inp) && Reachable(inp, ip, index) && ip + MFLIMIT <= |inp.src|
    requires Best(inp, ip, minLen, longest0, m0) && longest0 >= 1
    ensures Best(inp, ip, minLen, longest, m) && longest0 <= longest && NoLonger(inp, ip, index, longest)
    ensures matchLength == 0 || matchLength >= MINMATCH
  {
    hide Read32, Input.Valid;
    var w, v, at := inp.W(), |inp.dict| + ip, index - Low(inp);
    var offset := v - at;
    matchLength, longest, m := 0, longest0, m0;
    if w[v + longest - 1] == w[at + longest - 1] && w[v + longest] == w[at + longest] {
      Read32Injective(w, at, w, v);
      if Read32(w, at) == Read32(w, v) {
        FourBytesMatch(inp, ip, at);
        var code := MatchCode(inp, ip, at);
        matchLength := MINMATCH + code;
        LongestHere(inp, ip, index, matchLength);
        if matchLength > longest {
          longest := matchLength;
          m := index;
        }
      } else {
        ShortHere(inp, ip, index, longest);
      }
    } else {
      ShorterHere(inp, ip, index, longest);
    }
  }

  lemma LongestHere(inp: Input, ip: nat, index: int, n: nat)
    requires Reachable(inp, ip, index) && MINMATCH <= n && ip + n + LASTLITERALS <= |inp.src|
    requires ip + n + LASTLITERALS == |inp.src| || inp.W()[|inp.dict| + ip + n] != inp.W()[index - Low(inp) + n]
    ensures NoLonger(inp, ip, index, n)
  {
  }

  lemma ShortHere(inp: Input, ip: nat, index: int, longest: nat)
    requires Reachable(inp, ip, index) && ip + 4 <= |inp.src| && Low(inp) >= 0
    requires inp.W()[index - Low(inp)..index - Low(inp) + 4] != inp.W()[|inp.dict| + ip..|inp.dict| + ip + 4]
    ensures NoLonger(inp, ip, index, longest)
  {
    SlicesAgree(inp.W(), |inp.dict| + ip, inp.W(), index - Low(inp), 4);
  }

  lemma ShorterHere(inp: Input, ip: nat, index: int, longest: nat)
    requires Reachable(inp, ip, index) && longest >= 1 && ip + longest < |inp.src|
    requires var v, at := |inp.dict| + ip, index - Low(inp);
      inp.W()[v + longest - 1] != inp.W()[at + longest - 1] || inp.W()[v + longest] != inp.W()[at + longest]
    ensures NoLonger(inp, ip, index, longest)
  {
  }

  // ---------- a faster chain ----------

  /** The chain, among those of the positions inside the match, whose next step is the longest. */
  method FasterChain(chainTable: array<uint16>, index: int, longest: nat, chainPos0: nat)
      returns (distance: nat, chainPos: nat)
    requires chainTable.Length == MAXD && longest >= MINMATCH && chainPos0 < longest
    ensures 1 <= distance <= MAX_DELTA && chainPos < longest
    ensures distance > 1 ==> distance == chainTable[(index + chainPos) % MAXD]
  {
    distance, chainPos := 1, chainPos0;
    var end := longest - MINMATCH + 1;
    var step, accel, pos := 1, 16, 0;
    while pos < end
      invariant 1 <= distance <= MAX_DELTA && chainPos < longest && accel >= 16
      invariant distance > 1 ==> distance == chainTable[(index + chainPos) % MAXD]
      decreases end - pos
    {
      var candidate := chainTable[(index + pos) % MAXD];
      step := accel / 16;
      accel := accel + 1;
      if candidate > distance {
        distance := candidate;
        chainPos := pos;
        accel := 16;
      }
      pos := pos + step;
    }
  }

  // ---------- runs of one byte ----------

  /** All four bytes of the pattern are the same, tested on its halves and outer bytes. */
  predicate OneByte(pattern: uint32) {
    pattern % 0x1_0000 == pattern / 0x1_0000 && pattern % 0x100 == pattern / 0x100_0000
  }

  ghost predicate RunOf(w: seq<byte>, from: int, to: int, b: byte) {
    0 <= from <= to <= |w| && forall k :: from <= k < to ==> w[k] == b
  }

  lemma OneByteEverywhere(pattern: uint32, k: int)
    requires OneByte(pattern)
    ensures PatternByte(pattern, k) == pattern % 0x100
  {
    hide Write32;
    var b := Write32(pattern);
    FourBytes(pattern);
    Halves(pattern);
    assert b[0] == b[1] == b[2] == b[3] == pattern % 0x100;
    assert 0 <= k % 4 < 4;
  }

  lemma FourBytes(v: uint32)
    ensures var b := Write32(v);
      b[0] == v % 0x100 && b[1] == v / 0x100 % 0x100 && b[2] == v / 0x1_0000 % 0x100 && b[3] == v / 0x100_0000
  {
  }

  lemma Halves(v: uint32)
    ensures v % 0x1_0000 == v % 0x100 + 0x100 * (v / 0x100 % 0x100)
    ensures v / 0x1_0000 == v / 0x1_0000 % 0x100 + 0x100 * (v / 0x100_0000)
  {
  }

  /** The run that starts with four bytes of the pattern and goes on for `n` more. */
  lemma ForwardRun(w: seq<byte>, at: nat, n: nat, pattern: uint32)
    requires OneByte(pattern) && at + 4 + n <= |w| && Read32(w, at) == pattern && Continues(w, at + 4, n, pattern)
    ensures RunOf(w, at, at + 4 + n, pattern % 0x100)
  {
    hide Read32, PatternByte, OneByte, Write32;
    var b := Write32(pattern);
    Read32Bytes(w, at);
    forall k | at <= k < at + 4 + n ensures w[k] == pattern % 0x100 {
      OneByteEverywhere(pattern, k - at - 4);
      if k < at + 4 {
        assert w[k] == w[at..at + 4][k - at] == b[k - at];
        OneByteEverywhere(pattern, k - at);
        assert PatternByte(pattern, k - at) == b[k - at] by { InFirstRound(pattern, k - at); }
      } else {
        assert w[at + 4 + (k - at - 4)] == PatternByte(pattern, k - at - 4);
      }
    }
  }

  lemma InFirstRound(pattern: uint32, k: int)
    requires 0 <= k < 4
    ensures PatternByte(pattern, k) == Write32(pattern)[k]
  {
  }

  lemma BackwardRun(w: seq<byte>, at: nat, n: nat, pattern: uint32)
    requires OneByte(pattern) && n <= at <= |w| && Precedes(w, at, n, pattern)
    ensures RunOf(w, at - n, at, pattern % 0x100)
  {
    hide PatternByte, OneByte;
    forall k | at - n <= k < at ensures w[k] == pattern % 0x100 {
      assert BackByte(w, at, at - k, pattern);
      OneByteEverywhere(pattern, 0 - (at - k));
    }
  }

  /** Two runs of the same byte match over the shorter length. */
  lemma RunsMatch(inp: Input, ip: nat, index: int, n: nat, b: byte)
    requires Reachable(inp, ip, index) && Low(inp) >= 0 && ip + n <= |inp.src|
    requires RunOf(inp.W(), |inp.dict| + ip, |inp.dict| + ip + n, b)
      && RunOf(inp.W(), index - Low(inp), index - Low(inp) + n, b)
    ensures MatchAt(inp, ip, inp.startIndex + ip - index, n)
  {
  }

  /** The source starts with `srcLen` times the byte of the pattern. */
  ghost predicate RepetitionOk(inp: Input, ip: nat, pattern: uint32, srcLen: nat) {
    4 <= srcLen && ip + srcLen + LASTLITERALS <= |inp.src|
      && RunOf(inp.W(), |inp.dict| + ip, |inp.dict| + ip + srcLen, pattern % 0x100)
  }

  /** How the search goes on after the pattern analysis of a candidate. */
  datatype Jump = NoJump | JumpTo(index: int)

  /**
    The pattern analysis of a candidate one byte earlier, in a source that starts with a run: jump
    to where a run as long as the source's starts in the candidate's run, or else to the start of
    that run, which is a match.
   */
  method InsideRun(inp: Input, chainTable: array<uint16>, ip: nat, candidate: int, lowest: int, srcLen: nat,
      longest0: nat, m0: int, pattern: uint32, ghost minLen: nat) returns (jump: Jump, longest: nat, m: int)
    requires OneSegment(inp) && ip + MFLIMIT <= |inp.src| && chainTable.Length == MAXD
    requires OneByte(pattern) && RepetitionOk(inp, ip, pattern, srcLen)
    requires Low(inp) <= lowest <= candidate && candidate + 1 < inp.startIndex + ip <= lowest + DISTANCE_MAX
    requires Best(inp, ip, minLen, longest0, m0)
    ensures Best(inp, ip, minLen, longest, m) && longest0 <= longest
    ensures jump == NoJump ==> longest == longest0 && m == m0
    ensures jump.JumpTo? ==> 0 <= jump.index < inp.startIndex + ip
  {
    hide Read32, Continues, Precedes, OneByte, MatchAt;
    var w, at := inp.W(), candidate - Low(inp);
    longest, m := longest0, m0;
    if Read32(w, at) != pattern {
      return NoJump, longest, m;
    }
    var forward := CountPattern(w, at + 4, |w| - LASTLITERALS, pattern, inp.wordSize);
    ForwardRun(w, at, forward, pattern);
    forward := forward + 4;
    var back := ReverseCountPattern(w, at, 0, pattern);
    BackwardRun(w, at, back, pattern);
    back := candidate - Max(candidate - back, lowest);
    assert RunOf(w, at - back, at + forward, pattern % 0x100);
    if back + forward >= srcLen && forward <= srcLen {
      return JumpTo(candidate + forward - srcLen), longest, m;
    }
    var index := candidate - back;
    var maxLen := Min(back + forward, srcLen);
    if longest < maxLen {
      // the distance, tested here again, is known to be small enough
      assert inp.startIndex + ip - index <= DISTANCE_MAX;
      RunsMatch(inp, ip, index, maxLen, pattern % 0x100);
      longest, m := maxLen, index;
    }
    var delta := chainTable[index % MAXD];
    // so is the step of the chain: no index gets below zero
    assert delta <= index;
    return JumpTo(index - delta), longest, m;
  }

  // ---------- the search ----------

  /** LZ4HC_InsertAndGetWiderMatch's lowestMatchIndex. */
  function Lowest(inp: Input, ip: nat): int {
    if Low(inp) + (DISTANCE_MAX + 1) > inp.startIndex + ip then Low(inp) else inp.startIndex + ip - DISTANCE_MAX
  }

  /** The positions that a plain search for `ip` has looked at: the first `n` of the full scan. */
  function Candidates(inp: Input, ip: nat): (r: seq<int>)
    requires inp.Valid() && ip + MFLIMIT <= |inp.src|
  {
    Scan(inp, inp.startIndex + ip, Lowest(inp, ip), HashAt(inp, inp.startIndex + ip))
  }

  /** How often four equal bytes follow, from `ip` on; tested once per search. */
  method Repetition(inp: Input, ip: nat, pattern: uint32) returns (confirmed: bool, srcLen: nat)
    requires inp.Valid() && ip + MFLIMIT <= |inp.src| && pattern == Read32(inp.W(), |inp.dict| + ip)
    ensures confirmed ==> OneByte(pattern) && RepetitionOk(inp, ip, pattern, srcLen)
  {
    hide Read32, OneByte, Continues;
    confirmed, srcLen := OneByte(pattern), 0;
    if confirmed {
      var w, v := inp.W(), |inp.dict| + ip;
      var n := CountPattern(w, v + 4, |w| - LASTLITERALS, pattern, inp.wordSize);
      ForwardRun(w, v, n, pattern);
      srcLen := n + 4;
    }
  }

  /** None of the positions looked at has a longer match. */
  ghost predicate Looked(inp: Input, ip: nat, seen: seq<int>, longest: nat) {
    forall i :: 0 <= i < |seen| ==> Reachable(inp, ip, seen[i]) && NoLonger(inp, ip, seen[i], longest)
  }

  lemma LookedMore(inp: Input, ip: nat, seen: seq<int>, shorter: nat, index: int, longest: nat)
    requires Looked(inp, ip, seen, shorter) && shorter <= longest && Reachable(inp, ip, index)
      && NoLonger(inp, ip, index, longest)
    ensures Looked(inp, ip, seen + [index], longest)
  {
  }

  /**
    LZ4HC_InsertAndGetWiderMatch with nothing to look back at. Whatever the short cuts do, a result
    of more than `minLen` is a real match that the format allows; without them, none of the first
    `maxAttempts` candidates of a full scan is longer.
   */
  method FindWider(inp: Input, index: Index, ip: nat, minLen: nat, maxAttempts: nat, patternAnalysis: bool,
      chainSwap: bool, favorDecSpeed: bool)
      returns (longest: nat, m: int)
    requires OneSegment(inp) && index.Holds(inp) && ip + MFLIMIT <= |inp.src| && 1 <= minLen
      && ip + minLen + LASTLITERALS <= |inp.src|
    requires index.nextToUpdate <= inp.startIndex + ip
    modifies index, index.hashTable, index.chainTable
    ensures index.Holds(inp) && index.nextToUpdate == inp.startIndex + ip
    ensures Best(inp, ip, minLen, longest, m)
    ensures !patternAnalysis && !chainSwap && !favorDecSpeed ==>
      Looked(inp, ip, Candidates(inp, ip)[..Min(maxAttempts, |Candidates(inp, ip)|)], longest)
  {
    hide Read32, Best, NoLonger, Indexed, RepetitionOk, OneByte, HashAt, Latest, Looked, Candidates, Lowest, Scan, Walk,
      Input.Valid, OneSegment;
    var ipIndex, lowest := inp.startIndex + ip, Lowest(inp, ip);
    LowestIsNear(inp, ip);
    index.Insert(inp, ipIndex);
    var matchIndex := HeadOf(inp, index, ip);
    var attempts, chainPos: nat := maxAttempts, 0;
    var pattern := Read32(inp.W(), |inp.dict| + ip);
    var tested, confirmed, srcLen := false, false, 0;
    ghost var plain, seen: seq<int>, ct := !patternAnalysis && !chainSwap && !favorDecSpeed, [], index.chainTable[..];
    longest, m := minLen, 0;
    NothingFound(inp, ip, minLen);
    assert plain ==> Candidates(inp, ip) == seen + Walk(ct, matchIndex, lowest);
    while matchIndex >= lowest && attempts > 0
      invariant 0 <= matchIndex < ipIndex && Best(inp, ip, minLen, longest, m) && longest >= 1 && chainPos < longest
      invariant confirmed ==> tested && OneByte(pattern) && RepetitionOk(inp, ip, pattern, srcLen)
      invariant plain ==>
        && Candidates(inp, ip) == seen + Walk(ct, matchIndex, lowest) && |seen| == maxAttempts - attempts
        && chainPos == 0
      invariant plain ==> Looked(inp, ip, seen, longest)
      invariant index.chainTable[..] == ct
      modifies {}
      decreases attempts
    {
      attempts := attempts - 1;
      var matchLength := 0;
      ghost var before := longest;
      if !(favorDecSpeed && ipIndex - matchIndex < 8) {
        matchLength, longest, m := TryCandidate(inp, ip, matchIndex, longest, m, minLen);
      }
      if chainSwap && matchLength == longest && matchIndex + longest <= ipIndex {
        var distance;
        distance, chainPos := FasterChain(index.chainTable, matchIndex, longest, chainPos);
        if distance > 1 {
          matchIndex := matchIndex - distance;
          continue;
        }
      }
      if patternAnalysis && index.chainTable[matchIndex % MAXD] == 1 && chainPos == 0 {
        if !tested {
          tested := true;
          confirmed, srcLen := Repetition(inp, ip, pattern);
        }
        if confirmed && matchIndex - 1 >= lowest {
          var jump;
          jump, longest, m := InsideRun(inp, index.chainTable, ip, matchIndex - 1, lowest, srcLen, longest, m, pattern,
            minLen);
          if jump.JumpTo? {
            matchIndex := jump.index;
            continue;
          }
        }
      }
      if plain {
        LookedMore(inp, ip, seen, before, matchIndex, longest);
        WalkOn(inp, index, matchIndex, lowest, seen);
        seen := seen + [matchIndex];
      }
      matchIndex := matchIndex - index.chainTable[(matchIndex + chainPos) % MAXD];
    }
    WalkEnds(ct, matchIndex, lowest);
    assert plain ==> seen == Candidates(inp, ip)[..Min(maxAttempts, |Candidates(inp, ip)|)];
  }

  lemma LowestIsNear(inp: Input, ip: nat)
    requires OneSegment(inp)
    ensures inp.Valid() && inp.directive != UsingExtDict && 0 < MAX_DELTA < MAXD <= Low(inp) <= inp.startIndex
    ensures Low(inp) <= Lowest(inp, ip) && Lowest(inp, ip) <= inp.startIndex + ip <= Lowest(inp, ip) + DISTANCE_MAX
  {
  }

  lemma NothingFound(inp: Input, ip: nat, minLen: nat)
    requires ip + minLen + LASTLITERALS <= |inp.src|
    ensures Best(inp, ip, minLen, minLen, 0) && Looked(inp, ip, [], minLen)
  {
  }

  lemma WalkOn(inp: Input, index: Index, i: int, lowest: int, seen: seq<int>)
    requires index.Holds(inp) && Max(Low(inp), index.nextToUpdate - MAX_DELTA) <= lowest <= i < index.nextToUpdate
    ensures seen + Walk(index.chainTable[..], i, lowest) == (seen + [i])
      + Walk(index.chainTable[..], i - index.chainTable[i % MAXD], lowest)
  {
    hide HashAt;
    assert ChainEntryOk(inp, i, index.chainTable[..][i % MAXD]);
  }

  lemma WalkEnds(chainTable: seq<uint16>, i: int, lowest: int)
    requires |chainTable| == MAXD
    ensures i < lowest ==> Walk(chainTable, i, lowest) == []
  {
  }

  /** The latest position with the hash of `ip`, once everything before `ip` is entered. */
  method HeadOf(inp: Input, index: Index, ip: nat) returns (head: int)
    requires OneSegment(inp) && index.Holds(inp) && ip + MFLIMIT <= |inp.src|
      && index.nextToUpdate == inp.startIndex + ip
    ensures 0 <= head < inp.startIndex + ip && index.chainTable.Length == MAXD
    ensures Walk(index.chainTable[..], head, Lowest(inp, ip)) == Candidates(inp, ip)
  {
    hide HashAt, Scan, Walk, ChainEntryOk;
    var h := HashAt(inp, inp.startIndex + ip);
    head := index.hashTable[h];
    assert HashEntryOk(inp, inp.startIndex + ip, h, index.hashTable[..][h]);
    WalkIsScan(inp, inp.startIndex + ip, index.hashTable[..], index.chainTable[..], h, Lowest(inp, ip));
  }
}
