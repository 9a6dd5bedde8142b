/**
  LZ4_compress_generic_validated for its byU32 and byU16 tables: the hash-table match finder and
  the sequence writer. Input memory is read only: `dict` is the history, `src` the block; with a
  prefix the two are contiguous, with an external dictionary they are not.
 */
module BlockCompressor {
  import opened Bytes
  import opened BlockFormat
  import opened BlockEncoding
  import opened SequenceWriter

  const MAX_INPUT_SIZE := 0x7E00_0000
  const LIMIT_64K := 0x1_0000 + (MFLIMIT - 1)
  const MIN_LENGTH := MFLIMIT + 1
  const HASHLOG := 12
  const SKIP_TRIGGER := 64

  datatype TableType = ByU32 | ByU16
  datatype Directive = NoDict | WithPrefix64k | UsingExtDict

  function CompressBound(n: nat): nat {
    if n > MAX_INPUT_SIZE then 0 else n + n / 255 + 16
  }

  // ---------- hashing ----------

  const TABLE_SIZE := 8192

  /** LZ4_hash4, with one bit more for the 16-bit table. */
  function Hash4(sequence: uint32, tableType: TableType): (h: nat)
    ensures h < TABLE_SIZE
  {
    var product := sequence * 2654435761 % 0x1_0000_0000;
    if tableType == ByU16 then product / 0x8_0000 else product / 0x10_0000
  }

  /** LZ4_hash5 of the low five of eight little-endian bytes. */
  function Hash5(low: uint32, high: uint32, tableType: TableType): (h: nat)
    ensures h < TABLE_SIZE
  {
    var sequence := low + high * 0x1_0000_0000;
    var product := sequence * 0x100_0000 % 0x1_0000_0000_0000_0000 * 889523592379 % 0x1_0000_0000_0000_0000;
    if tableType == ByU16 then product / 0x8_0000_0000_0000 else product / 0x10_0000_0000_0000
  }

  /** LZ4_hashPosition; `wordSize` is the size of the machine's registers. */
  function HashPosition(s: seq<byte>, i: nat, wordSize: nat, tableType: TableType): (h: nat)
    requires i + 8 <= |s|
    ensures h < TABLE_SIZE
  {
    if wordSize == 8 && tableType != ByU16 then Hash5(Read32(s, i), Read32(s, i + 4), tableType)
    else Hash4(Read32(s, i), tableType)
  }

  // ---------- the call ----------

  /**
    One call. `startIndex` is the table index of the first byte of `src`; the history ends just
    below it. `small` is the C code's dictSmall: the table may hold indices below the history.
   */
  datatype Input = Input(dict: seq<byte>, src: seq<byte>, startIndex: nat, directive: Directive,
                         small: bool, tableType: TableType, wordSize: nat) {
    /** History and block, one after the other. */
    function W(): seq<byte> {
      dict + src
    }

    predicate Valid() {
      && 0 < |src| <= MAX_INPUT_SIZE
      && |dict| <= startIndex && startIndex + |src| < WRAP
      && (directive == NoDict ==> dict == [])
      && (directive == UsingExtDict ==> dict == [] || |dict| >= MINMATCH)
      && (tableType == ByU16 ==> startIndex + |src| < LIMIT_64K)
      && (wordSize == 8 || wordSize == 4)
    }
  }

  /**
    What the table may hold when index `next` is about to be looked up. Older indices end at
    least 4 bytes before the block, so that a match candidate can be read; and unless indices
    below the history are filtered out, there are none within reach.
   */
  ghost predicate TableOk(inp: Input, table: array<uint32>, next: nat)
    reads table
  {
    && table.Length == TABLE_SIZE
    && forall h :: 0 <= h < TABLE_SIZE ==> EntryOk(inp, table[h], next)
  }

  ghost predicate EntryOk(inp: Input, e: nat, next: nat) {
    && (e < next || e == 0)
    && (inp.startIndex <= e || e == 0 || e + MINMATCH <= inp.startIndex)
    && (inp.small || |inp.dict| == inp.startIndex || inp.startIndex <= e
        || (|inp.dict| >= 0x1_0000 && inp.tableType == ByU32)
        || (inp.tableType == ByU32 && e + 0x1_0000 <= inp.startIndex))
  }

  /** Position in history and block together. */
  function Virtual(inp: Input, index: nat): int {
    index - inp.startIndex + |inp.dict|
  }

  /** The index test that comes before the bytes are compared. */
  predicate Eligible(inp: Input, e: nat, current: nat) {
    && !(inp.small && e < inp.startIndex - |inp.dict|)
    && !(inp.tableType != ByU16 && e + DISTANCE_MAX < current)
  }

  /** An eligible entry is a position whose 4 bytes can be read where they physically are. */
  lemma EligibleIsReadable(inp: Input, e: nat, current: nat)
    requires inp.Valid() && EntryOk(inp, e, current) && Eligible(inp, e, current)
    requires inp.startIndex < current && current + MFLIMIT <= inp.startIndex + |inp.src|
    ensures 0 <= Virtual(inp, e) && 1 <= current - e <= DISTANCE_MAX
    ensures inp.directive == UsingExtDict && Virtual(inp, e) < |inp.dict| ==> Virtual(inp, e) + MINMATCH <= |inp.dict|
    ensures Virtual(inp, e) + MINMATCH <= |inp.W()|
  {
  }

  /** LZ4_read32 at a virtual position: from the dictionary's memory, or from the contiguous segment. */
  function ReadCandidate(inp: Input, m: nat): (v: uint32)
    requires m + 4 <= |inp.W()|
    requires inp.directive == UsingExtDict && m < |inp.dict| ==> m + 4 <= |inp.dict|
  {
    if inp.directive == UsingExtDict then
      (if m < |inp.dict| then Read32(inp.dict, m) else Read32(inp.src, m - |inp.dict|))
    else Read32(inp.W(), m)
  }

  /** Comparing the candidate with the current position compares their 4 bytes. */
  lemma CandidateMatches(inp: Input, m: nat, ip: nat)
    requires inp.Valid() && m + 4 <= |inp.W()| && ip + 4 <= |inp.src|
    requires inp.directive == UsingExtDict && m < |inp.dict| ==> m + 4 <= |inp.dict|
    ensures ReadCandidate(inp, m) == Read32(inp.src, ip)
      <==> inp.W()[m..m + 4] == inp.W()[|inp.dict| + ip..|inp.dict| + ip + 4]
  {
    hide Read32;
    PieceOfBlock(inp, ip, 4);
    if inp.directive == UsingExtDict {
      if m < |inp.dict| {
        assert inp.W()[m..m + 4] == inp.dict[m..m + 4];
        Read32Injective(inp.dict, m, inp.src, ip);
      } else {
        PieceOfBlock(inp, m - |inp.dict|, 4);
        Read32Injective(inp.src, m - |inp.dict|, inp.src, ip);
      }
    } else {
      Read32Injective(inp.W(), m, inp.src, ip);
    }
  }

  lemma PieceOfBlock(inp: Input, ip: nat, n: nat)
    requires ip + n <= |inp.src|
    ensures inp.W()[|inp.dict| + ip..|inp.dict| + ip + n] == inp.src[ip..ip + n]
  {
  }

  // ---------- the hash table ----------

  method PutIndex(inp: Input, table: array<uint32>, h: nat, index: nat, ghost next: nat)
    requires inp.Valid() && TableOk(inp, table, next) && h < TABLE_SIZE
    requires inp.startIndex <= index < next && index + MFLIMIT <= inp.startIndex + |inp.src|
    modifies table
    ensures TableOk(inp, table, next)
  {
    table[h] := if inp.tableType == ByU16 then index % 0x1_0000 else index;
  }

  lemma TableLater(inp: Input, table: array<uint32>, next: nat, next': nat)
    requires TableOk(inp, table, next) && next <= next'
    ensures TableOk(inp, table, next')
  {
  }

  /**
    The search loop. Every position tried is entered in the table; a candidate is taken when its
    index is eligible and its 4 bytes agree.
   */
  method FindMatch(inp: Input, table: array<uint32>, ip0: nat, acceleration: nat) returns (found: bool, ip: nat, m: nat)
    requires inp.Valid() && 1 <= ip0 && ip0 + MFLIMIT - 1 <= |inp.src| && acceleration >= 1
    requires TableOk(inp, table, inp.startIndex + ip0)
    modifies table
    ensures TableOk(inp, table, inp.startIndex + |inp.src| - (MFLIMIT - 1))
    ensures found ==> ip0 <= ip && ip + MFLIMIT <= |inp.src| && TableOk(inp, table, inp.startIndex + ip + 1)
    ensures found ==>
      && m + 4 <= |inp.W()| && 1 <= |inp.dict| + ip - m <= DISTANCE_MAX
      && inp.W()[m..m + 4] == inp.W()[|inp.dict| + ip..|inp.dict| + ip + 4]
      && (inp.directive == UsingExtDict && m < |inp.dict| ==> m + MINMATCH <= |inp.dict|)
  {
    hide HashPosition, EntryOk, ReadCandidate;
    var src, mflimitPlusOne := inp.src, |inp.src| - MFLIMIT + 1;
    ip, m := ip0, 0;
    var forwardIp, step, searchMatchNb := ip0, 1, acceleration * SKIP_TRIGGER;
    var forwardH: nat := HashPosition(src, ip0, inp.wordSize, inp.tableType);
    while true
      invariant 1 <= ip0 <= forwardIp <= mflimitPlusOne && step >= 1 && searchMatchNb >= SKIP_TRIGGER
      invariant forwardH < TABLE_SIZE
      invariant TableOk(inp, table, inp.startIndex + forwardIp)
      decreases mflimitPlusOne - forwardIp
    {
      var h := forwardH;
      var current := inp.startIndex + forwardIp;
      assert table.Length == TABLE_SIZE;
      var matchIndex := table[h];
      assert EntryOk(inp, matchIndex, current);
      ip := forwardIp;
      forwardIp := forwardIp + step;
      step := searchMatchNb / SKIP_TRIGGER;
      searchMatchNb := searchMatchNb + 1;
      if forwardIp > mflimitPlusOne {
        TableLater(inp, table, current, inp.startIndex + mflimitPlusOne);
        return false, ip, m;
      }
      forwardH := HashPosition(src, forwardIp, inp.wordSize, inp.tableType);
      TableLater(inp, table, current, current + 1);
      PutIndex(inp, table, h, current, current + 1);
      if Eligible(inp, matchIndex, current) {
        EligibleIsReadable(inp, matchIndex, current);
        m := Virtual(inp, matchIndex);
        if ReadCandidate(inp, m) == Read32(src, ip) {
          CandidateMatches(inp, m, ip);
          TableLater(inp, table, current + 1, inp.startIndex + mflimitPlusOne);
          return true, ip, m;
        }
      }
      TableLater(inp, table, current + 1, inp.startIndex + forwardIp);
    }
  }

  // ---------- LZ4_count ----------

  /** Bytes [i, i + n) of `a` equal those from `j` on of `b`. */
  ghost predicate Agree(a: seq<byte>, i: nat, b: seq<byte>, j: nat, n: nat)
    requires i + n <= |a| && j + n <= |b|
  {
    forall k :: i <= k < i + n ==> a[k] == b[k - i + j]
  }

  lemma SlicesAgree(a: seq<byte>, i: nat, b: seq<byte>, j: nat, n: nat)
    requires i + n <= |a| && j + n <= |b|
    ensures a[i..i + n] == b[j..j + n] <==> Agree(a, i, b, j, n)
  {
    if a[i..i + n] == b[j..j + n] {
      forall k | i <= k < i + n ensures a[k] == b[k - i + j] {
        assert a[k] == a[i..i + n][k - i] == b[j..j + n][k - i];
      }
    }
  }

  lemma AgreeJoin(a: seq<byte>, i: nat, b: seq<byte>, j: nat, c: nat, n: nat)
    requires i + c + n <= |a| && j + c + n <= |b| && Agree(a, i, b, j, c) && Agree(a, i + c, b, j + c, n)
    ensures Agree(a, i, b, j, c + n)
  {
  }

  /** The number of equal leading bytes of two different words (LZ4_NbCommonBytes of their difference). */
  method CommonBytes(a: seq<byte>, i: nat, b: seq<byte>, j: nat, n: nat) returns (c: nat)
    requires i + n <= |a| && j + n <= |b| && !Agree(a, i, b, j, n)
    ensures c < n && a[i + c] != b[j + c] && Agree(a, i, b, j, c)
  {
    c := 0;
    while a[i + c] == b[j + c]
      invariant c < n && Agree(a, i, b, j, c)
      decreases n - c
    {
      c := c + 1;
    }
  }

  /** LZ4_count: the length of the common run, up to `limit`. */
  method Count(a: seq<byte>, pIn: nat, b: seq<byte>, pMatch: nat, limit: nat, wordSize: nat) returns (c: nat)
    requires pIn <= limit <= |a| && pMatch + (limit - pIn) <= |b| && (wordSize == 8 || wordSize == 4)
    ensures pIn + c <= limit && Agree(a, pIn, b, pMatch, c)
    ensures pIn + c == limit || a[pIn + c] != b[pMatch + c]
  {
    hide Agree;
    c := 0;
    assert Agree(a, pIn, b, pMatch, 0) by { SlicesAgree(a, pIn, b, pMatch, 0); }
    while pIn + c + (wordSize - 1) < limit
      invariant pIn + c <= limit && Agree(a, pIn, b, pMatch, c)
      decreases limit - c
    {
      SlicesAgree(a, pIn + c, b, pMatch + c, wordSize);
      if a[pIn + c..pIn + c + wordSize] != b[pMatch + c..pMatch + c + wordSize] {
        var common := CommonBytes(a, pIn + c, b, pMatch + c, wordSize);
        AgreeJoin(a, pIn, b, pMatch, c, common);
        return c + common;
      }
      AgreeJoin(a, pIn, b, pMatch, c, wordSize);
      c := c + wordSize;
    }
    if wordSize == 8 && pIn + c + 3 < limit {
      SlicesAgree(a, pIn + c, b, pMatch + c, 4);
      if a[pIn + c..pIn + c + 4] == b[pMatch + c..pMatch + c + 4] {
        AgreeJoin(a, pIn, b, pMatch, c, 4);
        c := c + 4;
      }
    }
    c := CountTail(a, pIn, b, pMatch, limit, c);
  }

  /** The last bytes: a 2-byte step and a 1-byte step settle any run that is known to end within 3 bytes. */
  method CountTail(a: seq<byte>, pIn: nat, b: seq<byte>, pMatch: nat, limit: nat, c0: nat) returns (c: nat)
    requires pIn + c0 <= limit <= |a| && pMatch + (limit - pIn) <= |b| && Agree(a, pIn, b, pMatch, c0)
    requires limit - pIn - c0 <= 3 || (pIn + c0 + 4 <= limit && !Agree(a, pIn + c0, b, pMatch + c0, 4))
    ensures pIn + c <= limit && Agree(a, pIn, b, pMatch, c)
    ensures pIn + c == limit || a[pIn + c] != b[pMatch + c]
  {
    c := c0;
    if pIn + c + 1 < limit && a[pIn + c] == b[pMatch + c] && a[pIn + c + 1] == b[pMatch + c + 1] {
      c := c + 2;
    }
    if pIn + c < limit && a[pIn + c] == b[pMatch + c] {
      c := c + 1;
    }
  }

  // ---------- extending the match ----------

  /** What is known of a match: `len` bytes at block position `ip` repeat those `offset` back in history and block. */
  ghost predicate MatchAt(inp: Input, ip: nat, offset: nat, len: nat) {
    && 1 <= offset <= Min(DISTANCE_MAX, |inp.dict| + ip) && ip + len <= |inp.src|
    && RealMatch(inp.W(), |inp.dict| + ip, offset, len)
  }

  lemma FourBytesMatch(inp: Input, ip: nat, m: nat)
    requires ip + 4 <= |inp.src| && 1 <= |inp.dict| + ip - m <= DISTANCE_MAX && m + 4 <= |inp.W()|
    requires inp.W()[m..m + 4] == inp.W()[|inp.dict| + ip..|inp.dict| + ip + 4]
    ensures MatchAt(inp, ip, |inp.dict| + ip - m, 4)
  {
    SlicesAgree(inp.W(), |inp.dict| + ip, inp.W(), m, 4);
  }

  /** The catch-up loop: the match is extended backwards over literals not yet written. */
  method CatchUp(inp: Input, anchor: nat, ip0: nat, m0: nat) returns (ip: nat, m: nat)
    requires inp.Valid() && anchor <= ip0 && ip0 + 4 <= |inp.src| && m0 < |inp.dict| + ip0
    requires MatchAt(inp, ip0, |inp.dict| + ip0 - m0, 4)
    requires inp.directive == UsingExtDict && m0 < |inp.dict| ==> m0 + MINMATCH <= |inp.dict|
    ensures anchor <= ip <= ip0 && m <= m0 && ip0 - ip == m0 - m
    ensures MatchAt(inp, ip, |inp.dict| + ip - m, 4 + ip0 - ip)
    ensures inp.directive == UsingExtDict ==> (m < |inp.dict| <==> m0 < |inp.dict|)
  {
    ip, m := ip0, m0;
    var d, w := |inp.dict|, inp.W();
    var lowLimit := if inp.directive == UsingExtDict && m0 >= d then d else 0;
    while ip > anchor && m > lowLimit && w[d + ip - 1] == w[m - 1]
      invariant anchor <= ip <= ip0 && lowLimit <= m <= m0 && ip0 - ip == m0 - m
      invariant MatchAt(inp, ip, d + ip - m, 4 + ip0 - ip)
    {
      ip, m := ip - 1, m - 1;
    }
  }

  lemma AgreeIsMatch(inp: Input, ip: nat, offset: nat, known: nat, more: nat)
    requires MatchAt(inp, ip, offset, known) && ip + known + more <= |inp.src|
    requires Agree(inp.W(), |inp.dict| + ip + known, inp.W(), |inp.dict| + ip + known - offset, more)
    ensures MatchAt(inp, ip, offset, known + more)
  {
  }

  /**
    The match length beyond the first 4 bytes. A match in an external dictionary is counted up to
    the dictionary's end, and from there on against the start of the block.
   */
  method MatchCode(inp: Input, ip: nat, m: nat) returns (code: nat)
    requires inp.Valid() && ip + MFLIMIT <= |inp.src| && m < |inp.dict| + ip
    requires MatchAt(inp, ip, |inp.dict| + ip - m, 4)
    requires inp.directive == UsingExtDict && m < |inp.dict| ==> m + MINMATCH <= |inp.dict|
    ensures ip + 4 + code + LASTLITERALS <= |inp.src| && MatchAt(inp, ip, |inp.dict| + ip - m, 4 + code)
    ensures ip + 4 + code + LASTLITERALS == |inp.src| || inp.W()[|inp.dict| + ip + 4 + code] != inp.W()[m + 4 + code]
  {
    hide RealMatch, Agree;
    var d := |inp.dict|;
    if inp.directive == UsingExtDict && m < d {
      code := MatchCodeExt(inp, ip, m);
    } else {
      code := Count(inp.W(), d + ip + 4, inp.W(), m + 4, d + |inp.src| - LASTLITERALS, inp.wordSize);
      AgreeIsMatch(inp, ip, d + ip - m, 4, code);
    }
  }

  method MatchCodeExt(inp: Input, ip: nat, m: nat) returns (code: nat)
    requires inp.Valid() && ip + MFLIMIT <= |inp.src| && m + 4 <= |inp.dict|
    requires MatchAt(inp, ip, |inp.dict| + ip - m, 4)
    ensures ip + 4 + code + LASTLITERALS <= |inp.src| && MatchAt(inp, ip, |inp.dict| + ip - m, 4 + code)
    ensures ip + 4 + code + LASTLITERALS == |inp.src| || inp.W()[|inp.dict| + ip + 4 + code] != inp.W()[m + 4 + code]
  {
    hide *;
    var d, n := |inp.dict|, |inp.src|;
    ExtLimits(inp, ip, m);
    var matchlimit := n - LASTLITERALS;
    var limit := if ip + (d - m) < matchlimit then ip + (d - m) else matchlimit;
    code := Count(inp.src, ip + 4, inp.dict, m + 4, limit, inp.wordSize);
    CountedInDict(inp, ip, m, limit, code);
    if ip + 4 + code == limit {
      var more := Count(inp.src, limit, inp.src, 0, matchlimit, inp.wordSize);
      CountedInBlock(inp, ip, m, limit, code, more);
      code := code + more;
    }
  }

  lemma ExtLimits(inp: Input, ip: nat, m: nat)
    requires inp.Valid() && ip + MFLIMIT <= |inp.src| && m + 4 <= |inp.dict|
    ensures ip + 4 <= |inp.src| - LASTLITERALS <= |inp.src| && (inp.wordSize == 8 || inp.wordSize == 4)
    ensures LASTLITERALS == 5 && |inp.W()| == |inp.dict| + |inp.src|
  {
  }

  lemma CountedInDict(inp: Input, ip: nat, m: nat, limit: nat, code: nat)
    requires ip + 4 + code <= limit <= |inp.src| - LASTLITERALS && limit <= ip + (|inp.dict| - m) && m + 4 <= |inp.dict|
    requires MatchAt(inp, ip, |inp.dict| + ip - m, 4) && Agree(inp.src, ip + 4, inp.dict, m + 4, code)
    ensures MatchAt(inp, ip, |inp.dict| + ip - m, 4 + code)
    ensures ip + 4 + code < limit && inp.src[ip + 4 + code] != inp.dict[m + 4 + code] ==>
      inp.W()[|inp.dict| + ip + 4 + code] != inp.W()[m + 4 + code]
  {
    hide Agree, RealMatch;
    DictPiece(inp, m + 4, code);
    AgreeInBlock(inp, ip + 4, inp.dict, m + 4, m + 4, code);
    AgreeIsMatch(inp, ip, |inp.dict| + ip - m, 4, code);
  }

  lemma CountedInBlock(inp: Input, ip: nat, m: nat, limit: nat, code: nat, more: nat)
    requires ip + 4 + code == limit && limit + more <= |inp.src| - LASTLITERALS && m + 4 <= |inp.dict|
    requires limit == ip + (|inp.dict| - m) || (limit == |inp.src| - LASTLITERALS && limit <= ip + (|inp.dict| - m))
    requires MatchAt(inp, ip, |inp.dict| + ip - m, 4 + code) && Agree(inp.src, limit, inp.src, 0, more)
    requires limit + more == |inp.src| - LASTLITERALS || inp.src[limit + more] != inp.src[more]
    ensures MatchAt(inp, ip, |inp.dict| + ip - m, 4 + code + more)
    ensures limit + more == |inp.src| - LASTLITERALS
      || inp.W()[|inp.dict| + limit + more] != inp.W()[m + 4 + code + more]
  {
    if limit == ip + (|inp.dict| - m) {
      CountedPastDict(inp, ip, m, limit, code, more);
    }
  }

  lemma CountedPastDict(inp: Input, ip: nat, m: nat, limit: nat, code: nat, more: nat)
    requires ip + 4 + code == limit == ip + (|inp.dict| - m) && limit + more <= |inp.src| && m + 4 <= |inp.dict|
    requires MatchAt(inp, ip, |inp.dict| + ip - m, 4 + code) && Agree(inp.src, limit, inp.src, 0, more)
    ensures MatchAt(inp, ip, |inp.dict| + ip - m, 4 + code + more)
  {
    hide Agree, RealMatch;
    PieceOfBlock(inp, 0, more);
    AgreeInBlock(inp, limit, inp.src, 0, |inp.dict|, more);
    AgreeIsMatch(inp, ip, |inp.dict| + ip - m, 4 + code, more);
  }

  lemma DictPiece(inp: Input, m: nat, n: nat)
    requires m + n <= |inp.dict|
    ensures inp.W()[m..m + n] == inp.dict[m..m + n]
  {
  }

  lemma AgreeInBlock(inp: Input, i: nat, b: seq<byte>, j: nat, j': nat, n: nat)
    requires i + n <= |inp.src| && j + n <= |b| && j' + n <= |inp.W()| && b[j..j + n] == inp.W()[j'..j' + n]
    requires Agree(inp.src, i, b, j, n)
    ensures Agree(inp.W(), |inp.dict| + i, inp.W(), j', n)
  {
    forall k | |inp.dict| + i <= k < |inp.dict| + i + n ensures inp.W()[k] == inp.W()[k - (|inp.dict| + i) + j'] {
      var t := k - (|inp.dict| + i);
      assert inp.W()[k] == inp.src[i + t];
      assert b[j + t] == b[j..j + n][t] == inp.W()[j'..j' + n][t];
    }
  }

  // ---------- the sequences written so far ----------

  /** The window holds the encoding of a genuine parse of everything before `anchor`. */
  ghost predicate Written(inp: Input, dst: array<byte>, d0: nat, op: nat, anchor: nat, p: Parse)
    reads dst
  {
    && d0 <= op <= dst.Length && anchor <= |inp.src|
    && Genuine(inp.W(), |inp.dict|, p) && EndOf(|inp.dict|, p) == |inp.dict| + anchor
    && dst[d0..op] == EncodeParse(inp.W(), |inp.dict|, p)
  }

  /** Token and literals of a further sequence stand behind what is written. */
  ghost predicate LiteralsWritten(inp: Input, dst: array<byte>, d0: nat, token: nat, op: nat, anchor: nat, ip: nat,
      p: Parse)
    reads dst
  {
    && Written(inp, dst, d0, token, anchor, p) && token < op <= dst.Length && anchor <= ip <= |inp.src|
    && dst[token] == 16 * Min(ip - anchor, 15)
    && dst[token + 1..op] == LengthTail(ip - anchor) + inp.src[anchor..ip]
  }

  lemma WrittenSize(inp: Input, dst: array<byte>, d0: nat, op: nat, anchor: nat, p: Parse)
    requires Written(inp, dst, d0, op, anchor, p)
    ensures op - d0 <= anchor + anchor / 255
  {
    ParseSize(inp.W(), |inp.dict|, p);
  }

  lemma LiteralsWrittenSize(inp: Input, dst: array<byte>, d0: nat, token: nat, op: nat, anchor: nat, ip: nat, p: Parse)
    requires LiteralsWritten(inp, dst, d0, token, op, anchor, ip, p)
    ensures op == token + 1 + |LengthTail(ip - anchor)| + (ip - anchor) && op - d0 <= ip + ip / 255 + 2
  {
    WrittenSize(inp, dst, d0, token, anchor, p);
    assert anchor / 255 + (ip - anchor) / 255 <= ip / 255;
  }

  /** What is written survives changes behind it. */
  lemma WrittenKept(inp: Input, dst: array<byte>, d0: nat, op: nat, anchor: nat, p: Parse, was: seq<byte>)
    requires d0 <= op <= |was| == dst.Length && anchor <= |inp.src|
    requires Genuine(inp.W(), |inp.dict|, p) && EndOf(|inp.dict|, p) == |inp.dict| + anchor
    requires was[d0..op] == EncodeParse(inp.W(), |inp.dict|, p)
    requires forall k :: d0 <= k < op ==> dst[k] == was[k]
    ensures Written(inp, dst, d0, op, anchor, p)
  {
    assert dst[d0..op] == was[d0..op];
  }

  /** A token with its match length, the offset, and the match length bytes complete a sequence. */
  lemma SequenceComplete(inp: Input, dst: array<byte>, d0: nat, token: nat, op: nat, end: nat, anchor: nat, ip: nat,
      s: Sequence, p: Parse)
    requires inp.Valid() && Written(inp, dst, d0, token, anchor, p) && token < op && op + 2 <= end <= dst.Length
    requires anchor <= ip && s.lits == ip - anchor && ip + MFLIMIT <= |inp.src|
    requires MINMATCH <= s.len && ip + s.len + LASTLITERALS <= |inp.src| && MatchAt(inp, ip, s.offset, s.len)
    requires dst[token] == Token(s.lits, s.len - MINMATCH)
    requires dst[token + 1..op] == LengthTail(s.lits) + inp.src[anchor..ip]
    requires dst[op..op + 2] == [s.offset % 0x100, s.offset / 0x100] && dst[op + 2..end] == LengthTail(s.len - MINMATCH)
    ensures Written(inp, dst, d0, end, ip + s.len, p + [s])
  {
    hide Genuine, EncodeParse, EncodeSequence, LengthTail, RealMatch, EndOf;
    var w, d := inp.W(), |inp.dict|;
    PieceOfBlock(inp, anchor, s.lits);
    AppendSequence(w, d, p, s);
    EncodedPieces(dst, token, op, end, w, d + anchor, s);
    assert dst[d0..end] == dst[d0..token] + dst[token..end];
  }

  lemma EncodedPieces(dst: array<byte>, token: nat, op: nat, end: nat, w: seq<byte>, a: nat, s: Sequence)
    requires token < op && op + 2 <= end <= dst.Length && a + s.lits <= |w| && s.len >= MINMATCH
      && s.offset <= DISTANCE_MAX
    requires dst[token] == Token(s.lits, s.len - MINMATCH)
    requires dst[token + 1..op] == LengthTail(s.lits) + w[a..a + s.lits]
    requires dst[op..op + 2] == [s.offset % 0x100, s.offset / 0x100] && dst[op + 2..end] == LengthTail(s.len - MINMATCH)
    ensures dst[token..end] == EncodeSequence(w, a, s)
  {
    hide LengthTail, Token;
    var x, lits, y := LengthTail(s.lits), w[a..a + s.lits], EncodeMatch(s.offset, s.len - MINMATCH);
    assert dst[op..end] == dst[op..op + 2] + dst[op + 2..end] == y;
    assert dst[token + 1..end] == dst[token + 1..op] + dst[op..end] == (x + lits) + y;
    assert (x + lits) + y == x + (lits + y);
    assert dst[token..end] == [dst[token]] + dst[token + 1..end];
  }

  // ---------- writing a match ----------

  /**
    From the label _next_match: offset and match length behind the literals. On success the
    sequence is complete; the position moves at least to the end of the bytes known to match.
   */
  method WriteMatch(inp: Input, dst: array<byte>, d0: nat, token: nat, op0: nat, anchor: nat, ip0: nat, m: nat,
                    olimit: nat, limited: bool, ghost known: nat, ghost p: Parse)
      returns (ok: bool, op: nat, ip: nat, ghost q: Parse)
    requires inp.Valid() && ip0 + MFLIMIT <= |inp.src| && m < |inp.dict| + ip0 && op0 + 2 <= olimit <= dst.Length
    requires LiteralsWritten(inp, dst, d0, token, op0, anchor, ip0, p)
    requires 4 <= known && ip0 + known + LASTLITERALS <= |inp.src| && MatchAt(inp, ip0, |inp.dict| + ip0 - m, known)
    requires inp.directive == UsingExtDict && m < |inp.dict| ==> m + MINMATCH <= |inp.dict|
    requires !limited ==> olimit == d0 + CompressBound(|inp.src|)
    modifies dst
    ensures forall k :: 0 <= k < dst.Length && !(d0 <= k < olimit) ==> dst[k] == old(dst[k])
    ensures !ok ==> limited
    ensures ok ==> ip0 + known <= ip && ip + LASTLITERALS <= |inp.src|
    ensures ok ==> op + LASTLITERALS <= olimit && Written(inp, dst, d0, op, ip, q)
  {
    hide Genuine, EncodeParse, RealMatch, LengthTail;
    ghost var was := dst[..];
    LiteralsWrittenSize(inp, dst, d0, token, op0, anchor, ip0, p);
    var offset := |inp.dict| + ip0 - m;
    q := p;
    WriteOffset(dst, op0, offset);
    assert MatchAt(inp, ip0, offset, 4) by { ShorterMatch(inp, ip0, offset, known, 4); }
    var code := MatchCode(inp, ip0, m);
    MatchCodeIsLongest(inp, ip0, offset, known, code);
    if !limited {
      RoomForMatch(d0, op0, ip0, code, |inp.src|);
    }
    ok, op := WriteMatchLength(dst, op0 + 2, token, code, olimit, limited);
    ip := ip0 + MINMATCH + code;
    if ok {
      assert dst[token + 1..op0] == was[token + 1..op0];
      WrittenKept(inp, dst, d0, token, anchor, p, was);
      var s := Sequence(ip0 - anchor, offset, MINMATCH + code);
      SequenceComplete(inp, dst, d0, token, op0, op, anchor, ip0, s, p);
      q := p + [s];
    }
  }

  lemma ShorterMatch(inp: Input, ip: nat, offset: nat, len: nat, less: nat)
    requires MatchAt(inp, ip, offset, len) && less <= len
    ensures MatchAt(inp, ip, offset, less)
  {
  }

  /** The counted match covers every byte already known to match. */
  lemma MatchCodeIsLongest(inp: Input, ip: nat, offset: nat, known: nat, code: nat)
    requires MatchAt(inp, ip, offset, known) && MatchAt(inp, ip, offset, 4 + code)
    requires ip + known + LASTLITERALS <= |inp.src| && ip + 4 + code + LASTLITERALS <= |inp.src|
    requires ip + 4 + code + LASTLITERALS == |inp.src| ||
      inp.W()[|inp.dict| + ip + 4 + code] != inp.W()[|inp.dict| + ip + 4 + code - offset]
    ensures known <= 4 + code
  {
  }

  lemma RoomForLiterals(d0: nat, token: nat, anchor: nat, ip: nat, n: nat)
    requires d0 <= token && token - d0 <= anchor + anchor / 255 && anchor <= ip && ip + MFLIMIT <= n <= MAX_INPUT_SIZE
    ensures LiteralRoom(token, ip - anchor, d0 + CompressBound(n))
  {
    assert anchor / 255 + (ip - anchor) / 255 <= n / 255;
  }

  lemma RoomForMatch(d0: nat, op: nat, ip: nat, code: nat, n: nat)
    requires d0 <= op && op - d0 <= ip + ip / 255 + 2 && ip + 4 + code + LASTLITERALS <= n <= MAX_INPUT_SIZE
    ensures MatchRoom(op + 2, code, d0 + CompressBound(n))
  {
    assert ip / 255 + (code + 240) / 255 <= (ip + code) / 255 + 1 <= n / 255 + 1;
  }

  lemma RoomForLast(d0: nat, op: nat, anchor: nat, n: nat)
    requires d0 <= op && op - d0 <= anchor + anchor / 255 && anchor <= n <= MAX_INPUT_SIZE
    ensures op + (n - anchor) + 1 + (n - anchor + 255 - RUN_MASK) / 255 <= d0 + CompressBound(n)
  {
    assert anchor / 255 + (n - anchor) / 255 <= n / 255;
  }

  // ---------- the main loop ----------

  /** After a match: does another one start right here? The position is entered in the table either way. */
  method NextMatch(inp: Input, table: array<uint32>, ip: nat) returns (again: bool, m: nat)
    requires inp.Valid() && 2 <= ip && ip + MFLIMIT <= |inp.src|
    requires TableOk(inp, table, inp.startIndex + ip)
    modifies table
    ensures TableOk(inp, table, inp.startIndex + ip + 1)
    ensures again ==>
      && m < |inp.dict| + ip && MatchAt(inp, ip, |inp.dict| + ip - m, 4)
      && (inp.directive == UsingExtDict && m < |inp.dict| ==> m + MINMATCH <= |inp.dict|)
  {
    hide HashPosition, EntryOk, ReadCandidate, RealMatch;
    var h2: nat := HashPosition(inp.src, ip - 2, inp.wordSize, inp.tableType);
    var current := inp.startIndex + ip;
    PutIndex(inp, table, h2, current - 2, current);
    var h: nat := HashPosition(inp.src, ip, inp.wordSize, inp.tableType);
    assert table.Length == TABLE_SIZE;
    var matchIndex := table[h];
    assert EntryOk(inp, matchIndex, current);
    TableLater(inp, table, current, current + 1);
    PutIndex(inp, table, h, current, current + 1);
    again, m := false, 0;
    if Eligible(inp, matchIndex, current) {
      EligibleIsReadable(inp, matchIndex, current);
      m := Virtual(inp, matchIndex);
      if ReadCandidate(inp, m) == Read32(inp.src, ip) {
        CandidateMatches(inp, m, ip);
        FourBytesMatch(inp, ip, m);
        again := true;
      }
    }
  }

  /** The first sequence of a run: catch up, literals, match. */
  method WriteFirstMatch(inp: Input, dst: array<byte>, d0: nat, token: nat, anchor: nat, ip0: nat, m0: nat,
                         olimit: nat, limited: bool, ghost p0: Parse)
      returns (ok: bool, op: nat, ip: nat, ghost p: Parse)
    requires inp.Valid() && token <= olimit <= dst.Length
    requires Written(inp, dst, d0, token, anchor, p0) && anchor <= ip0 && ip0 + MFLIMIT <= |inp.src|
      && m0 < |inp.dict| + ip0
    requires MatchAt(inp, ip0, |inp.dict| + ip0 - m0, 4)
    requires inp.directive == UsingExtDict && m0 < |inp.dict| ==> m0 + MINMATCH <= |inp.dict|
    requires !limited ==> olimit == d0 + CompressBound(|inp.src|)
    modifies dst
    ensures forall k :: 0 <= k < dst.Length && !(d0 <= k < olimit) ==> dst[k] == old(dst[k])
    ensures !ok ==> limited
    ensures ok ==>
      && ip0 + 4 <= ip && ip + LASTLITERALS <= |inp.src| && op + LASTLITERALS <= olimit
      && Written(inp, dst, d0, op, ip, p)
  {
    hide Genuine, EncodeParse, RealMatch, LengthTail;
    p := p0;
    var start, m := CatchUp(inp, anchor, ip0, m0);
    ghost var was := dst[..];
    WrittenSize(inp, dst, d0, token, anchor, p0);
    if !limited {
      RoomForLiterals(d0, token, anchor, start, |inp.src|);
    }
    ok, op := WriteLiterals(dst, token, inp.src, anchor, start - anchor, olimit, limited);
    ip := start;
    if ok {
      WrittenKept(inp, dst, d0, token, anchor, p, was);
      ok, op, ip, p := WriteMatch(inp, dst, d0, token, op, anchor, start, m, olimit, limited, 4 + ip0 - start, p);
    }
  }

  /**
    One turn of the main loop once a match is found: its sequence, and every sequence that
    follows it without literals.
   */
  method WriteRunOfMatches(inp: Input, table: array<uint32>, dst: array<byte>, d0: nat, op0: nat, anchor: nat,
      ip0: nat, m0: nat, olimit: nat, limited: bool, ghost p0: Parse)
      returns (ok: bool, op: nat, ip: nat, ghost p: Parse)
    requires inp.Valid() && dst as object != table && op0 <= olimit <= dst.Length
    requires Written(inp, dst, d0, op0, anchor, p0) && anchor <= ip0 && ip0 + MFLIMIT <= |inp.src|
      && m0 < |inp.dict| + ip0
    requires MatchAt(inp, ip0, |inp.dict| + ip0 - m0, 4)
    requires inp.directive == UsingExtDict && m0 < |inp.dict| ==> m0 + MINMATCH <= |inp.dict|
    requires TableOk(inp, table, inp.startIndex + ip0 + 1)
    requires !limited ==> olimit == d0 + CompressBound(|inp.src|)
    modifies dst, table
    ensures forall k :: 0 <= k < dst.Length && !(d0 <= k < olimit) ==> dst[k] == old(dst[k])
    ensures TableOk(inp, table, inp.startIndex + |inp.src| - 3)
    ensures !ok ==> limited
    ensures ok ==>
      && ip0 + 4 <= ip && ip + LASTLITERALS <= |inp.src| && op + LASTLITERALS <= olimit
      && Written(inp, dst, d0, op, ip, p)
    ensures ok && ip + MFLIMIT <= |inp.src| ==> TableOk(inp, table, inp.startIndex + ip + 1)
  {
    hide Genuine, EncodeParse, RealMatch, LengthTail, EntryOk, MatchAt, Written, Input.W;
    ok, op, ip, p := WriteFirstMatch(inp, dst, d0, op0, anchor, ip0, m0, olimit, limited, p0);
    TableLater(inp, table, inp.startIndex + ip0 + 1, inp.startIndex + |inp.src| - 3);
    if !ok {
      return;
    }
    TableLater(inp, table, inp.startIndex + ip0 + 1, inp.startIndex + ip);
    while ip + MFLIMIT <= |inp.src|
      invariant ip0 + 4 <= ip && ip + LASTLITERALS <= |inp.src| && op + LASTLITERALS <= olimit
      invariant Written(inp, dst, d0, op, ip, p) && TableOk(inp, table, inp.startIndex + ip)
      invariant forall k :: 0 <= k < dst.Length && !(d0 <= k < olimit) ==> dst[k] == old(dst[k])
      decreases |inp.src| - ip
    {
      var again, m := NextMatch(inp, table, ip);
      TableLater(inp, table, inp.startIndex + ip + 1, inp.startIndex + |inp.src| - 3);
      if !again {
        return;
      }
      ghost var ip1 := ip;
      ok, op, ip, p := WriteAdjacentMatch(inp, dst, d0, op, ip, m, olimit, limited, p);
      if !ok {
        return;
      }
      TableLater(inp, table, inp.startIndex + ip1 + 1, inp.startIndex + ip);
    }
    TableLater(inp, table, inp.startIndex + ip, inp.startIndex + |inp.src| - 3);
  }

  /** A sequence without literals: its token is zero until the match length is added. */
  method WriteAdjacentMatch(inp: Input, dst: array<byte>, d0: nat, token: nat, ip0: nat, m: nat,
                            olimit: nat, limited: bool, ghost p0: Parse)
      returns (ok: bool, op: nat, ip: nat, ghost p: Parse)
    requires inp.Valid() && token + LASTLITERALS <= olimit <= dst.Length
    requires Written(inp, dst, d0, token, ip0, p0) && ip0 + MFLIMIT <= |inp.src| && m < |inp.dict| + ip0
    requires MatchAt(inp, ip0, |inp.dict| + ip0 - m, 4)
    requires inp.directive == UsingExtDict && m < |inp.dict| ==> m + MINMATCH <= |inp.dict|
    requires !limited ==> olimit == d0 + CompressBound(|inp.src|)
    modifies dst
    ensures forall k :: 0 <= k < dst.Length && !(d0 <= k < olimit) ==> dst[k] == old(dst[k])
    ensures !ok ==> limited
    ensures ok ==>
      && ip0 + 4 <= ip && ip + LASTLITERALS <= |inp.src| && op + LASTLITERALS <= olimit
      && Written(inp, dst, d0, op, ip, p)
  {
    hide Genuine, EncodeParse, RealMatch, LengthTail;
    ghost var was := dst[..];
    dst[token] := 0;
    WrittenKept(inp, dst, d0, token, ip0, p0, was);
    NoLiterals(inp.src, ip0);
    ok, op, ip, p := WriteMatch(inp, dst, d0, token, token + 1, ip0, ip0, m, olimit, limited, 4, p0);
  }

  lemma NoLiterals(src: seq<byte>, ip: nat)
    requires ip <= |src|
    ensures LengthTail(0) + src[ip..ip] == []
  {
  }

  /**
    LZ4_compress_generic_validated. A positive result is the size of a conforming block that
    decodes, after the history, to the input; it is at most n + n/255 + 2. Zero is returned only
    when the output is limited. No byte outside the window is written.
   */
  method CompressValidated(inp: Input, table: array<uint32>, dst: array<byte>, d0: nat, olimit: nat, limited: bool,
      acceleration: nat)
      returns (r: nat)
    requires inp.Valid() && dst as object != table && d0 <= olimit <= dst.Length && acceleration >= 1
    requires TableOk(inp, table, inp.startIndex)
    requires !limited ==> olimit == d0 + CompressBound(|inp.src|)
    modifies dst, table
    ensures forall k :: 0 <= k < dst.Length && !(d0 <= k < olimit) ==> dst[k] == old(dst[k])
    ensures TableFor(table, inp.startIndex + |inp.src|)
    ensures r == 0 ==> limited
    ensures d0 + r <= olimit && r <= |inp.src| + |inp.src| / 255 + 2
    ensures r > 0 ==>
      Decode(dst[d0..d0 + r], inp.dict, true) == Some(inp.W()) && Conforms(dst[d0..d0 + r], |inp.dict|, |inp.src|)
  {
    hide Genuine, EncodeParse, RealMatch, EntryOk, HashPosition, ConformsSeq, DecodeSeq;
    var n, op, anchor, ok := |inp.src|, d0, 0, true;
    ghost var p: Parse := [];
    NothingWritten(inp, dst, d0);
    OldTable(inp, table);
    if n >= MIN_LENGTH {
      TableLater(inp, table, inp.startIndex, inp.startIndex + 1);
      PutIndex(inp, table, HashPosition(inp.src, 0, inp.wordSize, inp.tableType), inp.startIndex, inp.startIndex + 1);
      ok, op, anchor, p := CompressLoop(inp, table, dst, d0, olimit, limited, acceleration);
      NewTable(inp, table);
    }
    if !ok {
      return 0;
    }
    ghost var was := dst[..];
    WrittenSize(inp, dst, d0, op, anchor, p);
    if !limited {
      RoomForLast(d0, op, anchor, n);
    }
    var end;
    ok, end := WriteLastLiterals(dst, op, inp.src, anchor, olimit, limited);
    if !ok {
      return 0;
    }
    WrittenKept(inp, dst, d0, op, anchor, p, was);
    BlockComplete(inp, dst, d0, op, end, anchor, p);
    r := end - d0;
  }

  /** Between calls: every index in use ends at least 4 bytes before `offset`. */
  ghost predicate TableFor(table: array<uint32>, offset: nat)
    reads table
  {
    table.Length == TABLE_SIZE && forall h :: 0 <= h < TABLE_SIZE ==> table[h] == 0 || table[h] + MINMATCH <= offset
  }

  lemma OldTable(inp: Input, table: array<uint32>)
    requires TableOk(inp, table, inp.startIndex)
    ensures TableFor(table, inp.startIndex + |inp.src|)
  {
    forall h | 0 <= h < TABLE_SIZE ensures table[h] == 0 || table[h] + MINMATCH <= inp.startIndex + |inp.src| {
      assert EntryOk(inp, table[h], inp.startIndex);
    }
  }

  lemma NewTable(inp: Input, table: array<uint32>)
    requires |inp.src| >= MIN_LENGTH && TableOk(inp, table, inp.startIndex + |inp.src| - 3)
    ensures TableFor(table, inp.startIndex + |inp.src|)
  {
    forall h | 0 <= h < TABLE_SIZE ensures table[h] == 0 || table[h] + MINMATCH <= inp.startIndex + |inp.src| {
      assert EntryOk(inp, table[h], inp.startIndex + |inp.src| - 3);
    }
  }

  lemma NothingWritten(inp: Input, dst: array<byte>, d0: nat)
    requires d0 <= dst.Length
    ensures Written(inp, dst, d0, d0, 0, [])
  {
  }

  lemma BlockComplete(inp: Input, dst: array<byte>, d0: nat, op: nat, end: nat, anchor: nat, p: Parse)
    requires Written(inp, dst, d0, op, anchor, p) && op <= end <= dst.Length
      && dst[op..end] == EncodeLast(inp.src[anchor..])
    ensures d0 < end && end - d0 <= |inp.src| + |inp.src| / 255 + 2
    ensures Decode(dst[d0..end], inp.dict, true) == Some(inp.W()) && Conforms(dst[d0..end], |inp.dict|, |inp.src|)
  {
    hide Genuine, EncodeParse, ConformsSeq, DecodeSeq, EncodeLast, Conforms, Decode;
    var w, d := inp.W(), |inp.dict|;
    assert w[..d] == inp.dict;
    assert w[d + anchor..] == inp.src[anchor..];
    assert dst[d0..end] == dst[d0..op] + dst[op..end];
    LastNotEmpty(inp.src[anchor..]);
    GenuineParseRoundTrip(w, d, p);
    BlockSize(w, d, p);
  }

  lemma LastNotEmpty(lits: seq<byte>)
    ensures |EncodeLast(lits)| > 0
  {
  }

  method CompressLoop(inp: Input, table: array<uint32>, dst: array<byte>, d0: nat, olimit: nat, limited: bool,
      acceleration: nat)
      returns (ok: bool, op: nat, anchor: nat, ghost p: Parse)
    requires inp.Valid() && dst as object != table && d0 <= olimit <= dst.Length && acceleration >= 1
      && |inp.src| >= MIN_LENGTH
    requires TableOk(inp, table, inp.startIndex + 1)
    requires !limited ==> olimit == d0 + CompressBound(|inp.src|)
    modifies dst, table
    ensures forall k :: 0 <= k < dst.Length && !(d0 <= k < olimit) ==> dst[k] == old(dst[k])
    ensures TableOk(inp, table, inp.startIndex + |inp.src| - 3)
    ensures !ok ==> limited
    ensures ok ==> op <= olimit && Written(inp, dst, d0, op, anchor, p)
  {
    hide Genuine, EncodeParse, RealMatch, EntryOk, HashPosition;
    op, anchor, p := d0, 0, [];
    NothingWritten(inp, dst, d0);
    var ip := 1;
    while true
      invariant anchor < ip && ip + MFLIMIT - 1 <= |inp.src| && op <= olimit
      invariant Written(inp, dst, d0, op, anchor, p) && TableOk(inp, table, inp.startIndex + ip)
      invariant forall k :: 0 <= k < dst.Length && !(d0 <= k < olimit) ==> dst[k] == old(dst[k])
      decreases |inp.src| - ip
    {
      ghost var was := dst[..];
      var found, at, m := FindMatch(inp, table, ip, acceleration);
      WrittenKept(inp, dst, d0, op, anchor, p, was);
      TableLater(inp, table, inp.startIndex + |inp.src| - (MFLIMIT - 1), inp.startIndex + |inp.src| - 3);
      if !found {
        return true, op, anchor, p;
      }
      FourBytesMatch(inp, at, m);
      ok, op, ip, p := WriteRunOfMatches(inp, table, dst, d0, op, anchor, at, m, olimit, limited, p);
      if !ok {
        return;
      }
      anchor := ip;
      if ip + MFLIMIT > |inp.src| {
        return true, op, anchor, p;
      }
      ip := ip + 1;
    }
  }
}
