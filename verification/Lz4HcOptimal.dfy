/**
  The optimal parser of lz4hc.c (levels 10 to 12): forward dynamic programming over prices in an
  array of cells, reversal of the cheapest path inside the same array, and output.
 */
module Lz4HcOptimal {
  import opened Bytes
  import opened BlockFormat
  import opened BlockEncoding
  import opened Memory
  import opened SequenceWriter
  import opened BlockCompressor
  import opened Lz4HcChains
  import opened Lz4HcSearch

  const OPT_NUM := 4096
  const TRAILING_LITERALS := 3

  // ---------- prices ----------

  function LiteralsPrice(litlen: nat): nat {
    litlen + if litlen >= RUN_MASK then 1 + (litlen - RUN_MASK) / 255 else 0
  }

  function SequencePrice(litlen: nat, mlen: nat): nat
    requires mlen >= MINMATCH
  {
    1 + 2 + LiteralsPrice(litlen) + if mlen >= ML_MASK + MINMATCH then 1 + (mlen - (ML_MASK + MINMATCH)) / 255 else 0
  }

  /** The price of a sequence is the number of bytes that encode it. */
  lemma PriceIsSize(w: seq<byte>, a: nat, s: Sequence)
    requires a + s.lits <= |w| && s.len >= MINMATCH && s.offset <= DISTANCE_MAX
    ensures SequencePrice(s.lits, s.len) == |EncodeSequence(w, a, s)|
  {
  }

  /** The price of the last literals likewise, but for their token. */
  lemma LastPriceIsSize(lits: seq<byte>)
    ensures 1 + LiteralsPrice(|lits|) == |EncodeLast(lits)|
  {
  }

  // ---------- one search ----------

  /** A match that can be written at `ip`. */
  ghost predicate Usable(inp: Input, ip: nat, off: nat, len: nat) {
    && MINMATCH <= len && ip + MFLIMIT <= |inp.src| && ip + len + LASTLITERALS <= |inp.src|
      && MatchAt(inp, ip, off, len)
  }

  /** LZ4HC_FindLongerMatch; no match has length 0. */
  method FindLonger(inp: Input, index: Index, ip: nat, minLen: nat, nbSearches: nat, favorDecSpeed: bool)
      returns (len: nat, off: nat)
    requires OneSegment(inp) && index.Holds(inp) && ip + MFLIMIT <= |inp.src| && 1 <= minLen
      && ip + minLen + LASTLITERALS <= |inp.src|
    requires index.nextToUpdate <= inp.startIndex + ip
    modifies index, index.hashTable, index.chainTable
    ensures index.Holds(inp) && index.nextToUpdate == inp.startIndex + ip
    ensures len == 0 || Usable(inp, ip, off, len)
  {
    hide MatchAt, Looked, Candidates;
    var longest, m := FindWider(inp, index, ip, minLen, nbSearches, true, true, favorDecSpeed);
    if longest <= minLen {
      return 0, 0;
    }
    off := inp.startIndex + ip - m;
    if favorDecSpeed && 18 < longest <= 36 {
      ShorterMatch(inp, ip, off, longest, 18);
      longest := 18;
    }
    return longest, off;
  }

  // ---------- cells ----------

  /** What is known of the best way to reach a position: its price, and the literal or match that ends there. */
  datatype Cell = Cell(price: int, off: nat, mlen: nat, litlen: nat)

  /** The cell for position `k` after `ip` ends with a literal, or with a match that starts `mlen` before. */
  ghost predicate CellOk(inp: Input, ip: nat, k: nat, c: Cell) {
    c.mlen == 1 || (c.mlen <= k && Usable(inp, ip + k - c.mlen, c.off, c.mlen))
  }

  /** Cells below `n` have been filled for this segment: reading one of them is reading no stale entry. */
  ghost predicate Filled(inp: Input, ip: nat, cells: seq<Cell>, n: nat) {
    n <= |cells| && forall k :: 0 <= k < n ==> CellOk(inp, ip, k, cells[k])
  }

  /** The cell at `k`. The array keeps cells of earlier segments, so only those filled since may be read. */
  function Entry(opt: array<Cell>, k: nat, ghost n: nat): (c: Cell)
    requires k < n <= opt.Length
    reads opt
  {
    opt[k]
  }

  ghost predicate Table(opt: array<Cell>) {
    opt.Length == OPT_NUM + TRAILING_LITERALS
  }

  method SetCell(inp: Input, ip: nat, opt: array<Cell>, k: nat, c: Cell, ghost n: nat)
    requires Table(opt) && k < opt.Length && k <= n <= opt.Length && Filled(inp, ip, opt[..], n)
      && CellOk(inp, ip, k, c)
    modifies opt
    ensures opt[k] == c && forall i :: 0 <= i < opt.Length && i != k ==> opt[i] == old(opt[i])
    ensures Filled(inp, ip, opt[..], Max(n, k + 1))
  {
    hide CellOk;
    opt[k] := c;
  }

  /** Prices of the first positions, and of the ends of the first match. */
  method FillFirst(inp: Input, ip: nat, opt: array<Cell>, llen: nat, len: nat, off: nat)
    requires Table(opt) && len < OPT_NUM && Usable(inp, ip, off, len)
    modifies opt
    ensures Filled(inp, ip, opt[..], len + 1 + TRAILING_LITERALS)
  {
    hide CellOk, Filled;
    assert Filled(inp, ip, opt[..], 0) by { NothingFilled(inp, ip, opt[..]); }
    for rPos := 0 to MINMATCH
      invariant Filled(inp, ip, opt[..], rPos)
    {
      var c := Cell(LiteralsPrice(llen + rPos), 0, 1, llen + rPos);
      LiteralOk(inp, ip, rPos, c);
      SetCell(inp, ip, opt, rPos, c, rPos);
    }
    for mlen := MINMATCH to len + 1
      invariant Filled(inp, ip, opt[..], mlen)
    {
      var c := Cell(SequencePrice(llen, mlen), off, mlen, llen);
      MatchCellOk(inp, ip, 0, off, len, c);
      SetCell(inp, ip, opt, mlen, c, mlen);
    }
    AddLiterals(inp, ip, opt, len, len + 1);
  }

  lemma NothingFilled(inp: Input, ip: nat, cells: seq<Cell>)
    ensures Filled(inp, ip, cells, 0)
  {
  }

  lemma LiteralOk(inp: Input, ip: nat, k: nat, c: Cell)
    requires c.mlen == 1
    ensures CellOk(inp, ip, k, c)
  {
  }

  /** A match found at `at`, cut to the length of the cell. */
  lemma MatchCellOk(inp: Input, ip: nat, at: nat, off: nat, len: nat, c: Cell)
    requires Usable(inp, ip + at, off, len) && MINMATCH <= c.mlen <= len && c.off == off
    ensures CellOk(inp, ip, at + c.mlen, c)
  {
    hide MatchAt;
    ShorterMatch(inp, ip + at, off, len, c.mlen);
  }

  /** The positions behind the last match are reached with literals. */
  method AddLiterals(inp: Input, ip: nat, opt: array<Cell>, last: nat, ghost n: nat)
    requires Table(opt) && last < OPT_NUM && last < n <= opt.Length && Filled(inp, ip, opt[..], n)
    modifies opt
    ensures Filled(inp, ip, opt[..], last + 1 + TRAILING_LITERALS)
  {
    hide CellOk, Filled;
    ghost var m := n;
    for addLit := 1 to TRAILING_LITERALS + 1
      invariant last + addLit <= m <= opt.Length && Filled(inp, ip, opt[..], m)
    {
      var c := Cell(Entry(opt, last, m).price + LiteralsPrice(addLit), 0, 1, addLit);
      LiteralOk(inp, ip, last + addLit, c);
      SetCell(inp, ip, opt, last + addLit, c, m);
      m := Max(m, last + addLit + 1);
    }
    FilledLess(inp, ip, opt[..], m, last + 1 + TRAILING_LITERALS);
  }

  lemma FilledLess(inp: Input, ip: nat, cells: seq<Cell>, n: nat, less: nat)
    requires Filled(inp, ip, cells, n) && less <= n
    ensures Filled(inp, ip, cells, less)
  {
  }

  /** Before a match at `cur`: one to three more literals, where that is cheaper. */
  method TryLiterals(inp: Input, ip: nat, opt: array<Cell>, cur: nat, ghost n: nat)
    requires Table(opt) && cur + MINMATCH <= n <= opt.Length && Filled(inp, ip, opt[..], n)
    modifies opt
    ensures Filled(inp, ip, opt[..], n)
  {
    hide CellOk, Filled;
    var base := Entry(opt, cur, n).litlen;
    for litlen := 1 to MINMATCH
      invariant Filled(inp, ip, opt[..], n)
    {
      var price := Entry(opt, cur, n).price - LiteralsPrice(base) + LiteralsPrice(base + litlen);
      if price < Entry(opt, cur + litlen, n).price {
        var c := Cell(price, 0, 1, base + litlen);
        LiteralOk(inp, ip, cur + litlen, c);
        SetCell(inp, ip, opt, cur + litlen, c, n);
      }
    }
  }

  /** The ends of a match at `cur`, where that is cheaper or nothing is known yet. */
  method TryMatch(inp: Input, ip: nat, opt: array<Cell>, cur: nat, last0: nat, len: nat, off: nat, favorDecSpeed: bool)
      returns (last: nat)
    requires Table(opt) && cur < last0 < OPT_NUM && cur + len < OPT_NUM && Usable(inp, ip + cur, off, len)
    requires Filled(inp, ip, opt[..], last0 + 1 + TRAILING_LITERALS)
    modifies opt
    ensures last == last0 || last0 < last == cur + len
    ensures Filled(inp, ip, opt[..], last + 1)
  {
    hide CellOk, Filled;
    last := last0;
    ghost var n := last0 + 1 + TRAILING_LITERALS;
    for ml := MINMATCH to len + 1
      invariant last0 + 1 + TRAILING_LITERALS <= n <= opt.Length && cur + ml <= n && Filled(inp, ip, opt[..], n)
      invariant ml <= len ==> last == last0
      invariant last == last0 || last0 < last == cur + len
    {
      var pos := cur + ml;
      var here := Entry(opt, cur, n);
      var ll := if here.mlen == 1 then here.litlen else 0;
      var price := if here.mlen != 1 then here.price + SequencePrice(0, ml)
                   else (if cur > ll then Entry(opt, cur - ll, n).price else 0) + SequencePrice(ll, ml);
      if pos > last + TRAILING_LITERALS || price <= Entry(opt, pos, n).price - (if favorDecSpeed then 1 else 0) {
        if ml == len && last < pos {
          last := pos;
        }
        var c := Cell(price, off, ml, ll);
        MatchCellOk(inp, ip, cur, off, len, c);
        SetCell(inp, ip, opt, pos, c, n);
        n := Max(n, pos + 1);
      }
    }
    FilledLess(inp, ip, opt[..], n, last + 1);
  }

  // ---------- the forward pass ----------

  /** The end of the chosen path: its last step goes from `cur` over `mlen` bytes. */
  datatype Choice = Choice(cur: nat, mlen: nat, off: nat, last: nat)

  /** A choice whose last step is a literal or a usable match, and whose other cells are filled. */
  ghost predicate ChoiceOk(inp: Input, ip: nat, cells: seq<Cell>, c: Choice) {
    && c.cur < c.last <= c.cur + c.mlen && c.cur < OPT_NUM && Filled(inp, ip, cells, c.cur + 1)
    && StepOk(inp, ip + c.cur, c.off, c.mlen) && ip + c.cur + c.mlen + LASTLITERALS <= |inp.src|
    && (c.mlen == 1 ==> c.last == c.cur + 1)
  }

  ghost predicate StepOk(inp: Input, at: nat, off: nat, mlen: nat) {
    mlen == 1 || Usable(inp, at, off, mlen)
  }

  /** Search at the positions inside the segment, until nothing better can follow or a match is long enough. */
  method Explore(inp: Input, index: Index, ip: nat, opt: array<Cell>, len: nat, nbSearches: nat, sufficient: nat,
      fullUpdate: bool, favorDecSpeed: bool)
      returns (c: Choice)
    requires OneSegment(inp) && index.Holds(inp) && index.nextToUpdate == inp.startIndex + ip && Table(opt)
    requires MINMATCH <= len < OPT_NUM && ip + len + LASTLITERALS <= |inp.src|
      && Filled(inp, ip, opt[..], len + 1 + TRAILING_LITERALS)
    modifies index, index.hashTable, index.chainTable, opt
    ensures index.Holds(inp) && index.nextToUpdate <= inp.startIndex + ip + c.cur + c.mlen
    ensures ChoiceOk(inp, ip, opt[..], c)
  {
    hide CellOk, Filled, Usable, OneSegment;
    var last, cur := len, 1;
    while cur < last && ip + cur + MFLIMIT <= |inp.src|
      invariant 1 <= cur <= last < OPT_NUM && MINMATCH <= last && ip + last + LASTLITERALS <= |inp.src|
      invariant Filled(inp, ip, opt[..], last + 1 + TRAILING_LITERALS)
      invariant index.Holds(inp) && index.nextToUpdate <= inp.startIndex + ip + cur
        && index.nextToUpdate < inp.startIndex + ip + last
      decreases OPT_NUM - cur
    {
      ghost var n := last + 1 + TRAILING_LITERALS;
      var price, next := Entry(opt, cur, n).price, Entry(opt, cur + 1, n).price;
      if next <= price && (!fullUpdate || Entry(opt, cur + MINMATCH, n).price < price + 3) {
        cur := cur + 1;
        continue;
      }
      var newLen, newOff := FindLonger(inp, index, ip + cur, if fullUpdate then MINMATCH - 1 else last - cur,
        nbSearches, favorDecSpeed);
      if newLen != 0 {
        if newLen > sufficient || newLen + cur >= OPT_NUM {
          c := Choice(cur, newLen, newOff, cur + 1);
          EarlyChoice(inp, ip, opt[..], n, c);
          return;
        }
        TryLiterals(inp, ip, opt, cur, n);
        MatchFits(inp, ip + cur, newOff, newLen);
        last := TryMatch(inp, ip, opt, cur, last, newLen, newOff, favorDecSpeed);
        AddLiterals(inp, ip, opt, last, last + 1);
      }
      cur := cur + 1;
    }
    FilledLess(inp, ip, opt[..], last + 1 + TRAILING_LITERALS, last + 1);
    var end := Entry(opt, last, last + 1);
    LastChoice(inp, ip, opt[..], last);
    c := Choice(last - end.mlen, end.mlen, end.off, last);
  }

  lemma MatchFits(inp: Input, at: nat, off: nat, len: nat)
    requires Usable(inp, at, off, len)
    ensures at + len + LASTLITERALS <= |inp.src| && MINMATCH <= len
  {
  }

  lemma EarlyChoice(inp: Input, ip: nat, cells: seq<Cell>, n: nat, c: Choice)
    requires Filled(inp, ip, cells, n) && c.cur < n && c.cur < OPT_NUM && c.last == c.cur + 1
      && Usable(inp, ip + c.cur, c.off, c.mlen)
    ensures ChoiceOk(inp, ip, cells, c)
  {
    hide MatchAt, CellOk;
  }

  lemma LastChoice(inp: Input, ip: nat, cells: seq<Cell>, last: nat)
    requires Filled(inp, ip, cells, last + 1) && 1 <= last < OPT_NUM && last < |cells|
      && ip + last + LASTLITERALS <= |inp.src|
    ensures cells[last].mlen <= last
    ensures ChoiceOk(inp, ip, cells, Choice(last - cells[last].mlen, cells[last].mlen, cells[last].off, last))
  {
    hide MatchAt;
    assert CellOk(inp, ip, last, cells[last]);
  }

  // ---------- the reversal ----------

  function Gap(from: nat, to: nat): nat {
    if from < to then to - from else 0
  }

  /** Reading forward: each cell on the way from `from` to `to` holds the literal or match that starts there. */
  ghost predicate Path(inp: Input, ip: nat, cells: seq<Cell>, from: nat, to: nat)
    decreases Gap(from, to)
  {
    from == to || (from < to && from < |cells| && cells[from].mlen > 0
      && StepOk(inp, ip + from, cells[from].off, cells[from].mlen)
                   && from + cells[from].mlen <= to && Path(inp, ip, cells, from + cells[from].mlen, to))
  }

  lemma {:induction false} PathKept(inp: Input, ip: nat, was: seq<Cell>, cells: seq<Cell>, from: nat, to: nat)
    requires Path(inp, ip, was, from, to) && |cells| == |was| && to <= |was| && forall k :: from <= k < to ==>
      cells[k] == was[k]
    ensures Path(inp, ip, cells, from, to)
    decreases Gap(from, to)
  {
    hide StepOk;
    if from < to {
      PathKept(inp, ip, was, cells, from + was[from].mlen, to);
    }
  }

  /** One turn of the reversal: the step that ended in the cell above is stored where it starts. */
  lemma Turned(inp: Input, ip: nat, was: seq<Cell>, cells: seq<Cell>, q: nat, step: Cell, cur: nat)
    requires q < cur < |was| == |cells| && (forall k :: 0 <= k < |was| && k != q ==> cells[k] == was[k])
    requires cells[q].mlen == step.mlen > 0 && cells[q].off == step.off && StepOk(inp, ip + q, step.off, step.mlen)
    requires q + step.mlen <= cur && Path(inp, ip, was, q + step.mlen, cur)
    ensures Path(inp, ip, cells, q, cur)
  {
    hide StepOk;
    PathKept(inp, ip, was, cells, q + step.mlen, cur);
  }

  /** What a filled cell says about the step that ends in it. */
  lemma StepBack(inp: Input, ip: nat, cells: seq<Cell>, n: nat, q: nat)
    requires Filled(inp, ip, cells, n) && q < n
    ensures cells[q].mlen >= 1 && (cells[q].mlen > q ==> q == 0)
    ensures cells[q].mlen <= q ==> StepOk(inp, ip + (q - cells[q].mlen), cells[q].off, cells[q].mlen)
  {
    hide MatchAt;
    assert CellOk(inp, ip, q, cells[q]);
  }

  /** From the label encode: the cells, each saying how its position is reached, are turned into a forward path in
      place. */
  method Reverse(inp: Input, ip: nat, opt: array<Cell>, c: Choice)
    requires Table(opt) && ChoiceOk(inp, ip, opt[..], c)
    modifies opt
    ensures Path(inp, ip, opt[..], 0, c.cur) && opt[c.cur].mlen == c.mlen && opt[c.cur].off == c.off
  {
    hide StepOk, Filled, Usable;
    ghost var before := opt[..];
    var q: nat, mlen: nat, off: nat := c.cur, c.mlen, c.off;
    while true
      invariant q <= c.cur < opt.Length && mlen > 0 && StepOk(inp, ip + q, off, mlen)
      invariant forall k :: 0 <= k <= q ==> opt[k] == before[k]
      invariant if q == c.cur then mlen == c.mlen && off == c.off
                else && q + mlen <= c.cur && Path(inp, ip, opt[..], q + mlen, c.cur)
                     && opt[c.cur].mlen == c.mlen && opt[c.cur].off == c.off
      decreases q
    {
      StepBack(inp, ip, before, c.cur + 1, q);
      var nextMlen, nextOff := opt[q].mlen, opt[q].off;
      ghost var was := opt[..];
      opt[q] := opt[q].(mlen := mlen, off := off);
      if q < c.cur {
        Turned(inp, ip, was, opt[..], q, opt[q], c.cur);
      }
      mlen, off := nextMlen, nextOff;
      if nextMlen > q {
        break;
      }
      q := q - nextMlen;
    }
  }

  // ---------- output ----------

  /** The match length of LZ4HC_encodeSequence: 255s two at a time, nothing beyond the last byte. */
  method WriteMatchLengthHc(dst: array<byte>, op0: nat, token: nat, matchCode: nat, olimit: nat, limited: bool)
      returns (ok: bool, op: nat)
    requires token < op0 <= olimit <= dst.Length && dst[token] + Min(matchCode, 15) < 0x100
    requires !limited ==> op0 + matchCode / 255 + (1 + LASTLITERALS) <= olimit
    modifies dst
    ensures !ok ==> limited && OnlyChanges(dst, 0, 0)
    ensures ok ==> op == op0 + |LengthTail(matchCode)| && op + LASTLITERALS <= olimit
    ensures ok ==> forall k :: 0 <= k < dst.Length && k != token && !(op0 <= k < olimit) ==> dst[k] == old(dst[k])
    ensures ok ==> dst[token] == old(dst[token]) + Min(matchCode, 15)
    ensures ok ==> dst[op0..op] == LengthTail(matchCode)
  {
    op := op0;
    if limited && op + matchCode / 255 + (1 + LASTLITERALS) > olimit {
      return false, op;
    }
    ok := true;
    if matchCode < ML_MASK {
      dst[token] := dst[token] + matchCode;
      return;
    }
    dst[token] := dst[token] + ML_MASK;
    op := WritePairs(dst, op, matchCode - ML_MASK);
  }

  method WritePairs(dst: array<byte>, op0: nat, n: nat) returns (op: nat)
    requires op0 + n / 255 + 1 <= dst.Length
    modifies dst
    ensures op == op0 + n / 255 + 1 && OnlyChanges(dst, op0, op)
    ensures dst[op0..op] == LengthExtension(n)
  {
    op := op0;
    var length := n;
    while length >= 510
      invariant n == 255 * (op - op0) + length && op0 <= op
      invariant forall k :: op0 <= k < op ==> dst[k] == 255
      invariant OnlyChanges(dst, op0, op)
    {
      dst[op], dst[op + 1] := 255, 255;
      op := op + 2;
      length := length - 510;
    }
    if length >= 255 {
      length := length - 255;
      dst[op] := 255;
      op := op + 1;
    }
    dst[op] := length;
    op := op + 1;
    ExtensionShape(n, dst[op0..op]);
  }

  /** LZ4HC_encodeSequence: literals since `anchor`, then a match at `ip`. */
  method EncodeSequenceHc(inp: Input, dst: array<byte>, d0: nat, token: nat, anchor: nat, ip: nat, len: nat, off: nat,
      olimit: nat, limited: bool, ghost p: Parse) returns (ok: bool, op: nat, ghost q: Parse)
    requires inp.Valid() && token <= olimit <= dst.Length && Written(inp, dst, d0, token, anchor, p) && anchor <= ip
      && Usable(inp, ip, off, len)
    requires !limited ==> olimit == d0 + CompressBound(|inp.src|)
    modifies dst
    ensures forall k :: 0 <= k < dst.Length && !(d0 <= k < olimit) ==> dst[k] == old(dst[k])
    ensures !ok ==> limited
    ensures ok ==> op <= olimit && Written(inp, dst, d0, op, ip + len, q)
  {
    hide Genuine, EncodeParse, LengthTail, MatchAt;
    q := p;
    ghost var was := dst[..];
    WrittenSize(inp, dst, d0, token, anchor, p);
    if !limited {
      RoomForLiterals(d0, token, anchor, ip, |inp.src|);
    }
    ok, op := WriteLiterals(dst, token, inp.src, anchor, ip - anchor, olimit, limited);
    if ok {
      WrittenKept(inp, dst, d0, token, anchor, p, was);
      ok, op, q := EncodeMatchHc(inp, dst, d0, token, op, anchor, ip, len, off, olimit, limited, p);
    }
  }

  method EncodeMatchHc(inp: Input, dst: array<byte>, d0: nat, token: nat, op0: nat, anchor: nat, ip: nat, len: nat,
      off: nat, olimit: nat, limited: bool, ghost p: Parse) returns (ok: bool, op: nat, ghost q: Parse)
    requires inp.Valid() && op0 + 2 <= olimit <= dst.Length && Usable(inp, ip, off, len)
    requires LiteralsWritten(inp, dst, d0, token, op0, anchor, ip, p)
    requires !limited ==> olimit == d0 + CompressBound(|inp.src|)
    modifies dst
    ensures forall k :: 0 <= k < dst.Length && !(d0 <= k < olimit) ==> dst[k] == old(dst[k])
    ensures !ok ==> limited
    ensures ok ==> op <= olimit && Written(inp, dst, d0, op, ip + len, q)
  {
    hide Genuine, EncodeParse, RealMatch, LengthTail;
    q := p;
    ghost var was := dst[..];
    LiteralsWrittenSize(inp, dst, d0, token, op0, anchor, ip, p);
    WriteOffset(dst, op0, off);
    if !limited {
      RoomForMatch(d0, op0, ip, len - MINMATCH, |inp.src|);
    }
    ok, op := WriteMatchLengthHc(dst, op0 + 2, token, len - MINMATCH, olimit, limited);
    if ok {
      assert dst[token + 1..op0] == was[token + 1..op0];
      WrittenKept(inp, dst, d0, token, anchor, p, was);
      var s := Sequence(ip - anchor, off, len);
      SequenceComplete(inp, dst, d0, token, op0, op, anchor, ip, s, p);
      q := p + [s];
    }
  }

  /** Encode all recorded sequences in order: literals are passed over until a match takes them along. */
  method EmitPath(inp: Input, dst: array<byte>, d0: nat, op0: nat, anchor0: nat, ip: nat, opt: array<Cell>, c: Choice,
      olimit: nat, limited: bool, ghost p0: Parse) returns (ok: bool, op: nat, anchor: nat, ghost p: Parse)
    requires inp.Valid() && op0 <= olimit <= dst.Length && Written(inp, dst, d0, op0, anchor0, p0) && anchor0 <= ip
    requires Path(inp, ip, opt[..], 0, c.cur) && c.cur < opt.Length && opt[c.cur].mlen == c.mlen > 0
      && opt[c.cur].off == c.off
    requires StepOk(inp, ip + c.cur, c.off, c.mlen) && c.cur < c.last <= c.cur + c.mlen
      && ip + c.cur + c.mlen + LASTLITERALS <= |inp.src|
    requires !limited ==> olimit == d0 + CompressBound(|inp.src|)
    modifies dst
    ensures forall k :: 0 <= k < dst.Length && !(d0 <= k < olimit) ==> dst[k] == old(dst[k])
    ensures !ok ==> limited
    ensures ok ==> op <= olimit && anchor <= ip + c.cur + c.mlen && Written(inp, dst, d0, op, anchor, p)
  {
    hide Genuine, EncodeParse, Written, Usable;
    ok, op, anchor, p := true, op0, anchor0, p0;
    var rPos: nat := 0;
    ghost var cells := opt[..];
    while rPos < c.last
      invariant op <= olimit && anchor <= ip + rPos && Written(inp, dst, d0, op, anchor, p)
      invariant forall k :: 0 <= k < dst.Length && !(d0 <= k < olimit) ==> dst[k] == old(dst[k])
      invariant if rPos <= c.cur then Path(inp, ip, cells, rPos, c.cur) else rPos == c.cur + c.mlen
      decreases c.last - rPos
    {
      var mlen, off := opt[rPos].mlen, opt[rPos].off;
      assert StepOk(inp, ip + rPos, off, mlen) && mlen > 0;
      if mlen != 1 {
        ok, op, p := EncodeSequenceHc(inp, dst, d0, op, anchor, ip + rPos, mlen, off, olimit, limited, p);
        if !ok {
          return;
        }
        anchor := ip + rPos + mlen;
      }
      rPos := rPos + mlen;
    }
  }

  /** The segment that starts with a match too short to be taken at once: fill, explore, reverse, emit. */
  method CompressSegment(inp: Input, index: Index, opt: array<Cell>, dst: array<byte>, d0: nat, op0: nat,
      anchor0: nat, ip: nat, len: nat, off: nat, nbSearches: nat, sufficient: nat, fullUpdate: bool,
      favorDecSpeed: bool, olimit: nat, limited: bool, ghost p0: Parse)
      returns (ok: bool, op: nat, anchor: nat, end: nat, ghost p: Parse)
    requires OneSegment(inp) && index.Holds(inp) && index.nextToUpdate == inp.startIndex + ip && Table(opt)
    requires op0 <= olimit <= dst.Length && Written(inp, dst, d0, op0, anchor0, p0) && anchor0 <= ip
    requires len < OPT_NUM && Usable(inp, ip, off, len)
    requires !limited ==> olimit == d0 + CompressBound(|inp.src|)
    modifies index, index.hashTable, index.chainTable, opt, dst
    ensures index.Holds(inp) && index.nextToUpdate <= inp.startIndex + end
    ensures forall k :: 0 <= k < dst.Length && !(d0 <= k < olimit) ==> dst[k] == old(dst[k])
    ensures !ok ==> limited
    ensures ok ==>
      && op <= olimit && anchor <= end && ip < end && end + LASTLITERALS <= |inp.src|
      && Written(inp, dst, d0, op, anchor, p)
  {
    hide Genuine, EncodeParse, Usable, Filled, Path, StepOk;
    MatchFits(inp, ip, off, len);
    FillFirst(inp, ip, opt, ip - anchor0, len, off);
    var c := Explore(inp, index, ip, opt, len, nbSearches, sufficient, fullUpdate, favorDecSpeed);
    Reverse(inp, ip, opt, c);
    ok, op, anchor, p := EmitPath(inp, dst, d0, op0, anchor0, ip, opt, c, olimit, limited, p0);
    end := ip + c.cur + c.mlen;
  }

  /** The main loop of LZ4HC_compress_optimal. */
  method OptimalLoop(inp: Input, index: Index, dst: array<byte>, d0: nat, nbSearches: nat, sufficient: nat,
      fullUpdate: bool, favorDecSpeed: bool, olimit: nat, limited: bool) returns (ok: bool, op: nat, anchor: nat,
      ghost p: Parse)
    requires OneSegment(inp) && index.Holds(inp) && index.nextToUpdate <= inp.startIndex && sufficient < OPT_NUM
    requires d0 <= olimit <= dst.Length
    requires !limited ==> olimit == d0 + CompressBound(|inp.src|)
    modifies index, index.hashTable, index.chainTable, dst
    ensures index.Holds(inp)
    ensures forall k :: 0 <= k < dst.Length && !(d0 <= k < olimit) ==> dst[k] == old(dst[k])
    ensures !ok ==> limited
    ensures ok ==> op <= olimit && Written(inp, dst, d0, op, anchor, p)
  {
    assert inp.Valid();
    hide Genuine, EncodeParse, Written, OneSegment, MatchAt, Input.Valid;
    var opt := new Cell[OPT_NUM + TRAILING_LITERALS](_ => Cell(0, 0, 0, 0));
    NothingWritten(inp, dst, d0);
    ok, op, anchor, p := true, d0, 0, [];
    var ip := 0;
    while ip + MFLIMIT <= |inp.src|
      invariant op <= olimit && anchor <= ip && Written(inp, dst, d0, op, anchor, p)
      invariant index.Holds(inp) && index.nextToUpdate <= inp.startIndex + ip
      invariant forall k :: 0 <= k < dst.Length && !(d0 <= k < olimit) ==> dst[k] == old(dst[k])
      decreases |inp.src| - ip
    {
      var len, off := FindLonger(inp, index, ip, MINMATCH - 1, nbSearches, favorDecSpeed);
      if len == 0 {
        ip := ip + 1;
        continue;
      }
      if len > sufficient {
        ok, op, p := EncodeSequenceHc(inp, dst, d0, op, anchor, ip, len, off, olimit, limited, p);
        ip := ip + len;
        anchor := ip;
      } else {
        ok, op, anchor, ip, p := CompressSegment(inp, index, opt, dst, d0, op, anchor, ip, len, off, nbSearches,
          sufficient, fullUpdate, favorDecSpeed,
                                                 olimit, limited, p);
      }
      if !ok {
        return;
      }
    }
  }

  /**
    LZ4HC_compress_optimal without fillOutput. A positive result is the size of a conforming block
    that decodes, after the history, to the input; zero is returned only when the output is limited.
   */
  method CompressOptimal(inp: Input, index: Index, dst: array<byte>, d0: nat, nbSearches: nat, sufficientLen: nat,
      fullUpdate: bool, favorDecSpeed: bool, olimit: nat, limited: bool) returns (r: nat)
    requires |inp.src| <= MAX_INPUT_SIZE && d0 <= olimit <= dst.Length
    requires |inp.src| >= MFLIMIT ==> OneSegment(inp) && index.Holds(inp) && index.nextToUpdate <= inp.startIndex
    requires !limited ==> olimit == d0 + CompressBound(|inp.src|)
    modifies index, index.hashTable, index.chainTable, dst
    ensures forall k :: 0 <= k < dst.Length && !(d0 <= k < olimit) ==> dst[k] == old(dst[k])
    ensures if |inp.src| >= MFLIMIT then index.Holds(inp) else unchanged(index.hashTable)
    ensures r == 0 ==> limited
    ensures d0 + r <= olimit && r <= |inp.src| + |inp.src| / 255 + 2
    ensures r > 0 ==>
      Decode(dst[d0..d0 + r], inp.dict, true) == Some(inp.W()) && Conforms(dst[d0..d0 + r], |inp.dict|, |inp.src|)
  {
    hide Genuine, EncodeParse, RealMatch, ConformsSeq, DecodeSeq, OneSegment;
    var n, op, anchor, ok := |inp.src|, d0, 0, true;
    ghost var p: Parse := [];
    var sufficient := if sufficientLen >= OPT_NUM then OPT_NUM - 1 else sufficientLen;
    NothingWritten(inp, dst, d0);
    if n >= MFLIMIT {
      ok, op, anchor, p := OptimalLoop(inp, index, dst, d0, nbSearches, sufficient, fullUpdate, favorDecSpeed, olimit,
        limited);
    }
    if !ok {
      return 0;
    }
    ghost var was := dst[..];
    WrittenSize(inp, dst, d0, op, anchor, p);
    if !limited {
      RoomForLast(d0, op, anchor, n);
    }
    var end;
    ok, end := WriteLastLiterals(dst, op, inp.src, anchor, olimit, limited);
    if !ok {
      return 0;
    }
    WrittenKept(inp, dst, d0, op, anchor, p, was);
    BlockComplete(inp, dst, d0, op, end, anchor, p);
    r := end - d0;
  }
}
