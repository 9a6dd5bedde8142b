/**
  The history of the frame decoder: the bytes that the next linked block may refer to, which lie
  in the caller's buffer, in the decoder's own buffer, or in a dictionary given from outside, and
  which LZ4F_updateDict and the end of every call move about.
 */
module FrameHistory {
  import opened Bytes
  import opened BlockFormat
  import opened BlockDecoder
  import opened Memory
  import opened Lz4Stream

  const WINDOW := 0x1_0000

  /** Where `dict` points: nowhere, into the caller's buffer, at the start of tmpOutBuffer, or at a given dictionary. */
  datatype Place = Nowhere | InDst(at: nat) | InTmp | Outside(bytes: seq<byte>)

  /** For a block, `h` is as good a history as `d`: all of it, or at least its last 64 KB. */
  predicate Window(h: seq<byte>, d: seq<byte>) {
    if |d| < WINDOW then h == d
    else |h| >= WINDOW && h[|h| - WINDOW..] == d[|d| - WINDOW..]
  }

  lemma WindowExtend(h: seq<byte>, d: seq<byte>, x: seq<byte>)
    requires Window(h, d)
    ensures Window(h + x, d + x)
  {
    if |d| >= WINDOW {
      assert (h + x)[|h + x| - WINDOW..] == (h[|h| - WINDOW..] + x)[|x|..];
      assert (d + x)[|d + x| - WINDOW..] == (d[|d| - WINDOW..] + x)[|x|..];
    } else if |d + x| >= WINDOW {
      assert h + x == d + x;
    }
  }

  /** Cutting a window to any size that still covers 64 KB. */
  lemma WindowCut(h: seq<byte>, d: seq<byte>, k: nat)
    requires Window(h, d) && Min(|h|, WINDOW) <= k <= |h|
    ensures Window(h[|h| - k..], d)
  {
    if |d| < WINDOW {
      assert h[0..] == h;
    } else {
      assert h[|h| - k..][k - WINDOW..] == h[|h| - WINDOW..];
    }
  }

  /** A long enough end of the history is a window. */
  lemma LongEnd(e: seq<byte>, d: seq<byte>)
    requires EndOfHistory(e, d) && |e| >= Min(|d|, WINDOW)
    ensures Window(e, d)
  {
    if |d| < WINDOW {
      assert d[0..] == d;
    } else {
      assert d[|d| - |e|..][|e| - WINDOW..] == d[|d| - WINDOW..];
    }
  }

  lemma WindowIsItself(d: seq<byte>)
    ensures Window(d, d)
  {
  }

  /** Part of what a window shows, as an end of the history. */
  lemma WindowEnd(h: seq<byte>, d: seq<byte>, k: nat)
    requires Window(h, d) && k <= |d| && k <= WINDOW
    ensures k <= |h| && h[|h| - k..] == d[|d| - k..]
  {
    if |d| >= WINDOW {
      assert h[|h| - k..] == h[|h| - WINDOW..][WINDOW - k..];
      assert d[|d| - k..] == d[|d| - WINDOW..][WINDOW - k..];
    }
  }

  /** A window stays one when more precedes it. */
  lemma WindowPad(a: seq<byte>, e: seq<byte>, d: seq<byte>)
    requires Window(e, d) && |d| >= WINDOW
    ensures Window(a + e, d)
  {
    assert (a + e)[|a + e| - WINDOW..] == e[|e| - WINDOW..];
  }

  /** The end of a window followed by new bytes, cut to 64 KB in all. */
  lemma WindowJoin(h: seq<byte>, d: seq<byte>, p: nat, x: seq<byte>)
    requires Window(h, d) && |x| < WINDOW && p == Min(WINDOW - |x|, |h|)
    ensures Window(h[|h| - p..] + x, d + x)
  {
    WindowEnd(h, d, p);
    var e := h[|h| - p..] + x;
    assert (d + x)[|d + x| - |e|..] == d[|d| - p..] + x;
    LongEnd(e, d + x);
  }

  /**
    Whether `tmp`, which ends with the block of `size` bytes behind position `at`, can hold enough
    of what precedes it.
   */
  predicate Room(at: nat, size: nat, all: seq<byte>) {
    size <= |all| && (at == 0 ==> size == |all|) && if |all| < WINDOW then at + size == |all| else at + size >= WINDOW
  }

  /** The last `size` bytes of `all` lie at `at` of `tmp`; `start` of them have been handed over. */
  ghost predicate Held(tmp: seq<byte>, at: nat, size: nat, start: nat, all: seq<byte>) {
    at + size <= |tmp| && start <= size && Room(at, size, all) && tmp[at..at + size] == all[|all| - size..]
  }

  /** How many bytes to copy in front of tmpOut. */
  function CopySize(at: nat, size: nat): nat {
    if size > WINDOW then 0 else Min(WINDOW - size, at)
  }

  /** CopySize stays within the room and within what precedes the block. */
  lemma CopyFits(at: nat, size: nat, start: nat, all: seq<byte>)
    requires Room(at, size, all) && start <= size
    ensures var c := CopySize(at, size);
      c <= at && c + size <= |all| && (c > 0 ==> c + start <= |all| - size + start && c + start <= 0x1_0000)
    ensures WINDOW == 0x1_0000
  {
  }

  /** The bytes to copy are there, and they are the ones that precede the block. */
  lemma CopyAvailable(at: nat, size: nat, start: nat, all: seq<byte>, h: seq<byte>)
    requires start <= size <= |all| && Room(at, size, all) && Window(h, all[..|all| - size + start])
    requires CopySize(at, size) > 0
    ensures var c := CopySize(at, size);
      c + start <= |h| && c + size <= |all| && h[|h| - start - c..|h| - start] == all[|all| - size - c..|all| - size]
  {
    hide *;
    var c, sent := CopySize(at, size), all[..|all| - size + start];
    CopyFits(at, size, start, all);
    WindowEnd(h, sent, c + start);
    SameEnd(h, sent, c + start, start);
    SliceOfPrefix(all, |all| - size + start, |all| - size - c, |all| - size);
  }

  /** Once they are copied, the buffer up to the end of the block is a window. */
  lemma CopiedInFront(tmp: seq<byte>, at: nat, size: nat, all: seq<byte>)
    requires at + size <= |tmp| && Room(at, size, all) && CopySize(at, size) + size <= |all|
    requires tmp[at..at + size] == all[|all| - size..]
    requires var c := CopySize(at, size); c <= at && tmp[at - c..at] == all[|all| - size - c..|all| - size]
    ensures Window(tmp[..at + size], all)
  {
    hide Window, Room, CopySize;
    var c := CopySize(at, size);
    Cut(tmp, at - c, at, at + size);
    Cut(all, |all| - size - c, |all| - size, |all|);
    EndOfBlock(tmp[at - c..at + size], c, at, size, all);
    Cut(tmp, 0, at - c, at + size);
    if |all| >= WINDOW {
      WindowPad(tmp[..at - c], tmp[at - c..at + size], all);
    }
  }

  lemma HeldSize(tmp: seq<byte>, at: nat, size: nat, start: nat, all: seq<byte>)
    requires Held(tmp, at, size, start, all)
    ensures start <= size <= |all| && at + size <= |tmp| && Room(at, size, all) && CopySize(at, size) <= at
  {
  }

  /** Copying CopySize bytes of the history in front of the block. */
  lemma Prepended(was: seq<byte>, now: seq<byte>, at: nat, size: nat, start: nat, all: seq<byte>, h: seq<byte>, to: nat,
      from: nat)
    requires start <= size <= |all| && at <= |was| == |now|
    requires Held(was, at, size, start, all) && Window(h, all[..|all| - size + start])
    requires to + CopySize(at, size) == at && from + CopySize(at, size) + start == |h|
    requires now[to..to + CopySize(at, size)] == h[from..from + CopySize(at, size)]
    requires now[to + CopySize(at, size)..] == was[to + CopySize(at, size)..]
    ensures Held(now, at, size, start, all) && Window(now[..at + size], all)
  {
    hide Window, Room, CopySize;
    CopyFits(at, size, start, all);
    if CopySize(at, size) > 0 {
      CopyAvailable(at, size, start, all, h);
    }
    SliceOfSuffix(was, at, at + size);
    SliceOfSuffix(now, at, at + size);
    CopiedInFront(now, at, size, all);
  }

  /** Nothing to copy. */
  lemma LongBlock(tmp: seq<byte>, at: nat, size: nat, start: nat, all: seq<byte>)
    requires Held(tmp, at, size, start, all) && CopySize(at, size) == 0
    ensures at + size <= |tmp| && Window(tmp[..at + size], all)
  {
    hide Window, Room, CopySize;
    CopyFits(at, size, start, all);
    CopiedInFront(tmp, at, size, all);
  }

  lemma EndOfBlock(e: seq<byte>, c: nat, at: nat, size: nat, all: seq<byte>)
    requires Room(at, size, all) && c == CopySize(at, size) && |e| == c + size <= |all|
    requires e == all[|all| - size - c..]
    ensures Window(e, all)
    ensures |all| < WINDOW ==> c == at
  {
    LongEnd(e, all);
  }

  /** Prefix mode: the window grows at its end. */
  lemma PrefixGrows(mem: seq<byte>, at: nat, op: nat, n: nat, sent: seq<byte>)
    requires at <= op && op + n <= |mem| && Window(mem[at..op], sent)
    ensures Window(mem[at..op + n], sent + mem[op..op + n])
  {
    WindowExtend(mem[at..op], sent, mem[op..op + n]);
    Cut(mem, at, op, op + n);
  }

  /** 64 KB handed over in one call are a window by themselves. */
  lemma BufferSuffices(mem: seq<byte>, d0: nat, op: nat, n: nat, sent: seq<byte>)
    requires d0 <= op && op + n <= |mem| && EndOfHistory(mem[d0..op], sent) && op - d0 + n >= WINDOW
    ensures Window(mem[d0..op + n], sent + mem[op..op + n])
  {
    var e, x := mem[d0..op], mem[op..op + n];
    Cut(mem, d0, op, op + n);
    assert (sent + x)[|sent| - |e|..] == sent[|sent| - |e|..] + x;
    LongEnd(e + x, sent + x);
  }

  /** A block decodes behind the whole history as it does behind a window on it. */
  lemma WindowDecodes(block: seq<byte>, h: seq<byte>, d: seq<byte>, content: seq<byte>)
    requires Window(h, d) && Decode(block, h, false) == Some(h + content)
    ensures Decode(block, d, false) == Some(d + content)
  {
    hide Decode;
    if |d| >= WINDOW {
      WindowEnd(h, d, DISTANCE_MAX);
      SameWindow(block, d, h, content);
    }
  }

  lemma WindowConforms(block: seq<byte>, h: seq<byte>, d: seq<byte>, n: nat)
    requires Window(h, d) && Conforms(block, |d|, n)
    ensures Conforms(block, |h|, n)
  {
    hide ConformsSeq;
    if |d| >= WINDOW {
      ConformsWithHistory(block, 0, |d|, |h|, n);
    }
  }

  /** The block at `at` of `buf`, with a history that is either in front of it or elsewhere. */
  method DecodeWithDict(payload: seq<byte>, buf: array<byte>, at: nat, capacity: nat, prefix: bool, dict: seq<byte>,
                        fastLoop: bool, ghost sent: seq<byte>, ghost contentSize: nat) returns (r: int)
    requires |payload| < 0x8000_0000 && at + capacity <= buf.Length
    requires prefix ==> |dict| <= at && dict == buf[at - |dict|..at]
    requires Window(dict, sent)
    modifies buf
    ensures OnlyChanges(buf, at, at + capacity) && r <= capacity
    ensures r >= 0 ==> Decode(payload, sent, false) == Some(sent + buf[at..at + r])
    ensures contentSize < 0x1_0000_0000 && Conforms(payload, |sent|, contentSize) && contentSize <= capacity ==>
      r == contentSize
  {
    hide Window, Decode, Conforms;
    var h := dict;
    if |h| > 0x4000_0000 {
      WindowCut(h, sent, WINDOW);
      h := h[|h| - WINDOW..];
    }
    r := DecompressSafeUsingDict(payload, buf, at, capacity, prefix, |h|, h, fastLoop, h, contentSize);
    if r >= 0 {
      WindowDecodes(payload, h, sent, buf[at..at + r]);
    }
    if Conforms(payload, |sent|, contentSize) {
      WindowConforms(payload, h, sent, contentSize);
    }
  }

  /** What the history is needed for. */
  datatype Use = Unused | Initial | Live | Flush

  class History {
    var tmpOutBuffer: array<byte>
    var dict: Place
    var dictSize: nat
    var tmpOut: nat
    var tmpOutSize: nat
    var tmpOutStart: nat

    constructor ()
      ensures fresh(tmpOutBuffer) && tmpOutBuffer.Length == 0
      ensures dict == Nowhere && dictSize == 0 && tmpOut == tmpOutSize == tmpOutStart == 0
    {
      tmpOutBuffer := new byte[0];
      dict, dictSize, tmpOut, tmpOutSize, tmpOutStart := Nowhere, 0, 0, 0, 0;
    }

    /** At the start of a frame: the buffer is replaced if it is too small, and nothing waits in it. */
    method Prepare(bufferNeeded: nat, ghost linked: bool, ghost base: seq<byte>, ghost dst: array<byte>, ghost op: nat)
      requires Serves(Initial, linked, base, [], dst, op) && op <= dst.Length
      modifies this
      ensures tmpOutBuffer == old(tmpOutBuffer) || fresh(tmpOutBuffer)
      ensures tmpOutBuffer.Length == Max(bufferNeeded, old(tmpOutBuffer.Length))
      ensures Serves(Live, linked, base, [], dst, op)
    {
      if bufferNeeded > tmpOutBuffer.Length {
        tmpOutBuffer := new byte[bufferNeeded];
      }
      tmpOut, tmpOutSize, tmpOutStart := 0, 0, 0;
      WindowIsItself(base);
      assert base + [] == base;
    }

    /** A dictionary in the caller's buffer ends where the next byte goes. */
    predicate DictOk(dst: array<byte>, op: nat)
      reads this
    {
      && op <= dst.Length
      && match dict
         case Nowhere => dictSize == 0
         case InDst(at) => at + dictSize == op
         case InTmp => dictSize <= tmpOutBuffer.Length
         case Outside(bytes) => dictSize == |bytes|
    }

    /** The bytes addressed by `dict` and `dictSize`. */
    function DictBytes(dst: array<byte>, op: nat): (h: seq<byte>)
      requires DictOk(dst, op)
      reads this, dst, tmpOutBuffer
      ensures |h| == dictSize
    {
      match dict
      case Nowhere => []
      case InDst(at) => dst[at..op]
      case InTmp => tmpOutBuffer[..dictSize]
      case Outside(bytes) => bytes
    }

    /** The dictionary, if any, is one given from outside. */
    predicate Fixed()
      reads this
    {
      match dict
      case Nowhere => dictSize == 0
      case Outside(bytes) => dictSize == |bytes|
      case _ => false
    }

    function Given(): seq<byte>
      requires Fixed()
      reads this
    {
      match dict
      case Nowhere => []
      case Outside(bytes) => bytes
    }

    /** Without the caller's buffer, there is a window on `sent`. */
    ghost predicate Keeps(sent: seq<byte>)
      reads this, tmpOutBuffer
    {
      if dict == InTmp then dictSize <= tmpOutBuffer.Length && Window(tmpOutBuffer[..dictSize], sent)
      else Fixed() && Window(Given(), sent)
    }

    /** tmpOut holds the last block of `all`. */
    ghost predicate HoldsBlock(all: seq<byte>)
      reads `tmpOut, `tmpOutSize, `tmpOutStart, `tmpOutBuffer, tmpOutBuffer
    {
      Held(tmpOutBuffer[..], tmpOut, tmpOutSize, tmpOutStart, all)
    }

    /** The part of `all` that has been handed over. */
    ghost function Sent(all: seq<byte>): seq<byte>
      requires tmpOutStart <= tmpOutSize <= |all|
      reads `tmpOutSize, `tmpOutStart
    {
      all[..|all| - tmpOutSize + tmpOutStart]
    }

    /** LZ4F_updateDict and the end of a call share this: the end of the history `h` is copied in front of the block in
        tmpOut. */
    method CopyInFront(h: seq<byte>, ghost all: seq<byte>)
      requires HoldsBlock(all) && Window(h, Sent(all))
      modifies tmpOutBuffer
      ensures HoldsBlock(all) && Window(tmpOutBuffer[..tmpOut + tmpOutSize], all)
    {
      hide Window, CopySize, Held;
      ghost var was := tmpOutBuffer[..];
      var copySize := CopySize(tmpOut, tmpOutSize);
      HeldSize(was, tmpOut, tmpOutSize, tmpOutStart, all);
      if copySize == 0 {
        LongBlock(was, tmpOut, tmpOutSize, tmpOutStart, all);
      } else {
        assert copySize + tmpOutStart <= |h| by {
          CopyAvailable(tmpOut, tmpOutSize, tmpOutStart, all, h);
        }
        var to, from := tmpOut - copySize, |h| - tmpOutStart - copySize;
        CopySlice(tmpOutBuffer, to, h, from, copySize);
        ghost var now := tmpOutBuffer[..];
        assert Held(now, tmpOut, tmpOutSize, tmpOutStart, all) && Window(now[..tmpOut + tmpOutSize], all) by {
          Prepended(was, now, tmpOut, tmpOutSize, tmpOutStart, all, h, to, from);
        }
      }
    }

    /** Moves the last `k` bytes of the dictionary in tmpOutBuffer to its start. */
    method KeepEnd(k: nat)
      requires dict == InTmp && 2 * k <= dictSize <= tmpOutBuffer.Length
      modifies this`dictSize, tmpOutBuffer
      ensures dictSize == k && tmpOutBuffer[..k] == old(tmpOutBuffer[dictSize - k..dictSize])
    {
      CopyWithin(tmpOutBuffer, 0, dictSize - k, k);
      dictSize := k;
    }

    /** The dictionary is in tmpOutBuffer: append to it, cutting it to 64 KB first when there is no room. */
    method AppendToTmp(dst: array<byte>, op: nat, n: nat, ghost sent: seq<byte>)
      requires dst != tmpOutBuffer && op + n <= dst.Length && n < WINDOW && 3 * WINDOW <= tmpOutBuffer.Length
      requires dict == InTmp && dictSize <= tmpOutBuffer.Length && Window(tmpOutBuffer[..dictSize], sent)
      modifies this`dictSize, tmpOutBuffer
      ensures dictSize <= tmpOutBuffer.Length && Window(tmpOutBuffer[..dictSize], sent + dst[op..op + n])
    {
      hide Window;
      ghost var h, x := tmpOutBuffer[..dictSize], dst[op..op + n];
      if dictSize + n > tmpOutBuffer.Length {
        var preserveSize := WINDOW - n;
        WindowJoin(h, sent, preserveSize, x);
        KeepEnd(preserveSize);
        assert tmpOutBuffer[..dictSize] == h[|h| - preserveSize..];
      } else {
        WindowExtend(h, sent, x);
      }
      h := tmpOutBuffer[..dictSize];
      CopySlice(tmpOutBuffer, dictSize, dst[..], op, n);
      dictSize := dictSize + n;
      Cut(tmpOutBuffer[..], 0, dictSize - n, dictSize);
    }

    /** The dictionary is elsewhere: its end and the new bytes are joined at the start of tmpOutBuffer. */
    method JoinIntoTmp(dst: array<byte>, op: nat, n: nat, h: seq<byte>, ghost sent: seq<byte>)
      requires dst != tmpOutBuffer && op + n <= dst.Length && n < WINDOW && 3 * WINDOW <= tmpOutBuffer.Length
      requires Window(h, sent)
      modifies this`dict, this`dictSize, tmpOutBuffer
      ensures dict == InTmp && dictSize <= tmpOutBuffer.Length
        && Window(tmpOutBuffer[..dictSize], sent + dst[op..op + n])
    {
      hide Window;
      var preserveSize := Min(WINDOW - n, |h|);
      ghost var x := dst[op..op + n];
      assert Window(h[|h| - preserveSize..] + x, sent + x) by {
        WindowJoin(h, sent, preserveSize, x);
      }
      CopySlice(tmpOutBuffer, 0, h, |h| - preserveSize, preserveSize);
      CopySlice(tmpOutBuffer, preserveSize, dst[..], op, n);
      dict, dictSize := InTmp, preserveSize + n;
      Cut(tmpOutBuffer[..], 0, preserveSize, dictSize);
      assert h[|h| - preserveSize..|h|] == h[|h| - preserveSize..];
    }

    /** What LZ4F_updateDict may rely on and what it keeps while tmpOut is being flushed. */
    ghost predicate Flushing(dst: array<byte>, op: nat, all: seq<byte>)
      reads this, dst, tmpOutBuffer
    {
      && HoldsBlock(all) && DictOk(dst, op)
      && if dict == InTmp then dictSize == tmpOut + tmpOutStart && Window(tmpOutBuffer[..tmpOut + tmpOutSize], all)
         else (dict.InDst? || tmpOutStart == 0) && Window(DictBytes(dst, op), Sent(all))
    }

    /**
      The history while a frame with dictionary `base` and content `out` is decoded, the next output
      going to `op` of `dst`: before the first block, between blocks, or while a block is flushed.
     */
    ghost predicate Serves(use: Use, linked: bool, base: seq<byte>, out: seq<byte>, dst: array<byte>, op: nat)
      reads this, tmpOutBuffer, dst
    {
      match use
      case Unused => true
      case Initial => Fixed() && Given() == base
      case Live =>
        if linked then DictOk(dst, op) && Window(DictBytes(dst, op), base + out)
        else Fixed() && Window(Given(), base) && tmpOut == 0
      case Flush =>
        && tmpOutSize <= |out|
        && if linked then Flushing(dst, op, base + out)
           else Fixed() && Window(Given(), base) && tmpOut == 0 && HoldsBlock(out[|out| - tmpOutSize..])
    }

    /** The same between two calls, when nothing may lie in the caller's buffer. */
    ghost predicate Rests(use: Use, linked: bool, base: seq<byte>, out: seq<byte>)
      reads this, tmpOutBuffer
    {
      match use
      case Unused => true
      case Initial => Fixed() && Given() == base
      case Live =>
        if linked then Keeps(base + out) else Fixed() && Window(Given(), base) && tmpOut == 0
      case Flush =>
        && tmpOutSize <= |out|
        && if linked then
             && dict == InTmp && dictSize == tmpOut + tmpOutStart
             && HoldsBlock(base + out) && Window(tmpOutBuffer[..tmpOut + tmpOutSize], base + out)
           else Fixed() && Window(Given(), base) && tmpOut == 0 && HoldsBlock(out[|out| - tmpOutSize..])
    }

    lemma FlushSizes(linked: bool, base: seq<byte>, out: seq<byte>, dst: array<byte>, op: nat)
      requires Serves(Flush, linked, base, out, dst, op)
      ensures tmpOutStart <= tmpOutSize <= |out|
    {
      hide Window, Room;
    }

    /** Before a frame begins, only the dictionary given matters. */
    lemma OnlyGiven(linked: bool, base: seq<byte>, out: seq<byte>, dst: array<byte>, op: nat, linked': bool,
        out': seq<byte>)
      requires Serves(Initial, linked, base, out, dst, op)
      ensures Serves(Initial, linked', base, out', dst, op)
    {
    }

    lemma NoMoreNeeded(linked: bool, base: seq<byte>, out: seq<byte>, dst: array<byte>, op: nat)
      ensures Serves(Unused, linked, base, out, dst, op)
    {
    }

    /** Nothing has to be saved when no block is being read or written. */
    lemma NothingToKeep(use: Use, linked: bool, base: seq<byte>, out: seq<byte>, dst: array<byte>, op: nat)
      requires Serves(use, linked, base, out, dst, op) && (use == Initial || use == Unused)
      ensures Rests(use, linked, base, out)
    {
    }

    /** A new call starts: the history at rest serves any buffer. */
    lemma Enter(use: Use, linked: bool, base: seq<byte>, out: seq<byte>, dst: array<byte>, op: nat)
      requires Rests(use, linked, base, out) && op <= dst.Length
      ensures Serves(use, linked, base, out, dst, op)
    {
      hide Window, Room;
    }

    /**
      LZ4F_updateDict: `n` bytes have been written at `op` of the caller's buffer, whose bytes from
      `d0` to `op` were handed over in this call; `sent` is the history up to then. When the bytes
      come from tmpOut (`withinTmp`), `all` is the history with the whole block.
     */
    method UpdateDict(dst: array<byte>, d0: nat, op: nat, n: nat, withinTmp: bool, ghost sent: seq<byte>,
        ghost all: seq<byte>)
      requires dst != tmpOutBuffer && d0 <= op && op + n <= dst.Length && 3 * WINDOW <= tmpOutBuffer.Length
      requires DictOk(dst, op) && EndOfHistory(dst[d0..op], sent)
      requires if withinTmp then Flushing(dst, op, all) && sent == Sent(all) && n <= tmpOutSize - tmpOutStart
               else Window(DictBytes(dst, op), sent)
      modifies this`dict, this`dictSize, tmpOutBuffer
      ensures DictOk(dst, op + n)
      ensures !withinTmp ==> Window(DictBytes(dst, op + n), sent + dst[op..op + n])
      ensures withinTmp ==>
        && HoldsBlock(all)
        && if dict == InTmp then dictSize == tmpOut + tmpOutStart + n
          && Window(tmpOutBuffer[..tmpOut + tmpOutSize], all)
           else dict.InDst? && Window(DictBytes(dst, op + n), sent + dst[op..op + n])
    {
      hide Window, Held, Sent, EndOfHistory, HoldsBlock;
      ghost var mem := dst[..];
      if dictSize == 0 {
        NoHistory(dst, op, withinTmp, sent, all);
        dict := InDst(op);
      }
      if dict.InDst? && dict.at + dictSize == op {
        assert Window(mem[dict.at..op + n], sent + mem[op..op + n]) by {
          PrefixGrows(mem, dict.at, op, n, sent);
        }
        dictSize := dictSize + n;
      } else if op - d0 + n >= WINDOW {
        assert Window(mem[d0..op + n], sent + mem[op..op + n]) by {
          BufferSuffices(mem, d0, op, n, sent);
        }
        dict, dictSize := InDst(d0), op - d0 + n;
      } else if withinTmp {
        MoveIntoTmp(dst, op, n, all);
      } else if dict == InTmp {
        AppendToTmp(dst, op, n, sent);
      } else {
        JoinIntoTmp(dst, op, n, DictBytes(dst, op), sent);
      }
    }

    /** While tmpOut is flushed, its block stays where it is and the history is or comes in front of it. */
    method MoveIntoTmp(dst: array<byte>, op: nat, n: nat, ghost all: seq<byte>)
      requires dst != tmpOutBuffer && op + n <= dst.Length && Flushing(dst, op, all) && n <= tmpOutSize - tmpOutStart
      modifies this`dict, this`dictSize, tmpOutBuffer
      ensures DictOk(dst, op + n) && dict == InTmp
      ensures HoldsBlock(all) && dictSize == tmpOut + tmpOutStart + n
        && Window(tmpOutBuffer[..tmpOut + tmpOutSize], all)
    {
      assert tmpOutStart + n <= tmpOutSize && tmpOut + tmpOutSize <= tmpOutBuffer.Length;
      hide Window, Held, Sent, HoldsBlock;
      if dict == InTmp {
        dictSize := dictSize + n;
      } else {
        CopyInFront(DictBytes(dst, op), all);
        dict, dictSize := InTmp, tmpOut + tmpOutStart + n;
      }
    }

    /** An empty dictionary means that nothing precedes. */
    lemma NoHistory(dst: array<byte>, op: nat, withinTmp: bool, sent: seq<byte>, all: seq<byte>)
      requires DictOk(dst, op) && dictSize == 0
      requires if withinTmp then Flushing(dst, op, all) && sent == Sent(all) else Window(DictBytes(dst, op), sent)
      ensures sent == [] && Window([], sent) && (withinTmp ==> tmpOutStart == 0)
    {
    }

    /** Bytes of a raw block go to the caller's buffer and into the history. */
    method CopyOut(src: seq<byte>, ip: nat, n: nat, dst: array<byte>, d0: nat, op: nat, linked: bool,
        ghost base: seq<byte>, ghost out: seq<byte>)
      requires dst != tmpOutBuffer && d0 <= op && op + n <= dst.Length && ip + n <= |src|
      requires Serves(Live, linked, base, out, dst, op) && (linked ==> 3 * WINDOW <= tmpOutBuffer.Length)
      requires EndOfHistory(dst[d0..op], base + out)
      modifies this`dict, this`dictSize, tmpOutBuffer, dst
      ensures dst[..op] == old(dst[..op]) && dst[op..op + n] == src[ip..ip + n]
      ensures Serves(Live, linked, base, out + src[ip..ip + n], dst, op + n)
    {
      hide Window, EndOfHistory;
      CopySlice(dst, op, src, ip, n);
      SameBefore(old(dst[..]), dst[..], d0, op);
      if linked {
        if dict.InDst? {
          SameBefore(old(dst[..]), dst[..], dict.at, op);
        }
        UpdateDict(dst, d0, op, n, false, base + out, []);
        assert base + out + src[ip..ip + n] == base + (out + src[ip..ip + n]);
      }
    }

    /** Room for the next block in tmpOutBuffer, behind the part of the history that is or will be kept there. */
    method ReserveTmpOut(dst: array<byte>, op: nat, ghost sent: seq<byte>)
      requires dst != tmpOutBuffer && DictOk(dst, op) && Window(DictBytes(dst, op), sent)
      modifies this`dictSize, this`tmpOut, tmpOutBuffer
      ensures DictOk(dst, op) && Window(DictBytes(dst, op), sent)
      ensures tmpOut <= 2 * WINDOW && tmpOut == if dict == InTmp then dictSize else Min(dictSize, WINDOW)
    {
      hide Window;
      if dict == InTmp {
        if dictSize > 2 * WINDOW {
          ghost var h := tmpOutBuffer[..dictSize];
          WindowCut(h, sent, WINDOW);
          KeepEnd(WINDOW);
          assert tmpOutBuffer[..WINDOW] == h[|h| - WINDOW..];
        }
        tmpOut := dictSize;
      } else {
        tmpOut := Min(dictSize, WINDOW);
      }
    }

    /** What a block may refer to. */
    static ghost function Past(linked: bool, base: seq<byte>, out: seq<byte>): seq<byte> {
      if linked then base + out else base
    }

    /** A block is decoded straight into the caller's buffer. */
    method DecodeOut(payload: seq<byte>, dst: array<byte>, d0: nat, op: nat, capacity: nat, linked: bool,
        fastLoop: bool, ghost base: seq<byte>, ghost out: seq<byte>, ghost contentSize: nat) returns (r: int)
      requires |payload| < 0x8000_0000 && dst != tmpOutBuffer && d0 <= op && op + capacity <= dst.Length
      requires Serves(Live, linked, base, out, dst, op) && (linked ==> 3 * WINDOW <= tmpOutBuffer.Length)
      requires EndOfHistory(dst[d0..op], base + out)
      modifies this`dict, this`dictSize, tmpOutBuffer, dst
      ensures r <= capacity && dst[..op] == old(dst[..op])
      ensures r >= 0 ==>
        && Decode(payload, Past(linked, base, out), false) == Some(Past(linked, base, out) + dst[op..op + r])
        && Serves(Live, linked, base, out + dst[op..op + r], dst, op + r)
      ensures contentSize <= capacity && contentSize < 0x1_0000_0000 ==>
        Conforms(payload, |Past(linked, base, out)|, contentSize) ==> r == contentSize
    {
      hide Window, EndOfHistory, Decode, Conforms;
      ghost var sent := Past(linked, base, out);
      var h := DictBytes(dst, op);
      r := DecodeWithDict(payload, dst, op, capacity, dict.InDst?, h, fastLoop, sent, contentSize);
      assert dst[..op] == old(dst[..op]);
      if r >= 0 && linked {
        SameBefore(old(dst[..]), dst[..], d0, op);
        if dict.InDst? {
          SameBefore(old(dst[..]), dst[..], dict.at, op);
        }
        UpdateDict(dst, d0, op, r, false, sent, []);
        assert sent + dst[op..op + r] == base + (out + dst[op..op + r]);
      }
    }

    /** A block is decoded into tmpOut, behind as much of the history as must be kept there. */
    method DecodeIntoTmp(payload: seq<byte>, dst: array<byte>, op: nat, capacity: nat, linked: bool, fastLoop: bool,
                         ghost base: seq<byte>, ghost out: seq<byte>, ghost contentSize: nat) returns (r: int)
      requires |payload| < 0x8000_0000 && dst != tmpOutBuffer && op <= dst.Length
      requires Serves(Live, linked, base, out, dst, op)
      requires tmpOutBuffer.Length >= capacity + if linked then 2 * WINDOW else 0
      modifies this`dictSize, this`tmpOut, this`tmpOutSize, this`tmpOutStart, tmpOutBuffer
      ensures r <= capacity
      ensures r >= 0 ==>
        && tmpOutStart == 0 && tmpOutSize == r && tmpOut + r <= tmpOutBuffer.Length
        && var block := tmpOutBuffer[tmpOut..tmpOut + r];
           && Decode(payload, Past(linked, base, out), false) == Some(Past(linked, base, out) + block)
           && Serves(Flush, linked, base, out + block, dst, op)
      ensures contentSize <= capacity && contentSize < 0x1_0000_0000 ==>
        Conforms(payload, |Past(linked, base, out)|, contentSize) ==> r == contentSize
    {
      hide Window, Room, Decode, Conforms, Serves;
      ghost var sent := Past(linked, base, out);
      OpenLive(linked, base, out, dst, op);
      if linked {
        ReserveTmpOut(dst, op, sent);
      }
      var h := DictBytes(dst, op);
      r := DecodeBehind(payload, h, capacity, fastLoop, sent, contentSize);
      if r >= 0 {
        ghost var block := tmpOutBuffer[tmpOut..tmpOut + r];
        assert Serves(Flush, linked, base, out + block, dst, op) by {
          BlockArrived(linked, base, out, dst, op, h, block);
        }
      }
    }

    lemma OpenLive(linked: bool, base: seq<byte>, out: seq<byte>, dst: array<byte>, op: nat)
      requires Serves(Live, linked, base, out, dst, op) && op <= dst.Length
      ensures DictOk(dst, op) && Window(DictBytes(dst, op), Past(linked, base, out))
      ensures !linked ==> Fixed() && Window(Given(), base) && tmpOut == 0
    {
      hide Window;
    }

    method DecodeBehind(payload: seq<byte>, h: seq<byte>, capacity: nat, fastLoop: bool, ghost sent: seq<byte>,
        ghost contentSize: nat)
        returns (r: int)
      requires |payload| < 0x8000_0000 && tmpOut + capacity <= tmpOutBuffer.Length && Window(h, sent)
      requires dict == InTmp ==> tmpOut == dictSize && h == tmpOutBuffer[..dictSize]
      modifies this`tmpOutSize, this`tmpOutStart, tmpOutBuffer
      ensures r <= capacity && tmpOutBuffer[..tmpOut] == old(tmpOutBuffer[..tmpOut])
      ensures r >= 0 ==> tmpOutStart == 0 && tmpOutSize == r
      ensures r >= 0 ==> Decode(payload, sent, false) == Some(sent + tmpOutBuffer[tmpOut..tmpOut + r])
      ensures contentSize < 0x1_0000_0000 && Conforms(payload, |sent|, contentSize) && contentSize <= capacity ==>
        r == contentSize
    {
      hide Window, Decode, Conforms;
      r := DecodeWithDict(payload, tmpOutBuffer, tmpOut, capacity, dict == InTmp, h, fastLoop, sent, contentSize);
      if r >= 0 {
        tmpOutSize, tmpOutStart := r, 0;
      }
    }

    lemma BlockArrived(linked: bool, base: seq<byte>, out: seq<byte>, dst: array<byte>, op: nat, h: seq<byte>,
        block: seq<byte>)
      requires tmpOutStart == 0 && tmpOutSize == |block| && tmpOut + |block| <= tmpOutBuffer.Length
      requires block == tmpOutBuffer[tmpOut..tmpOut + |block|]
      requires linked ==> DictOk(dst, op) && h == DictBytes(dst, op) && Window(h, base + out)
      requires linked ==> tmpOut == if dict == InTmp then dictSize else Min(dictSize, WINDOW)
      requires !linked ==> Fixed() && Window(Given(), base) && tmpOut == 0
      ensures Serves(Flush, linked, base, out + block, dst, op)
    {
      hide Window, Room;
      assert (out + block)[|out|..] == block;
      if linked {
        var all := base + (out + block);
        assert all == base + out + block && all[|all| - |block|..] == block;
        RoomBehind(h, base + out, tmpOut, block);
        WindowExtend(h, base + out, block);
        if dict == InTmp {
          Cut(tmpOutBuffer[..], 0, tmpOut, tmpOut + |block|);
        }
        assert all[..|all| - |block|] == base + out;
      } else {
        RoomBehind([], [], 0, block);
        assert [] + block == block;
      }
    }

    /** As much of the block in tmpOut as fits goes to the caller's buffer. */
    method FlushBlock(dst: array<byte>, d0: nat, op: nat, oend: nat, linked: bool, ghost all: seq<byte>)
        returns (n: nat)
      requires dst != tmpOutBuffer && d0 <= op <= oend <= dst.Length
      requires HoldsBlock(all) && tmpOutSize <= |all|
      requires linked ==>
        3 * WINDOW <= tmpOutBuffer.Length && Flushing(dst, op, all) && EndOfHistory(dst[d0..op], Sent(all))
      modifies this`dict, this`dictSize, this`tmpOutStart, tmpOutBuffer, dst
      ensures n == Min(tmpOutSize - old(tmpOutStart), oend - op) && tmpOutStart == old(tmpOutStart) + n
      ensures dst[..op] == old(dst[..op]) && dst[op..op + n] == all[|all| - tmpOutSize + old(tmpOutStart)..][..n]
      ensures HoldsBlock(all)
      ensures if linked then Flushing(dst, op + n, all) && (dict == InTmp || dict.InDst?)
        else (old(Fixed()) ==> Fixed() && Given() == old(Given()))
    {
      hide Window, Held, EndOfHistory, DictOk, DictBytes, Flushing;
      HeldSize(tmpOutBuffer[..], tmpOut, tmpOutSize, tmpOutStart, all);
      n := Min(tmpOutSize - tmpOutStart, oend - op);
      NextBytes(tmpOutBuffer[..], tmpOut, tmpOutSize, tmpOutStart, all, n);
      if linked {
        HandOver(dst, d0, op, n, all);
        Flushed(dst, d0, op, n, all);
      } else {
        CopySlice(dst, op, tmpOutBuffer[..], tmpOut + tmpOutStart, n);
        tmpOutStart := tmpOutStart + n;
        assert tmpOutBuffer[..] == old(tmpOutBuffer[..]);
      }
    }

    /** dstage_flushOut, as far as the history is concerned. */
    method EmptyTmpOut(dst: array<byte>, d0: nat, op: nat, oend: nat, linked: bool, ghost base: seq<byte>,
        ghost out: seq<byte>) returns (n: nat)
      requires dst != tmpOutBuffer && d0 <= op <= oend <= dst.Length && (linked ==> 3 * WINDOW <= tmpOutBuffer.Length)
      requires Serves(Flush, linked, base, out, dst, op) && tmpOutStart <= tmpOutSize <= |out|
      requires EndOfHistory(dst[d0..op], base + out[..|out| - (tmpOutSize - tmpOutStart)])
      modifies this`dict, this`dictSize, this`tmpOutStart, tmpOutBuffer, dst
      ensures n == Min(tmpOutSize - old(tmpOutStart), oend - op) && tmpOutStart == old(tmpOutStart) + n
      ensures dst[..op] == old(dst[..op]) && dst[op..op + n] == out[|out| - (tmpOutSize - old(tmpOutStart))..][..n]
      ensures Serves(Flush, linked, base, out, dst, op + n) && (linked ==> dict == InTmp || dict.InDst?)
      ensures tmpOutStart == tmpOutSize ==> Serves(Live, linked, base, out, dst, op + n)
    {
      hide *;
      ghost var all := LastBlock(linked, base, out);
      OpenFlush(linked, base, out, dst, op);
      n := FlushBlock(dst, d0, op, oend, linked, all);
      BlockEnd(linked, base, out, old(tmpOutStart));
      CloseFlush(linked, base, out, dst, op + n);
    }

    /** What the block in tmpOut is the end of, as far as the history is concerned. */
    ghost function LastBlock(linked: bool, base: seq<byte>, out: seq<byte>): seq<byte>
      requires tmpOutSize <= |out|
      reads `tmpOutSize
    {
      if linked then base + out else out[|out| - tmpOutSize..]
    }

    lemma OpenFlush(linked: bool, base: seq<byte>, out: seq<byte>, dst: array<byte>, op: nat)
      requires Serves(Flush, linked, base, out, dst, op) && tmpOutStart <= tmpOutSize <= |out|
      ensures var all := LastBlock(linked, base, out);
        && tmpOutSize <= |all| && HoldsBlock(all)
        && (if linked then Flushing(dst, op, all) && Sent(all) == base + out[..|out| - (tmpOutSize - tmpOutStart)]
            else Fixed() && Window(Given(), base) && tmpOut == 0)
    {
      hide Window, Room;
    }

    lemma BlockEnd(linked: bool, base: seq<byte>, out: seq<byte>, start: nat)
      requires start <= tmpOutSize <= |out|
      ensures var all := LastBlock(linked, base, out);
        tmpOutSize <= |all| && all[|all| - tmpOutSize + start..] == out[|out| - (tmpOutSize - start)..]
    {
    }

    lemma CloseFlush(linked: bool, base: seq<byte>, out: seq<byte>, dst: array<byte>, op: nat)
      requires tmpOutSize <= |out|
      requires var all := LastBlock(linked, base, out);
        && HoldsBlock(all)
        && (if linked then Flushing(dst, op, all) else Fixed() && Window(Given(), base) && tmpOut == 0)
      ensures Serves(Flush, linked, base, out, dst, op)
      ensures tmpOutStart == tmpOutSize ==> Serves(Live, linked, base, out, dst, op)
    {
      hide Window, Room;
      if linked && tmpOutStart == tmpOutSize {
        assert Sent(base + out) == base + out;
      }
    }

    /** The end of a call: what lies in the caller's buffer is saved. */
    method Keep(flushing: bool, dst: array<byte>, op: nat, linked: bool, ghost base: seq<byte>, ghost out: seq<byte>)
      requires dst != tmpOutBuffer && (linked ==> 3 * WINDOW <= tmpOutBuffer.Length)
      requires Serves(if flushing then Flush else Live, linked, base, out, dst, op)
      requires flushing && linked ==> dict == InTmp || dict.InDst?
      modifies this`dict, this`dictSize, this`tmpOut, tmpOutBuffer
      ensures Rests(if flushing then Flush else Live, linked, base, out)
      ensures tmpOutSize == old(tmpOutSize) && tmpOutStart == old(tmpOutStart)
    {
      hide Window, Room;
      if linked && dict != InTmp && dict != Nowhere {
        if flushing {
          KeepWhileFlushing(dst, op, base + out);
        } else {
          KeepBetweenBlocks(dst, op, base + out);
        }
      }
    }

    method HandOver(dst: array<byte>, d0: nat, op: nat, n: nat, ghost all: seq<byte>)
      requires dst != tmpOutBuffer && d0 <= op && op + n <= dst.Length && n <= tmpOutSize - tmpOutStart
        && tmpOutSize <= |all|
      requires Flushing(dst, op, all) && EndOfHistory(dst[d0..op], Sent(all))
        && tmpOut + tmpOutSize <= tmpOutBuffer.Length
      modifies dst
      ensures Flushing(dst, op, all) && EndOfHistory(dst[d0..op], Sent(all)) && dst[..op] == old(dst[..op])
      ensures dst[op..op + n] == tmpOutBuffer[tmpOut + tmpOutStart..tmpOut + tmpOutStart + n]
    {
      hide Window, Held, EndOfHistory;
      CopySlice(dst, op, tmpOutBuffer[..], tmpOut + tmpOutStart, n);
      SameBefore(old(dst[..]), dst[..], d0, op);
      if dict.InDst? {
        SameBefore(old(dst[..]), dst[..], dict.at, op);
      }
    }

    /** The next `n` bytes of the block have been written at `op`. */
    method Flushed(dst: array<byte>, d0: nat, op: nat, n: nat, ghost all: seq<byte>)
      requires dst != tmpOutBuffer && d0 <= op && op + n <= dst.Length && n <= tmpOutSize - tmpOutStart
        && tmpOutSize <= |all|
      requires 3 * WINDOW <= tmpOutBuffer.Length && Flushing(dst, op, all) && EndOfHistory(dst[d0..op], Sent(all))
      requires Sent(all) + dst[op..op + n] == all[..|all| - tmpOutSize + tmpOutStart + n]
      modifies this`dict, this`dictSize, this`tmpOutStart, tmpOutBuffer
      ensures tmpOutStart == old(tmpOutStart) + n && HoldsBlock(all) && Flushing(dst, op + n, all)
        && (dict == InTmp || dict.InDst?)
    {
      hide Window, Held, EndOfHistory, Sent;
      ghost var sent, start := Sent(all), tmpOutStart;
      UpdateDict(dst, d0, op, n, true, sent, all);
      tmpOutStart := tmpOutStart + n;
      HeldLater(tmpOutBuffer[..], tmpOut, tmpOutSize, start, all, n);
      assert Sent(all) == sent + dst[op..op + n] by { SentMore(all); }
    }

    lemma SentMore(all: seq<byte>)
      requires tmpOutStart <= tmpOutSize <= |all|
      ensures Sent(all) == all[..|all| - tmpOutSize + tmpOutStart]
    {
    }

    static lemma HeldLater(tmp: seq<byte>, at: nat, size: nat, start: nat, all: seq<byte>, n: nat)
      requires Held(tmp, at, size, start, all) && n <= size - start
      ensures Held(tmp, at, size, start + n, all)
    {
      hide Room;
    }

    /** The next bytes to hand over. */
    static lemma NextBytes(tmp: seq<byte>, at: nat, size: nat, start: nat, all: seq<byte>, n: nat)
      requires Held(tmp, at, size, start, all) && n <= size - start && size <= |all|
      ensures tmp[at + start..at + start + n] == all[|all| - size + start..][..n]
      ensures all[..|all| - size + start] + tmp[at + start..at + start + n] == all[..|all| - size + start + n]
      ensures at + size <= |tmp| && Held(tmp, at, size, start + n, all)
    {
      hide Room;
      var e := all[|all| - size..];
      SliceOfSlice(tmp, at, at + size, start, start + n);
      assert all[|all| - size + start..][..n] == e[start..start + n];
    }

    /** At the end of a call that stops inside a block's output, the history moves in front of it. */
    method KeepWhileFlushing(dst: array<byte>, op: nat, ghost all: seq<byte>)
      requires dst != tmpOutBuffer && HoldsBlock(all) && DictOk(dst, op) && dict != InTmp
        && Window(DictBytes(dst, op), Sent(all))
      modifies this`dict, this`dictSize, tmpOutBuffer
      ensures HoldsBlock(all) && dict == InTmp && dictSize == tmpOut + tmpOutStart
        && Window(tmpOutBuffer[..tmpOut + tmpOutSize], all)
    {
      hide Window, Held, HoldsBlock, Sent;
      CopyInFront(DictBytes(dst, op), all);
      dict, dictSize := InTmp, tmpOut + tmpOutStart;
    }

    /** At the end of any other call, the last 64 KB of the history move to tmpOutBuffer. */
    method KeepBetweenBlocks(dst: array<byte>, op: nat, ghost sent: seq<byte>)
      requires dst != tmpOutBuffer && DictOk(dst, op) && dict != InTmp && Window(DictBytes(dst, op), sent)
        && WINDOW <= tmpOutBuffer.Length
      modifies this`dict, this`dictSize, this`tmpOut, tmpOutBuffer
      ensures dict == InTmp && dictSize <= tmpOutBuffer.Length && Window(tmpOutBuffer[..dictSize], sent)
    {
      hide Window, DictOk, DictBytes;
      var h := DictBytes(dst, op);
      var newDictSize := Min(|h|, WINDOW);
      assert Window(h[|h| - newDictSize..], sent) by {
        WindowCut(h, sent, newDictSize);
      }
      CopySlice(tmpOutBuffer, 0, h, |h| - newDictSize, newDictSize);
      assert tmpOutBuffer[..newDictSize] == h[|h| - newDictSize..];
      dict, dictSize, tmpOut := InTmp, newDictSize, newDictSize;
    }
  }

  /** Behind a window there is room for any block. */
  lemma RoomBehind(h: seq<byte>, sent: seq<byte>, at: nat, block: seq<byte>)
    requires Window(h, sent) && (at == |h| || at == Min(|h|, WINDOW))
    ensures Room(at, |block|, sent + block)
  {
  }
}
