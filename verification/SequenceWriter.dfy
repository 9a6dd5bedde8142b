/**
  Writing one sequence into the output: token, literal length, literals, offset and match length,
  with the over-long stores of the C code. `olimit` is the end of the window; in `limited` mode
  the C code's room tests are made, otherwise the caller has made sure of the room.
 */
module SequenceWriter {
  import opened Bytes
  import opened BlockFormat
  import opened BlockEncoding
  import opened Memory

  /** A run of 255s and a remainder is the length extension. */
  lemma {:induction false} ExtensionShape(n: nat, s: seq<byte>)
    requires |s| == n / 255 + 1 && s[|s| - 1] == n % 255 && forall k :: 0 <= k < |s| - 1 ==> s[k] == 255
    ensures s == LengthExtension(n)
    decreases n
  {
    if n >= 255 {
      ExtensionShape(n - 255, s[1..]);
      assert s == [s[0]] + s[1..];
    }
  }

  /** The length extension written byte by byte, as for literals. */
  method WriteExtension(dst: array<byte>, op0: nat, n: nat) returns (op: nat)
    requires op0 + n / 255 + 1 <= dst.Length
    modifies dst
    ensures op == op0 + n / 255 + 1 && OnlyChanges(dst, op0, op)
    ensures dst[op0..op] == LengthExtension(n)
  {
    op := op0;
    var len := n;
    while len >= 255
      invariant n == 255 * (op - op0) + len && op0 <= op
      invariant forall k :: op0 <= k < op ==> dst[k] == 255
      invariant OnlyChanges(dst, op0, op)
    {
      dst[op] := 255;
      op := op + 1;
      len := len - 255;
    }
    dst[op] := len;
    op := op + 1;
    ExtensionShape(n, dst[op0..op]);
  }

  /** The room a sequence's literals need: their length bytes, themselves, and what the wild copy may add. */
  predicate LiteralRoom(op: nat, lits: nat, olimit: nat) {
    op + 1 + lits + (2 + 1 + LASTLITERALS) + lits / 255 <= olimit
  }

  /** Token and literals of a sequence; `ok` is false when the room test of the limited mode fails. */
  method WriteLiterals(dst: array<byte>, token: nat, src: seq<byte>, anchor: nat, lits: nat, olimit: nat, limited: bool)
      returns (ok: bool, op: nat)
    requires anchor + lits + 8 <= |src| && token <= olimit <= dst.Length
    requires !limited ==> LiteralRoom(token, lits, olimit)
    modifies dst
    ensures OnlyChanges(dst, token, olimit)
    ensures !ok ==> limited
    ensures ok ==> op == token + 1 + |LengthTail(lits)| + lits && op + 8 <= olimit + 1
    ensures ok ==> dst[token] == 16 * Min(lits, 15)
    ensures ok ==> dst[token + 1..op] == LengthTail(lits) + src[anchor..anchor + lits]
  {
    op := token + 1;
    if limited && op + lits + (2 + 1 + LASTLITERALS) + lits / 255 > olimit {
      return false, op;
    }
    op := WriteRunLength(dst, token, lits);
    ghost var was := dst[..];
    WildCopy8In(dst, op, src, anchor, op + lits);
    HeadThenLiterals(dst, was, token, op, src, anchor, lits);
    return true, op + lits;
  }

  /** Token and literal length. */
  method WriteRunLength(dst: array<byte>, token: nat, lits: nat) returns (op: nat)
    requires token + 1 + |LengthTail(lits)| <= dst.Length
    modifies dst
    ensures OnlyChanges(dst, token, op) && op == token + 1 + |LengthTail(lits)|
    ensures dst[token] == 16 * Min(lits, 15) && dst[token + 1..op] == LengthTail(lits)
  {
    op := token + 1;
    if lits >= RUN_MASK {
      dst[token] := RUN_MASK * 16;
      op := WriteExtension(dst, op, lits - RUN_MASK);
    } else {
      dst[token] := lits * 16;
    }
  }

  lemma HeadThenLiterals(dst: array<byte>, was: seq<byte>, token: nat, op: nat, src: seq<byte>, anchor: nat, lits: nat)
    requires token < op && op + lits <= dst.Length == |was| && anchor + lits <= |src|
    requires forall k :: 0 <= k < op ==> dst[k] == was[k]
    requires forall k :: op <= k < op + lits ==> dst[k] == src[anchor + (k - op)]
    ensures dst[token] == was[token]
    ensures dst[token + 1..op + lits] == was[token + 1..op] + src[anchor..anchor + lits]
  {
  }

  /** The room the length of a match needs. */
  predicate MatchRoom(op: nat, code: nat, olimit: nat) {
    op + (1 + LASTLITERALS) + (code + 240) / 255 <= olimit
  }

  /** LZ4_writeLE16 */
  method WriteOffset(dst: array<byte>, op: nat, offset: nat)
    requires op + 2 <= dst.Length && offset <= DISTANCE_MAX
    modifies dst
    ensures OnlyChanges(dst, op, op + 2) && dst[op..op + 2] == [offset % 0x100, offset / 0x100]
  {
    dst[op], dst[op + 1] := offset % 0x100, offset / 0x100;
  }

  /** The length of a match: long ones are written four 255s at a time, ahead of the position reached. */
  method WriteMatchLength(dst: array<byte>, op0: nat, token: nat, matchCode: nat, olimit: nat, limited: bool)
      returns (ok: bool, op: nat)
    requires token < op0 <= olimit <= dst.Length && dst[token] + Min(matchCode, 15) < 0x100
    requires !limited ==> MatchRoom(op0, matchCode, olimit)
    modifies dst
    ensures !ok ==> limited && OnlyChanges(dst, 0, 0)
    ensures ok ==> op == op0 + |LengthTail(matchCode)| && op + LASTLITERALS <= olimit
    ensures ok ==> forall k :: 0 <= k < dst.Length && k != token && !(op0 <= k < olimit) ==> dst[k] == old(dst[k])
    ensures ok ==> dst[token] == old(dst[token]) + Min(matchCode, 15)
    ensures ok ==> dst[op0..op] == LengthTail(matchCode)
  {
    op := op0;
    if limited && op + (1 + LASTLITERALS) + (matchCode + 240) / 255 > olimit {
      return false, op;
    }
    ok := true;
    if matchCode < ML_MASK {
      dst[token] := dst[token] + matchCode;
      return;
    }
    dst[token] := dst[token] + ML_MASK;
    op := WriteLongMatchLength(dst, op, matchCode - ML_MASK, olimit);
  }

  method WriteLongMatchLength(dst: array<byte>, op0: nat, n: nat, olimit: nat) returns (op: nat)
    requires op0 + 4 + n / 255 <= olimit <= dst.Length
    modifies dst
    ensures op == op0 + n / 255 + 1 && OnlyChanges(dst, op0, olimit)
    ensures dst[op0..op] == LengthExtension(n)
  {
    op := op0;
    var code := n;
    Write255s(dst, op);
    while code >= 4 * 255
      invariant op0 <= op && n == 255 * (op - op0) + code
      invariant op + 4 + code / 255 <= olimit
      invariant forall k :: op0 <= k < op + 4 ==> dst[k] == 255
      invariant OnlyChanges(dst, op0, olimit)
    {
      op := op + 4;
      Write255s(dst, op);
      code := code - 4 * 255;
    }
    op := op + code / 255;
    dst[op] := code % 255;
    op := op + 1;
    ExtensionShape(n, dst[op0..op]);
  }

  /** LZ4_write32(op, 0xFFFFFFFF) */
  method Write255s(dst: array<byte>, op: nat)
    requires op + 4 <= dst.Length
    modifies dst
    ensures OnlyChanges(dst, op, op + 4)
    ensures forall k :: op <= k < op + 4 ==> dst[k] == 255
  {
    dst[op], dst[op + 1], dst[op + 2], dst[op + 3] := 255, 255, 255, 255;
  }

  /** The last literals and the end of the block. */
  method WriteLastLiterals(dst: array<byte>, op0: nat, src: seq<byte>, anchor: nat, olimit: nat, limited: bool)
      returns (ok: bool, op: nat)
    requires anchor <= |src| && olimit <= dst.Length && op0 <= olimit
    requires var lastRun := |src| - anchor; !limited ==> op0 + lastRun + 1 + (lastRun + 255 - RUN_MASK) / 255 <= olimit
    modifies dst
    ensures !ok ==> limited && OnlyChanges(dst, 0, 0)
    ensures ok ==> OnlyChanges(dst, op0, olimit) && op <= olimit
    ensures ok ==> op0 <= op && dst[op0..op] == EncodeLast(src[anchor..])
  {
    hide LengthTail, EncodeLast;
    op := op0;
    var lastRun := |src| - anchor;
    if limited && op + lastRun + 1 + (lastRun + 255 - RUN_MASK) / 255 > olimit {
      return false, op;
    }
    op := WriteRunLength(dst, op, lastRun);
    ghost var was := dst[..];
    CopyIn(dst, op, src, anchor, lastRun);
    HeadThenLiterals(dst, was, op0, op, src, anchor, lastRun);
    op := op + lastRun;
    assert src[anchor..anchor + lastRun] == src[anchor..];
    assert dst[op0..op][1..] == dst[op0 + 1..op];
    LastIsEncoded(dst[op0..op], src[anchor..]);
    ok := true;
  }

  lemma LastIsEncoded(s: seq<byte>, lits: seq<byte>)
    requires |s| > 0 && s[0] == 16 * Min(|lits|, 15) && s[1..] == LengthTail(|lits|) + lits
    ensures s == EncodeLast(lits)
  {
    assert s == [s[0]] + s[1..];
  }
}
