/**
  The LZ4 block format: a reference decoder that copies one byte at a time, the
  end-of-block restrictions a block must respect, and the encoding of a list of sequences.
 */
module BlockFormat {
  import opened Bytes

  const MINMATCH := 4
  const LASTLITERALS := 5
  const MFLIMIT := 12
  const RUN_MASK := 15
  const ML_MASK := 15
  const DISTANCE_MAX := 0xFFFF
  const WRAP := 0x1_0000_0000

  // ---------- copying ----------

  /** The byte a match of the given offset appends. Offset 0 is outside the format; the decoder writes a zero. */
  function CopiedByte(out: seq<byte>, offset: nat): byte
    requires offset <= |out|
  {
    if offset == 0 then 0 else out[|out| - offset]
  }

  function CopyMatch(out: seq<byte>, offset: nat, len: nat): (r: seq<byte>)
    requires offset <= |out|
    ensures |r| == |out| + len && out <= r
    decreases len
  {
    if len == 0 then out else CopyMatch(out + [CopiedByte(out, offset)], offset, len - 1)
  }

  /** A run in which every byte repeats the byte `offset` before it is the byte-at-a-time copy. */
  lemma {:induction false} SelfReferenceIsCopy(out: seq<byte>, offset: nat, r: seq<byte>)
    requires offset <= |out| <= |r| && r[..|out|] == out
    requires forall k :: |out| <= k < |r| ==> r[k] == if offset == 0 then 0 else r[k - offset]
    ensures r == CopyMatch(out, offset, |r| - |out|)
    decreases |r| - |out|
  {
    if |r| == |out| {
      assert r == r[..|out|];
    } else {
      var next := out + [CopiedByte(out, offset)];
      assert r[|out|] == CopiedByte(out, offset) by {
        if offset != 0 { assert r[|out| - offset] == r[..|out|][|out| - offset]; }
      }
      assert r[..|next|] == next;
      SelfReferenceIsCopy(next, offset, r);
    }
  }

  /** A shorter copy is a prefix of a longer one. */
  lemma {:induction false} CopyMatchPrefix(out: seq<byte>, offset: nat, short: nat, len: nat)
    requires offset <= |out| && short <= len
    ensures CopyMatch(out, offset, short) <= CopyMatch(out, offset, len)
    decreases short
  {
    if short > 0 {
      CopyMatchPrefix(out + [CopiedByte(out, offset)], offset, short - 1, len - 1);
    }
  }

  // ---------- length fields ----------

  datatype Field = Field(value: nat, next: nat)

  /** A length extension: bytes are added up to and including the first one that is not 255. */
  function ReadExtension(src: seq<byte>, i: nat): (f: Option<Field>)
    ensures f.Some? ==> i < f.value.next <= |src| && f.value.value <= 255 * (f.value.next - i)
    decreases |src| - i
  {
    if i >= |src| then None
    else if src[i] != 255 then Some(Field(src[i], i + 1))
    else match ReadExtension(src, i + 1)
      case None => None
      case Some(f) => Some(Field(255 + f.value, f.next))
  }

  /**
    A 4-bit length with its extension. `exact` is the format's unbounded sum; without it the
    extension is accumulated in an unsigned 32-bit variable, as the C code does.
   */
  function ReadLength(src: seq<byte>, i: nat, nibble: nat, exact: bool): (f: Option<Field>)
    ensures f.Some? ==> i <= f.value.next <= Max(i, |src|)
  {
    if nibble != 15 then Some(Field(nibble, i))
    else match ReadExtension(src, i)
      case None => None
      case Some(f) => Some(Field(15 + if exact then f.value else f.value % WRAP, f.next))
  }

  // ---------- reference decoder ----------

  /** Decodes from the token at `i`; `out` is the history followed by everything produced so far. */
  function DecodeSeq(src: seq<byte>, i: nat, out: seq<byte>, exact: bool): (r: Option<seq<byte>>)
    requires i <= |src|
    ensures r.Some? ==> out <= r.value
    decreases |src| - i, 0
  {
    if i == |src| then None
    else match ReadLength(src, i + 1, src[i] / 16, exact)
      case None => None
      case Some(f) => DecodeLits(src, f.next, src[i] % 16, f.value, out, exact)
  }

  function DecodeLits(src: seq<byte>, i: nat, nibble: nat, len: nat, out: seq<byte>,
      exact: bool): (r: Option<seq<byte>>)
    requires i <= |src|
    ensures r.Some? ==> out <= r.value
    decreases |src| - i, 1
  {
    if i + len > |src| then None
    else if i + len == |src| then Some(out + src[i..])
    else DecodeOffset(src, i + len, nibble, out + src[i..i + len], exact)
  }

  function DecodeOffset(src: seq<byte>, i: nat, nibble: nat, out: seq<byte>, exact: bool): (r: Option<seq<byte>>)
    requires i <= |src|
    ensures r.Some? ==> out <= r.value
    decreases |src| - i, 0
  {
    if i + 2 > |src| then None
    else match ReadLength(src, i + 2, nibble, exact)
      case None => None
      case Some(f) => DecodeCopy(src, f.next, Le16(src[i], src[i + 1]), f.value + MINMATCH, out, exact)
  }

  function DecodeCopy(src: seq<byte>, i: nat, offset: nat, len: nat, out: seq<byte>,
      exact: bool): (r: Option<seq<byte>>)
    requires i <= |src|
    ensures r.Some? ==> out <= r.value
    decreases |src| - i, 1
  {
    if offset > |out| then None
    else DecodeSeq(src, i, CopyMatch(out, offset, len), exact)
  }

  /** The whole block, given the bytes that precede it: Some(history + content) or None. */
  function Decode(src: seq<byte>, history: seq<byte>, exact: bool): (r: Option<seq<byte>>)
    ensures r.Some? ==> history <= r.value
  {
    DecodeSeq(src, 0, history, exact)
  }

  // ---------- end-of-block restrictions ----------

  /**
    The parsing restrictions of the format, stated along the same parse: `n` is the number of
    bytes known at this point (history included), `total` the number when the block ends. The
    last match starts at least 12 bytes before the end, the last 5 bytes are literals, no
    match reaches before the history, and the last token announces no match.
   */
  predicate ConformsSeq(src: seq<byte>, i: nat, n: nat, total: nat)
    requires i <= |src|
    decreases |src| - i, 0
  {
    i < |src| &&
    match ReadLength(src, i + 1, src[i] / 16, true)
    case None => false
    case Some(f) => ConformsLits(src, f.next, src[i] % 16, f.value, n, total)
  }

  predicate ConformsLits(src: seq<byte>, i: nat, nibble: nat, len: nat, n: nat, total: nat)
    requires i <= |src|
    decreases |src| - i, 1
  {
    if i + len >= |src| then i + len == |src| && n + len == total && nibble == 0
    else n + len + MFLIMIT <= total && ConformsOffset(src, i + len, nibble, n + len, total)
  }

  predicate ConformsOffset(src: seq<byte>, i: nat, nibble: nat, n: nat, total: nat)
    requires i <= |src|
    decreases |src| - i, 0
  {
    i + 2 <= |src| &&
    match ReadLength(src, i + 2, nibble, true)
    case None => false
    case Some(f) => ConformsCopy(src, f.next, Le16(src[i], src[i + 1]), f.value + MINMATCH, n, total)
  }

  predicate ConformsCopy(src: seq<byte>, i: nat, offset: nat, len: nat, n: nat, total: nat)
    requires i <= |src|
    decreases |src| - i, 1
  {
    1 <= offset <= n && n + len + LASTLITERALS <= total && ConformsSeq(src, i, n + len, total)
  }

  predicate Conforms(src: seq<byte>, historySize: nat, contentSize: nat) {
    ConformsSeq(src, 0, historySize, historySize + contentSize)
  }

  /** One whole sequence of the reference decoder, as a single step. */
  lemma DecodeStep(src: seq<byte>, i: nat, out: seq<byte>, exact: bool, ll: Field, ml: Field)
    requires i < |src| && ReadLength(src, i + 1, src[i] / 16, exact) == Some(ll)
    requires ll.next + ll.value + 2 <= |src| && ReadLength(src, ll.next + ll.value + 2, src[i] % 16, exact) == Some(ml)
    ensures var k := ll.next + ll.value;
      var offset := Le16(src[k], src[k + 1]);
      var lits := out + src[ll.next..k];
      DecodeSeq(src, i, out, exact) ==
        if offset > |lits| then None else DecodeSeq(src, ml.next, CopyMatch(lits, offset, ml.value + MINMATCH), exact)
  {
    hide ReadLength, CopyMatch;
    var k := ll.next + ll.value;
    var lits := out + src[ll.next..k];
    assert DecodeSeq(src, i, out, exact) == DecodeLits(src, ll.next, src[i] % 16, ll.value, out, exact);
    assert DecodeOffset(src, k, src[i] % 16, lits, exact)
      == DecodeCopy(src, ml.next, Le16(src[k], src[k + 1]), ml.value + MINMATCH, lits, exact);
  }

  /** The conditions a conforming block meets at one sequence. */
  lemma ConformsStep(src: seq<byte>, i: nat, n: nat, total: nat)
    requires i <= |src| && ConformsSeq(src, i, n, total)
    ensures i < |src| && ReadLength(src, i + 1, src[i] / 16, true).Some?
    ensures var ll := ReadLength(src, i + 1, src[i] / 16, true).value;
      var k := ll.next + ll.value;
      if k >= |src| then k == |src| && n + ll.value == total && src[i] % 16 == 0
      else
        && k + 2 <= |src| && n + ll.value + MFLIMIT <= total
        && ReadLength(src, k + 2, src[i] % 16, true).Some?
        && 1 <= Le16(src[k], src[k + 1]) <= n + ll.value
        && (var ml := ReadLength(src, k + 2, src[i] % 16, true).value;
            && n + ll.value + ml.value + MINMATCH + LASTLITERALS <= total
            && ConformsSeq(src, ml.next, n + ll.value + ml.value + MINMATCH, total))
  {
    var ll := ReadLength(src, i + 1, src[i] / 16, true).value;
    var k := ll.next + ll.value;
    assert ConformsLits(src, ll.next, src[i] % 16, ll.value, n, total);
    if k < |src| {
      assert ConformsOffset(src, k, src[i] % 16, n + ll.value, total);
      var ml := ReadLength(src, k + 2, src[i] % 16, true).value;
      assert ConformsCopy(src, ml.next, Le16(src[k], src[k + 1]), ml.value + MINMATCH, n + ll.value, total);
    }
  }

  /** A conforming block decodes, to exactly the announced number of bytes. */
  lemma {:induction false} ConformingDecodes(src: seq<byte>, i: nat, out: seq<byte>, total: nat)
    requires i <= |src| && ConformsSeq(src, i, |out|, total)
    ensures DecodeSeq(src, i, out, true).Some?
    ensures |DecodeSeq(src, i, out, true).value| == total
    decreases |src| - i
  {
    hide ConformsSeq;
    ConformsStep(src, i, |out|, total);
    var ll := ReadLength(src, i + 1, src[i] / 16, true).value;
    var k := ll.next + ll.value;
    if k < |src| {
      var ml := ReadLength(src, k + 2, src[i] % 16, true).value;
      DecodeStep(src, i, out, true, ll, ml);
      ConformingDecodes(src, ml.next, CopyMatch(out + src[ll.next..k], Le16(src[k], src[k + 1]), ml.value + MINMATCH),
        total);
    }
  }

  /**
    A conforming block that is still at a token has at least a token and 5 literals left, unless it
    produced nothing yet.
   */
  lemma {:induction false} ConformingTail(src: seq<byte>, i: nat, n: nat, total: nat)
    requires i <= |src| && ConformsSeq(src, i, n, total)
    ensures n <= total && |src| - i >= 1 + Min(total - n, LASTLITERALS)
    decreases |src| - i
  {
    hide ConformsSeq;
    ConformsStep(src, i, n, total);
    var ll := ReadLength(src, i + 1, src[i] / 16, true).value;
    if ll.next + ll.value < |src| {
      var ml := ReadLength(src, ll.next + ll.value + 2, src[i] % 16, true).value;
      ConformingTail(src, ml.next, n + ll.value + ml.value + MINMATCH, total);
    }
  }

  /** A length below 2^32 is not changed by 32-bit sums, and a short input has no longer one. */
  lemma LengthIgnoresWidth(src: seq<byte>, i: nat, nibble: nat)
    ensures var f := ReadLength(src, i, nibble, true);
      f.None? || f.value.value < WRAP || |src| < 16843010 ==> ReadLength(src, i, nibble, false) == f
  {
  }

  /** In a conforming block no length reaches 2^32, so the C code's 32-bit sums are exact. */
  lemma {:induction false} ConformingIgnoresWidth(src: seq<byte>, i: nat, out: seq<byte>, total: nat)
    requires i <= |src| && total < |out| + WRAP && ConformsSeq(src, i, |out|, total)
    ensures DecodeSeq(src, i, out, false) == DecodeSeq(src, i, out, true)
    decreases |src| - i
  {
    hide ConformsSeq, DecodeSeq, ReadLength;
    ConformsStep(src, i, |out|, total);
    var ll := ReadLength(src, i + 1, src[i] / 16, true).value;
    var k := ll.next + ll.value;
    LengthIgnoresWidth(src, i + 1, src[i] / 16);
    if k < |src| {
      var ml := ReadLength(src, k + 2, src[i] % 16, true).value;
      LengthIgnoresWidth(src, k + 2, src[i] % 16);
      StepsAgree(src, i, out, ll, ml);
      ConformingIgnoresWidth(src, ml.next,
        CopyMatch(out + src[ll.next..k], Le16(src[k], src[k + 1]), ml.value + MINMATCH), total);
    } else {
      LastSequence(src, i, out, true);
      LastSequence(src, i, out, false);
    }
  }

  lemma StepsAgree(src: seq<byte>, i: nat, out: seq<byte>, ll: Field, ml: Field)
    requires i < |src| && ll.next + ll.value + 2 <= |src|
    requires ReadLength(src, i + 1, src[i] / 16, true) == ReadLength(src, i + 1, src[i] / 16, false) == Some(ll)
    requires var k := ll.next + ll.value + 2;
      ReadLength(src, k, src[i] % 16, true) == ReadLength(src, k, src[i] % 16, false) == Some(ml)
    ensures var k := ll.next + ll.value;
      var offset := Le16(src[k], src[k + 1]);
      var lits := out + src[ll.next..k];
      offset <= |lits| ==>
        var next := CopyMatch(lits, offset, ml.value + MINMATCH);
        (DecodeSeq(src, ml.next, next, false) == DecodeSeq(src, ml.next, next, true)) ==>
          DecodeSeq(src, i, out, false) == DecodeSeq(src, i, out, true)
    ensures Le16(src[ll.next + ll.value], src[ll.next + ll.value + 1]) > |out| + ll.value
      ==> DecodeSeq(src, i, out, false) == DecodeSeq(src, i, out, true)
  {
    hide DecodeSeq;
    DecodeStep(src, i, out, false, ll, ml);
    DecodeStep(src, i, out, true, ll, ml);
  }

  /** Below 16843010 input bytes a 32-bit length sum cannot wrap, conforming or not. */
  lemma {:induction false} ShortInputIgnoresWidth(src: seq<byte>, i: nat, out: seq<byte>)
    requires i <= |src| < 16843010
    ensures DecodeSeq(src, i, out, false) == DecodeSeq(src, i, out, true)
    decreases |src| - i
  {
    hide DecodeSeq, ReadLength, CopyMatch;
    if i == |src| {
      EndOfInput(src, out, true);
      EndOfInput(src, out, false);
      return;
    }
    LengthIgnoresWidth(src, i + 1, src[i] / 16);
    var f := ReadLength(src, i + 1, src[i] / 16, true);
    if f.None? || f.value.next + f.value.value >= |src| {
      LastSequence(src, i, out, true);
      LastSequence(src, i, out, false);
      return;
    }
    var k := f.value.next + f.value.value;
    LengthIgnoresWidth(src, k + 2, src[i] % 16);
    var m := ReadLength(src, k + 2, src[i] % 16, true);
    if k + 2 > |src| || m.None? {
      CutSequence(src, i, out, f.value, true);
      CutSequence(src, i, out, f.value, false);
      return;
    }
    var offset := Le16(src[k], src[k + 1]);
    if offset <= |out| + f.value.value {
      ShortInputIgnoresWidth(src, m.value.next,
        CopyMatch(out + src[f.value.next..k], offset, m.value.value + MINMATCH));
    }
    StepsAgree(src, i, out, f.value, m.value);
  }

  /** A sequence whose match part is cut off does not decode. */
  lemma CutSequence(src: seq<byte>, i: nat, out: seq<byte>, ll: Field, exact: bool)
    requires i < |src| && ReadLength(src, i + 1, src[i] / 16, exact) == Some(ll)
    requires var k := ll.next + ll.value;
      k < |src| && (k + 2 <= |src| ==> ReadLength(src, k + 2, src[i] % 16, exact).None?)
    ensures DecodeSeq(src, i, out, exact) == None
  {
    var k := ll.next + ll.value;
    assert DecodeSeq(src, i, out, exact) == DecodeLits(src, ll.next, src[i] % 16, ll.value, out, exact);
    assert DecodeLits(src, ll.next, src[i] % 16, ll.value, out, exact)
      == DecodeOffset(src, k, src[i] % 16, out + src[ll.next..k], exact);
  }

  /** From 16843010 bytes on it can: a run of 255s whose sum the C variable does not hold. */
  lemma {:induction false} WidthMatters(k: nat)
    ensures var src := seq(k, _ => 255) + [0];
      && ReadLength(src, 0, 15, true) == Some(Field(15 + 255 * k, k + 1))
      && (ReadLength(src, 0, 15, false) == ReadLength(src, 0, 15, true) <==> 255 * k < WRAP)
  {
    FullRun(seq(k, _ => 255) + [0], 0, k);
  }

  lemma {:induction false} FullRun(src: seq<byte>, i: nat, k: nat)
    requires i <= k && |src| == k + 1 && src[k] == 0 && forall j :: 0 <= j < k ==> src[j] == 255
    ensures ReadExtension(src, i) == Some(Field(255 * (k - i), k + 1))
    decreases k - i
  {
    if i < k {
      FullRun(src, i + 1, k);
    }
  }

  // ---------- history ----------

  lemma {:induction false} CopyMatchShift(a: seq<byte>, w: seq<byte>, offset: nat, len: nat)
    requires offset <= |w|
    ensures CopyMatch(a + w, offset, len) == a + CopyMatch(w, offset, len)
    decreases len
  {
    if len > 0 {
      assert CopiedByte(a + w, offset) == CopiedByte(w, offset);
      assert (a + w) + [CopiedByte(w, offset)] == a + (w + [CopiedByte(w, offset)]);
      CopyMatchShift(a, w + [CopiedByte(w, offset)], offset, len - 1);
    }
  }

  /** Puts something in front of a decoding. */
  function InFront(a: seq<byte>, r: Option<seq<byte>>): Option<seq<byte>> {
    match r
    case None => None
    case Some(z) => Some(a + z)
  }

  /**
    More history in front never changes what a decodable block decodes to; and once 65535
    bytes of history are there, it cannot make a block decodable either.
   */
  lemma {:induction false} HistoryInFront(src: seq<byte>, i: nat, a: seq<byte>, w: seq<byte>, exact: bool)
    requires i <= |src|
    ensures DecodeSeq(src, i, w, exact).Some? || |w| >= DISTANCE_MAX ==>
      DecodeSeq(src, i, a + w, exact) == InFront(a, DecodeSeq(src, i, w, exact))
    decreases |src| - i
  {
    hide DecodeSeq, ReadLength, CopyMatch;
    if i == |src| {
      EndOfInput(src, w, exact);
      EndOfInput(src, a + w, exact);
      return;
    }
    var f := ReadLength(src, i + 1, src[i] / 16, exact);
    if f.None? || f.value.next + f.value.value >= |src| {
      LastSequence(src, i, w, exact);
      LastSequence(src, i, a + w, exact);
      if f.Some? && f.value.next + f.value.value == |src| {
        assert (a + w) + src[f.value.next..] == a + (w + src[f.value.next..]);
      }
      return;
    }
    var k := f.value.next + f.value.value;
    if k + 2 > |src| || ReadLength(src, k + 2, src[i] % 16, exact).None? {
      CutSequence(src, i, w, f.value, exact);
      CutSequence(src, i, a + w, f.value, exact);
      return;
    }
    var ml := ReadLength(src, k + 2, src[i] % 16, exact).value;
    var offset := Le16(src[k], src[k + 1]);
    var lits := w + src[f.value.next..k];
    if offset <= |lits| {
      HistoryInFront(src, ml.next, a, CopyMatch(lits, offset, ml.value + MINMATCH), exact);
    }
    SequenceInFront(src, i, a, w, exact, f.value, ml);
  }

  /** One sequence, with more history in front. */
  lemma SequenceInFront(src: seq<byte>, i: nat, a: seq<byte>, w: seq<byte>, exact: bool, ll: Field, ml: Field)
    requires i < |src| && ReadLength(src, i + 1, src[i] / 16, exact) == Some(ll)
    requires ll.next + ll.value + 2 <= |src| && ReadLength(src, ll.next + ll.value + 2, src[i] % 16, exact) == Some(ml)
    ensures var k := ll.next + ll.value;
      var offset := Le16(src[k], src[k + 1]);
      var lits := w + src[ll.next..k];
      if offset > |lits| then DecodeSeq(src, i, w, exact) == None && offset > |w|
      else
        var next := CopyMatch(lits, offset, ml.value + MINMATCH);
        && DecodeSeq(src, i, w, exact) == DecodeSeq(src, ml.next, next, exact)
        && DecodeSeq(src, i, a + w, exact) == DecodeSeq(src, ml.next, a + next, exact)
  {
    hide DecodeSeq;
    var k := ll.next + ll.value;
    var offset := Le16(src[k], src[k + 1]);
    var lits := w + src[ll.next..k];
    DecodeStep(src, i, w, exact, ll, ml);
    DecodeStep(src, i, a + w, exact, ll, ml);
    assert (a + w) + src[ll.next..k] == a + lits;
    if offset <= |lits| {
      CopyMatchShift(a, lits, offset, ml.value + MINMATCH);
    }
  }

  lemma EndOfInput(src: seq<byte>, out: seq<byte>, exact: bool)
    ensures DecodeSeq(src, |src|, out, exact) == None
  {
  }

  lemma LastSequence(src: seq<byte>, i: nat, out: seq<byte>, exact: bool)
    requires i < |src|
    ensures var f := ReadLength(src, i + 1, src[i] / 16, exact);
      f.None? || f.value.next + f.value.value >= |src| ==>
        DecodeSeq(src, i, out, exact) ==
          if f.Some? && f.value.next + f.value.value == |src| then Some(out + src[f.value.next..]) else None
  {
  }

  /** The restrictions do not depend on history either, except that offsets must reach into it. */
  lemma {:induction false} ConformsWithHistory(src: seq<byte>, i: nat, n: nat, n': nat, size: nat)
    requires i <= |src| && ConformsSeq(src, i, n, n + size)
    requires n <= n' || n' >= DISTANCE_MAX
    ensures ConformsSeq(src, i, n', n' + size)
    decreases |src| - i
  {
    hide ConformsSeq;
    ConformsStep(src, i, n, n + size);
    var ll := ReadLength(src, i + 1, src[i] / 16, true).value;
    var k := ll.next + ll.value;
    if k < |src| {
      var ml := ReadLength(src, k + 2, src[i] % 16, true).value;
      var made := ll.value + ml.value + MINMATCH;
      ConformsWithHistory(src, ml.next, n + made, n' + made, size - made);
      ConformsUnstep(src, i, n', n' + size, ll, ml);
    } else {
      ConformsEnd(src, i, n', n' + size, ll);
    }
  }

  lemma ConformsUnstep(src: seq<byte>, i: nat, n: nat, total: nat, ll: Field, ml: Field)
    requires i < |src| && ReadLength(src, i + 1, src[i] / 16, true) == Some(ll)
    requires ll.next + ll.value + 2 <= |src| && ReadLength(src, ll.next + ll.value + 2, src[i] % 16, true) == Some(ml)
    requires n + ll.value + MFLIMIT <= total
    requires 1 <= Le16(src[ll.next + ll.value], src[ll.next + ll.value + 1]) <= n + ll.value
    requires n + ll.value + ml.value + MINMATCH + LASTLITERALS <= total
    requires ConformsSeq(src, ml.next, n + ll.value + ml.value + MINMATCH, total)
    ensures ConformsSeq(src, i, n, total)
  {
    var k := ll.next + ll.value;
    assert ConformsCopy(src, ml.next, Le16(src[k], src[k + 1]), ml.value + MINMATCH, n + ll.value, total);
    assert ConformsOffset(src, k, src[i] % 16, n + ll.value, total);
    assert ConformsLits(src, ll.next, src[i] % 16, ll.value, n, total);
  }

  lemma ConformsEnd(src: seq<byte>, i: nat, n: nat, total: nat, ll: Field)
    requires i < |src| && ReadLength(src, i + 1, src[i] / 16, true) == Some(ll)
    requires ll.next + ll.value == |src| && src[i] % 16 == 0 && n + ll.value == total
    ensures ConformsSeq(src, i, n, total)
  {
  }
}
