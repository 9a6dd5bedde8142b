/**
  How a block is built from a parse of the data: a list of sequences, each a number of literals
  followed by a match. Any parse whose matches are genuine encodes to a conforming block that
  decodes to the data, whoever found the matches.
 */
module BlockEncoding {
  import opened Bytes
  import opened BlockFormat

  /** `lits` literal bytes, then `len` bytes that repeat what lies `offset` bytes back. */
  datatype Sequence = Sequence(lits: nat, offset: nat, len: nat)

  type Parse = seq<Sequence>

  /** The position reached by a parse that starts at `from`. */
  function EndOf(from: nat, p: Parse): (e: nat)
    ensures from <= e
  {
    if p == [] then from
    else EndOf(from, p[..|p| - 1]) + p[|p| - 1].lits + p[|p| - 1].len
  }

  /** The bytes [i, i + len) of `w` repeat those `offset` bytes earlier. */
  ghost predicate RealMatch(w: seq<byte>, i: nat, offset: nat, len: nat)
    requires offset <= i && i + len <= |w|
  {
    forall k :: i <= k < i + len ==> w[k] == w[k - offset]
  }

  /** A sequence whose literals start at `a`, within the restrictions of the format. */
  ghost predicate GenuineAt(w: seq<byte>, a: nat, s: Sequence) {
    && a + s.lits + MFLIMIT <= |w|
    && MINMATCH <= s.len && a + s.lits + s.len + LASTLITERALS <= |w|
    && 1 <= s.offset <= Min(DISTANCE_MAX, a + s.lits)
    && RealMatch(w, a + s.lits, s.offset, s.len)
  }

  /** A parse of `w` from `from` on, the bytes before being history. */
  ghost predicate Genuine(w: seq<byte>, from: nat, p: Parse) {
    p == [] ||
    (Genuine(w, from, p[..|p| - 1]) && GenuineAt(w, EndOf(from, p[..|p| - 1]), p[|p| - 1]))
  }

  lemma GenuineStaysInside(w: seq<byte>, from: nat, p: Parse)
    requires from <= |w| && Genuine(w, from, p)
    ensures EndOf(from, p) <= |w|
  {
    hide RealMatch;
  }

  // ---------- encoding ----------

  /** 255 as often as it fits, then the rest. */
  function LengthExtension(n: nat): (s: seq<byte>)
    ensures |s| == n / 255 + 1
  {
    if n < 255 then [n] else [255] + LengthExtension(n - 255)
  }

  /** What follows the 4-bit length field. */
  function LengthTail(n: nat): (s: seq<byte>)
    ensures |s| == if n < 15 then 0 else (n - 15) / 255 + 1
  {
    if n < 15 then [] else LengthExtension(n - 15)
  }

  function Token(lits: nat, matchCode: nat): byte {
    16 * Min(lits, 15) + Min(matchCode, 15)
  }

  function EncodeSequence(w: seq<byte>, a: nat, s: Sequence): seq<byte>
    requires a + s.lits <= |w| && s.len >= MINMATCH && s.offset <= DISTANCE_MAX
  {
    [Token(s.lits, s.len - MINMATCH)]
      + (LengthTail(s.lits) + (w[a..a + s.lits] + EncodeMatch(s.offset, s.len - MINMATCH)))
  }

  function EncodeMatch(offset: nat, matchCode: nat): seq<byte>
    requires offset <= DISTANCE_MAX
  {
    [offset % 0x100, offset / 0x100] + LengthTail(matchCode)
  }

  function EncodeLast(lits: seq<byte>): seq<byte> {
    [Token(|lits|, 0)] + (LengthTail(|lits|) + lits)
  }

  ghost function EncodeParse(w: seq<byte>, from: nat, p: Parse): seq<byte>
    requires from <= |w| && Genuine(w, from, p)
  {
    if p == [] then []
    else EncodeParse(w, from, p[..|p| - 1]) + EncodeSequence(w, EndOf(from, p[..|p| - 1]), p[|p| - 1])
  }

  ghost function EncodeBlock(w: seq<byte>, from: nat, p: Parse): seq<byte>
    requires from <= |w| && Genuine(w, from, p)
  {
    GenuineStaysInside(w, from, p);
    EncodeParse(w, from, p) + EncodeLast(w[EndOf(from, p)..])
  }

  /** One more genuine sequence at the end of a parse. */
  lemma AppendSequence(w: seq<byte>, from: nat, p: Parse, s: Sequence)
    requires from <= |w| && Genuine(w, from, p) && GenuineAt(w, EndOf(from, p), s)
    ensures Genuine(w, from, p + [s]) && EndOf(from, p + [s]) == EndOf(from, p) + s.lits + s.len
    ensures EncodeParse(w, from, p + [s]) == EncodeParse(w, from, p) + EncodeSequence(w, EndOf(from, p), s)
  {
    hide GenuineAt, EncodeSequence;
    var q := p + [s];
    assert q[..|q| - 1] == p && q[|q| - 1] == s;
  }

  // ---------- reading it back ----------

  lemma {:induction false} ReadExtensionBack(src: seq<byte>, i: nat, n: nat)
    requires i + |LengthExtension(n)| <= |src| && src[i..i + |LengthExtension(n)|] == LengthExtension(n)
    ensures ReadExtension(src, i) == Some(Field(n, i + |LengthExtension(n)|))
    decreases n
  {
    var e := LengthExtension(n);
    assert src[i] == e[0];
    if n >= 255 {
      assert src[i + 1..i + |e|] == e[1..] == LengthExtension(n - 255);
      ReadExtensionBack(src, i + 1, n - 255);
    }
  }

  lemma ReadLengthBack(src: seq<byte>, i: nat, n: nat)
    requires i + |LengthTail(n)| <= |src| && src[i..i + |LengthTail(n)|] == LengthTail(n)
    ensures ReadLength(src, i, Min(n, 15), true) == Some(Field(n, i + |LengthTail(n)|))
  {
    if n >= 15 {
      ReadExtensionBack(src, i, n - 15);
    }
  }

  /** `piece` stands at position `i` of `src`. */
  predicate At(src: seq<byte>, i: nat, piece: seq<byte>) {
    i + |piece| <= |src| && src[i..i + |piece|] == piece
  }

  lemma AtBoth(src: seq<byte>, i: nat, a: seq<byte>, b: seq<byte>)
    requires At(src, i, a + b)
    ensures At(src, i, a) && At(src, i + |a|, b)
  {
    var t := src[i..i + |a + b|];
    assert t[..|a|] == a && t[|a|..] == b;
    assert src[i..i + |a|] == t[..|a|];
    assert src[i + |a|..i + |a| + |b|] == t[|a|..];
  }

  lemma LiteralsReadBack(src: seq<byte>, i: nat, matchCode: nat, lits: seq<byte>, rest: seq<byte>)
    requires At(src, i, [Token(|lits|, matchCode)] + (LengthTail(|lits|) + (lits + rest)))
    ensures var f := Field(|lits|, i + 1 + |LengthTail(|lits|)|);
      && src[i] == Token(|lits|, matchCode) && src[i] / 16 == Min(|lits|, 15) && src[i] % 16 == Min(matchCode, 15)
      && ReadLength(src, i + 1, src[i] / 16, true) == Some(f)
      && At(src, f.next, lits) && At(src, f.next + |lits|, rest)
  {
    var t, tail := [Token(|lits|, matchCode)], LengthTail(|lits|);
    AtBoth(src, i, t, tail + (lits + rest));
    assert src[i] == src[i..i + 1][0] == t[0];
    AtBoth(src, i + 1, tail, lits + rest);
    AtBoth(src, i + 1 + |tail|, lits, rest);
    ReadLengthBack(src, i + 1, |lits|);
  }

  lemma MatchReadBack(src: seq<byte>, k: nat, offset: nat, matchCode: nat)
    requires offset <= DISTANCE_MAX && At(src, k, EncodeMatch(offset, matchCode))
    ensures k + 2 <= |src| && Le16(src[k], src[k + 1]) == offset
    ensures ReadLength(src, k + 2, Min(matchCode, 15), true) == Some(Field(matchCode, k + 2 + |LengthTail(matchCode)|))
  {
    var off: seq<byte> := [offset % 0x100, offset / 0x100];
    AtBoth(src, k, off, LengthTail(matchCode));
    assert src[k] == src[k..k + 2][0] == off[0] && src[k + 1] == src[k..k + 2][1] == off[1];
    ReadLengthBack(src, k + 2, matchCode);
  }

  lemma SequenceReadBack(src: seq<byte>, i: nat, w: seq<byte>, a: nat, s: Sequence)
    requires GenuineAt(w, a, s) && At(src, i, EncodeSequence(w, a, s))
    ensures var j, code := i + |EncodeSequence(w, a, s)|, s.len - MINMATCH;
      var ll := Field(s.lits, j - 2 - |LengthTail(code)| - s.lits);
      var k := ll.next + s.lits;
      && i < ll.next && k + 2 <= j <= |src|
      && ReadLength(src, i + 1, src[i] / 16, true) == Some(ll)
      && ReadLength(src, k + 2, src[i] % 16, true) == Some(Field(code, j))
      && src[ll.next..k] == w[a..a + s.lits] && Le16(src[k], src[k + 1]) == s.offset
  {
    hide ReadLength, LengthTail, EncodeMatch, RealMatch;
    var code := s.len - MINMATCH;
    var lits := w[a..a + s.lits];
    LiteralsReadBack(src, i, code, lits, EncodeMatch(s.offset, code));
    MatchReadBack(src, i + 1 + |LengthTail(s.lits)| + s.lits, s.offset, code);
    MatchSize(s.offset, code);
  }

  lemma GenuineFacts(w: seq<byte>, a: nat, s: Sequence)
    requires GenuineAt(w, a, s)
    ensures a + s.lits + MFLIMIT <= |w| && MINMATCH <= s.len && a + s.lits + s.len + LASTLITERALS <= |w|
    ensures 1 <= s.offset <= a + s.lits && s.offset <= DISTANCE_MAX && a + s.lits + s.len <= |w|
    ensures CopyMatch(w[..a + s.lits], s.offset, s.len) == w[..a + s.lits + s.len]
    ensures w[..a] + w[a..a + s.lits] == w[..a + s.lits]
  {
    MatchIsCopy(w, a + s.lits, s.offset, s.len);
  }

  /**
    Decoding a genuine sequence extends the data by exactly that sequence, and restrictions carry
    backwards over it.
   */
  lemma SequenceDecodes(src: seq<byte>, i: nat, w: seq<byte>, a: nat, s: Sequence)
    requires GenuineAt(w, a, s) && At(src, i, EncodeSequence(w, a, s))
    ensures var j, end := i + |EncodeSequence(w, a, s)|, a + s.lits + s.len;
      && j <= |src| && end <= |w|
      && DecodeSeq(src, i, w[..a], true) == DecodeSeq(src, j, w[..end], true)
      && (ConformsSeq(src, j, end, |w|) ==> ConformsSeq(src, i, a, |w|))
  {
    hide *;
    GenuineFacts(w, a, s);
    SequenceReadBack(src, i, w, a, s);
    var j, code := i + |EncodeSequence(w, a, s)|, s.len - MINMATCH;
    var ll := Field(s.lits, j - 2 - |LengthTail(code)| - s.lits);
    DecodeStep(src, i, w[..a], true, ll, Field(code, j));
    if ConformsSeq(src, j, a + s.lits + s.len, |w|) {
      ConformsUnstep(src, i, a, |w|, ll, Field(code, j));
    }
  }

  lemma MatchSize(offset: nat, matchCode: nat)
    requires offset <= DISTANCE_MAX
    ensures |EncodeMatch(offset, matchCode)| == 2 + |LengthTail(matchCode)|
  {
  }

  /** A real match is what the byte-at-a-time copy produces. */
  lemma MatchIsCopy(w: seq<byte>, i: nat, offset: nat, len: nat)
    requires 1 <= offset <= i && i + len <= |w| && RealMatch(w, i, offset, len)
    ensures CopyMatch(w[..i], offset, len) == w[..i + len]
  {
    assert w[..i + len][..i] == w[..i];
    SelfReferenceIsCopy(w[..i], offset, w[..i + len]);
  }

  lemma LastDecodes(src: seq<byte>, i: nat, w: seq<byte>, a: nat)
    requires a <= |w| && i <= |src| && src[i..] == EncodeLast(w[a..])
    ensures DecodeSeq(src, i, w[..a], true) == Some(w)
    ensures ConformsSeq(src, i, a, |w|)
  {
    hide *;
    var n := |w| - a;
    LastReadBack(src, i, w[a..]);
    var ll := Field(n, |src| - n);
    assert w[..a] + w[a..] == w;
    LastSequence(src, i, w[..a], true);
    ConformsEnd(src, i, a, |w|, ll);
  }

  lemma LastReadBack(src: seq<byte>, i: nat, lits: seq<byte>)
    requires i <= |src| && src[i..] == EncodeLast(lits)
    ensures i < |src| && |lits| <= |src| && src[i] % 16 == 0 && src[|src| - |lits|..] == lits
    ensures ReadLength(src, i + 1, src[i] / 16, true) == Some(Field(|lits|, |src| - |lits|))
  {
    hide ReadLength, LengthTail;
    assert src[i..i + |EncodeLast(lits)|] == src[i..];
    assert lits + [] == lits;
    LiteralsReadBack(src, i, 0, lits, []);
    assert src[|src| - |lits|..] == src[|src| - |lits|..|src| - |lits| + |lits|];
  }

  lemma {:induction false} ParseDecodes(src: seq<byte>, w: seq<byte>, from: nat, p: Parse)
    requires from <= |w| && Genuine(w, from, p)
    requires At(src, 0, EncodeParse(w, from, p))
    ensures EndOf(from, p) <= |w|
    ensures var j := |EncodeParse(w, from, p)|;
      && DecodeSeq(src, 0, w[..from], true) == DecodeSeq(src, j, w[..EndOf(from, p)], true)
      && (ConformsSeq(src, j, EndOf(from, p), |w|) ==> ConformsSeq(src, 0, from, |w|))
    decreases |p|
  {
    hide DecodeSeq, ConformsSeq, GenuineAt, EncodeSequence;
    GenuineStaysInside(w, from, p);
    if p != [] {
      var q, s := p[..|p| - 1], p[|p| - 1];
      var a, i := EndOf(from, q), |EncodeParse(w, from, q)|;
      GenuineFacts(w, a, s);
      var e := EncodeSequence(w, a, s);
      assert EncodeParse(w, from, p) == EncodeParse(w, from, q) + e;
      AtBoth(src, 0, EncodeParse(w, from, q), e);
      ParseDecodes(src, w, from, q);
      SequenceDecodes(src, i, w, a, s);
    }
  }

  /**
    The encoder side of the round trip: a genuine parse encodes to a conforming block, and the
    reference decoder, given the history, returns the data.
   */
  lemma GenuineParseRoundTrip(w: seq<byte>, from: nat, p: Parse)
    requires from <= |w| && Genuine(w, from, p)
    ensures Decode(EncodeBlock(w, from, p), w[..from], true) == Some(w)
    ensures Conforms(EncodeBlock(w, from, p), from, |w| - from)
  {
    hide DecodeSeq, ConformsSeq;
    GenuineStaysInside(w, from, p);
    var src, head := EncodeBlock(w, from, p), EncodeParse(w, from, p);
    assert src[0..|head|] == head;
    ParseDecodes(src, w, from, p);
    assert src[|head|..] == EncodeLast(w[EndOf(from, p)..]);
    LastDecodes(src, |head|, w, EndOf(from, p));
  }

  // ---------- size ----------

  /** A sequence costs at most the bytes it covers, plus one for every 255 literals. */
  lemma SequenceSize(w: seq<byte>, a: nat, s: Sequence)
    requires GenuineAt(w, a, s)
    ensures |EncodeSequence(w, a, s)| <= s.lits + s.len + s.lits / 255
  {
  }

  /** The worst case of a whole block: no byte is written twice as often as the format's bound allows. */
  lemma {:induction false} ParseSize(w: seq<byte>, from: nat, p: Parse)
    requires from <= |w| && Genuine(w, from, p)
    ensures var n := EndOf(from, p) - from; |EncodeParse(w, from, p)| <= n + n / 255
  {
    if p != [] {
      var q, s := p[..|p| - 1], p[|p| - 1];
      ParseSize(w, from, q);
      SequenceSize(w, EndOf(from, q), s);
      var m := EndOf(from, q) - from;
      assert m / 255 + s.lits / 255 <= (m + s.lits + s.len) / 255;
    }
  }

  lemma BlockSize(w: seq<byte>, from: nat, p: Parse)
    requires from <= |w| && Genuine(w, from, p)
    ensures var n := |w| - from; |EncodeBlock(w, from, p)| <= n + n / 255 + 2
  {
    GenuineStaysInside(w, from, p);
    ParseSize(w, from, p);
    var m, last := EndOf(from, p) - from, |w| - EndOf(from, p);
    assert m / 255 + last / 255 <= (m + last) / 255;
  }
}
