/**
  What a stream decodes to, from the frame's start or from any point inside it: the frame ends, the
  input runs out before that, or there is no frame. `strict` asks for blocks that keep the block
  format's restrictions; without it every block counts that the byte-at-a-time decoder of the C
  code's arithmetic can read.
 */
module FrameReference {
  import opened Bytes
  import opened BlockFormat
  import opened FrameFormat
  import XxHash32

  /**
    A frame being decoded: its header, the dictionary given from outside, the content so far, and
    the count of missing bytes that an earlier, abandoned frame left behind.
   */
  datatype Frame = Frame(info: FrameInfo, base: seq<byte>, out: seq<byte>, stale: nat) {
    function Add(more: seq<byte>): Frame {
      this.(out := out + more)
    }

    /** What the next block may refer to. */
    function History(): seq<byte> {
      if info.linked then base + out else base
    }

    /** frameRemainingSize: counted down in 64 bits when the header announces a size. */
    function Remaining(): nat {
      if info.contentSize != 0 then (info.contentSize - |out|) % WRAP64 else stale
    }

    /** The size of a stored block together with its checksum. */
    function WithChecksum(n: nat): nat {
      n + 4 * Bit(info.blockChecksum)
    }
  }

  /** A frame and the input behind it; or the content of what there is of a frame; or no frame, whatever follows. */
  datatype Outcome = Ended(content: seq<byte>, rest: seq<byte>) | RanOut(content: seq<byte>) | Malformed

  /** The content of one compressed block, at most the frame's maximum block size. */
  function BlockContent(strict: bool, f: Frame, payload: seq<byte>): (r: Option<seq<byte>>)
    ensures r.Some? ==> |r.value| <= f.info.MaxBlock()
  {
    var h := f.History();
    match Decode(payload, h, strict)
    case None => None
    case Some(all) =>
      var n := |all| - |h|;
      if n > f.info.MaxBlock() || (strict && !Conforms(payload, |h|, n)) then None else Some(all[|h|..])
  }

  function Blocks(strict: bool, f: Frame, s: seq<byte>): (r: Outcome)
    decreases |s|, 1
  {
    if |s| < 4 then RanOut(f.out)
    else
      var h := Read32(s, 0);
      var size := h % RAW_FLAG;
      if h == 0 then Suffix(f, s[4..])
      else if size > f.info.MaxBlock() then Malformed
      else if h >= RAW_FLAG then Raw(strict, f, size, [], s[4..])
      else Compressed(strict, f, f.WithChecksum(size), s[4..])
  }

  /** `left` bytes of a raw block are still to come; `block` is the part that has already been read. */
  function Raw(strict: bool, f: Frame, left: nat, block: seq<byte>, s: seq<byte>): (r: Outcome)
    decreases |s|, 3
  {
    if |s| < left then RanOut(f.out + s)
    else RawChecksum(strict, f.Add(s[..left]), block + s[..left], s[left..])
  }

  function RawChecksum(strict: bool, f: Frame, block: seq<byte>, s: seq<byte>): (r: Outcome)
    decreases |s|, 2
  {
    if !f.info.blockChecksum then Blocks(strict, f, s)
    else if |s| < 4 then RanOut(f.out)
    else if Read32(s, 0) != XxHash32.Hash(block, 0) then Malformed
    else Blocks(strict, f, s[4..])
  }

  /** A compressed block of `size` bytes, its checksum included. */
  function Compressed(strict: bool, f: Frame, size: nat, s: seq<byte>): (r: Outcome)
    decreases |s|, 2
  {
    if |s| < size then RanOut(f.out)
    else if size < f.WithChecksum(0) then Malformed
    else
      match BlockAt(strict, f, s[..size])
      case None => Malformed
      case Some(content) => Blocks(strict, f.Add(content), s[size..])
  }

  /** The stored block `b`: checksum, then content. */
  function BlockAt(strict: bool, f: Frame, b: seq<byte>): (r: Option<seq<byte>>)
    requires f.WithChecksum(0) <= |b|
  {
    var n := |b| - f.WithChecksum(0);
    if f.info.blockChecksum && Read32(b, n) != XxHash32.Hash(b[..n], 0) then None
    else BlockContent(strict, f, b[..n])
  }

  function Suffix(f: Frame, s: seq<byte>): (r: Outcome)
  {
    if f.Remaining() != 0 then Malformed
    else if !f.info.contentChecksum then Ended(f.out, s)
    else if |s| < 4 then RanOut(f.out)
    else if Read32(s, 0) != XxHash32.Hash(f.out, 0) then Malformed
    else Ended(f.out, s[4..])
  }

  function SkipSize(s: seq<byte>): (r: Outcome) {
    if |s| < 4 then RanOut([]) else Skip(Read32(s, 0), s[4..])
  }

  function Skip(left: nat, s: seq<byte>): (r: Outcome) {
    if |s| < left then RanOut([]) else Ended([], s[left..])
  }

  function FrameFrom(strict: bool, stale: nat, base: seq<byte>, s: seq<byte>): (r: Outcome) {
    if |s| < HEADER_MIN then RanOut([])
    else
      match ParseHeader(s)
      case Bad(_) => Malformed
      case Short(_) => RanOut([])
      case Skippable => SkipSize(s[4..])
      case Good(info, sizeGiven, size) =>
        Blocks(strict, Frame(info, base, [], if sizeGiven then 0 else stale), s[size..])
  }

  // ---------- points inside a frame ----------

  /** Where a decoder stands; `pending` is input it has taken but not yet interpreted. */
  datatype Point =
    | AtHeader(stale: nat, base: seq<byte>, pending: seq<byte>)
    | AtSkipSize(pending: seq<byte>)
    | Skipping(left: nat)
    | AtBlock(f: Frame, pending: seq<byte>)
    | InRaw(f: Frame, left: nat, block: seq<byte>)
    | AtRawChecksum(f: Frame, block: seq<byte>, pending: seq<byte>)
    | InBlock(f: Frame, size: nat, pending: seq<byte>)
    | AtSuffix(f: Frame, pending: seq<byte>)

  function Run(strict: bool, p: Point, s: seq<byte>): Outcome {
    match p
    case AtHeader(stale, base, pending) => FrameFrom(strict, stale, base, pending + s)
    case AtSkipSize(pending) => SkipSize(pending + s)
    case Skipping(left) => Skip(left, s)
    case AtBlock(f, pending) => Blocks(strict, f, pending + s)
    case InRaw(f, left, block) => Raw(strict, f, left, block, s)
    case AtRawChecksum(f, block, pending) => RawChecksum(strict, f, block, pending + s)
    case InBlock(f, size, pending) => Compressed(strict, f, size, pending + s)
    case AtSuffix(f, pending) => Suffix(f, pending + s)
  }

  /** Going on from `q` with `t` is as good as going on from `p` with `s`. */
  predicate Leads(p: Point, s: seq<byte>, q: Point, t: seq<byte>) {
    && Run(false, p, s) == Run(false, q, t)
    && (Run(true, p, s) != Malformed ==> Run(true, q, t) == Run(true, p, s))
  }

  /** From `p` the frame ends in front of `t`, with this content. */
  predicate Ends(p: Point, s: seq<byte>, content: seq<byte>, t: seq<byte>) {
    && Run(false, p, s) == Ended(content, t)
    && (Run(true, p, s) != Malformed ==> Run(true, p, s) == Ended(content, t))
  }

  /** An error is right: no well-formed frame goes on here, and unless a block failed to decode, no frame at all. */
  predicate Stuck(e: Error, p: Point, s: seq<byte>) {
    && Run(true, p, s) == Malformed
    && (!e.DecompressionFailed? && !e.Generic? ==> Run(false, p, s) == Malformed)
  }

  lemma Stays(p: Point, s: seq<byte>)
    ensures Leads(p, s, p, s)
  {
    hide Run;
  }

  lemma LeadsTransitive(p: Point, s: seq<byte>, q: Point, t: seq<byte>, r: Point, u: seq<byte>)
    requires Leads(p, s, q, t) && Leads(q, t, r, u)
    ensures Leads(p, s, r, u)
  {
    hide Run;
  }

  lemma LeadsToEnd(p: Point, s: seq<byte>, q: Point, t: seq<byte>, content: seq<byte>, u: seq<byte>)
    requires Leads(p, s, q, t) && Ends(q, t, content, u)
    ensures Ends(p, s, content, u)
  {
    hide Run;
  }

  lemma LeadsToError(e: Error, p: Point, s: seq<byte>, q: Point, t: seq<byte>)
    requires Leads(p, s, q, t) && Stuck(e, q, t)
    ensures Stuck(e, p, s)
  {
    hide Run;
  }

  // ---------- strict decoding is decoding ----------

  lemma {:induction false} StrictBlocks(f: Frame, s: seq<byte>)
    requires Blocks(true, f, s) != Malformed
    ensures Blocks(false, f, s) == Blocks(true, f, s)
    decreases |s|, 1
  {
    hide BlockAt, Suffix, Raw, Compressed;
    if |s| >= 4 {
      var h := Read32(s, 0);
      if h >= RAW_FLAG {
        StrictRaw(f, h % RAW_FLAG, [], s[4..]);
      } else if h != 0 {
        StrictCompressed(f, f.WithChecksum(h % RAW_FLAG), s[4..]);
      }
    }
  }

  lemma {:induction false} StrictRaw(f: Frame, left: nat, block: seq<byte>, s: seq<byte>)
    requires Raw(true, f, left, block, s) != Malformed
    ensures Raw(false, f, left, block, s) == Raw(true, f, left, block, s)
    decreases |s|, 3
  {
    if |s| >= left {
      StrictRawChecksum(f.Add(s[..left]), block + s[..left], s[left..]);
    }
  }

  lemma {:induction false} StrictRawChecksum(f: Frame, block: seq<byte>, s: seq<byte>)
    requires RawChecksum(true, f, block, s) != Malformed
    ensures RawChecksum(false, f, block, s) == RawChecksum(true, f, block, s)
    decreases |s|, 2
  {
    hide Blocks, XxHash32.Hash;
    if !f.info.blockChecksum {
      StrictBlocks(f, s);
    } else if |s| >= 4 {
      StrictBlocks(f, s[4..]);
    }
  }

  lemma {:induction false} StrictCompressed(f: Frame, size: nat, s: seq<byte>)
    requires Compressed(true, f, size, s) != Malformed
    ensures Compressed(false, f, size, s) == Compressed(true, f, size, s)
    decreases |s|, 2
  {
    hide Blocks, XxHash32.Hash, BlockContent;
    if |s| >= size {
      var b := s[..size];
      StrictBlock(f, b[..|b| - f.WithChecksum(0)]);
      StrictBlocks(f.Add(BlockAt(true, f, b).value), s[size..]);
    }
  }

  lemma StrictBlock(f: Frame, payload: seq<byte>)
    ensures BlockContent(true, f, payload).Some? ==> BlockContent(false, f, payload) == BlockContent(true, f, payload)
  {
    hide DecodeSeq, ConformsSeq;
    if BlockContent(true, f, payload).Some? {
      var h := f.History();
      var all := Decode(payload, h, true).value;
      ConformingIgnoresWidth(payload, 0, h, |all|);
    }
  }

  /** What the strict decoder accepts, the other one decodes alike. */
  lemma StrictRun(p: Point, s: seq<byte>)
    requires Run(true, p, s) != Malformed
    ensures Run(false, p, s) == Run(true, p, s)
  {
    hide Blocks, Raw, RawChecksum, Compressed, Suffix, SkipSize, ParseHeader, Skip;
    match p {
      case AtHeader(stale, base, pending) =>
        var h := ParseHeader(pending + s);
        if |pending + s| >= HEADER_MIN && h.Good? {
          StrictBlocks(Frame(h.info, base, [], if h.sizeGiven then 0 else stale), (pending + s)[h.size..]);
        }
      case AtBlock(f, pending) => StrictBlocks(f, pending + s);
      case InRaw(f, left, block) => StrictRaw(f, left, block, s);
      case AtRawChecksum(f, block, pending) => StrictRawChecksum(f, block, pending + s);
      case InBlock(f, size, pending) => StrictCompressed(f, size, pending + s);
      case AtSkipSize(_) =>
      case Skipping(_) =>
      case AtSuffix(_, _) =>
    }
  }

  lemma ContentDecoded(f: Frame, payload: seq<byte>, content: seq<byte>)
    requires Decode(payload, f.History(), false) == Some(f.History() + content) && |content| <= f.info.MaxBlock()
    ensures BlockContent(false, f, payload) == Some(content)
  {
    hide Decode, Conforms, Frame.History;
    assert (f.History() + content)[|f.History()|..] == content;
  }

  /** What the strict decoder accepts has the size that the restrictions are about. */
  lemma StrictContent(f: Frame, payload: seq<byte>)
    ensures match BlockContent(true, f, payload)
      case Some(content) => Conforms(payload, |f.History()|, |content|) && |content| < 0x1_0000_0000
      case None => true
  {
    hide Decode, Conforms, Frame.History;
  }

  // ---------- single steps ----------

  /** The point with `x` taken in but not interpreted. */
  function Taken(p: Point, x: seq<byte>): Point
    requires !p.Skipping? && !p.InRaw?
  {
    p.(pending := p.pending + x)
  }

  lemma TakeIn(p: Point, x: seq<byte>, t: seq<byte>)
    requires !p.Skipping? && !p.InRaw?
    ensures Leads(p, x + t, Taken(p, x), t)
  {
    hide Blocks, Raw, RawChecksum, Compressed, Suffix, SkipSize, FrameFrom, Skip;
    assert p.pending + (x + t) == p.pending + x + t;
  }

  /** Where a header known in full, in `s`, leads; of a skippable frame's header, `s[4..]` is left. */
  function AfterHeader(stale: nat, base: seq<byte>, h: Header): Point
    requires h.Good? || h.Skippable?
  {
    match h
    case Good(info, sizeGiven, _) => AtBlock(Frame(info, base, [], if sizeGiven then 0 else stale), [])
    case _ => AtSkipSize([])
  }

  lemma HeaderKnown(stale: nat, base: seq<byte>, pending: seq<byte>, u: seq<byte>, s: seq<byte>, t: seq<byte>)
    requires |s| >= HEADER_MIN && !ParseHeader(s).Short? && pending + u == s + t
    ensures var p, h := AtHeader(stale, base, pending), ParseHeader(s);
      if h.Bad? then Stuck(h.error, p, u)
      else Leads(p, u, AfterHeader(stale, base, h), s[if h.Good? then h.size else 4..] + t)
  {
    hide Blocks, SkipSize, ParseHeader;
    HeaderExtends(s, t);
    var h := ParseHeader(s);
    if !h.Bad? {
      var n := if h.Good? then h.size else 4;
      assert (s + t)[n..] == s[n..] + t == [] + (s[n..] + t);
    }
  }

  /** Of a skippable frame's header held whole, four bytes are the beginning of its size. */
  lemma SkippableHeld(stale: nat, base: seq<byte>, pending: seq<byte>, u: seq<byte>, s: seq<byte>, t: seq<byte>)
    requires |s| >= HEADER_MIN && ParseHeader(s).Skippable? && pending + u == s + t
    ensures Leads(AtHeader(stale, base, pending), u, AtSkipSize(s[4..]), t)
  {
    hide SkipSize, ParseHeader, FrameFrom;
    HeaderKnown(stale, base, pending, u, s, t);
    assert [] + (s[4..] + t) == s[4..] + t;
  }

  /** `src` is the beginning of the whole stream. */
  lemma Split(src: seq<byte>, stream: seq<byte>, ip: nat, next: nat)
    requires src <= stream && ip <= next <= |src|
    ensures stream[ip..] == src[ip..next] + stream[next..]
  {
  }

  /** What a block header leads to. */
  function AfterBlockHeader(f: Frame, h: uint32): Point {
    if h == 0 then AtSuffix(f, [])
    else if h >= RAW_FLAG then InRaw(f, h % RAW_FLAG, [])
    else InBlock(f, f.WithChecksum(h % RAW_FLAG), [])
  }

  lemma BlockHeaderKnown(f: Frame, b: seq<byte>, t: seq<byte>)
    requires |b| == 4
    ensures var h := Read32(b, 0);
      if h != 0 && h % RAW_FLAG > f.info.MaxBlock() then Stuck(MaxBlockSizeInvalid, AtBlock(f, b), t)
      else Leads(AtBlock(f, b), t, AfterBlockHeader(f, h), t)
  {
    hide Raw, RawChecksum, Compressed, Suffix, Read32;
    ReadPrefix(b, t, 0);
    assert (b + t)[4..] == t == [] + t;
  }

  lemma RawStep(f: Frame, left: nat, block: seq<byte>, x: seq<byte>, t: seq<byte>)
    requires |x| <= left
    ensures Leads(InRaw(f, left, block), x + t, InRaw(f.Add(x), left - |x|, block + x), t)
  {
    hide RawChecksum;
    var s := x + t;
    if |s| >= left {
      var y := t[..left - |x|];
      assert s[..left] == x + y;
      assert f.out + (x + y) == (f.out + x) + y && block + (x + y) == (block + x) + y;
      assert s[left..] == t[left - |x|..];
    }
  }

  lemma RawDone(f: Frame, block: seq<byte>, t: seq<byte>)
    ensures Leads(InRaw(f, 0, block), t, if f.info.blockChecksum then AtRawChecksum(f, block, []) else AtBlock(f, []),
      t)
  {
    hide Blocks, XxHash32.Hash;
    assert t[..0] == [] && t[0..] == t && block + [] == block && f.out + [] == f.out && [] + t == t;
    assert f.Add(t[..0]) == f;
    forall strict ensures Raw(strict, f, 0, block, t) == RawChecksum(strict, f, block, t) {
    }
  }

  lemma RawChecksumKnown(f: Frame, block: seq<byte>, b: seq<byte>, t: seq<byte>)
    requires f.info.blockChecksum && |b| == 4
    ensures if Read32(b, 0) != XxHash32.Hash(block, 0) then Stuck(BlockChecksumInvalid, AtRawChecksum(f, block, b), t)
      else Leads(AtRawChecksum(f, block, b), t, AtBlock(f, []), t)
  {
    hide Blocks, XxHash32.Hash, Read32;
    ReadPrefix(b, t, 0);
    assert (b + t)[4..] == t == [] + t;
  }

  lemma BlockKnown(f: Frame, b: seq<byte>, t: seq<byte>)
    requires f.WithChecksum(0) <= |b|
    ensures var p := InBlock(f, |b|, b);
      match BlockAt(false, f, b)
      case Some(content) => Leads(p, t, AtBlock(f.Add(content), []), t)
      case None => Run(false, p, t) == Run(true, p, t) == Malformed
    ensures BlockAt(true, f, b) == None ==> Run(true, InBlock(f, |b|, b), t) == Malformed
  {
    hide Blocks, XxHash32.Hash, Read32, BlockContent;
    assert (b + t)[..|b|] == b && (b + t)[|b|..] == t == [] + t;
    StrictBlock(f, b[..|b| - f.WithChecksum(0)]);
  }

  lemma SuffixStep(f: Frame, t: seq<byte>)
    ensures
      if f.Remaining() != 0 then Stuck(FrameSizeWrong, AtSuffix(f, []), t)
      else !f.info.contentChecksum ==> Ends(AtSuffix(f, []), t, f.out, t)
  {
    hide Frame.Remaining;
    assert [] + t == t;
  }

  lemma SuffixKnown(f: Frame, b: seq<byte>, t: seq<byte>)
    requires |b| == 4 && f.Remaining() == 0 && f.info.contentChecksum
    ensures if Read32(b, 0) != XxHash32.Hash(f.out, 0) then Stuck(ContentChecksumInvalid, AtSuffix(f, b), t)
      else Ends(AtSuffix(f, b), t, f.out, t)
  {
    hide Frame.Remaining, XxHash32.Hash, Read32;
    ReadPrefix(b, t, 0);
    assert (b + t)[4..] == t;
  }

  lemma SkipSizeKnown(b: seq<byte>, t: seq<byte>)
    requires |b| == 4
    ensures Leads(AtSkipSize(b), t, Skipping(Read32(b, 0)), t)
  {
    hide Read32;
    ReadPrefix(b, t, 0);
    assert (b + t)[4..] == t;
  }

  lemma SkipStep(left: nat, x: seq<byte>, t: seq<byte>)
    requires |x| <= left
    ensures Leads(Skipping(left), x + t, Skipping(left - |x|), t)
    ensures |x| == left ==> Ends(Skipping(left), x + t, [], t)
  {
    if |x| + |t| >= left {
      assert (x + t)[left..] == t[left - |x|..];
    }
    assert t[0..] == t;
  }

  /** The content up to a point. */
  function ContentAt(p: Point): seq<byte> {
    match p
    case AtHeader(_, _, _) => []
    case AtSkipSize(_) => []
    case Skipping(_) => []
    case _ => p.f.out
  }

  /** Where input is still needed, its end is the end of input, not an error. */
  lemma Truncated(strict: bool, p: Point)
    requires match p
      case AtHeader(_, _, pending) => |pending| < 7 || ParseHeader(pending).Short?
      case InBlock(_, size, pending) => |pending| < size
      case Skipping(left) => left > 0
      case InRaw(_, left, _) => left > 0
      case AtRawChecksum(_, _, pending) => |pending| < 4
      case _ => |p.pending| < 4
    requires p.AtRawChecksum? ==> p.f.info.blockChecksum
    requires p.AtSuffix? ==> p.f.info.contentChecksum && p.f.Remaining() == 0
    ensures Run(strict, p, []) == RanOut(ContentAt(p))
  {
    hide ParseHeader, XxHash32.Hash, Frame.Remaining, BlockAt;
    match p {
      case InRaw(f, _, _) => assert f.out + [] == f.out;
      case Skipping(_) =>
      case _ => assert p.pending + [] == p.pending;
    }
  }

  // ---------- more input ----------

  /** What more input `t` makes of a verdict: only a stream that ran out can change it, and its content stays. */
  predicate Continues(v: Outcome, w: Outcome, t: seq<byte>) {
    match v
    case Ended(content, rest) => w == Ended(content, rest + t)
    case RanOut(content) => w == Malformed || content <= w.content
    case Malformed => w == Malformed
  }

  predicate Carries(f: Frame, v: Outcome) {
    v == Malformed || f.out <= v.content
  }

  lemma {:induction false} MoreBlocks(strict: bool, f: Frame, s: seq<byte>, t: seq<byte>)
    ensures Carries(f, Blocks(strict, f, s))
    ensures Continues(Blocks(strict, f, s), Blocks(strict, f, s + t), t)
    decreases |s| + |t|, 1
  {
    hide BlockAt, Raw, Compressed, Read32;
    var u := s + t;
    if |s| >= 4 {
      ReadPrefix(s, t, 0);
      assert u[4..] == s[4..] + t;
      MoreSuffix(f, s[4..], t);
      var h := Read32(s, 0);
      MoreRaw(strict, f, h % RAW_FLAG, [], s[4..], t);
      MoreCompressed(strict, f, f.WithChecksum(h % RAW_FLAG), s[4..], t);
    } else if |u| >= 4 {
      assert u + [] == u;
      MoreSuffix(f, u[4..], []);
      var h := Read32(u, 0);
      MoreRaw(strict, f, h % RAW_FLAG, [], u[4..], []);
      MoreCompressed(strict, f, f.WithChecksum(h % RAW_FLAG), u[4..], []);
    }
  }

  lemma {:induction false} MoreRaw(strict: bool, f: Frame, left: nat, block: seq<byte>, s: seq<byte>, t: seq<byte>)
    ensures Carries(f, Raw(strict, f, left, block, s))
    ensures Continues(Raw(strict, f, left, block, s), Raw(strict, f, left, block, s + t), t)
    decreases |s| + |t|, 3
  {
    hide RawChecksum;
    var u := s + t;
    if |s| >= left {
      assert u[..left] == s[..left] && u[left..] == s[left..] + t;
      MoreRawChecksum(strict, f.Add(s[..left]), block + s[..left], s[left..], t);
    } else if |u| >= left {
      assert u[left..] + [] == u[left..];
      assert u[..left] == s + t[..left - |s|];
      assert f.out + (s + t[..left - |s|]) == (f.out + s) + t[..left - |s|];
      MoreRawChecksum(strict, f.Add(u[..left]), block + u[..left], u[left..], []);
    } else {
      assert f.out + (s + t) == (f.out + s) + t;
    }
  }

  lemma {:induction false} MoreRawChecksum(strict: bool, f: Frame, block: seq<byte>, s: seq<byte>, t: seq<byte>)
    ensures Carries(f, RawChecksum(strict, f, block, s))
    ensures Continues(RawChecksum(strict, f, block, s), RawChecksum(strict, f, block, s + t), t)
    decreases |s| + |t|, 2
  {
    hide Blocks, XxHash32.Hash, Read32;
    var u := s + t;
    if !f.info.blockChecksum {
      MoreBlocks(strict, f, s, t);
    } else if |s| >= 4 {
      ReadPrefix(s, t, 0);
      assert u[4..] == s[4..] + t;
      MoreBlocks(strict, f, s[4..], t);
    } else if |u| >= 4 {
      assert u[4..] + [] == u[4..];
      MoreBlocks(strict, f, u[4..], []);
    }
  }

  lemma {:induction false} MoreCompressed(strict: bool, f: Frame, size: nat, s: seq<byte>, t: seq<byte>)
    ensures Carries(f, Compressed(strict, f, size, s))
    ensures Continues(Compressed(strict, f, size, s), Compressed(strict, f, size, s + t), t)
    decreases |s| + |t|, 2
  {
    hide Blocks, BlockAt;
    var u := s + t;
    if |s| >= size >= f.WithChecksum(0) {
      assert u[..size] == s[..size] && u[size..] == s[size..] + t;
      var content := BlockAt(strict, f, s[..size]);
      if content.Some? {
        MoreBlocks(strict, f.Add(content.value), s[size..], t);
      }
    } else if |u| >= size >= f.WithChecksum(0) {
      assert u[size..] + [] == u[size..];
      var content := BlockAt(strict, f, u[..size]);
      if content.Some? {
        MoreBlocks(strict, f.Add(content.value), u[size..], []);
      }
    }
  }

  lemma MoreSuffix(f: Frame, s: seq<byte>, t: seq<byte>)
    ensures Carries(f, Suffix(f, s))
    ensures Continues(Suffix(f, s), Suffix(f, s + t), t)
  {
    hide Frame.Remaining, XxHash32.Hash, Read32;
    if |s| >= 4 {
      ReadPrefix(s, t, 0);
      assert (s + t)[4..] == s[4..] + t;
    }
  }

  lemma MoreSkip(s: seq<byte>, t: seq<byte>)
    ensures Continues(SkipSize(s), SkipSize(s + t), t)
  {
    hide Read32;
    if |s| >= 4 {
      ReadPrefix(s, t, 0);
      var n := Read32(s, 0);
      assert (s + t)[4..] == s[4..] + t;
      if |s| - 4 >= n {
        assert (s[4..] + t)[n..] == s[4..][n..] + t;
      }
    }
  }

  /** A verdict on a whole frame or an error is final; where the input ran out, more of it keeps the content so far. */
  lemma MoreFrame(strict: bool, stale: nat, base: seq<byte>, s: seq<byte>, t: seq<byte>)
    ensures Continues(FrameFrom(strict, stale, base, s), FrameFrom(strict, stale, base, s + t), t)
  {
    hide ParseHeader, Blocks, SkipSize;
    if |s| >= HEADER_MIN {
      HeaderExtends(s, t);
      var h := ParseHeader(s);
      if h.Skippable? {
        assert (s + t)[4..] == s[4..] + t;
        MoreSkip(s[4..], t);
      } else if h.Good? {
        assert (s + t)[h.size..] == s[h.size..] + t;
        MoreBlocks(strict, Frame(h.info, base, [], if h.sizeGiven then 0 else stale), s[h.size..], t);
      }
    }
  }

  /** A skippable frame in front ends at once, whatever comes behind it. */
  lemma SkippableInFront(strict: bool, base: seq<byte>, magic: uint32, payload: seq<byte>, rest: seq<byte>)
    requires magic / 0x10 == SKIPPABLE_MAGIC && |payload| < 0x1_0000_0000
    ensures FrameFrom(strict, 0, base, Write32(magic) + (Write32(|payload|) + (payload + rest))) == Ended([], rest)
  {
    hide Read32, Write32, SkipSize, Blocks;
    var s := Write32(|payload|) + (payload + rest);
    Write32Read32([], magic, s);
    assert [] + Write32(magic) + s == Write32(magic) + s && (Write32(magic) + s)[4..] == s;
    SkipInFront(payload, rest);
  }

  lemma SkipInFront(payload: seq<byte>, rest: seq<byte>)
    requires |payload| < 0x1_0000_0000
    ensures SkipSize(Write32(|payload|) + (payload + rest)) == Ended([], rest)
  {
    hide Read32, Write32;
    var s := Write32(|payload|) + (payload + rest);
    Write32Read32([], |payload|, payload + rest);
    assert [] + Write32(|payload|) + (payload + rest) == s && s[4..] == payload + rest;
  }

  /** Of a frame that does not fit into `s`, there is a part of the content. */
  lemma FrameCutShort(strict: bool, stale: nat, base: seq<byte>, s: seq<byte>, t: seq<byte>)
    requires FrameFrom(strict, stale, base, s + t).Ended? && |FrameFrom(strict, stale, base, s + t).rest| < |t|
    ensures FrameFrom(strict, stale, base, s).RanOut?
    ensures FrameFrom(strict, stale, base, s).content <= FrameFrom(strict, stale, base, s + t).content
  {
    hide FrameFrom;
    MoreFrame(strict, stale, base, s, t);
  }

  // ---------- the count left behind by an abandoned frame ----------

  /**
    LZ4F_resetDecompressionContext does not clear the count of missing bytes. After a frame was
    abandoned with some missing, a frame decodes as it should if and only if its header announces
    a size (or is not the header of such a frame at all); any other never ends.
   */
  lemma StaleCount(strict: bool, stale: nat, base: seq<byte>, s: seq<byte>)
    requires stale > 0
    ensures var h := ParseHeader(s);
      if h.Good? && !h.sizeGiven then !Run(strict, AtHeader(stale, base, []), s).Ended?
      else Run(strict, AtHeader(stale, base, []), s) == Run(strict, AtHeader(0, base, []), s)
  {
    hide ParseHeader, Blocks, SkipSize;
    assert [] + s == s;
    var h := ParseHeader(s);
    if h.Good? && !h.sizeGiven {
      NeverEnds(strict, Frame(h.info, base, [], stale), s[h.size..]);
    }
  }

  lemma {:induction false} NeverEnds(strict: bool, f: Frame, s: seq<byte>)
    requires f.info.contentSize == 0 && f.stale > 0
    ensures !Blocks(strict, f, s).Ended?
    decreases |s|, 1
  {
    hide Raw, Compressed;
    if |s| >= 4 {
      var h := Read32(s, 0);
      NeverEndsRaw(strict, f, h % RAW_FLAG, [], s[4..]);
      NeverEndsCompressed(strict, f, f.WithChecksum(h % RAW_FLAG), s[4..]);
    }
  }

  lemma {:induction false} NeverEndsRaw(strict: bool, f: Frame, left: nat, block: seq<byte>, s: seq<byte>)
    requires f.info.contentSize == 0 && f.stale > 0
    ensures !Raw(strict, f, left, block, s).Ended?
    decreases |s|, 2
  {
    hide XxHash32.Hash, Blocks;
    if |s| >= left {
      var g, rest := f.Add(s[..left]), s[left..];
      NeverEnds(strict, g, rest);
      if |rest| >= 4 {
        NeverEnds(strict, g, rest[4..]);
      }
    }
  }

  lemma {:induction false} NeverEndsCompressed(strict: bool, f: Frame, size: nat, s: seq<byte>)
    requires f.info.contentSize == 0 && f.stale > 0
    ensures !Compressed(strict, f, size, s).Ended?
    decreases |s|, 2
  {
    hide XxHash32.Hash, BlockContent;
    if |s| >= size >= f.WithChecksum(0) {
      var content := BlockAt(strict, f, s[..size]);
      if content.Some? {
        NeverEnds(strict, f.Add(content.value), s[size..]);
      }
    }
  }
}
