/**
  The LZ4 frame format: the header and its checksum, and what the bytes of a frame decode to, from
  any point a decoder can have reached.
 */
module FrameFormat {
  import opened Bytes
  import opened BlockFormat
  import XxHash32

  const FRAME_MAGIC := 0x184D2204
  const SKIPPABLE_MAGIC := 0x184D2A5
  const HEADER_MIN := 7
  const HEADER_MAX := 19
  const RAW_FLAG := 0x8000_0000
  const WRAP64 := 0x1_0000_0000_0000_0000

  /** LZ4F_frameInfo_t without its frame type; a content size or dictionary id of 0 means none. */
  datatype FrameInfo = FrameInfo(linked: bool, blockChecksum: bool, contentChecksum: bool,
                                 blockSizeID: nat, contentSize: nat, dictID: uint32)
  {
    predicate Valid() {
      4 <= blockSizeID <= 7 && contentSize < WRAP64
    }

    function MaxBlock(): nat {
      BlockSize(blockSizeID)
    }
  }

  /** LZ4F_getBlockSize for the identifiers the format knows. */
  function BlockSize(id: nat): (size: nat)
    ensures size > 0
  {
    if id <= 4 then 0x1_0000 else if id == 5 then 0x4_0000 else if id == 6 then 0x10_0000 else 0x40_0000
  }

  function Bit(b: bool): nat {
    if b then 1 else 0
  }

  function Read64(s: seq<byte>, i: nat): (v: nat)
    requires i + 8 <= |s|
    ensures v < WRAP64
  {
    Read32(s, i) + WRAP * Read32(s, i + 4)
  }

  function Write64(v: nat): (s: seq<byte>)
    requires v < WRAP64
    ensures |s| == 8
  {
    Write32(v % WRAP) + Write32(v / WRAP)
  }

  lemma Write64Read64(a: seq<byte>, v: nat, b: seq<byte>)
    requires v < WRAP64
    ensures Read64(a + Write64(v) + b, |a|) == v
  {
    hide Read32, Write32;
    var s := a + Write64(v) + b;
    Read32Injective(s, |a|, Write32(v % WRAP), 0);
    Read32Injective(s, |a| + 4, Write32(v / WRAP), 0);
    assert s[|a|..|a| + 4] == Write32(v % WRAP)[0..4];
    assert s[|a| + 4..|a| + 8] == Write32(v / WRAP)[0..4];
  }

  lemma Write32Read32(a: seq<byte>, v: uint32, b: seq<byte>)
    ensures Read32(a + Write32(v) + b, |a|) == v
  {
    hide Read32, Write32;
    var s := a + Write32(v) + b;
    Read32Injective(s, |a|, Write32(v), 0);
    assert s[|a|..|a| + 4] == Write32(v)[0..4];
  }

  // ---------- frame header ----------

  datatype Error =
    | FrameHeaderIncomplete | FrameTypeUnknown | ReservedFlagSet | HeaderVersionWrong | MaxBlockSizeInvalid
    | HeaderChecksumInvalid | BlockChecksumInvalid | ContentChecksumInvalid | FrameSizeWrong
    | DecompressionFailed | Generic | DstMaxSizeTooSmall

  function HeaderChecksum(s: seq<byte>): byte {
    XxHash32.Hash(s, 0) / 0x100 % 0x100
  }

  function Flags(info: FrameInfo): byte {
    0x40 + 0x20 * Bit(!info.linked) + 0x10 * Bit(info.blockChecksum) + 8 * Bit(info.contentSize > 0)
      + 4 * Bit(info.contentChecksum) + Bit(info.dictID > 0)
  }

  /** The frame descriptor: everything between the magic number and the header checksum. */
  function DescriptorBytes(info: FrameInfo): (s: seq<byte>)
    requires info.Valid()
  {
    [Flags(info), 0x10 * info.blockSizeID]
      + (if info.contentSize > 0 then Write64(info.contentSize) else [])
      + (if info.dictID > 0 then Write32(info.dictID) else [])
  }

  function HeaderBytes(info: FrameInfo): (s: seq<byte>)
    requires info.Valid()
    ensures HEADER_MIN <= |s| <= HEADER_MAX
  {
    Write32(FRAME_MAGIC) + DescriptorBytes(info) + [HeaderChecksum(DescriptorBytes(info))]
  }

  predicate IsSkippable(s: seq<byte>)
    requires |s| >= 4
  {
    Read32(s, 0) / 0x10 == SKIPPABLE_MAGIC
  }

  /** The size of a header whose flag byte is `flg`. */
  function HeaderSize(flg: byte): nat {
    HEADER_MIN + 8 * (flg / 8 % 2) + 4 * (flg % 2)
  }

  datatype Header =
    | Bad(error: Error)
    | Skippable
    | Short(size: nat)
    | Good(info: FrameInfo, sizeGiven: bool, size: nat)

  /** What LZ4F_decodeHeader finds in `s`, in the order of its checks. */
  function ParseHeader(s: seq<byte>): (h: Header)
    ensures h.Good? ==> h.info.Valid() && HEADER_MIN <= h.size <= |s| && h.size <= HEADER_MAX
    ensures h.Short? ==> |s| < h.size <= HEADER_MAX
    ensures h.Short? || h.Good? ==> |s| >= HEADER_MIN && h.size == HeaderSize(s[4])
    ensures h.Good? ==> h.sizeGiven || h.info.contentSize == 0
    ensures h.Skippable? ==> |s| >= HEADER_MIN
  {
    if |s| < HEADER_MIN then Bad(FrameHeaderIncomplete)
    else if IsSkippable(s) then Skippable
    else if Read32(s, 0) != FRAME_MAGIC then Bad(FrameTypeUnknown)
    else if s[4] / 2 % 2 != 0 then Bad(ReservedFlagSet)
    else if s[4] / 0x40 != 1 then Bad(HeaderVersionWrong)
    else if |s| < HeaderSize(s[4]) then Short(HeaderSize(s[4]))
    else ParseDescriptor(s, HeaderSize(s[4]))
  }

  function ParseDescriptor(s: seq<byte>, size: nat): (h: Header)
    requires HEADER_MIN <= |s| && size == HeaderSize(s[4]) <= |s|
    ensures h.Bad? || h.Good?
    ensures h.Good? ==> h.info.Valid() && h.size == size && (h.sizeGiven || h.info.contentSize == 0)
  {
    if s[5] / 0x80 != 0 then Bad(ReservedFlagSet)
    else if s[5] / 0x10 % 8 < 4 then Bad(MaxBlockSizeInvalid)
    else if s[5] % 0x10 != 0 then Bad(ReservedFlagSet)
    else if HeaderChecksum(s[4..size - 1]) != s[size - 1] then Bad(HeaderChecksumInvalid)
    else
      var flg := s[4];
      Good(FrameInfo(flg / 0x20 % 2 == 0, flg / 0x10 % 2 == 1, flg / 4 % 2 == 1, s[5] / 0x10 % 8,
                     if flg / 8 % 2 == 1 then Read64(s, 6) else 0,
                     if flg % 2 == 1 then Read32(s, size - 5) else 0),
           flg / 8 % 2 == 1, size)
  }

  /** LZ4F_headerSize needs five bytes of the frame. */
  function KnownHeaderSize(s: seq<byte>): (r: Option<nat>)
  {
    if |s| < 5 then None
    else if IsSkippable(s) then Some(8)
    else if Read32(s, 0) != FRAME_MAGIC then None
    else Some(HeaderSize(s[4]))
  }

  /** Bytes behind a decided header do not matter. */
  lemma HeaderExtends(s: seq<byte>, t: seq<byte>)
    requires |s| >= HEADER_MIN
    ensures ParseHeader(s).Short? || ParseHeader(s + t) == ParseHeader(s)
    ensures ParseHeader(s).Short? && |s| + |t| < HeaderSize(s[4]) ==> ParseHeader(s + t) == ParseHeader(s)
    ensures ParseHeader(s).Short? ==> !ParseHeader(s + t).Skippable?
  {
    hide HeaderChecksum;
    var all := s + t;
    assert all[0] == s[0] && all[1] == s[1] && all[2] == s[2] && all[3] == s[3] && all[4] == s[4] && all[5] == s[5];
    assert Read32(all, 0) == Read32(s, 0);
    var size := HeaderSize(s[4]);
    if size <= |s| {
      assert all[4..size - 1] == s[4..size - 1];
      assert all[size - 1] == s[size - 1];
      if s[4] / 8 % 2 == 1 {
        ReadPrefix(s, t, 6);
        ReadPrefix(s, t, 10);
      }
      if s[4] % 2 == 1 {
        ReadPrefix(s, t, size - 5);
      }
    }
  }

  lemma ReadPrefix(s: seq<byte>, t: seq<byte>, i: nat)
    requires i + 4 <= |s|
    ensures Read32(s + t, i) == Read32(s, i)
  {
  }

  lemma FlagFields(info: FrameInfo)
    ensures var f := Flags(info);
      && f / 0x40 == 1 && f / 2 % 2 == 0 && (f / 0x20 % 2 == 0) == info.linked
        && (f / 0x10 % 2 == 1) == info.blockChecksum
      && (f / 8 % 2 == 1) == (info.contentSize > 0) && (f / 4 % 2 == 1) == info.contentChecksum
        && (f % 2 == 1) == (info.dictID > 0)
  {
  }

  /** The header written for `info` parses back to `info`, whatever follows it. */
  lemma HeaderRoundTrip(info: FrameInfo, rest: seq<byte>)
    requires info.Valid()
    ensures ParseHeader(HeaderBytes(info) + rest) == Good(info, info.contentSize > 0, |HeaderBytes(info)|)
    ensures KnownHeaderSize(HeaderBytes(info) + rest) == Some(|HeaderBytes(info)|)
  {
    hide HeaderChecksum, Flags, Write64, Write32, Read32, Read64;
    var d, h := DescriptorBytes(info), HeaderBytes(info);
    var s, size := h + rest, |h|;
    FlagFields(info);
    Write32Read32([], FRAME_MAGIC, d + [HeaderChecksum(d)] + rest);
    assert s == [] + Write32(FRAME_MAGIC) + (d + [HeaderChecksum(d)] + rest);
    assert s[4] == Flags(info) && s[5] == 0x10 * info.blockSizeID;
    assert size == HeaderSize(s[4]);
    assert s[4..size - 1] == d && s[size - 1] == HeaderChecksum(d);
    DescriptorFields(info, Write32(FRAME_MAGIC), [HeaderChecksum(d)] + rest);
    assert s == Write32(FRAME_MAGIC) + d + ([HeaderChecksum(d)] + rest);
    HeaderIs(s, info, size);
  }

  lemma DescriptorFields(info: FrameInfo, a: seq<byte>, b: seq<byte>)
    requires info.Valid() && |a| == 4
    ensures var s := a + DescriptorBytes(info) + b;
      var end := 4 + |DescriptorBytes(info)|;
      && (info.contentSize > 0 ==> Read64(s, 6) == info.contentSize)
      && (info.dictID > 0 ==> Read32(s, end - 4) == info.dictID)
  {
    hide Flags, Write64, Write32, Read32, Read64;
    var s := a + DescriptorBytes(info) + b;
    var two := a + [Flags(info), 0x10 * info.blockSizeID];
    var size := if info.contentSize > 0 then Write64(info.contentSize) else [];
    var id := if info.dictID > 0 then Write32(info.dictID) else [];
    assert s == two + size + (id + b) == two + size + id + b;
    if info.contentSize > 0 {
      Write64Read64(two, info.contentSize, id + b);
    }
    if info.dictID > 0 {
      Write32Read32(two + size, info.dictID, b);
    }
  }

  lemma HeaderIs(s: seq<byte>, info: FrameInfo, size: nat)
    requires info.Valid() && HEADER_MIN <= size <= |s|
    requires Read32(s, 0) == FRAME_MAGIC && s[4] == Flags(info) && s[5] == 0x10 * info.blockSizeID
      && size == HeaderSize(s[4])
    requires HeaderChecksum(s[4..size - 1]) == s[size - 1]
    requires info.contentSize > 0 ==> 14 <= size && Read64(s, 6) == info.contentSize
    requires info.dictID > 0 ==> 5 <= size && Read32(s, size - 5) == info.dictID
    ensures ParseHeader(s) == Good(info, info.contentSize > 0, size) && KnownHeaderSize(s) == Some(size)
  {
    hide HeaderChecksum, Flags, Read32, Read64;
    FlagFields(info);
    assert ParseDescriptor(s, size) == Good(info, info.contentSize > 0, size);
  }

  /**
    Conversely, a header that parses is the header printed for its fields, unless an optional field
    is present but 0.
   */
  lemma ParsedHeaderPrints(s: seq<byte>)
    requires ParseHeader(s).Good?
    ensures var h := ParseHeader(s);
      (s[..h.size] == HeaderBytes(h.info))
        == ((h.sizeGiven ==> h.info.contentSize > 0) && (s[4] % 2 == 1 ==> h.info.dictID > 0))
  {
    hide HeaderChecksum, Write32, Write64, Read32, Read64, Flags;
    var h := ParseHeader(s);
    assert h == ParseDescriptor(s, h.size);
    FlagsOf(s[4], h.info);
    if (h.sizeGiven ==> h.info.contentSize > 0) && (s[4] % 2 == 1 ==> h.info.dictID > 0) {
      DescriptorPrints(s, h.info, h.size);
      Read32Bytes(s, 0);
      assert s[..h.size] == s[0..4] + s[4..h.size - 1] + [s[h.size - 1]];
    }
  }

  lemma FlagsOf(f: byte, info: FrameInfo)
    requires f / 0x40 == 1 && f / 2 % 2 == 0
    requires info.linked == (f / 0x20 % 2 == 0) && info.blockChecksum == (f / 0x10 % 2 == 1)
      && info.contentChecksum == (f / 4 % 2 == 1)
    ensures (f == Flags(info)) == ((f / 8 % 2 == 1) == (info.contentSize > 0) && (f % 2 == 1) == (info.dictID > 0))
  {
    Bits(f, f % 2, f / 4 % 2, f / 8 % 2, f / 0x10 % 2, f / 0x20 % 2);
  }

  lemma Bits(f: byte, b0: nat, b2: nat, b3: nat, b4: nat, b5: nat)
    requires f / 0x40 == 1 && f / 2 % 2 == 0
    requires b0 == f % 2 && b2 == f / 4 % 2 && b3 == f / 8 % 2 && b4 == f / 0x10 % 2 && b5 == f / 0x20 % 2
    ensures f == 0x40 + 0x20 * b5 + 0x10 * b4 + 8 * b3 + 4 * b2 + b0
  {
  }

  lemma DescriptorPrints(s: seq<byte>, info: FrameInfo, size: nat)
    requires info.Valid() && HEADER_MIN <= |s| && size == HeaderSize(s[4]) <= |s|
    requires s[4] == Flags(info) && s[5] == 0x10 * info.blockSizeID
    requires info.contentSize > 0 ==> 14 <= |s| && Read64(s, 6) == info.contentSize
    requires info.dictID > 0 ==> Read32(s, size - 5) == info.dictID
    ensures s[4..size - 1] == DescriptorBytes(info)
  {
    hide Write32, Write64, Read32, Read64, Flags;
    FlagFields(info);
    if info.contentSize > 0 {
      Read64Bytes(s, 6);
    }
    if info.dictID > 0 {
      Read32Bytes(s, size - 5);
    }
    var middle := if info.contentSize > 0 then 14 else 6;
    assert s[4..6] == [Flags(info), 0x10 * info.blockSizeID];
    assert size - 1 == middle + if info.dictID > 0 then 4 else 0;
    assert s[4..size - 1] == s[4..6] + s[6..middle] + s[middle..size - 1];
  }

  lemma Read64Bytes(s: seq<byte>, i: nat)
    requires i + 8 <= |s|
    ensures Write64(Read64(s, i)) == s[i..i + 8]
  {
    hide Read32, Write32;
    Read32Bytes(s, i);
    Read32Bytes(s, i + 4);
    var v := Read64(s, i);
    assert v % WRAP == Read32(s, i) && v / WRAP == Read32(s, i + 4);
    assert s[i..i + 8] == s[i..i + 4] + s[i + 4..i + 8];
  }
}
