/**
  How src/bootimg.cpp recognises the format of a buffer by its first bytes, and an LZ4 legacy stream
  by its block sizes.
 */
module FileFormats {
  import opened Bytes
  import opened Lz4Stream
  import LegacyStream

  datatype FileFormat =
    | Unknown | ChromeOS | Aosp | AospVendor | Dhtb | Blob | Gzip | Lzop | Xz | Lzma | Bzip2
    | Lz4 | Lz4Legacy | Lz4Lg | Mtk | Dtb | ZImage

  /** A string of ASCII characters as bytes. */
  function Ascii(s: string): (b: seq<byte>)
    requires forall i :: 0 <= i < |s| ==> s[i] < 256 as char
    ensures |b| == |s| && forall i :: 0 <= i < |s| ==> b[i] == s[i] as int
  {
    seq(|s|, i requires 0 <= i < |s| => s[i] as int)
  }

  predicate PowerOfTwo(v: nat) {
    v == 1 || (v > 1 && v % 2 == 0 && PowerOfTwo(v / 2))
  }

  /** guess_lzma: properties byte, a dictionary size that is a power of two, an unknown content size. */
  predicate GuessLzma(s: seq<byte>) {
    |s| > 13 && s[0] == 0x5d && PowerOfTwo(Read32(s, 1)) && s[5..13] == seq(8, _ => 0xff)
  }

  /** check_fmt, in the order of its tests. */
  function CheckFormat(s: seq<byte>): FileFormat {
    if Ascii("CHROMEOS") <= s then ChromeOS
    else if Ascii("ANDROID!") <= s then Aosp
    else if Ascii("VNDRBOOT") <= s then AospVendor
    else if [0x1f, 0x8b] <= s || [0x1f, 0x9e] <= s then Gzip
    else if [0x89] + Ascii("LZO") <= s then Lzop
    else if [0xfd] + Ascii("7zXZ") <= s then Xz
    else if GuessLzma(s) then Lzma
    else if Ascii("BZh") <= s then Bzip2
    else if [0x03, 0x21, 0x4c, 0x18] <= s || [0x04, 0x22, 0x4d, 0x18] <= s then Lz4
    else if LegacyStream.MAGIC <= s then Lz4Legacy
    else if [0x88, 0x16, 0x88, 0x58] <= s then Mtk
    else if [0xd0, 0x0d, 0xfe, 0xed] <= s then Dtb
    else if [0x44, 0x48, 0x54, 0x42, 0x01, 0x00, 0x00, 0x00] <= s then Dhtb
    else if Ascii("-SIGNED-BY-SIGNBLOB-") <= s then Blob
    else if |s| >= 0x28 && s[0x24..0x28] == [0x18, 0x28, 0x6f, 0x01] then ZImage
    else Unknown
  }

  /** No other format's test is met by a buffer that starts with the magic number of LZ4 legacy. */
  lemma LegacyMagicDecides(s: seq<byte>)
    ensures CheckFormat(s) == Lz4Legacy <==> LegacyStream.MAGIC <= s
  {
    if LegacyStream.MAGIC <= s {
      assert s[0] == 0x02;
    }
  }

  /** The sizes found from `off` on cover the buffer, up to fewer than four bytes at its end. */
  predicate Covered(s: seq<byte>, off: nat)
    requires off <= |s|
    decreases |s| - off
  {
    off + 4 > |s| || (Read32(s, off) <= |s| - off - 4 && Covered(s, off + 4 + Read32(s, off)))
  }

  /** No sum of an offset and a block size met on the way exceeds 32 bits. */
  predicate Narrow(s: seq<byte>, off: nat)
    requires off <= |s|
    decreases |s| - off
  {
    off + 4 > |s| ||
      (off + 4 + Read32(s, off) < 0x1_0000_0000
       && (Read32(s, off) <= |s| - off - 4 ==> Narrow(s, off + 4 + Read32(s, off))))
  }

  /**
    One turn of check_fmt_lg's loop, in the C code's 32-bit arithmetic: the next offset, or None
    when the block sticks out.
   */
  function NextOffset(s: seq<byte>, off: nat): Option<nat>
    requires off + 4 <= |s| < 0x1_0000_0000
  {
    var next := (off + 4 + Read32(s, off)) % 0x1_0000_0000;
    if next > |s| then None else Some(next)
  }

  // ---------- sizes that wrap ----------

  /** Where the loop of check_fmt_lg is, or what it has returned. */
  datatype Walk = At(off: nat) | Out(format: FileFormat)

  /** The loop after `n` turns, whatever the block sizes. */
  function After(s: seq<byte>, n: nat): (w: Walk)
    requires 4 <= |s| < 0x1_0000_0000
    ensures w.At? ==> w.off <= |s|
  {
    if n == 0 then At(4)
    else
      match After(s, n - 1)
      case Out(f) => Out(f)
      case At(off) =>
        if off + 4 > |s| then Out(Lz4Legacy)
        else
          match NextOffset(s, off)
          case None => Out(Lz4Lg)
          case Some(next) => At(next)
  }

  lemma {:induction false} AfterStays(s: seq<byte>, n: nat, m: nat)
    requires 4 <= |s| < 0x1_0000_0000 && n <= m && After(s, n).Out?
    ensures After(s, m) == After(s, n)
    decreases m
  {
    hide NextOffset;
    if n < m {
      AfterStays(s, n, m - 1);
    }
  }

  /** Equal offsets are followed by equal offsets. */
  lemma {:induction false} SamePlaceSameWay(s: seq<byte>, i: nat, j: nat, k: nat)
    requires 4 <= |s| < 0x1_0000_0000 && After(s, i) == After(s, j)
    ensures After(s, i + k) == After(s, j + k)
  {
    hide NextOffset;
    if k > 0 {
      SamePlaceSameWay(s, i, j, k - 1);
      assert i + k - 1 == i + (k - 1) && j + k - 1 == j + (k - 1);
    }
  }

  /** A repeated offset is met again and again. */
  lemma {:induction false} RepeatsForEver(s: seq<byte>, i: nat, j: nat, n: nat)
    requires 4 <= |s| < 0x1_0000_0000 && i < j && After(s, i) == After(s, j) && After(s, j).At?
    ensures After(s, n).At?
    decreases n
  {
    hide After, NextOffset;
    if n <= j {
      if After(s, n).Out? {
        AfterStays(s, n, j);
      }
    } else {
      RepeatsForEver(s, i, j, n - (j - i));
      SamePlaceSameWay(s, i, j, n - j);
    }
  }

  /** More numbers than values: two are equal. */
  lemma {:induction false} Pigeons(q: seq<nat>, bound: nat)
    requires |q| > bound && forall i :: 0 <= i < |q| ==> q[i] < bound
    ensures exists i, j :: 0 <= i < j < |q| && q[i] == q[j]
    decreases bound
  {
    var last := q[|q| - 1];
    if i :| 0 <= i < |q| - 1 && q[i] == last {
      assert q[i] == q[|q| - 1];
    } else {
      // the largest value takes the place of `last`, which no other number has
      var r := seq(|q| - 1, i requires 0 <= i < |q| - 1 => if q[i] == bound - 1 then last else q[i]);
      forall i | 0 <= i < |r| ensures r[i] < bound - 1 {
        assert q[i] != last;
      }
      Pigeons(r, bound - 1);
      var i, j :| 0 <= i < j < |r| && r[i] == r[j];
      assert q[i] == q[j];
    }
  }

  /** Two turns within |s| + 2 at the same offset. */
  ghost predicate Repeats(s: seq<byte>)
    requires 4 <= |s| < 0x1_0000_0000
  {
    exists i, j :: 0 <= i < j <= |s| + 1 && After(s, i).At? && After(s, i) == After(s, j)
  }

  lemma LongWalkRepeats(s: seq<byte>)
    requires 4 <= |s| < 0x1_0000_0000 && After(s, |s| + 1).At?
    ensures Repeats(s)
  {
    hide After, NextOffset;
    forall n | 0 <= n <= |s| + 1 ensures After(s, n).At? {
      if After(s, n).Out? {
        AfterStays(s, n, |s| + 1);
      }
    }
    var q := seq(|s| + 2, n requires 0 <= n < |s| + 2 => After(s, n).off);
    Pigeons(q, |s| + 1);
    var i, j :| 0 <= i < j < |q| && q[i] == q[j];
    assert After(s, i) == After(s, j);
  }

  /** Whatever the sizes: check_fmt_lg returns within |s| + 1 turns if no offset is repeated, and otherwise never. */
  lemma LoopEnds(s: seq<byte>)
    requires 4 <= |s| < 0x1_0000_0000
    ensures !Repeats(s) ==> After(s, |s| + 1).Out?
    ensures Repeats(s) ==> forall n: nat :: After(s, n).At?
  {
    hide After, NextOffset;
    if Repeats(s) {
      var i, j :| 0 <= i < j <= |s| + 1 && After(s, i).At? && After(s, i) == After(s, j);
      forall n: nat ensures After(s, n).At? {
        RepeatsForEver(s, i, j, n);
      }
    }
    if After(s, |s| + 1).At? {
      LongWalkRepeats(s);
    }
  }

  /** What the format should be: whether the blocks, in exact arithmetic, cover the buffer. */
  function RightFormat(s: seq<byte>): FileFormat
    requires |s| >= 4
  {
    if Covered(s, 4) then Lz4Legacy else Lz4Lg
  }

  /**
    And when it returns, the answer is right exactly when no sum wrapped on the way or the answer is
    the LG variant.
   */
  lemma AnswerIsRight(s: seq<byte>, n: nat)
    requires 4 <= |s| < 0x1_0000_0000 && After(s, n).Out?
    ensures After(s, n).format == RightFormat(s) <==> Narrow(s, 4) || After(s, n).format == Lz4Lg
  {
    hide After;
    assert After(s, 0) == At(4) by { Started(s); }
    AnswerFrom(s, 0, n);
  }

  lemma Started(s: seq<byte>)
    requires 4 <= |s| < 0x1_0000_0000
    ensures After(s, 0) == At(4)
  {
  }

  lemma OneTurn(s: seq<byte>, m: nat)
    requires 4 <= |s| < 0x1_0000_0000 && After(s, m).At?
    ensures var off := After(s, m).off;
      After(s, m + 1) ==
        if off + 4 > |s| then Out(Lz4Legacy)
        else if NextOffset(s, off) == None then Out(Lz4Lg) else At(NextOffset(s, off).value)
  {
    hide NextOffset;
  }

  lemma {:induction false} AnswerFrom(s: seq<byte>, m: nat, n: nat)
    requires 4 <= |s| < 0x1_0000_0000 && After(s, n).Out? && After(s, m).At?
    requires Covered(s, After(s, m).off) == Covered(s, 4) && Narrow(s, After(s, m).off) == Narrow(s, 4)
    ensures After(s, n).format == RightFormat(s) <==> Narrow(s, 4) || After(s, n).format == Lz4Lg
    decreases |s| - After(s, m).off
  {
    hide After, Read32;
    var off := After(s, m).off;
    if n <= m {
      AfterStays(s, n, m);
    }
    OneTurn(s, m);
    if After(s, m + 1).Out? {
      AfterStays(s, m + 1, n);
    } else if off + 4 + Read32(s, off) < 0x1_0000_0000 {
      AnswerFrom(s, m + 1, n);
    }
  }

  lemma {:induction false} NarrowAdvances(s: seq<byte>, m: nat)
    requires 4 <= |s| < 0x1_0000_0000 && Narrow(s, 4)
    ensures After(s, m).At? ==> After(s, m).off >= 4 + 4 * m && Narrow(s, After(s, m).off)
  {
    hide After, Read32;
    if m == 0 {
      Started(s);
    } else {
      NarrowAdvances(s, m - 1);
      if After(s, m - 1).At? {
        OneTurn(s, m - 1);
      } else {
        AfterStays(s, m - 1, m);
      }
    }
  }

  /** Without wrapping sums it returns, with the right answer. */
  lemma NarrowIsRight(s: seq<byte>)
    requires 4 <= |s| < 0x1_0000_0000 && Narrow(s, 4)
    ensures !Repeats(s) && After(s, |s| + 1) == Out(RightFormat(s))
  {
    hide After, Narrow, Covered;
    NarrowAdvances(s, |s| + 1);
    LoopEnds(s);
    AnswerIsRight(s, |s| + 1);
  }

  /** check_fmt_lg, on every buffer on which it returns. */
  method CheckFormatLg(s: seq<byte>) returns (format: FileFormat)
    requires |s| < 0x1_0000_0000 && (LegacyStream.MAGIC <= s ==> !Repeats(s))
    ensures CheckFormat(s) != Lz4Legacy ==> format == CheckFormat(s)
    ensures CheckFormat(s) == Lz4Legacy ==>
      && |s| >= 4 && After(s, |s| + 1) == Out(format)
      && (format == RightFormat(s) <==> Narrow(s, 4) || format == Lz4Lg)
  {
    hide CheckFormat, Read32, After, Repeats, Narrow, Covered;
    LegacyMagicDecides(s);
    format := CheckFormat(s);
    if format == Lz4Legacy {
      LoopEnds(s);
      Started(s);
      AnswerIsRight(s, |s| + 1);
      var off: nat := 4;
      ghost var n := 0;
      while off + 4 <= |s|
        invariant off <= |s| && n <= |s| && After(s, n) == At(off)
        decreases |s| - n
      {
        OneTurn(s, n);
        AfterStaysFrom(s, n + 1);
        var next := NextOffset(s, off);
        if next == None {
          return Lz4Lg;
        }
        off := next.value;
        n := n + 1;
      }
      OneTurn(s, n);
      AfterStaysFrom(s, n + 1);
    }
  }

  lemma AfterStaysFrom(s: seq<byte>, n: nat)
    requires 4 <= |s| < 0x1_0000_0000
    ensures After(s, n).Out? && After(s, |s| + 1).Out? ==> After(s, |s| + 1) == After(s, n)
  {
    hide After;
    if After(s, n).Out? && n <= |s| + 1 {
      AfterStays(s, n, |s| + 1);
    } else if After(s, |s| + 1).Out? && |s| + 1 < n {
      AfterStays(s, |s| + 1, n);
    }
  }

  /** With a size that wraps, the loop can come back to where it was: this stream would keep it going for ever. */
  lemma WrappingSizeHangs()
    ensures var s := LegacyStream.MAGIC + Write32(0xffff_fffc);
      CheckFormat(s) == Lz4Legacy && Repeats(s)
  {
    var v: uint32 := 0xffff_fffc;
    var s := LegacyStream.MAGIC + Write32(v);
    LegacyMagicDecides(s);
    LegacyStream.Write32Read32At(v, []);
    assert s[4..] == Write32(v) + [];
    LegacyStream.ReadAt(s, 4);
    assert After(s, 0) == At(4) && After(s, 1) == At(4);
  }

  /** The blocks that lz4_legacy_compress writes cover its stream. */
  lemma {:induction false} BlocksCover(s: seq<byte>, off: nat, content: seq<byte>)
    requires off <= |s| < 0x1_0000_0000 && LegacyStream.Holds(s[off..], content)
    ensures Covered(s, off) && Narrow(s, off)
    decreases |s| - off
  {
    hide BlockFor, Read32;
    if content != [] {
      var n := Read32(s[off..], 0);
      LegacyStream.ReadAt(s, off);
      assert s[off..][4 + n..] == s[off + 4 + n..];
      BlocksCover(s, off + 4 + n, content[Min(|content|, LegacyStream.COMPRESS_BLOCK)..]);
    }
  }

  /** What lz4_legacy_compress writes for up to 256 MB is recognised as an LZ4 legacy stream. */
  method CompressedIsLegacy(input: seq<byte>, wordSize: nat) returns (stream: seq<byte>, format: FileFormat)
    requires (wordSize == 8 || wordSize == 4) && |input| <= LegacyStream.DECOMP_TOTAL_MAX
    ensures format == Lz4Legacy
  {
    hide LegacyStream.Holds, CheckFormat;
    stream := LegacyStream.Compress(input, wordSize);
    BlocksCover(stream, 4, input);
    LegacyMagicDecides(stream);
    NarrowIsRight(stream);
    format := CheckFormatLg(stream);
  }
}
