/** The newc cpio format as src/cpio.cpp writes and reads it: hexadecimal fields, names, entries. */
module CpioFormat {
  import opened Bytes

  type Name = seq<byte>

  datatype Entry = Entry(mode: uint32, uid: uint32, gid: uint32, rdevMajor: uint32, rdevMinor: uint32, data: seq<byte>)

  const HEADER := 110
  const SLASH: byte := 0x2f
  const DOT: byte := 0x2e
  const NEWC_MAGIC: seq<byte> := [0x30, 0x37, 0x30, 0x37, 0x30, 0x31]
  const TRAILER: Name := [0x54, 0x52, 0x41, 0x49, 0x4c, 0x45, 0x52, 0x21, 0x21, 0x21]
  const DOTDOT: Name := [0x2e, 0x2e]

  // ---------- hexadecimal fields ----------

  /** The lower-case digit for `d`. */
  function HexDigit(d: nat): byte
    requires d < 16
  {
    if d < 10 then 0x30 + d else 0x57 + d
  }

  predicate IsHex(c: byte) {
    0x30 <= c <= 0x39 || 0x41 <= c <= 0x46 || 0x61 <= c <= 0x66
  }

  function HexValue(c: byte): (v: nat)
    requires IsHex(c)
    ensures v < 16
  {
    if c <= 0x39 then c - 0x30 else if c <= 0x46 then c - 0x37 else c - 0x57
  }

  /** The last `n` hexadecimal digits of `v`. */
  function Digits(v: nat, n: nat): (s: seq<byte>)
    ensures |s| == n && forall i :: 0 <= i < n ==> IsHex(s[i])
  {
    if n == 0 then [] else Digits(v / 16, n - 1) + [HexDigit(v % 16)]
  }

  /** format_hex8 */
  function FormatHex8(v: uint32): (s: seq<byte>)
    ensures |s| == 8
  {
    Digits(v, 8)
  }

  /** The number of hexadecimal digits at the start of `s`. */
  function DigitRun(s: seq<byte>): (n: nat)
    ensures n <= |s| && forall i :: 0 <= i < n ==> IsHex(s[i])
    ensures n < |s| ==> !IsHex(s[n])
  {
    if s == [] || !IsHex(s[0]) then 0 else 1 + DigitRun(s[1..])
  }

  function Number(s: seq<byte>): nat
    requires forall i :: 0 <= i < |s| ==> IsHex(s[i])
  {
    if s == [] then 0 else 16 * Number(s[..|s| - 1]) + HexValue(s[|s| - 1])
  }

  predicate IsSpace(c: byte) {
    c == 0x20 || 9 <= c <= 13
  }

  function SkipSpace(s: seq<byte>): seq<byte> {
    if s != [] && IsSpace(s[0]) then SkipSpace(s[1..]) else s
  }

  /** strtoul in base 16 behind blanks and sign: an optional 0x, then as many digits as there are. */
  function Unsigned(s: seq<byte>): nat {
    var body := if |s| >= 3 && s[0] == 0x30 && (s[1] == 0x78 || s[1] == 0x58) && IsHex(s[2]) then s[2..] else s;
    Number(body[..DigitRun(body)])
  }

  function Negated(n: int): uint32 {
    -n % 0x1_0000_0000
  }

  /** parse_hex8: strtoul, truncated to 32 bits; a minus sign negates. */
  function ParseHex8(s: seq<byte>): uint32 {
    var t := SkipSpace(s);
    if t != [] && t[0] == 0x2d then Negated(Unsigned(t[1..]))
    else if t != [] && t[0] == 0x2b then Unsigned(t[1..]) % 0x1_0000_0000
    else Unsigned(t) % 0x1_0000_0000
  }

  /** A 32-bit number survives being written and read. */
  lemma HexRoundTrip(v: uint32)
    ensures ParseHex8(FormatHex8(v)) == v
  {
    hide Digits, Number, DigitRun, Pow16;
    var s := FormatHex8(v);
    EightDigits();
    NumberOfDigits(v, 8);
    AllDigits(s);
    assert IsHex(s[0]) && IsHex(s[1]);
    assert s[..|s|] == s;
  }

  lemma EightDigits()
    ensures Pow16(8) == 0x1_0000_0000
  {
    assert Pow16(4) == 0x1_0000;
    assert Pow16(6) == 0x100_0000;
  }

  function Pow16(n: nat): nat {
    if n == 0 then 1 else 16 * Pow16(n - 1)
  }

  lemma {:induction false} NumberOfDigits(v: nat, n: nat)
    requires v < Pow16(n)
    ensures Number(Digits(v, n)) == v
  {
    if n > 0 {
      NumberOfDigits(v / 16, n - 1);
      var s := Digits(v, n);
      assert s[..n - 1] == Digits(v / 16, n - 1);
      assert HexValue(s[n - 1]) == v % 16;
    }
  }

  lemma {:induction false} AllDigits(s: seq<byte>)
    requires forall i :: 0 <= i < |s| ==> IsHex(s[i])
    ensures DigitRun(s) == |s|
  {
    if s != [] {
      AllDigits(s[1..]);
    }
  }

  // ---------- paths ----------

  function Keep(segment: Name): seq<Name> {
    if segment == [] || segment == [DOT] then [] else [segment]
  }

  /** The segments of `path` that count, when `current` has already been read. */
  function Segments(path: Name, current: Name): seq<Name>
    decreases |path|
  {
    if path == [] then Keep(current)
    else if path[0] == SLASH then Keep(current) + Segments(path[1..], [])
    else Segments(path[1..], current + [path[0]])
  }

  function Joined(segs: seq<Name>): Name {
    if segs == [] then [] else if |segs| == 1 then segs[0] else segs[0] + [SLASH] + Joined(segs[1..])
  }

  /** What normalize_path returns: no empty segment, no ".", single slashes. */
  function Normalize(path: Name): Name {
    Joined(Segments(path, []))
  }

  predicate Proper(segs: seq<Name>) {
    forall s :: s in segs ==> s != [] && s != [DOT] && SLASH !in s
  }

  lemma {:induction false} SegmentsProper(path: Name, current: Name)
    requires SLASH !in current
    ensures Proper(Segments(path, current))
    decreases |path|
  {
    if path != [] {
      if path[0] == SLASH {
        SegmentsProper(path[1..], []);
      } else {
        SegmentsProper(path[1..], current + [path[0]]);
      }
    }
  }

  /** Reading one segment that holds no slash. */
  lemma {:induction false} ReadSegment(segment: Name, rest: Name, current: Name)
    requires SLASH !in segment
    ensures Segments(segment + rest, current) == Segments(rest, current + segment)
    decreases |segment|
  {
    if segment == [] {
      assert segment + rest == rest && current + segment == current;
    } else {
      assert (segment + rest)[0] == segment[0] && (segment + rest)[1..] == segment[1..] + rest;
      assert segment[0] in segment;
      ReadSegment(segment[1..], rest, current + [segment[0]]);
      assert current + [segment[0]] + segment[1..] == current + segment;
    }
  }

  lemma {:induction false} SegmentsOfJoined(segs: seq<Name>)
    requires Proper(segs)
    ensures Segments(Joined(segs), []) == segs
  {
    if segs == [] {
    } else if |segs| == 1 {
      assert segs[0] in segs;
      ReadSegment(segs[0], [], []);
      assert segs[0] + [] == segs[0] && [] + segs[0] == segs[0] && segs == [segs[0]];
    } else {
      assert segs[0] in segs;
      var rest := [SLASH] + Joined(segs[1..]);
      ReadSegment(segs[0], rest, []);
      assert Joined(segs) == segs[0] + rest && [] + segs[0] == segs[0];
      assert rest[1..] == Joined(segs[1..]);
      assert forall s :: s in segs[1..] ==> s in segs;
      SegmentsOfJoined(segs[1..]);
      assert segs == [segs[0]] + segs[1..];
    }
  }

  /** Normalising twice is normalising once. */
  lemma NormalizeIdempotent(path: Name)
    ensures Normalize(Normalize(path)) == Normalize(path)
  {
    SegmentsProper(path, []);
    SegmentsOfJoined(Segments(path, []));
  }

  /** normalize_path: split into segments, then join. */
  method NormalizePath(path: Name) returns (out: Name)
    ensures out == Normalize(path)
  {
    var segs := SplitPath(path);
    out := [];
    var i := 0;
    while i < |segs|
      invariant i <= |segs| && out == Joined(segs[..i])
    {
      if i != 0 {
        out := out + [SLASH];
      }
      out := out + segs[i];
      JoinedMore(segs[..i], segs[i]);
      assert segs[..i] + [segs[i]] == segs[..i + 1];
      i := i + 1;
    }
    assert segs[..i] == segs;
  }

  method SplitPath(path: Name) returns (segs: seq<Name>)
    ensures segs == Segments(path, [])
  {
    segs := [];
    var current: Name := [];
    var i := 0;
    assert path[0..] == path;
    while i < |path|
      invariant i <= |path|
      invariant Segments(path, []) == segs + Segments(path[i..], current)
    {
      SegmentStep(path[i..], current);
      assert path[i..][1..] == path[i + 1..];
      if path[i] == SLASH {
        if current != [] && current != [DOT] {
          segs := segs + [current];
        }
        current := [];
      } else {
        current := current + [path[i]];
      }
      i := i + 1;
    }
    assert path[i..] == [];
    if current != [] && current != [DOT] {
      segs := segs + [current];
    }
  }

  lemma SegmentStep(path: Name, current: Name)
    requires path != []
    ensures Segments(path, current) ==
      if path[0] == SLASH then Keep(current) + Segments(path[1..], []) else Segments(path[1..], current + [path[0]])
  {
  }

  lemma {:induction false} JoinedMore(segs: seq<Name>, last: Name)
    ensures Joined(segs + [last]) == if segs == [] then last else Joined(segs) + [SLASH] + last
  {
    if |segs| > 1 {
      assert (segs + [last])[1..] == segs[1..] + [last];
      JoinedMore(segs[1..], last);
    } else if |segs| == 1 {
      assert (segs + [last])[1..] == [last];
    }
  }
}
