/** Bytes, little-endian integers and the option type shared by every module. */
module Bytes {

  datatype Option<+T> = None | Some(value: T)

  type byte = x: int | 0 <= x < 0x100 witness 0
  type uint16 = x: int | 0 <= x < 0x1_0000 witness 0
  type uint32 = x: int | 0 <= x < 0x1_0000_0000 witness 0

  function Min(a: int, b: int): int {
    if a <= b then a else b
  }

  function Max(a: int, b: int): int {
    if a >= b then a else b
  }

  function Le16(lo: byte, hi: byte): (v: uint16) {
    lo + 0x100 * hi
  }

  function Read32(s: seq<byte>, i: nat): (v: uint32)
    requires i + 4 <= |s|
  {
    s[i] as int + 0x100 * (s[i + 1] as int) + 0x1_0000 * (s[i + 2] as int) + 0x100_0000 * (s[i + 3] as int)
  }

  function Write32(v: uint32): (s: seq<byte>)
    ensures |s| == 4 && Read32(s, 0) == v
  {
    [v % 0x100, v / 0x100 % 0x100, v / 0x100 / 0x100 % 0x100, v / 0x100 / 0x100 / 0x100]
  }

  lemma Read32Bytes(s: seq<byte>, i: nat)
    requires i + 4 <= |s|
    ensures Write32(Read32(s, i)) == s[i..i + 4]
  {
    var v3: nat := s[i + 3];
    var v2 := s[i + 2] as int + 0x100 * v3;
    var v1 := s[i + 1] as int + 0x100 * v2;
    var v := s[i] as int + 0x100 * v1;
    assert v == Read32(s, i);
    assert v % 0x100 == s[i] && v / 0x100 == v1;
    assert v1 % 0x100 == s[i + 1] && v1 / 0x100 == v2;
    assert v2 % 0x100 == s[i + 2] && v2 / 0x100 == v3;
    assert Write32(v) == [s[i], s[i + 1], s[i + 2], s[i + 3]];
  }

  /** Equal 32-bit reads mean equal bytes, and conversely. */
  lemma Read32Injective(s: seq<byte>, i: nat, t: seq<byte>, j: nat)
    requires i + 4 <= |s| && j + 4 <= |t|
    ensures Read32(s, i) == Read32(t, j) <==> s[i..i + 4] == t[j..j + 4]
  {
    Read32Bytes(s, i);
    Read32Bytes(t, j);
    if s[i..i + 4] == t[j..j + 4] {
      var a, b := s[i..i + 4], t[j..j + 4];
      assert a[0] == b[0] && a[1] == b[1] && a[2] == b[2] && a[3] == b[3];
    }
  }
}
