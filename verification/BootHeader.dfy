/**
  The header family of src/bootimg.hpp: which size fields each header version has and where, read
  and written through one interface in which a missing field reads as zero and ignores writes.
 */
module BootHeader {
  import opened Bytes

  datatype Version = V0 | V1 | V2 | Pxa | V3 | V4 | Vnd3 | Vnd4

  /** The blocks of an image, in the order in which they stand. */
  datatype Section = Kernel | Ramdisk | Second | Extra | RecoveryDtbo | Dtb | Signature | Table | Bootconfig

  const SECTIONS: seq<Section> := [Kernel, Ramdisk, Second, Extra, RecoveryDtbo, Dtb, Signature, Table, Bootconfig]

  const BOOT_MAGIC: seq<byte> := [0x41, 0x4e, 0x44, 0x52, 0x4f, 0x49, 0x44, 0x21]
  const VENDOR_BOOT_MAGIC: seq<byte> := [0x56, 0x4e, 0x44, 0x52, 0x42, 0x4f, 0x4f, 0x54]

  /** sizeof of the packed structures. */
  function HdrSize(v: Version): (n: nat)
    ensures 1580 <= n <= 2128
  {
    match v
    case V0 => 1632
    case V1 => 1648
    case V2 => 1660
    case Pxa => 1640
    case V3 => 1580
    case V4 => 1584
    case Vnd3 => 2112
    case Vnd4 => 2128
  }

  /** Where the header version has the size of a section. Version 0 keeps the size of extra where others keep the
      version. */
  function FieldAt(v: Version, s: Section): (at: Option<nat>)
    ensures at.Some? ==> 8 <= at.value && at.value + 4 <= HdrSize(v)
  {
    match s
    case Kernel => if v.Vnd3? || v.Vnd4? then None else Some(8)
    case Ramdisk => Some(if v.V3? || v.V4? then 12 else if v.Vnd3? || v.Vnd4? then 24 else 16)
    case Second => if v.V0? || v.V1? || v.V2? || v.Pxa? then Some(24) else None
    case Extra => if v.V0? then Some(40) else if v.Pxa? then Some(32) else None
    case RecoveryDtbo => if v.V1? || v.V2? then Some(1632) else None
    case Dtb => if v.V2? then Some(1648) else if v.Vnd3? || v.Vnd4? then Some(2100) else None
    case Signature => if v.V4? then Some(1580) else None
    case Table => if v.Vnd4? then Some(2112) else None
    case Bootconfig => if v.Vnd4? then Some(2124) else None
  }

  /** Different sections have their sizes in different places. */
  lemma FieldsApart(v: Version, s: Section, t: Section)
    requires s != t && FieldAt(v, s).Some? && FieldAt(v, t).Some?
    ensures FieldAt(v, s).value + 4 <= FieldAt(v, t).value || FieldAt(v, t).value + 4 <= FieldAt(v, s).value
  {
  }

  type Raw = seq<byte>

  predicate IsRaw(v: Version, raw: Raw) {
    |raw| == HdrSize(v)
  }

  function SizeOf(v: Version, raw: Raw, s: Section): uint32
    requires IsRaw(v, raw)
  {
    match FieldAt(v, s)
    case None => 0
    case Some(at) => Read32(raw, at)
  }

  function PageSize(v: Version, raw: Raw): uint32
    requires IsRaw(v, raw)
  {
    if v.V3? || v.V4? then 4096 else Read32(raw, if v.Pxa? then 44 else if v.Vnd3? || v.Vnd4? then 12 else 36)
  }

  /** align_to */
  function AlignTo(n: nat, a: nat): (r: nat)
    requires a > 0
    ensures n <= r < n + a
  {
    AlignedUp(n, a);
    (n + a - 1) / a * a
  }

  lemma AlignedUp(n: nat, a: nat)
    requires a > 0
    ensures n <= (n + a - 1) / a * a < n + a
  {
    assert (n + a - 1) / a * a + (n + a - 1) % a == n + a - 1;
  }

  lemma AlignedTo(n: nat, a: nat)
    requires a > 0
    ensures AlignTo(n, a) % a == 0
  {
    MultipleOf((n + a - 1) / a, a);
  }

  lemma MultipleOf(q: nat, a: nat)
    requires a > 0
    ensures (q * a) % a == 0
  {
    var k, r := q * a / a, q * a % a;
    assert q * a == a * k + r;
    assert (q - k) * a == r;
    if q - k >= 1 {
      Times(q - k, a);
    } else if q - k <= -1 {
      Times(k - q, a);
    }
  }

  lemma Times(n: int, a: nat)
    requires n >= 1
    ensures n * a >= a
  {
  }

  /** The space of the header in front of the first block. */
  function HdrSpace(v: Version, raw: Raw): nat
    requires IsRaw(v, raw) && PageSize(v, raw) > 0
  {
    if v.Vnd3? || v.Vnd4? then AlignTo(HdrSize(v), PageSize(v, raw)) else PageSize(v, raw)
  }

  /** parse_hdr: the version of the header at the start of `p`, without the loaders that put bytes in front. */
  function Detect(p: seq<byte>): Option<Version>
    requires |p| >= 44
  {
    if VENDOR_BOOT_MAGIC <= p then Some(if Read32(p, 8) == 4 then Vnd4 else Vnd3)
    else if !(BOOT_MAGIC <= p) then None
    else if Read32(p, 36) >= 0x0200_0000 then Some(Pxa)
    else
      var version := Read32(p, 40);
      Some(if version == 1 then V1 else if version == 2 then V2 else if version == 3 then V3 else if version == 4
        then V4 else V0)
  }

  // ---------- changing a header ----------

  /** `bytes` written over `raw` at `at`. */
  function Patch(raw: Raw, at: nat, bytes: seq<byte>): (r: Raw)
    requires at + |bytes| <= |raw|
    ensures |r| == |raw|
    ensures forall k :: 0 <= k < |raw| && !(at <= k < at + |bytes|) ==> r[k] == raw[k]
    ensures r[at..at + |bytes|] == bytes
  {
    raw[..at] + bytes + raw[at + |bytes|..]
  }

  lemma PatchedElsewhere(raw: Raw, at: nat, bytes: seq<byte>, i: nat)
    requires at + |bytes| <= |raw| && i + 4 <= |raw| && (i + 4 <= at || at + |bytes| <= i)
    ensures Read32(Patch(raw, at, bytes), i) == Read32(raw, i)
  {
    var r := Patch(raw, at, bytes);
    assert r[i..i + 4] == raw[i..i + 4];
    Read32Injective(r, i, raw, i);
  }

  lemma PatchedHere(raw: Raw, at: nat, n: uint32)
    requires at + 4 <= |raw|
    ensures Read32(Patch(raw, at, Write32(n)), at) == n
  {
    hide Read32;
    var r := Patch(raw, at, Write32(n));
    Read32Injective(r, at, Write32(n), 0);
    assert Write32(n)[0..4] == Write32(n);
  }

  /** set_*_size */
  function WithSize(v: Version, raw: Raw, s: Section, n: uint32): (r: Raw)
    requires IsRaw(v, raw)
    ensures IsRaw(v, r)
  {
    match FieldAt(v, s)
    case None => raw
    case Some(at) => Patch(raw, at, Write32(n))
  }

  /** A size that is set is read back if the version has it, and no other size changes. */
  lemma SizeSet(v: Version, raw: Raw, s: Section, n: uint32, t: Section)
    requires IsRaw(v, raw)
    ensures SizeOf(v, WithSize(v, raw, s, n), t) ==
      if t == s && FieldAt(v, s).Some? then n else SizeOf(v, raw, t)
  {
    hide Read32, Patch, Write32;
    if FieldAt(v, s).Some? && FieldAt(v, t).Some? {
      if s == t {
        PatchedHere(raw, FieldAt(v, s).value, n);
      } else {
        FieldsApart(v, s, t);
        PatchedElsewhere(raw, FieldAt(v, s).value, Write32(n), FieldAt(v, t).value);
      }
    }
  }
}
