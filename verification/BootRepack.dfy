/** The repack command of src/bootimg.cpp: which bytes it writes, and when parsing them gives every block back. */
module BootRepack {
  import opened Bytes
  import opened Memory
  import opened BootHeader
  import opened BootImage
  import opened VendorRamdisk

  /** The files found in the working directory, in the form in which they go into the image. */
  datatype Files = Files(kernel: Option<seq<byte>>, kernelDtb: Option<seq<byte>>, ramdisk: Option<seq<byte>>,
    fragments: seq<seq<byte>>, second: Option<seq<byte>>, extra: Option<seq<byte>>, recoveryDtbo: Option<seq<byte>>,
    dtb: Option<seq<byte>>, bootconfig: Option<seq<byte>>)

  /** What is to be written for each block; None writes nothing and leaves the size alone. */
  type Contents = c: seq<Option<seq<byte>>> | |c| == |SECTIONS|
    witness [None, None, None, None, None, None, None, None, None]

  function Size(c: Option<seq<byte>>): nat {
    if c.Some? then |c.value| else 0
  }

  function BytesOf(c: Option<seq<byte>>): seq<byte> {
    if c.Some? then c.value else []
  }

  function EntryNum(v: Version, raw: Raw): uint32
    requires IsRaw(v, raw)
  {
    if v.Vnd4? then Read32(raw, 2116) else 0
  }

  function EntrySize(v: Version, raw: Raw): uint32
    requires IsRaw(v, raw)
  {
    if v.Vnd4? then Read32(raw, 2120) else 0
  }

  /** What the source demands of an image: the header fits in its space, and a table has entries of the known size
      inside it. */
  ghost predicate Packable(img: Image, files: Files) {
    && WellCut(img) && HdrSize(img.version) <= HdrSpace(img.version, img.raw) == img.offsets[0]
    && Detect(img.raw) == Some(img.version)
    && (SizeOf(img.version, img.raw, Table) != 0 ==>
        EntrySize(img.version, img.raw) == ENTRY_SIZE
        && ENTRY_SIZE * EntryNum(img.version, img.raw) <= SizeOf(img.version, img.raw, Table)
        && |files.fragments| == EntryNum(img.version, img.raw))
  }

  function Place(s: Section): (i: nat)
    ensures i < |SECTIONS| && SECTIONS[i] == s
  {
    match s
    case Kernel => 0
    case Ramdisk => 1
    case Second => 2
    case Extra => 3
    case RecoveryDtbo => 4
    case Dtb => 5
    case Signature => 6
    case Table => 7
    case Bootconfig => 8
  }

  lemma BlockAt(img: Image, s: Section)
    requires WellCut(img)
    ensures img.offsets[Place(s)] + SizeOf(img.version, img.raw, s) <= |img.payload|
  {
    assert BlockInside(img, Place(s));
  }

  /** A block of the image that is repacked. */
  function Original(img: Image, s: Section): (b: seq<byte>)
    requires WellCut(img)
    ensures |b| == SizeOf(img.version, img.raw, s)
  {
    BlockAt(img, s);
    SectionOf(img, Place(s))
  }

  /** The entries of the table, empty when the image has none. */
  function TableOf(img: Image, files: Files): (t: seq<Entry>)
    requires Packable(img, files)
    ensures TableOk(t) && (SizeOf(img.version, img.raw, Table) != 0 ==> |t| == |files.fragments|)
  {
    if SizeOf(img.version, img.raw, Table) == 0 then []
      else ReadTable(Original(img, Table), EntryNum(img.version, img.raw))
  }

  function KernelContent(img: Image, files: Files): seq<byte>
    requires WellCut(img)
  {
    (if files.kernel.Some? then files.kernel.value else Original(img, Kernel)) + BytesOf(files.kernelDtb)
  }

  function RamdiskContent(img: Image, files: Files): Option<seq<byte>>
    requires WellCut(img)
  {
    if SizeOf(img.version, img.raw, Table) != 0 then Some(Concat(files.fragments)) else files.ramdisk
  }

  function SignatureContent(img: Image): Option<seq<byte>>
    requires WellCut(img)
  {
    if SizeOf(img.version, img.raw, Signature) != 0 then Some(Original(img, Signature)) else None
  }

  function TableContent(img: Image, files: Files): Option<seq<byte>>
    requires Packable(img, files)
  {
    var table := TableOf(img, files);
    if table == [] then None else Some(TableBytes(Retabled(table, files.fragments, |table|)))
  }

  function ContentsOf(img: Image, files: Files): Contents
    requires Packable(img, files)
  {
    [Some(KernelContent(img, files)), RamdiskContent(img, files), files.second, files.extra, files.recoveryDtbo,
      files.dtb,
     SignatureContent(img), TableContent(img, files), files.bootconfig]
  }

  // ---------- what is written ----------

  /** What is written for a block at position `at`: its bytes, and zeros up to the next page. */
  function Block(c: Option<seq<byte>>, at: nat, page: nat): (b: seq<byte>)
    requires page > 0
    ensures Size(c) <= |b| && b[..Size(c)] == BytesOf(c)
    ensures c.Some? ==> at + |b| == AlignTo(at + Size(c), page)
    ensures c == None ==> b == []
  {
    if c == None then [] else c.value + Zeros(AlignTo(at + |c.value|, page) - (at + |c.value|))
  }

  /** The first `i` blocks, behind a header of `space` bytes; each is padded to the page. */
  function Body(c: Contents, space: nat, page: nat, i: nat): (b: seq<byte>)
    requires i <= |SECTIONS| && page > 0
  {
    if i == 0 then []
    else
      var b := Body(c, space, page, i - 1);
      b + Block(c[i - 1], space + |b|, page)
  }

  /** Sizes that repack sets to zero first: those of extra and recovery_dtbo are not among them. */
  predicate Reset(s: Section) {
    s.Kernel? || s.Ramdisk? || s.Second? || s.Dtb? || s.Bootconfig?
  }

  /** Sizes that have a setter. */
  predicate Settable(s: Section) {
    Reset(s) || s.Extra? || s.RecoveryDtbo?
  }

  /** Where a section's offset is recorded as well. */
  function WithDtboOffset(v: Version, raw: Raw, at: nat): (r: Raw)
    requires IsRaw(v, raw)
    ensures IsRaw(v, r)
  {
    if v.V1? || v.V2? then
      Patch(Patch(raw, 1636, Write32(at % 0x1_0000_0000)), 1640, Write32(at / 0x1_0000_0000 % 0x1_0000_0000))
    else raw
  }

  function ResetSizes(v: Version, raw: Raw): (r: Raw)
    requires IsRaw(v, raw)
    ensures IsRaw(v, r)
  {
    WithSize(v, WithSize(v, WithSize(v, WithSize(v, WithSize(v, raw, Kernel, 0), Ramdisk, 0), Second, 0), Dtb, 0),
      Bootconfig, 0)
  }

  /** The header after the first `i` blocks. */
  function Recorded(v: Version, raw: Raw, c: Contents, space: nat, page: nat, i: nat): (r: Raw)
    requires IsRaw(v, raw) && i <= |SECTIONS| && page > 0
    ensures IsRaw(v, r)
  {
    if i == 0 then ResetSizes(v, raw)
    else
      var r := Recorded(v, raw, c, space, page, i - 1);
      RecordOne(v, r, SECTIONS[i - 1], c[i - 1], space + |Body(c, space, page, i - 1)|)
  }

  function RecordOne(v: Version, raw: Raw, s: Section, c: Option<seq<byte>>, at: nat): (r: Raw)
    requires IsRaw(v, raw)
    ensures IsRaw(v, r)
  {
    if c == None || !Settable(s) then raw
    else WithSize(v, if s.RecoveryDtbo? then WithDtboOffset(v, raw, at) else raw, s, |c.value| % 0x1_0000_0000)
  }

  function HeaderSizeAt(v: Version): Option<nat> {
    match v
    case V0 | Pxa => None
    case V1 | V2 => Some(1644)
    case V3 | V4 => Some(20)
    case Vnd3 | Vnd4 => Some(2096)
  }

  function IdAt(v: Version): Option<nat> {
    match v
    case V0 | V1 | V2 => Some(576)
    case Pxa => Some(584)
    case _ => None
  }

  const BOOT_ID_SIZE := 32

  /** The last changes: the header's own size, and the checksum, whose value is not modelled. */
  function Finished(v: Version, raw: Raw, id: seq<byte>): (r: Raw)
    requires IsRaw(v, raw) && |id| == BOOT_ID_SIZE
    ensures IsRaw(v, r)
  {
    var r := if HeaderSizeAt(v).Some? then Patch(raw, HeaderSizeAt(v).value, Write32(HdrSize(v))) else raw;
    if IdAt(v).Some? then Patch(r, IdAt(v).value, id) else r
  }

  function NewRaw(img: Image, c: Contents, id: seq<byte>): (r: Raw)
    requires WellCut(img) && |id| == BOOT_ID_SIZE
    ensures IsRaw(img.version, r)
  {
    var v, page := img.version, PageSize(img.version, img.raw);
    Finished(v, Recorded(v, img.raw, c, img.offsets[0], page, |SECTIONS|), id)
  }

  // ---------- sizes that are read back ----------

  /** Fields that are none of the sizes, nor any part of what decides the version. */
  predicate Apart(v: Version, at: nat, n: nat) {
    && at + n <= HdrSize(v) && at >= 12
    && (forall s: Section :: FieldAt(v, s).Some? ==> at + n <= FieldAt(v, s).value || FieldAt(v, s).value + 4 <= at)
    && (at + n <= 36 || 48 <= at || v.Vnd3? || v.Vnd4?)
    && (at + n <= 12 || 16 <= at)
  }

  lemma OtherFieldsApart(v: Version)
    ensures v.V1? || v.V2? ==> Apart(v, 1636, 4) && Apart(v, 1640, 4)
    ensures HeaderSizeAt(v).Some? ==> Apart(v, HeaderSizeAt(v).value, 4)
    ensures IdAt(v).Some? ==> Apart(v, IdAt(v).value, BOOT_ID_SIZE)
  {
  }

  lemma SizeKept(v: Version, raw: Raw, at: nat, bytes: seq<byte>, t: Section)
    requires IsRaw(v, raw) && Apart(v, at, |bytes|)
    ensures SizeOf(v, Patch(raw, at, bytes), t) == SizeOf(v, raw, t)
  {
    hide Read32, Patch;
    if FieldAt(v, t).Some? {
      PatchedElsewhere(raw, at, bytes, FieldAt(v, t).value);
    }
  }

  /** Bytes that decide the version and the page size. */
  ghost predicate SameHead(v: Version, a: Raw, b: Raw)
    requires IsRaw(v, a) && IsRaw(v, b)
  {
    && a[..8] == b[..8] && PageSize(v, a) == PageSize(v, b)
    && (if v.Vnd3? || v.Vnd4? then Read32(a, 8) == Read32(b, 8)
        else Read32(a, 36) == Read32(b, 36) && (v.V0? || v.Pxa? || Read32(a, 40) == Read32(b, 40)))
  }

  /** Changes outside the sizes keep the head. */
  lemma HeadKept(v: Version, raw: Raw, at: nat, bytes: seq<byte>)
    requires IsRaw(v, raw) && Apart(v, at, |bytes|)
    ensures SameHead(v, raw, Patch(raw, at, bytes))
  {
    hide Read32, Patch;
    var r := Patch(raw, at, bytes);
    assert raw[..8] == r[..8];
    PlaceKept(v, raw, at, bytes, 8);
    PlaceKept(v, raw, at, bytes, 12);
    PlaceKept(v, raw, at, bytes, 36);
    PlaceKept(v, raw, at, bytes, 40);
    PlaceKept(v, raw, at, bytes, 44);
  }

  lemma PlaceKept(v: Version, raw: Raw, at: nat, bytes: seq<byte>, i: nat)
    requires IsRaw(v, raw) && at + |bytes| <= |raw| && i + 4 <= |raw|
    ensures i + 4 <= at || at + |bytes| <= i ==> Read32(Patch(raw, at, bytes), i) == Read32(raw, i)
  {
    hide Read32, Patch;
    if i + 4 <= at || at + |bytes| <= i {
      PatchedElsewhere(raw, at, bytes, i);
    }
  }

  /** Setting a size keeps the head as well. */
  lemma HeadKeptBySize(v: Version, raw: Raw, s: Section, n: uint32)
    requires IsRaw(v, raw)
    ensures SameHead(v, raw, WithSize(v, raw, s, n))
  {
    hide Read32, Patch;
    if FieldAt(v, s).Some? {
      var at, bytes := FieldAt(v, s).value, Write32(n);
      assert raw[..8] == Patch(raw, at, bytes)[..8];
      PlaceKept(v, raw, at, bytes, 8);
      PlaceKept(v, raw, at, bytes, 12);
      PlaceKept(v, raw, at, bytes, 36);
      PlaceKept(v, raw, at, bytes, 40);
      PlaceKept(v, raw, at, bytes, 44);
    }
  }

  /** The size a block has in the header once `i` blocks have been written. */
  function SizeAfter(v: Version, raw: Raw, c: Contents, i: nat, t: Section): uint32
    requires IsRaw(v, raw)
  {
    if FieldAt(v, t) == None then 0
    else if Place(t) < i && Settable(t) && c[Place(t)].Some? then |c[Place(t)].value| % 0x1_0000_0000
    else if Reset(t) then 0
    else SizeOf(v, raw, t)
  }

  lemma SizesReset(v: Version, raw: Raw, t: Section)
    requires IsRaw(v, raw)
    ensures SizeOf(v, ResetSizes(v, raw), t) == if Reset(t) then 0 else SizeOf(v, raw, t)
    ensures SameHead(v, raw, ResetSizes(v, raw))
  {
    hide SizeOf, WithSize, PageSize, Read32;
    var r1 := WithSize(v, raw, Kernel, 0);
    var r2 := WithSize(v, r1, Ramdisk, 0);
    var r3 := WithSize(v, r2, Second, 0);
    var r4 := WithSize(v, r3, Dtb, 0);
    SizeSet(v, raw, Kernel, 0, t);
    SizeSet(v, r1, Ramdisk, 0, t);
    SizeSet(v, r2, Second, 0, t);
    SizeSet(v, r3, Dtb, 0, t);
    SizeSet(v, r4, Bootconfig, 0, t);
    HeadKeptBySize(v, raw, Kernel, 0);
    HeadKeptBySize(v, r1, Ramdisk, 0);
    HeadKeptBySize(v, r2, Second, 0);
    HeadKeptBySize(v, r3, Dtb, 0);
    HeadKeptBySize(v, r4, Bootconfig, 0);
    NoField(v, raw, t);
    NoField(v, ResetSizes(v, raw), t);
  }

  lemma NoField(v: Version, raw: Raw, t: Section)
    requires IsRaw(v, raw)
    ensures FieldAt(v, t) == None ==> SizeOf(v, raw, t) == 0
  {
  }

  lemma OneRecorded(v: Version, raw: Raw, s: Section, c: Option<seq<byte>>, at: nat, t: Section)
    requires IsRaw(v, raw)
    ensures SizeOf(v, RecordOne(v, raw, s, c, at), t) ==
      if t == s && c.Some? && Settable(s) && FieldAt(v, s).Some? then |c.value| % 0x1_0000_0000 else SizeOf(v, raw, t)
    ensures SameHead(v, raw, RecordOne(v, raw, s, c, at))
  {
    hide SizeOf, WithSize, PageSize, Read32, WithDtboOffset;
    if c.Some? && Settable(s) {
      var r := if s.RecoveryDtbo? then WithDtboOffset(v, raw, at) else raw;
      DtboOffsetApart(v, raw, at, t);
      SizeSet(v, r, s, |c.value| % 0x1_0000_0000, t);
      HeadKeptBySize(v, r, s, |c.value| % 0x1_0000_0000);
    }
  }

  lemma DtboOffsetApart(v: Version, raw: Raw, at: nat, t: Section)
    requires IsRaw(v, raw)
    ensures SizeOf(v, WithDtboOffset(v, raw, at), t) == SizeOf(v, raw, t)
    ensures SameHead(v, raw, WithDtboOffset(v, raw, at))
  {
    hide SizeOf, PageSize, Read32, Apart, Write32;
    OtherFieldsApart(v);
    if v.V1? || v.V2? {
      var low, high := Write32(at % 0x1_0000_0000), Write32(at / 0x1_0000_0000 % 0x1_0000_0000);
      var r := Patch(raw, 1636, low);
      SizeKept(v, raw, 1636, low, t);
      SizeKept(v, r, 1640, high, t);
      HeadKept(v, raw, 1636, low);
      HeadKept(v, r, 1640, high);
    }
  }

  lemma FinishedApart(v: Version, raw: Raw, id: seq<byte>, t: Section)
    requires IsRaw(v, raw) && |id| == BOOT_ID_SIZE
    ensures SizeOf(v, Finished(v, raw, id), t) == SizeOf(v, raw, t)
    ensures SameHead(v, raw, Finished(v, raw, id))
  {
    hide SizeOf, PageSize, Read32, Apart, Write32, Patch;
    OtherFieldsApart(v);
    var r := if HeaderSizeAt(v).Some? then Patch(raw, HeaderSizeAt(v).value, Write32(HdrSize(v))) else raw;
    if HeaderSizeAt(v).Some? {
      SizeKept(v, raw, HeaderSizeAt(v).value, Write32(HdrSize(v)), t);
      HeadKept(v, raw, HeaderSizeAt(v).value, Write32(HdrSize(v)));
    }
    if IdAt(v).Some? {
      SizeKept(v, r, IdAt(v).value, id, t);
      HeadKept(v, r, IdAt(v).value, id);
    }
  }

  lemma {:induction false} SizesRecorded(v: Version, raw: Raw, c: Contents, space: nat, page: nat, i: nat, t: Section)
    requires IsRaw(v, raw) && i <= |SECTIONS| && page > 0
    ensures SizeOf(v, Recorded(v, raw, c, space, page, i), t) == SizeAfter(v, raw, c, i, t)
    ensures SameHead(v, raw, Recorded(v, raw, c, space, page, i))
  {
    hide SizeOf, RecordOne, ResetSizes, SameHead, Body, SizeAfter, FieldAt, Settable;
    SizeAfterStep(v, raw, c, i, t);
    if i == 0 {
      SizesReset(v, raw, t);
    } else {
      var r := Recorded(v, raw, c, space, page, i - 1);
      var at := space + |Body(c, space, page, i - 1)|;
      SizesRecorded(v, raw, c, space, page, i - 1, t);
      OneRecorded(v, r, SECTIONS[i - 1], c[i - 1], at, t);
      HeadKeptTwice(v, raw, r, RecordOne(v, r, SECTIONS[i - 1], c[i - 1], at));
    }
  }

  lemma SizeAfterStep(v: Version, raw: Raw, c: Contents, i: nat, t: Section)
    requires IsRaw(v, raw) && i <= |SECTIONS|
    ensures i == 0 ==> SizeAfter(v, raw, c, i, t) == if Reset(t) then 0 else SizeOf(v, raw, t)
    ensures i > 0 ==>
      (SizeAfter(v, raw, c, i, t) ==
       if t == SECTIONS[i - 1] && c[i - 1].Some? && Settable(t) && FieldAt(v, t).Some?
         then |c[i - 1].value| % 0x1_0000_0000
       else SizeAfter(v, raw, c, i - 1, t))
  {
    hide SizeOf;
    NoField(v, raw, t);
  }

  lemma HeadKeptTwice(v: Version, a: Raw, b: Raw, c: Raw)
    requires IsRaw(v, a) && IsRaw(v, b) && IsRaw(v, c) && SameHead(v, a, b) && SameHead(v, b, c)
    ensures SameHead(v, a, c)
  {
    hide Read32, PageSize;
  }

  /** All sizes of the new header. */
  lemma NewSizes(img: Image, c: Contents, id: seq<byte>, t: Section)
    requires WellCut(img) && |id| == BOOT_ID_SIZE
    ensures SizeOf(img.version, NewRaw(img, c, id), t) == SizeAfter(img.version, img.raw, c, |SECTIONS|, t)
    ensures SameHead(img.version, img.raw, NewRaw(img, c, id))
  {
    hide SizeOf, PageSize, Read32, Recorded, Finished, SizeAfter;
    var v, page := img.version, PageSize(img.version, img.raw);
    SizesRecorded(v, img.raw, c, img.offsets[0], page, |SECTIONS|, t);
    FinishedApart(v, Recorded(v, img.raw, c, img.offsets[0], page, |SECTIONS|), id, t);
  }

  // ---------- the new image ----------

  /** An image whose header has its place and is recognised. */
  ghost predicate Ready(img: Image, id: seq<byte>) {
    && WellCut(img) && |id| == BOOT_ID_SIZE && Detect(img.raw) == Some(img.version)
    && HdrSize(img.version) <= HdrSpace(img.version, img.raw) == img.offsets[0] <= |img.payload|
  }

  function NewPayload(img: Image, c: Contents, id: seq<byte>): (p: seq<byte>)
    requires Ready(img, id)
  {
    Patch(img.payload[..img.offsets[0]], 0, NewRaw(img, c, id))
      + Body(c, img.offsets[0], PageSize(img.version, img.raw), |SECTIONS|)
  }

  /** Of all versions, only version 0 keeps a size in the field that tells the versions apart. */
  predicate LooksNewer(v: Version, raw: Raw)
    requires IsRaw(v, raw)
  {
    v.V0? && 1 <= SizeOf(v, raw, Extra) <= 4
  }

  predicate NewerPlain(d: Option<Version>) {
    d.Some? && (d.value.V1? || d.value.V2? || d.value.V3? || d.value.V4?)
  }

  lemma DetectedAgain(v: Version, raw: Raw, new_: Raw)
    requires IsRaw(v, raw) && IsRaw(v, new_) && SameHead(v, raw, new_) && Detect(raw) == Some(v)
    ensures Detect(new_) == Some(v) <==> !LooksNewer(v, new_)
    ensures LooksNewer(v, new_) ==> NewerPlain(Detect(new_))
  {
    hide Read32;
    assert VENDOR_BOOT_MAGIC <= raw <==> raw[..8] == VENDOR_BOOT_MAGIC;
    assert VENDOR_BOOT_MAGIC <= new_ <==> new_[..8] == VENDOR_BOOT_MAGIC;
    assert BOOT_MAGIC <= raw <==> raw[..8] == BOOT_MAGIC;
    assert BOOT_MAGIC <= new_ <==> new_[..8] == BOOT_MAGIC;
  }

  /** Only the first bytes are looked at. */
  lemma DetectedFromStart(p: seq<byte>, n: nat)
    requires 44 <= n <= |p|
    ensures Detect(p[..n]) == Detect(p)
  {
    hide Read32;
    var q := p[..n];
    SliceOfPrefix(p, n, 8, 12);
    SliceOfPrefix(p, n, 36, 40);
    SliceOfPrefix(p, n, 40, 44);
    Read32Injective(p, 8, q, 8);
    Read32Injective(p, 36, q, 36);
    Read32Injective(p, 40, q, 40);
    assert VENDOR_BOOT_MAGIC <= p <==> p[..8] == VENDOR_BOOT_MAGIC;
    assert BOOT_MAGIC <= p <==> p[..8] == BOOT_MAGIC;
    assert q[..8] == p[..8];
    assert VENDOR_BOOT_MAGIC <= q <==> q[..8] == VENDOR_BOOT_MAGIC;
    assert BOOT_MAGIC <= q <==> q[..8] == BOOT_MAGIC;
  }

  /** What can be checked before repacking: every block that will be written has a size field, and every field will
      tell. */
  ghost predicate Recordable(img: Image, c: Contents)
    requires WellCut(img)
  {
    && (forall s: Section :: SectionRecordable(img, c, s))
    && (img.version.V0? ==> !(1 <= (if c[Place(Extra)].Some? then Size(c[Place(Extra)])
      else SizeOf(img.version, img.raw, Extra)) <= 4))
  }

  ghost predicate SectionRecordable(img: Image, c: Contents, s: Section)
    requires WellCut(img)
  {
    var b := c[Place(s)];
    if FieldAt(img.version, s) == None then Size(b) == 0
    else if Settable(s) && b.Some? then Size(b) < 0x1_0000_0000
    else if Reset(s) then true
    else SizeOf(img.version, img.raw, s) == Size(b)
  }

  /** That is: every size of the new header is the size of what is written. */
  lemma RecordableMeans(img: Image, c: Contents, s: Section)
    requires WellCut(img)
    ensures SectionRecordable(img, c, s) <==> SizeAfter(img.version, img.raw, c, |SECTIONS|, s) == Size(c[Place(s)])
  {
    hide SizeOf, WellCut;
  }

  // ---------- parsing what was written ----------

  /** A header whose sizes are those of what is written. */
  ghost predicate Tells(v: Version, raw: Raw, c: Contents)
    requires IsRaw(v, raw)
  {
    forall i :: 0 <= i < |SECTIONS| ==> SizeOf(v, raw, SECTIONS[i]) == Size(c[i])
  }

  lemma AlignedStays(n: nat, a: nat)
    requires a > 0 && n % a == 0
    ensures AlignTo(n, a) == n
  {
    hide AlignTo;
    AlignedTo(n, a);
    NoMultipleBetween(n, AlignTo(n, a), a);
  }

  lemma NoMultipleBetween(n: nat, r: nat, a: nat)
    requires a > 0 && n % a == 0 && r % a == 0 && n <= r < n + a
    ensures r == n
  {
    var p, q := n / a, r / a;
    assert n == a * p && r == a * q;
    assert a * (q - p) == r - n;
    if q > p {
      Times(q - p, a);
    } else if q < p {
      Times(p - q, a);
    }
  }

  lemma BodyStep(c: Contents, space: nat, page: nat, i: nat)
    requires page > 0 && i < |SECTIONS| && (space + |Body(c, space, page, i)|) % page == 0
    ensures space + |Body(c, space, page, i + 1)| == AlignTo(space + |Body(c, space, page, i)| + Size(c[i]), page)
    ensures var b := Body(c, space, page, i);
      |b| + Size(c[i]) <= |Body(c, space, page, i + 1)|
        && Body(c, space, page, i + 1)[..|b| + Size(c[i])] == b + BytesOf(c[i])
  {
    hide AlignTo, Block;
    var b := Body(c, space, page, i);
    var x := Block(c[i], space + |b|, page);
    assert Body(c, space, page, i + 1) == b + x;
    assert (b + x)[..|b| + Size(c[i])] == b + x[..Size(c[i])];
    if c[i] == None {
      AlignedStays(space + |b|, page);
    }
  }

  /** The parser's offsets are the writer's. */
  lemma {:induction false} OffsetsMeet(v: Version, raw: Raw, c: Contents, space: nat, page: nat, i: nat)
    requires IsRaw(v, raw) && PageSize(v, raw) == page > 0 && HdrSpace(v, raw) == space && Tells(v, raw, c)
      && i <= |SECTIONS|
    ensures Offset(v, raw, i) == space + |Body(c, space, page, i)| && (space + |Body(c, space, page, i)|) % page == 0
  {
    hide SizeOf, PageSize, AlignTo, HdrSpace, Body, Offset;
    if i == 0 {
      SpaceAligned(v, raw);
      assert Offset(v, raw, 0) == space && Body(c, space, page, 0) == [] by { Start(v, raw, c, space, page); }
    } else {
      OffsetsMeet(v, raw, c, space, page, i - 1);
      BodyStep(c, space, page, i - 1);
      OffsetStep(v, raw, i - 1);
      AlignedTo(Offset(v, raw, i - 1) + Size(c[i - 1]), page);
    }
  }

  lemma Start(v: Version, raw: Raw, c: Contents, space: nat, page: nat)
    requires IsRaw(v, raw) && PageSize(v, raw) == page > 0
    ensures Offset(v, raw, 0) == HdrSpace(v, raw) && Body(c, space, page, 0) == []
  {
  }

  lemma {:induction false} BodyGrows(c: Contents, space: nat, page: nat, i: nat, j: nat)
    requires page > 0 && i <= j <= |SECTIONS|
    ensures Body(c, space, page, i) <= Body(c, space, page, j)
  {
    hide AlignTo, Block;
    if i < j {
      BodyGrows(c, space, page, i, j - 1);
    }
  }

  /** Each block stands in the whole body where the writer was when it wrote it. */
  lemma BlockInBody(c: Contents, space: nat, page: nat, i: nat)
    requires page > 0 && i < |SECTIONS| && (space + |Body(c, space, page, i)|) % page == 0
    ensures var at, all := |Body(c, space, page, i)|, Body(c, space, page, |SECTIONS|);
      at + Size(c[i]) <= |all| && all[at..at + Size(c[i])] == BytesOf(c[i])
  {
    hide Body;
    var b, next, all := Body(c, space, page, i), Body(c, space, page, i + 1), Body(c, space, page, |SECTIONS|);
    BodyStep(c, space, page, i);
    BodyGrows(c, space, page, i + 1, |SECTIONS|);
    var end := |b| + Size(c[i]);
    assert all[..end] == next[..end] == b + BytesOf(c[i]);
    SliceOfPrefix(all, end, |b|, end);
    assert (b + BytesOf(c[i]))[|b|..end] == BytesOf(c[i]);
  }

  /** The new image gives back every block of what was written. */
  ghost predicate Restores(m: seq<byte>, v: Version, c: Contents)
    requires Mapping(m)
  {
    match Parsed(m)
    case None => false
    case Some(img) => img.version == v && forall i :: 0 <= i < |SECTIONS| ==> GivesBack(img, c, i)
  }

  ghost predicate GivesBack(img: Image, c: Contents, i: nat)
    requires i < |SECTIONS|
  {
    && IsRaw(img.version, img.raw) && i < |img.offsets|
    && img.offsets[i] + SizeOf(img.version, img.raw, SECTIONS[i]) <= |img.payload| && SectionOf(img, i) == BytesOf(c[i])
  }

  lemma HeaderStands(img: Image, c: Contents, id: seq<byte>, rest: seq<byte>)
    requires Ready(img, id)
    ensures var m, new_ := NewPayload(img, c, id) + rest, NewRaw(img, c, id);
      && |m| >= HdrSize(img.version) && m[..HdrSize(img.version)] == new_
      && (Detect(m) == Some(img.version) <==> !LooksNewer(img.version, new_))
      && (LooksNewer(img.version, new_) ==> NewerPlain(Detect(m)))
      && PageSize(img.version, new_) == PageSize(img.version, img.raw)
  {
    hide NewRaw, PageSize, SizeOf, Body, Detect;
    var m, new_, n := NewPayload(img, c, id) + rest, NewRaw(img, c, id), HdrSize(img.version);
    var head := Patch(img.payload[..img.offsets[0]], 0, new_);
    assert head[0..0 + |new_|] == new_;
    assert m[..n] == head[..n] == new_;
    NewSizes(img, c, id, Extra);
    DetectedAgain(img.version, img.raw, new_);
    DetectedFromStart(m, n);
  }

  /** The new header tells every size and is still recognised. */
  ghost predicate Told(img: Image, c: Contents, id: seq<byte>)
    requires WellCut(img) && |id| == BOOT_ID_SIZE
  {
    Tells(img.version, NewRaw(img, c, id), c) && !LooksNewer(img.version, NewRaw(img, c, id))
  }

  /** A header that tells the sizes and keeps its version is parsed into exactly what was written. */
  lemma ToldIsRestored(img: Image, c: Contents, id: seq<byte>, rest: seq<byte>)
    requires Ready(img, id) && Told(img, c, id) && Mapping(NewPayload(img, c, id) + rest)
    ensures Restores(NewPayload(img, c, id) + rest, img.version, c)
  {
    hide NewRaw, PageSize, SizeOf, Body, Detect, Offset, LooksNewer, HdrSpace, Tells, NewPayload, WellCut, Mapping,
      Parsed, Restores, GivesBack;
    HeaderPositive(img);
    var v, new_, space, page := img.version, NewRaw(img, c, id), img.offsets[0], PageSize(img.version, img.raw);
    var m := NewPayload(img, c, id) + rest;
    HeaderStands(img, c, id, rest);
    SpaceKept(v, img.raw, new_);
    OffsetsMeet(v, new_, c, space, page, |SECTIONS|);
    PayloadSize(img, c, id);
    ParsedNew(m, v, new_);
    var j := Parsed(m).value;
    assert m[..|NewPayload(img, c, id)|] == NewPayload(img, c, id);
    forall i | 0 <= i < |SECTIONS| ensures GivesBack(j, c, i) {
      OffsetsMeet(v, new_, c, space, page, i);
      SizeTold(v, new_, c, i);
      BlockInBody(c, space, page, i);
      BlockBehind(img, c, id, j, i);
    }
    AllGivenBack(m, v, c);
  }

  lemma HeaderPositive(img: Image)
    requires WellCut(img)
    ensures IsRaw(img.version, img.raw) && PageSize(img.version, img.raw) > 0 && |img.offsets| == |SECTIONS| + 1
    ensures img.offsets[0] <= |img.payload|
  {
    assert BlockInside(img, 0);
  }

  lemma PayloadSize(img: Image, c: Contents, id: seq<byte>)
    requires Ready(img, id)
    ensures |NewPayload(img, c, id)| == img.offsets[0]
      + |Body(c, img.offsets[0], PageSize(img.version, img.raw), |SECTIONS|)|
  {
    hide NewRaw, PageSize, Body;
  }

  lemma ParsedNew(m: seq<byte>, v: Version, raw: Raw)
    requires Mapping(m) && Detect(m) == Some(v) && m[..HdrSize(v)] == raw && PageSize(v, raw) > 0
      && Offset(v, raw, |SECTIONS|) <= |m|
    ensures var end := Offset(v, raw, |SECTIONS|);
      Parsed(m) == Some(Image(v, raw, m[..end], m[end..], Offsets(v, raw, |SECTIONS| + 1)))
  {
    hide PageSize, Detect, Offset;
  }

  lemma AllGivenBack(m: seq<byte>, v: Version, c: Contents)
    requires Mapping(m) && Parsed(m).Some? && Parsed(m).value.version == v
    requires forall i :: 0 <= i < |SECTIONS| ==> GivesBack(Parsed(m).value, c, i)
    ensures Restores(m, v, c)
  {
    hide Parsed, GivesBack, Mapping;
  }

  lemma SizeTold(v: Version, raw: Raw, c: Contents, i: nat)
    requires IsRaw(v, raw) && Tells(v, raw, c) && i < |SECTIONS|
    ensures SizeOf(v, raw, SECTIONS[i]) == Size(c[i])
  {
  }

  lemma SpaceKept(v: Version, a: Raw, b: Raw)
    requires IsRaw(v, a) && IsRaw(v, b) && PageSize(v, a) == PageSize(v, b) > 0
    ensures HdrSpace(v, a) == HdrSpace(v, b)
  {
    hide PageSize;
  }

  lemma BlockBehind(img: Image, c: Contents, id: seq<byte>, j: Image, i: nat)
    requires Ready(img, id) && IsRaw(img.version, img.raw) && PageSize(img.version, img.raw) > 0 && |img.offsets| > 0
      && i < |SECTIONS|
    requires IsRaw(j.version, j.raw) && j.payload == NewPayload(img, c, id) && i < |j.offsets|
    requires var space, page := img.offsets[0], PageSize(img.version, img.raw);
      var at, all := |Body(c, space, page, i)|, Body(c, space, page, |SECTIONS|);
      && j.offsets[i] == space + at && SizeOf(j.version, j.raw, SECTIONS[i]) == Size(c[i])
      && at + Size(c[i]) <= |all| && all[at..at + Size(c[i])] == BytesOf(c[i])
    ensures GivesBack(j, c, i)
  {
    hide NewRaw, PageSize, SizeOf, Body, Ready, NewPayload, BytesOf, WellCut;
    var space, page := img.offsets[0], PageSize(img.version, img.raw);
    var at, all, n := |Body(c, space, page, i)|, Body(c, space, page, |SECTIONS|), Size(c[i]);
    var head := PayloadParts(img, c, id);
    BehindHead(head, all, at, n);
  }

  lemma PayloadParts(img: Image, c: Contents, id: seq<byte>) returns (head: seq<byte>)
    requires Ready(img, id)
    ensures PageSize(img.version, img.raw) > 0 && |img.offsets| > 0 && |head| == img.offsets[0]
    ensures NewPayload(img, c, id) == head + Body(c, img.offsets[0], PageSize(img.version, img.raw), |SECTIONS|)
  {
    hide NewRaw, PageSize, Body;
    head := Patch(img.payload[..img.offsets[0]], 0, NewRaw(img, c, id));
  }

  lemma BehindHead(head: seq<byte>, all: seq<byte>, at: nat, n: nat)
    requires at + n <= |all|
    ensures |head| + at + n <= |head + all| && (head + all)[|head| + at..|head| + at + n] == all[at..at + n]
  {
  }

  /** What gives everything back has told every size. */
  lemma RestoredIsTold(img: Image, c: Contents, id: seq<byte>, rest: seq<byte>)
    requires Ready(img, id) && Mapping(NewPayload(img, c, id) + rest)
      && Restores(NewPayload(img, c, id) + rest, img.version, c)
    ensures Told(img, c, id)
  {
    hide NewRaw, PageSize, SizeOf, Body, Detect, Offset, LooksNewer, HdrSpace, NewPayload, WellCut, Mapping, Parsed,
      Restores;
    HeaderPositive(img);
    var m, new_ := NewPayload(img, c, id) + rest, NewRaw(img, c, id);
    HeaderStands(img, c, id, rest);
    RestoredSize(m, img.version, c, 0);
    forall i | 0 <= i < |SECTIONS| ensures SizeOf(img.version, new_, SECTIONS[i]) == Size(c[i]) {
      RestoredSize(m, img.version, c, i);
    }
  }

  lemma RestoredSize(m: seq<byte>, v: Version, c: Contents, i: nat)
    requires Mapping(m) && Restores(m, v, c) && i < |SECTIONS|
    ensures Detect(m) == Some(v) && SizeOf(v, m[..HdrSize(v)], SECTIONS[i]) == Size(c[i])
  {
    hide PageSize, SizeOf, Detect, Offset;
    assert GivesBack(Parsed(m).value, c, i);
  }

  lemma RecordableIsTold(img: Image, c: Contents, id: seq<byte>)
    requires WellCut(img) && |id| == BOOT_ID_SIZE
    ensures Recordable(img, c) <==> Told(img, c, id)
  {
    hide NewRaw, SizeOf, WellCut, SectionRecordable, SizeAfter, SameHead;
    var v, new_ := img.version, NewRaw(img, c, id);
    forall s: Section ensures SectionRecordable(img, c, s) <==> SizeOf(v, new_, s) == Size(c[Place(s)]) {
      RecordableMeans(img, c, s);
      NewSizes(img, c, id, s);
    }
    assert Tells(v, new_, c) <==> forall s: Section :: SectionRecordable(img, c, s) by {
      if Tells(v, new_, c) {
        forall s: Section ensures SectionRecordable(img, c, s) {
          SizeTold(v, new_, c, Place(s));
        }
      }
      if forall s: Section :: SectionRecordable(img, c, s) {
        forall i | 0 <= i < |SECTIONS| ensures SizeOf(v, new_, SECTIONS[i]) == Size(c[i]) {
          assert SectionRecordable(img, c, SECTIONS[i]) && Place(SECTIONS[i]) == i;
        }
      }
    }
    if v.V0? {
      NewSizes(img, c, id, Extra);
      NewExtra(img, c);
    }
  }

  lemma NewExtra(img: Image, c: Contents)
    requires WellCut(img) && img.version.V0?
    ensures SizeAfter(img.version, img.raw, c, |SECTIONS|, Extra) ==
      if c[Place(Extra)].Some? then Size(c[Place(Extra)]) % 0x1_0000_0000 else SizeOf(img.version, img.raw, Extra)
  {
    hide SizeOf, WellCut;
  }

  lemma MappingOk(img: Image, c: Contents, id: seq<byte>, rest: seq<byte>)
    requires Ready(img, id) && |NewPayload(img, c, id) + rest| >= SMALLEST_MAPPING
    ensures Mapping(NewPayload(img, c, id) + rest)
  {
    hide NewRaw, SizeOf, Body, NewPayload, Read32, HdrSpace;
    HeaderPositive(img);
    HeaderStands(img, c, id, rest);
    var v, m, new_ := img.version, NewPayload(img, c, id) + rest, NewRaw(img, c, id);
    var d := Detect(m);
    if d.Some? && d != Some(v) {
      var w := d.value;
      assert v.V0?;
      SamePlace36(m, HdrSize(v), HdrSize(w));
    }
  }

  lemma SamePlace36(m: seq<byte>, n: nat, k: nat)
    requires 40 <= n <= |m| && 40 <= k <= |m|
    ensures Read32(m[..n], 36) == Read32(m[..k], 36)
  {
  }

  /**
    Repacking and parsing. For every header version, every set of files and whatever follows the
    payload, the repacked image is parsed as the same version with exactly the bytes that were
    written for every block, if and only if the version has a field for every block that is not
    empty, no size is left over from the original, no size needs more than 32 bits, and a version-0
    image has no extra block of 1 to 4 bytes, whose size would be taken for a header version.
   */
  lemma RepackRestores(img: Image, files: Files, id: seq<byte>, rest: seq<byte>)
    requires Packable(img, files) && Ready(img, id)
    requires |NewPayload(img, ContentsOf(img, files), id) + rest| >= SMALLEST_MAPPING
    ensures Mapping(NewPayload(img, ContentsOf(img, files), id) + rest)
    ensures Restores(NewPayload(img, ContentsOf(img, files), id) + rest, img.version, ContentsOf(img, files))
      <==> Recordable(img, ContentsOf(img, files))
  {
    hide NewRaw, NewPayload, ContentsOf, Restores, Recordable, Told, Mapping;
    var c := ContentsOf(img, files);
    MappingOk(img, c, id, rest);
    RecordableIsTold(img, c, id);
    if Told(img, c, id) {
      ToldIsRestored(img, c, id, rest);
    }
    if Restores(NewPayload(img, c, id) + rest, img.version, c) {
      RestoredIsTold(img, c, id, rest);
    }
  }

  /** The failures are real: a version-0 image with a new extra block of one byte, and a recovery_dtbo that was taken
      away. */
  lemma NotRestored(img: Image, files: Files, id: seq<byte>, rest: seq<byte>)
    requires Packable(img, files) && Ready(img, id)
    requires |NewPayload(img, ContentsOf(img, files), id) + rest| >= SMALLEST_MAPPING
    requires (img.version.V0? && files.extra == Some([0]))
      || (img.version.V1? && files.recoveryDtbo == None && SizeOf(img.version, img.raw, RecoveryDtbo) > 0)
    ensures Mapping(NewPayload(img, ContentsOf(img, files), id) + rest)
    ensures !Restores(NewPayload(img, ContentsOf(img, files), id) + rest, img.version, ContentsOf(img, files))
  {
    hide NewRaw, NewPayload, Restores, Mapping, SizeOf, KernelContent, RamdiskContent, SignatureContent, TableContent,
      Packable;
    var c := ContentsOf(img, files);
    RepackRestores(img, files, id, rest);
    assert c[Place(Extra)] == files.extra && c[Place(RecoveryDtbo)] == files.recoveryDtbo;
    assert img.version.V1? && files.recoveryDtbo == None && SizeOf(img.version, img.raw, RecoveryDtbo) > 0 ==>
      !SectionRecordable(img, c, RecoveryDtbo);
  }

  /** A version-0 image with pages of 2048 bytes and nothing in it. */
  function EmptyImage(): (m: seq<byte>)
    ensures |m| == SMALLEST_MAPPING
  {
    BOOT_MAGIC + Zeros(28) + Write32(2048) + Zeros(4056)
  }

  lemma EmptyHeader()
    ensures var m := EmptyImage();
      && Mapping(m) && Detect(m) == Some(V0) && PageSize(V0, m[..1632]) == 2048
      && forall s :: SizeOf(V0, m[..1632], s) == 0
  {
    var m := EmptyImage();
    var raw := m[..1632];
    assert m[36..40] == raw[36..40] == Write32(2048);
    ReadWritten(m, 36, 2048);
    ReadWritten(raw, 36, 2048);
    assert !(VENDOR_BOOT_MAGIC <= m) by { assert m[0] == 0x41; }
    assert BOOT_MAGIC <= m;
    assert Read32(m, 40) == 0;
    forall s ensures SizeOf(V0, raw, s) == 0 {
      var at := FieldAt(V0, s);
      if at.Some? {
        assert at.value in {8, 16, 24, 40};
        assert raw[at.value] == raw[at.value + 1] == raw[at.value + 2] == raw[at.value + 3] == 0;
      }
    }
  }

  lemma {:induction false} EmptyOffsets(v: Version, raw: Raw, i: nat)
    requires IsRaw(v, raw) && PageSize(v, raw) == 2048 && HdrSpace(v, raw) == 2048 && i <= |SECTIONS|
    requires forall s :: SizeOf(v, raw, s) == 0
    ensures Offset(v, raw, i) == 2048
  {
    hide SizeOf, PageSize, AlignTo;
    if i > 0 {
      EmptyOffsets(v, raw, i - 1);
      OffsetStep(v, raw, i - 1);
      AlignedStays(2048, 2048);
    }
  }

  /** One extra byte added to that image, for one. */
  lemma OneByteLost(id: seq<byte>)
    requires |id| == BOOT_ID_SIZE
    ensures Mapping(EmptyImage()) && Parsed(EmptyImage()).Some?
    ensures var img := Parsed(EmptyImage()).value;
      var files := Files(None, None, None, [], None, Some([0]), None, None, None);
      && Packable(img, files) && Ready(img, id)
      && var m := NewPayload(img, ContentsOf(img, files), id) + Zeros(SMALLEST_MAPPING);
         Mapping(m) && !Restores(m, img.version, ContentsOf(img, files))
  {
    hide Read32, SizeOf, PageSize, NewPayload, Restores, ContentsOf, WellCut, EmptyImage;
    var m := EmptyImage();
    EmptyHeader();
    var raw := m[..1632];
    assert HdrSpace(V0, raw) == 2048;
    EmptyOffsets(V0, raw, 0);
    EmptyOffsets(V0, raw, |SECTIONS|);
    ParsedIsWellCut(m);
    DetectedFromStart(m, 1632);
    var img := Parsed(m).value;
    assert img.offsets[0] == Offset(V0, raw, 0);
    NotRestored(img, Files(None, None, None, [], None, Some([0]), None, None, None), id, Zeros(SMALLEST_MAPPING));
  }

  // ---------- vendor ramdisks ----------

  /** From a repacked vendor image that restores its blocks, every fragment is read back through the rewritten table. */
  lemma FragmentsRestored(img: Image, files: Files, m: seq<byte>)
    requires Packable(img, files) && TableOf(img, files) != [] && Mapping(m)
      && Restores(m, img.version, ContentsOf(img, files))
    ensures var j, c := Parsed(m).value, ContentsOf(img, files);
      && GivesBack(j, c, Place(Table)) && GivesBack(j, c, Place(Ramdisk))
        && |SectionOf(j, Place(Table))| == ENTRY_SIZE * |files.fragments|
      && Tiles(ReadTable(SectionOf(j, Place(Table)), |files.fragments|), SectionOf(j, Place(Ramdisk)), files.fragments,
        TableOf(img, files))
  {
    hide Packable, TableOf, Parsed, Mapping, Tiles, Retabled, ReadTable, TableBytes, Concat, WellCut, SizeOf,
      ContentsOf;
    var c, j, table := ContentsOf(img, files), Parsed(m).value, TableOf(img, files);
    TableWritten(img, files);
    assert GivesBack(j, c, Place(Table)) && GivesBack(j, c, Place(Ramdisk));
    TableRoundTrip(Retabled(table, files.fragments, |table|));
    RetabledTiles(table, files.fragments);
  }

  lemma TableWritten(img: Image, files: Files)
    requires Packable(img, files) && TableOf(img, files) != []
    ensures var c, t := ContentsOf(img, files), TableOf(img, files);
      && |t| == |files.fragments| && TableOk(t) && c[Place(Ramdisk)] == Some(Concat(files.fragments))
      && c[Place(Table)] == Some(TableBytes(Retabled(t, files.fragments, |t|)))
  {
    hide SizeOf, WellCut;
  }

  // ---------- unpack, then repack ----------

  /** dump: a block of size zero makes no file. */
  function Dumped(img: Image, s: Section): Option<seq<byte>>
    requires WellCut(img)
  {
    if SizeOf(img.version, img.raw, s) == 0 then None else Some(Original(img, s))
  }

  /** The files that unpack leaves, with the fragments of a vendor ramdisk given. */
  function Unpacked(img: Image, fragments: seq<seq<byte>>): Files
    requires WellCut(img)
  {
    Files(Dumped(img, Kernel), None, Dumped(img, Ramdisk), fragments, Dumped(img, Second), Dumped(img, Extra),
      Dumped(img, RecoveryDtbo),
          Dumped(img, Dtb), Dumped(img, Bootconfig))
  }

  /** A table whose size in the header is that of its entries. */
  ghost predicate TableConsistent(img: Image)
    requires WellCut(img)
  {
    SizeOf(img.version, img.raw, Table) == ENTRY_SIZE * EntryNum(img.version, img.raw)
      || SizeOf(img.version, img.raw, Table) == 0
  }

  /** Except for the ramdisk and its table, unpacking and repacking writes every block as it was. */
  lemma UnpackedContents(img: Image, fragments: seq<seq<byte>>, s: Section)
    requires WellCut(img) && Packable(img, Unpacked(img, fragments)) && !s.Ramdisk? && !s.Table?
    ensures BytesOf(ContentsOf(img, Unpacked(img, fragments))[Place(s)]) == Original(img, s)
    ensures ContentsOf(img, Unpacked(img, fragments))[Place(s)] == None ==> SizeOf(img.version, img.raw, s) == 0
  {
    hide SizeOf, WellCut, Packable, Original, TableContent, RamdiskContent;
    var files := Unpacked(img, fragments);
    if s.Kernel? {
      assert KernelContent(img, files) == Original(img, Kernel) + [];
    }
  }

  /** The files that unpack leaves can be repacked, if and only if the table of a vendor image is consistent. */
  lemma UnpackedIsRecordable(img: Image, fragments: seq<seq<byte>>)
    requires WellCut(img) && Packable(img, Unpacked(img, fragments)) && Detect(img.raw) == Some(img.version)
      && |Concat(fragments)| < 0x1_0000_0000
    ensures Recordable(img, ContentsOf(img, Unpacked(img, fragments))) <==> TableConsistent(img)
  {
    hide SizeOf, Detect, Packable, Original, ContentsOf, TableConsistent;
    var files := Unpacked(img, fragments);
    var c := ContentsOf(img, files);
    forall s: Section | !s.Table? ensures SectionRecordable(img, c, s) {
      NoField(img.version, img.raw, s);
      if s.Ramdisk? {
        RamdiskRecordable(img, fragments);
      } else {
        UnpackedContents(img, fragments, s);
      }
    }
    TableRecordable(img, fragments);
    UnpackedContents(img, fragments, Extra);
    NotNewer(img);
  }

  lemma RamdiskRecordable(img: Image, fragments: seq<seq<byte>>)
    requires WellCut(img) && Packable(img, Unpacked(img, fragments)) && |Concat(fragments)| < 0x1_0000_0000
    ensures SectionRecordable(img, ContentsOf(img, Unpacked(img, fragments)), Ramdisk)
  {
    hide SizeOf, TableContent, KernelContent, SignatureContent, Concat;
  }

  lemma TableRecordable(img: Image, fragments: seq<seq<byte>>)
    requires WellCut(img) && Packable(img, Unpacked(img, fragments))
    ensures SectionRecordable(img, ContentsOf(img, Unpacked(img, fragments)), Table) <==> TableConsistent(img)
  {
    hide Original, Read32, TableBytes, Retabled;
    var files := Unpacked(img, fragments);
    var t := TableOf(img, files);
  }

  lemma NotNewer(img: Image)
    requires WellCut(img) && Detect(img.raw) == Some(img.version)
    ensures img.version.V0? ==> !(1 <= SizeOf(img.version, img.raw, Extra) <= 4)
  {
    hide Read32;
  }

  // ---------- the command ----------

  /** A header object; the setters do nothing where the version has no such field. */
  class Header {
    const version: Version
    var raw: Raw

    constructor (v: Version, r: Raw)
      requires IsRaw(v, r)
      ensures version == v && raw == r
    {
      version, raw := v, r;
    }

    method SetSize(s: Section, n: uint32)
      requires IsRaw(version, raw)
      modifies this
      ensures raw == WithSize(version, old(raw), s, n)
    {
      var at := FieldAt(version, s);
      if at.Some? {
        raw := Patch(raw, at.value, Write32(n));
      }
    }

    method SetDtboOffset(at: nat)
      requires IsRaw(version, raw)
      modifies this
      ensures raw == WithDtboOffset(version, old(raw), at)
    {
      raw := WithDtboOffset(version, raw, at);
    }

    method SetHeaderSizeAndId(id: seq<byte>)
      requires IsRaw(version, raw) && |id| == BOOT_ID_SIZE
      modifies this
      ensures raw == Finished(version, old(raw), id)
    {
      raw := Finished(version, raw, id);
    }
  }

  method ResetHeader(hdr: Header)
    requires IsRaw(hdr.version, hdr.raw)
    modifies hdr
    ensures hdr.raw == ResetSizes(hdr.version, old(hdr.raw))
  {
    hide WithSize;
    hdr.SetSize(Kernel, 0);
    hdr.SetSize(Ramdisk, 0);
    hdr.SetSize(Second, 0);
    hdr.SetSize(Dtb, 0);
    hdr.SetSize(Bootconfig, 0);
  }

  /** One block, if there is one: its bytes, padding, and its size in the header. */
  method WriteBlock(hdr: Header, out0: seq<byte>, s: Section, c: Option<seq<byte>>, page: nat) returns (out: seq<byte>)
    requires IsRaw(hdr.version, hdr.raw) && page > 0
    modifies hdr
    ensures hdr.raw == RecordOne(hdr.version, old(hdr.raw), s, c, |out0|)
    ensures out == out0 + Block(c, |out0|, page)
  {
    hide WithSize, WithDtboOffset, AlignTo;
    out := out0;
    if c == None {
      return;
    }
    if Settable(s) {
      if s.RecoveryDtbo? {
        hdr.SetDtboOffset(|out|);
      }
      hdr.SetSize(s, |c.value| % 0x1_0000_0000);
    }
    out := out + c.value;
    out := out + Zeros(AlignTo(|out|, page) - |out|);
    assert out == out0 + Block(c, |out0|, page);
  }

  lemma NothingRecorded(v: Version, raw: Raw, c: Contents, space: nat, page: nat)
    requires IsRaw(v, raw) && page > 0
    ensures Recorded(v, raw, c, space, page, 0) == ResetSizes(v, raw) && Body(c, space, page, 0) == []
  {
  }

  lemma RecordedMore(v: Version, raw: Raw, c: Contents, space: nat, page: nat, i: nat)
    requires IsRaw(v, raw) && page > 0 && i < |SECTIONS|
    ensures var at := space + |Body(c, space, page, i)|;
      && Recorded(v, raw, c, space, page, i + 1)
        == RecordOne(v, Recorded(v, raw, c, space, page, i), SECTIONS[i], c[i], at)
      && Body(c, space, page, i + 1) == Body(c, space, page, i) + Block(c[i], at, page)
  {
    hide RecordOne, Block, ResetSizes;
  }

  /** Writing the header over the start of the file. */
  lemma Overwritten(img: Image, c: Contents, id: seq<byte>)
    requires Ready(img, id)
    ensures PageSize(img.version, img.raw) > 0
    ensures var out := img.payload[..img.offsets[0]]
      + Body(c, img.offsets[0], PageSize(img.version, img.raw), |SECTIONS|);
      HdrSize(img.version) <= |out| && NewRaw(img, c, id) + out[HdrSize(img.version)..] == NewPayload(img, c, id)
  {
    hide NewRaw, PageSize, Body, Detect;
  }

  /** The header page and the blocks, while the sizes are collected in the header object. */
  method WriteBlocks(hdr: Header, page0: seq<byte>, raw: Raw, c: Contents, page: nat) returns (out: seq<byte>)
    requires IsRaw(hdr.version, raw) && page > 0 && hdr.raw == ResetSizes(hdr.version, raw)
    modifies hdr
    ensures out == page0 + Body(c, |page0|, page, |SECTIONS|)
    ensures hdr.raw == Recorded(hdr.version, raw, c, |page0|, page, |SECTIONS|)
  {
    hide RecordOne, Body, Recorded, ResetSizes, Block;
    NothingRecorded(hdr.version, raw, c, |page0|, page);
    out := page0;
    var i := 0;
    while i < |SECTIONS|
      invariant 0 <= i <= |SECTIONS| && out == page0 + Body(c, |page0|, page, i)
      invariant hdr.raw == Recorded(hdr.version, raw, c, |page0|, page, i)
    {
      RecordedMore(hdr.version, raw, c, |page0|, page, i);
      ghost var x := Block(c[i], |out|, page);
      out := WriteBlock(hdr, out, SECTIONS[i], c[i], page);
      assert out == page0 + (Body(c, |page0|, page, i) + x);
      i := i + 1;
    }
  }

  /** repack: header, blocks, the rest of the file, and at last the header once more with its new sizes. */
  method Repack(img: Image, files: Files, id: seq<byte>, rest: seq<byte>) returns (out: seq<byte>)
    requires Packable(img, files) && Ready(img, id)
    ensures out == NewPayload(img, ContentsOf(img, files), id) + rest
  {
    assert WellCut(img) && |id| == BOOT_ID_SIZE;
    hide ContentsOf, PageSize, Body, Recorded, Finished, ResetSizes, Packable, WellCut, Ready, NewPayload;
    HeaderPositive(img);
    var c := ContentsOf(img, files);
    var v, space, page := img.version, img.offsets[0], PageSize(img.version, img.raw);
    var hdr := new Header(v, img.raw);
    ResetHeader(hdr);
    out := WriteBlocks(hdr, img.payload[..space], img.raw, c, page);
    hdr.SetHeaderSizeAndId(id);
    Overwritten(img, c, id);
    out := hdr.raw + out[HdrSize(v)..] + rest;
  }
}
