/** The layout of boot images in src/bootimg.cpp: parse_image cuts a mapping into blocks, repack writes blocks anew. */
module BootImage {
  import opened Bytes
  import opened BootHeader

  const SMALLEST_MAPPING := 4096

  // ---------- parsing ----------

  /** Where the i-th block starts; the ninth is the end of the last one. */
  function Offset(v: Version, raw: Raw, i: nat): (off: nat)
    requires IsRaw(v, raw) && PageSize(v, raw) > 0 && i <= |SECTIONS|
  {
    if i == 0 then HdrSpace(v, raw)
    else AlignTo(Offset(v, raw, i - 1) + SizeOf(v, raw, SECTIONS[i - 1]), PageSize(v, raw))
  }

  datatype Image = Image(version: Version, raw: Raw, payload: seq<byte>, tail: seq<byte>, offsets: seq<nat>)

  /** What the source demands of a mapping: a whole page, and no page size of zero. */
  predicate Mapping(m: seq<byte>) {
    |m| >= SMALLEST_MAPPING && (Detect(m).Some? ==> PageSize(Detect(m).value, m[..HdrSize(Detect(m).value)]) > 0)
  }

  function Offsets(v: Version, raw: Raw, n: nat): (s: seq<nat>)
    requires IsRaw(v, raw) && PageSize(v, raw) > 0 && n <= |SECTIONS| + 1
    ensures |s| == n && forall i :: 0 <= i < n ==> s[i] == Offset(v, raw, i)
  {
    if n == 0 then [] else Offsets(v, raw, n - 1) + [Offset(v, raw, n - 1)]
  }

  function Parsed(m: seq<byte>): Option<Image>
    requires Mapping(m)
  {
    match Detect(m)
    case None => None
    case Some(v) =>
      var raw := m[..HdrSize(v)];
      var end := Offset(v, raw, |SECTIONS|);
      if end > |m| then None else Some(Image(v, raw, m[..end], m[end..], Offsets(v, raw, |SECTIONS| + 1)))
  }

  lemma OffsetStep(v: Version, raw: Raw, i: nat)
    requires IsRaw(v, raw) && PageSize(v, raw) > 0 && i < |SECTIONS|
    ensures Offset(v, raw, 0) == HdrSpace(v, raw) && Offsets(v, raw, 1) == [HdrSpace(v, raw)]
    ensures Offset(v, raw, i + 1) == AlignTo(Offset(v, raw, i) + SizeOf(v, raw, SECTIONS[i]), PageSize(v, raw))
    ensures Offsets(v, raw, i + 2) == Offsets(v, raw, i + 1) + [Offset(v, raw, i + 1)]
  {
    hide PageSize, SizeOf, AlignTo, HdrSpace;
  }

  lemma OffsetsAscend(v: Version, raw: Raw, i: nat)
    requires IsRaw(v, raw) && PageSize(v, raw) > 0 && i < |SECTIONS|
    ensures Offset(v, raw, i) + SizeOf(v, raw, SECTIONS[i]) <= Offset(v, raw, i + 1)
  {
    hide PageSize, SizeOf;
  }

  lemma {:induction false} OffsetsAscendTo(v: Version, raw: Raw, i: nat, j: nat)
    requires IsRaw(v, raw) && PageSize(v, raw) > 0 && i <= j <= |SECTIONS|
    ensures Offset(v, raw, i) <= Offset(v, raw, j)
  {
    hide PageSize, SizeOf, Offset;
    if i < j {
      OffsetsAscendTo(v, raw, i, j - 1);
      OffsetsAscend(v, raw, j - 1);
    }
  }

  lemma SpaceAligned(v: Version, raw: Raw)
    requires IsRaw(v, raw) && PageSize(v, raw) > 0
    ensures HdrSpace(v, raw) % PageSize(v, raw) == 0
  {
    hide PageSize, AlignTo;
    MultipleOf(1, PageSize(v, raw));
    AlignedTo(HdrSize(v), PageSize(v, raw));
  }

  lemma OffsetsAligned(v: Version, raw: Raw, i: nat)
    requires IsRaw(v, raw) && PageSize(v, raw) > 0 && i <= |SECTIONS|
    ensures Offset(v, raw, i) % PageSize(v, raw) == 0
  {
    hide PageSize, SizeOf, AlignTo, HdrSpace;
    SpaceAligned(v, raw);
    if i > 0 {
      AlignedTo(Offset(v, raw, i - 1) + SizeOf(v, raw, SECTIONS[i - 1]), PageSize(v, raw));
    }
  }

  /** parse_image, from the header to the tail. */
  method ParseImage(m: seq<byte>) returns (r: Option<Image>)
    requires Mapping(m)
    ensures r == Parsed(m)
  {
    hide PageSize, SizeOf, Detect, HdrSpace, HdrSize, AlignTo, Offset, Offsets;
    var detected := Detect(m);
    if detected == None {
      return None;
    }
    var v := detected.value;
    var raw := m[..HdrSize(v)];
    var off := HdrSpace(v, raw);
    var offsets: seq<nat> := [off];
    OffsetStep(v, raw, 0);
    var i := 0;
    while i < |SECTIONS|
      invariant 0 <= i <= |SECTIONS| && off == Offset(v, raw, i) && offsets == Offsets(v, raw, i + 1)
      invariant i > 0 ==> off <= |m|
    {
      OffsetStep(v, raw, i);
      off := off + SizeOf(v, raw, SECTIONS[i]);
      off := AlignTo(off, PageSize(v, raw));
      offsets := offsets + [off];
      i := i + 1;
      if off > |m| {
        OffsetsAscendTo(v, raw, i, |SECTIONS|);
        return None;
      }
    }
    return Some(Image(v, raw, m[..off], m[off..], offsets));
  }

  /** The bytes of a block. */
  function SectionOf(img: Image, i: nat): seq<byte>
    requires IsRaw(img.version, img.raw) && i < |SECTIONS| && i < |img.offsets|
    requires img.offsets[i] + SizeOf(img.version, img.raw, SECTIONS[i]) <= |img.payload|
  {
    img.payload[img.offsets[i]..img.offsets[i] + SizeOf(img.version, img.raw, SECTIONS[i])]
  }

  /** A parsed image: its blocks stand one behind the other inside the payload. */
  ghost predicate WellCut(img: Image) {
    && IsRaw(img.version, img.raw) && PageSize(img.version, img.raw) > 0
    && |img.offsets| == |SECTIONS| + 1 && img.offsets[|SECTIONS|] == |img.payload|
    && (forall i :: 0 <= i < |SECTIONS| ==> BlockInside(img, i))
  }

  /** The blocks start at page boundaries. */
  ghost predicate Paged(img: Image)
    requires WellCut(img)
  {
    forall i :: 0 <= i <= |SECTIONS| ==> img.offsets[i] % PageSize(img.version, img.raw) == 0
  }

  /** A block ends before the next one starts. */
  ghost predicate BlockInside(img: Image, i: nat)
    requires IsRaw(img.version, img.raw) && i < |SECTIONS| && |img.offsets| == |SECTIONS| + 1
  {
    img.offsets[i] + SizeOf(img.version, img.raw, SECTIONS[i]) <= img.offsets[i + 1] <= |img.payload|
  }

  /** Payload and tail partition the mapping, and the blocks are aligned, ascending and disjoint. */
  lemma ParsedIsWellCut(m: seq<byte>)
    requires Mapping(m) && Parsed(m).Some?
    ensures var img := Parsed(m).value;
      WellCut(img) && Paged(img) && img.payload + img.tail == m && m[..HdrSize(img.version)] == img.raw
  {
    hide PageSize, SizeOf, Detect, Offset;
    var img := Parsed(m).value;
    var v, raw := img.version, img.raw;
    assert img.payload + img.tail == m;
    forall i | 0 <= i <= |SECTIONS| ensures img.offsets[i] % PageSize(v, raw) == 0 {
      OffsetsAligned(v, raw, i);
    }
    forall i | 0 <= i < |SECTIONS| ensures BlockInside(img, i) {
      OffsetsAscend(v, raw, i);
      OffsetsAscendTo(v, raw, i + 1, |SECTIONS|);
    }
  }
}
