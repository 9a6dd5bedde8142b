/** The cpio archive of src/cpio.cpp: reading, writing, and the commands that change it. */
module CpioArchive {
  import opened Bytes
  import opened CpioFormat
  import opened Memory
  import LegacyStream

  type Entries = map<Name, Entry>

  const S_IFMT := 0xf000
  const S_IFDIR := 0x4000
  const S_IFREG := 0x8000

  function Align4(n: nat): (r: nat)
    ensures n <= r < n + 4 && r % 4 == 0
  {
    (n + 3) / 4 * 4
  }

  // ---------- writing ----------

  predicate IsDir(mode: uint32) {
    mode / 0x1000 % 0x10 == 4
  }

  /** The thirteen numbers of a header. */
  function HeaderFields(ino: uint32, e: Entry, nameSize: uint32): (f: seq<uint32>)
    ensures |f| == 13
  {
    [ino, e.mode, e.uid, e.gid, if IsDir(e.mode) then 2 else 1, 0, |e.data| % 0x1_0000_0000, 0, 0, e.rdevMajor,
      e.rdevMinor, nameSize, 0]
  }

  function Hexadecimal(f: seq<uint32>): (s: seq<byte>)
    ensures |s| == 8 * |f|
  {
    if f == [] then [] else FormatHex8(f[0]) + Hexadecimal(f[1..])
  }

  function Header(ino: uint32, e: Entry, nameSize: uint32): (s: seq<byte>)
    ensures |s| == HEADER
  {
    NEWC_MAGIC + Hexadecimal(HeaderFields(ino, e, nameSize))
  }

  /** An entry that the format's 32-bit fields can hold. */
  predicate Fits(name: Name, e: Entry) {
    |name| + 1 < 0x1_0000_0000 && |e.data| < 0x1_0000_0000
  }

  /** write_entry; the paddings make the header with the name, and the data, end on multiples of four. */
  function EntryBytes(name: Name, ino: uint32, e: Entry): (s: seq<byte>)
    ensures |s| == Align4(HEADER + |name| + 1) + Align4(|e.data|)
  {
    var n := |name| + 1;
    var namePad, dataPad := [0] + Zeros(Align4(HEADER + n) - (HEADER + n)), Zeros(Align4(|e.data|) - |e.data|);
    Header(ino, e, n % 0x1_0000_0000) + (name + (namePad + (e.data + dataPad)))
  }

  const TRAILER_ENTRY := Entry(S_IFREG, 0, 0, 0, 0, [])

  function TrailerBytes(ino: uint32): seq<byte> {
    EntryBytes(TRAILER, ino, TRAILER_ENTRY)
  }

  predicate Holds(names: seq<Name>, m: Entries) {
    forall n :: n in names ==> n in m
  }

  function EntriesBytes(names: seq<Name>, m: Entries, ino: nat): (s: seq<byte>)
    requires Holds(names, m)
  {
    if names == [] then []
    else
      assert names[0] in names;
      EntryBytes(names[0], ino % 0x1_0000_0000, m[names[0]]) + EntriesBytes(names[1..], m, ino + 1)
  }

  /** What dump writes when it goes through the entries in the order of `names`. */
  function DumpBytes(names: seq<Name>, m: Entries): (s: seq<byte>)
    requires Holds(names, m)
  {
    EntriesBytes(names, m, 1) + TrailerBytes((1 + |names|) % 0x1_0000_0000)
  }

  // ---------- reading ----------

  /** The first position from `i` to `last` at which the magic string stands. */
  function FindMagic(p: seq<byte>, i: nat, last: int): (r: Option<nat>)
    requires last + 6 <= |p|
    ensures r.Some? ==> i <= r.value <= last && p[r.value..r.value + 6] == NEWC_MAGIC
    decreases last - i
  {
    if i > last then None
    else if p[i..i + 6] == NEWC_MAGIC then Some(i)
    else FindMagic(p, i + 1, last)
  }

  function Field(p: seq<byte>, off: nat): uint32
    requires off + 8 <= |p|
  {
    ParseHex8(p[off..off + 8])
  }

  /** The entry whose header is at `off` and whose data are at `pos`. */
  function EntryAt(p: seq<byte>, off: nat, pos: nat): Entry
    requires off + HEADER <= |p| && pos + Field(p, off + 54) <= |p|
  {
    Entry(Field(p, off + 14), Field(p, off + 22), Field(p, off + 30), Field(p, off + 78), Field(p, off + 86),
      p[pos..pos + Field(p, off + 54)])
  }

  /** One turn of the loop in load: it ends, or goes on at another offset. */
  datatype Turn = Stop(result: Option<Entries>) | GoOn(next: nat, entries: Entries)

  /** What load does at `off`, where a header fits. */
  function TurnAt(p: seq<byte>, off: nat, m: Entries): (t: Turn)
    requires off + HEADER <= |p|
    ensures t.GoOn? ==> off < t.next
  {
    if p[off..off + 6] != NEWC_MAGIC then
      if off != 0 then Stop(None)
      else match FindMagic(p, 0, Min(|p| - 6, 512))
        case None => Stop(None)
        case Some(i) => if i == 0 then Stop(None) else GoOn(i, m)
    else
      var nameSize := Field(p, off + 94);
      if nameSize == 0 || off + HEADER + nameSize > |p| then Stop(None)
      else NamedTurn(p, off, p[off + HEADER..off + HEADER + nameSize - 1], Align4(off + HEADER + nameSize), m)
  }

  /** The same for a header whose name has been read and whose data, if any, are at `pos`. */
  function NamedTurn(p: seq<byte>, off: nat, name: Name, pos: nat, m: Entries): (t: Turn)
    requires off + HEADER <= |p| && off < pos
    ensures t.GoOn? ==> off < t.next
  {
    if name == [DOT] || name == DOTDOT then GoOn(pos, m)
    else if name == TRAILER then
      match FindMagic(p, pos, |p| - 6)
      case None => Stop(Some(m))
      case Some(i) => GoOn(i, m)
    else if pos + Field(p, off + 54) > |p| then Stop(None)
    else GoOn(Align4(pos + Field(p, off + 54)), m[Normalize(name) := EntryAt(p, off, pos)])
  }

  /** The archive in `p` from `off` on, added to `m`; None when it is refused. */
  function LoadFrom(p: seq<byte>, off: nat, m: Entries): (r: Option<Entries>)
    decreases |p| - off
  {
    if off + HEADER > |p| then Some(m)
    else
      match TurnAt(p, off, m)
      case Stop(r) => r
      case GoOn(next, n) => LoadFrom(p, next, n)
  }

  /** The archive in a whole file. */
  function LoadFile(p: seq<byte>): Option<Entries> {
    if p == [] then Some(map[]) else if LegacyStream.MAGIC <= p then None else LoadFrom(p, 0, map[])
  }

  // ---------- what is written is read back ----------

  lemma {:induction false} HexadecimalAt(f: seq<uint32>, i: nat)
    requires i < |f|
    ensures Hexadecimal(f)[8 * i..8 * i + 8] == FormatHex8(f[i])
  {
    hide FormatHex8;
    if i > 0 {
      HexadecimalAt(f[1..], i - 1);
      assert Hexadecimal(f)[8 * i..8 * i + 8] == Hexadecimal(f[1..])[8 * (i - 1)..8 * (i - 1) + 8];
    }
  }

  /** The i-th number of a header, read where it was written. */
  lemma HeaderField(p: seq<byte>, off: nat, ino: uint32, e: Entry, nameSize: uint32, i: nat)
    requires i < 13
    requires off + HEADER <= |p| && p[off..off + HEADER] == Header(ino, e, nameSize)
    ensures Field(p, off + 6 + 8 * i) == HeaderFields(ino, e, nameSize)[i]
  {
    hide FormatHex8, Hexadecimal, ParseHex8, HeaderFields;
    var f := HeaderFields(ino, e, nameSize);
    HexadecimalAt(f, i);
    SliceOfSlice(p, off, off + HEADER, 6 + 8 * i, 6 + 8 * i + 8);
    assert Header(ino, e, nameSize)[6 + 8 * i..6 + 8 * i + 8] == Hexadecimal(f)[8 * i..8 * i + 8];
    HexRoundTrip(f[i]);
  }

  /** All fields of one header. */
  lemma HeaderAt(p: seq<byte>, off: nat, ino: uint32, e: Entry, nameSize: uint32)
    requires |e.data| < 0x1_0000_0000
    requires off + HEADER <= |p| && p[off..off + HEADER] == Header(ino, e, nameSize)
    ensures p[off..off + 6] == NEWC_MAGIC
    ensures Field(p, off + 14) == e.mode && Field(p, off + 22) == e.uid && Field(p, off + 30) == e.gid
    ensures Field(p, off + 54) == |e.data| && Field(p, off + 78) == e.rdevMajor && Field(p, off + 86) == e.rdevMinor
    ensures Field(p, off + 94) == nameSize
  {
    hide Field, Hexadecimal;
    HeaderField(p, off, ino, e, nameSize, 1);
    HeaderField(p, off, ino, e, nameSize, 2);
    HeaderField(p, off, ino, e, nameSize, 3);
    HeaderField(p, off, ino, e, nameSize, 6);
    HeaderField(p, off, ino, e, nameSize, 9);
    HeaderField(p, off, ino, e, nameSize, 10);
    HeaderField(p, off, ino, e, nameSize, 11);
    SliceOfSlice(p, off, off + HEADER, 0, 6);
  }

  /** Alignment relative to an entry is absolute alignment when the entry is aligned itself. */
  lemma AlignFrom(off: nat, n: nat)
    requires off % 4 == 0
    ensures Align4(off + n) == off + Align4(n)
  {
  }

  lemma EntryParts(p: seq<byte>, off: nat, name: Name, ino: uint32, e: Entry)
    requires Fits(name, e) && off + |EntryBytes(name, ino, e)| <= |p|
    requires p[off..off + |EntryBytes(name, ino, e)|] == EntryBytes(name, ino, e)
    ensures var n := |name| + 1; var a := Align4(HEADER + n);
      && p[off..off + HEADER] == Header(ino, e, n) && p[off + HEADER..off + HEADER + |name|] == name
      && p[off + a..off + a + |e.data|] == e.data
  {
    hide Header, Align4, Zeros;
    var n := |name| + 1;
    Parts(p, off, Header(ino, e, n), name, [0] + Zeros(Align4(HEADER + n) - (HEADER + n)), e.data,
      Zeros(Align4(|e.data|) - |e.data|));
  }

  lemma Parts(p: seq<byte>, off: nat, h: seq<byte>, name: seq<byte>, pad: seq<byte>, data: seq<byte>, tail: seq<byte>)
    requires var b := h + (name + (pad + (data + tail))); off + |b| <= |p| && p[off..off + |b|] == b
    ensures p[off..off + |h|] == h && p[off + |h|..off + |h| + |name|] == name
    ensures var a := off + |h| + |name| + |pad|; p[a..a + |data|] == data
  {
    Two(p, off, h, name + (pad + (data + tail)));
    Two(p, off + |h|, name, pad + (data + tail));
    Two(p, off + |h| + |name|, pad, data + tail);
    Two(p, off + |h| + |name| + |pad|, data, tail);
  }

  /** A name that the reader takes for an entry. */
  predicate Ordinary(name: Name) {
    name != [DOT] && name != DOTDOT && name != TRAILER
  }

  /** A written entry is read with its name and its numbers, and its data are where the reader looks for them. */
  lemma EntryTurn(p: seq<byte>, off: nat, name: Name, ino: uint32, e: Entry, m: Entries)
    requires Fits(name, e) && off % 4 == 0 && off + |EntryBytes(name, ino, e)| <= |p|
    requires p[off..off + |EntryBytes(name, ino, e)|] == EntryBytes(name, ino, e)
    ensures var pos := off + Align4(HEADER + |name| + 1);
      && off + HEADER <= |p| && TurnAt(p, off, m) == NamedTurn(p, off, name, pos, m) && Field(p, off + 54) == |e.data|
      && pos + |e.data| <= |p| && EntryAt(p, off, pos) == e
        && off + |EntryBytes(name, ino, e)| == Align4(pos + |e.data|)
  {
    hide EntryBytes, Header, Field, Align4, NamedTurn;
    var n := |name| + 1;
    EntryParts(p, off, name, ino, e);
    HeaderAt(p, off, ino, e, n);
    AlignFrom(off, HEADER + n);
    AlignFrom(Align4(off + HEADER + n), |e.data|);
  }

  /** One turn of the reader. */
  lemma TurnTaken(p: seq<byte>, off: nat, m: Entries)
    requires off + HEADER <= |p|
    ensures LoadFrom(p, off, m) ==
      match TurnAt(p, off, m)
      case Stop(r) => r
      case GoOn(next, n) => LoadFrom(p, next, n)
  {
    hide TurnAt;
  }

  /** One entry, written at an aligned place, is added to what has been read. */
  lemma EntryLoads(p: seq<byte>, off: nat, name: Name, ino: uint32, e: Entry, m: Entries)
    requires Fits(name, e) && off % 4 == 0 && off + |EntryBytes(name, ino, e)| <= |p| && Ordinary(name)
    requires p[off..off + |EntryBytes(name, ino, e)|] == EntryBytes(name, ino, e)
    ensures LoadFrom(p, off, m) == LoadFrom(p, off + |EntryBytes(name, ino, e)|, m[Normalize(name) := e])
  {
    hide EntryBytes, Header, Field, Align4, Normalize, TurnAt, LoadFrom, EntryAt;
    EntryTurn(p, off, name, ino, e, m);
    TurnTaken(p, off, m);
  }

  /** A trailer is skipped, up to the next magic string if there is one. */
  lemma TrailerLoads(p: seq<byte>, off: nat, ino: uint32, m: Entries)
    requires var b := TrailerBytes(ino); off + |b| <= |p| && p[off..off + |b|] == b
    requires off % 4 == 0
    ensures LoadFrom(p, off, m) == Behind(p, off + |TrailerBytes(ino)|, m)
  {
    hide EntryBytes, Header, Field, Align4, Normalize, TurnAt, LoadFrom, EntryAt, FindMagic;
    EntryTurn(p, off, TRAILER, ino, TRAILER_ENTRY, m);
    TurnTaken(p, off, m);
    AlignFrom(off, HEADER + |TRAILER| + 1);
    AlignTwice(off + HEADER + |TRAILER| + 1);
  }

  lemma Two(p: seq<byte>, off: nat, a: seq<byte>, b: seq<byte>)
    requires off + |a| + |b| <= |p| && p[off..off + |a| + |b|] == a + b
    ensures p[off..off + |a|] == a && p[off + |a|..off + |a| + |b|] == b
  {
    SliceOfSlice(p, off, off + |a + b|, 0, |a|);
    SliceOfSlice(p, off, off + |a + b|, |a|, |a + b|);
    assert (a + b)[0..|a|] == a && (a + b)[|a|..|a + b|] == b;
  }

  /** A name that the reader gives a meaning of its own. */
  predicate Special(name: Name) {
    name == DOTDOT || name == TRAILER
  }

  predicate MagicAt(p: seq<byte>, i: nat) {
    i + 6 <= |p| && p[i..i + 6] == NEWC_MAGIC
  }

  /** The magic string does not occur in `data`. */
  predicate Blind(data: seq<byte>) {
    forall i: nat | i < |data| :: !MagicAt(data, i)
  }

  /** An entry the reader gets past: under a special name, data are taken for headers or searched for one. */
  predicate Passable(name: Name, e: Entry) {
    && Fits(name, e) && Normalize(name) == name
    && (name == DOTDOT ==> e.data == []) && (name == TRAILER ==> Blind(e.data))
  }

  predicate Keepable(m: Entries) {
    forall n :: n in m ==> Passable(n, m[n])
  }

  function With(m: Entries, name: Name, e: Entry): Entries {
    if Special(name) then m else m[name := e]
  }

  /** An entry with a special name is passed over, the others are added. */
  lemma EntryRead(p: seq<byte>, off: nat, name: Name, ino: uint32, e: Entry, m: Entries)
    requires Passable(name, e) && off % 4 == 0 && off + |EntryBytes(name, ino, e)| + 6 <= |p|
    requires p[off..off + |EntryBytes(name, ino, e)|] == EntryBytes(name, ino, e)
    requires p[off + |EntryBytes(name, ino, e)|..off + |EntryBytes(name, ino, e)| + 6] == NEWC_MAGIC
    ensures LoadFrom(p, off, m) == LoadFrom(p, off + |EntryBytes(name, ino, e)|, With(m, name, e))
  {
    hide EntryBytes, LoadFrom, Normalize;
    assert name != [DOT] by { DotIsNothing(); }
    if Special(name) {
      SpecialPassed(p, off, name, ino, e, m);
    } else {
      EntryLoads(p, off, name, ino, e, m);
    }
  }

  lemma SpecialPassed(p: seq<byte>, off: nat, name: Name, ino: uint32, e: Entry, m: Entries)
    requires Passable(name, e) && Special(name) && off % 4 == 0 && off + |EntryBytes(name, ino, e)| + 6 <= |p|
    requires p[off..off + |EntryBytes(name, ino, e)|] == EntryBytes(name, ino, e)
    requires p[off + |EntryBytes(name, ino, e)|..off + |EntryBytes(name, ino, e)| + 6] == NEWC_MAGIC
    ensures LoadFrom(p, off, m) == LoadFrom(p, off + |EntryBytes(name, ino, e)|, m)
  {
    hide EntryBytes, Header, Field, Align4, Normalize, TurnAt, LoadFrom, EntryAt, FindMagic, Blind;
    EntryTurn(p, off, name, ino, e, m);
    TurnTaken(p, off, m);
    AlignFrom(off, HEADER + |name| + 1);
    if name == TRAILER {
      BlindData(p, off, name, ino, e);
      FindBehind(p, off + Align4(HEADER + |name| + 1), off + |EntryBytes(name, ino, e)|);
    } else {
      AlignTwice(off + HEADER + |name| + 1);
    }
  }

  /** Two occurrences of the magic string do not overlap. */
  lemma NoBorder(p: seq<byte>, i: nat, k: nat)
    requires i < k < i + 6 && k + 6 <= |p|
    ensures p[i..i + 6] != NEWC_MAGIC || p[k..k + 6] != NEWC_MAGIC
  {
    var a, b := p[i..i + 6], p[k..k + 6];
    assert a[k - i] == b[0] && a[5] == b[i + 5 - k];
  }

  /** Behind the data of an entry come zeros. */
  lemma EntryPadding(p: seq<byte>, off: nat, name: Name, ino: uint32, e: Entry)
    requires Fits(name, e) && off + |EntryBytes(name, ino, e)| <= |p|
    requires p[off..off + |EntryBytes(name, ino, e)|] == EntryBytes(name, ino, e)
    ensures var end := off + Align4(HEADER + |name| + 1) + |e.data|;
      forall k :: end <= k < off + |EntryBytes(name, ino, e)| ==> p[k] == 0
  {
    hide Header, Align4;
    var n, b := |name| + 1, EntryBytes(name, ino, e);
    var a := Align4(HEADER + n) + |e.data|;
    forall k | off + a <= k < off + |b| ensures p[k] == 0 {
      assert p[k] == p[off..off + |b|][k - off] == b[k - off];
    }
  }

  /** No magic string begins in the data, or in the padding, of an entry whose data hold none. */
  lemma BlindData(p: seq<byte>, off: nat, name: Name, ino: uint32, e: Entry)
    requires Fits(name, e) && Blind(e.data) && off + |EntryBytes(name, ino, e)| + 6 <= |p|
    requires p[off..off + |EntryBytes(name, ino, e)|] == EntryBytes(name, ino, e)
    requires p[off + |EntryBytes(name, ino, e)|..off + |EntryBytes(name, ino, e)| + 6] == NEWC_MAGIC
    ensures forall j :: off + Align4(HEADER + |name| + 1) <= j < off + |EntryBytes(name, ino, e)| ==> !MagicAt(p, j)
  {
    hide EntryBytes, Header, Align4;
    var pos, next := off + Align4(HEADER + |name| + 1), off + |EntryBytes(name, ino, e)|;
    var end := pos + |e.data|;
    EntryParts(p, off, name, ino, e);
    EntryPadding(p, off, name, ino, e);
    forall j | pos <= j < next ensures !MagicAt(p, j) {
      if j + 6 <= end {
        SliceOfSlice(p, pos, end, j - pos, j - pos + 6);
        assert !MagicAt(e.data, j - pos);
      } else if end == next {
        NoBorder(p, j, next);
      } else {
        var k := Max(j, end) - j;
        assert p[j..j + 6][k] == 0 && NEWC_MAGIC[k] != 0;
      }
    }
  }

  lemma {:induction false} FindBehind(p: seq<byte>, i: nat, next: nat)
    requires i <= next && next + 6 <= |p| && p[next..next + 6] == NEWC_MAGIC
    requires forall j :: i <= j < next ==> !MagicAt(p, j)
    ensures FindMagic(p, i, |p| - 6) == Some(next)
    decreases next - i
  {
    if i < next {
      assert !MagicAt(p, i);
      FindBehind(p, i + 1, next);
    }
  }

  lemma AlignTwice(n: nat)
    ensures Align4(Align4(n)) == Align4(n)
  {
  }

  lemma DotIsNothing()
    ensures Normalize([DOT]) == []
  {
    assert [DOT][1..] == [] && [] + [DOT] == [DOT];
    assert Segments([DOT], []) == Segments([], [DOT]) == [];
  }

  function Added(names: seq<Name>, m: Entries, acc: Entries): Entries
    requires Holds(names, m)
  {
    if names == [] then acc
    else
      assert names[0] in names;
      Added(names[1..], m, With(acc, names[0], m[names[0]]))
  }

  lemma {:induction false} EntriesLoad(p: seq<byte>, off: nat, names: seq<Name>, m: Entries, ino: nat, acc: Entries)
    requires Keepable(m) && Holds(names, m) && off % 4 == 0
    requires off + |EntriesBytes(names, m, ino)| <= |p|
      && p[off..off + |EntriesBytes(names, m, ino)|] == EntriesBytes(names, m, ino)
    requires var end := off + |EntriesBytes(names, m, ino)|; end + 6 <= |p| && p[end..end + 6] == NEWC_MAGIC
    ensures LoadFrom(p, off, acc) == LoadFrom(p, off + |EntriesBytes(names, m, ino)|, Added(names, m, acc))
    decreases |names|
  {
    hide EntriesBytes, Added, EntryBytes, LoadFrom, Normalize, Align4, Holds, Passable, With;
    EntriesAligned(names, m, ino);
    EntriesUnfold(names, m, ino, acc);
    if names != [] {
      var n := names[0];
      assert n in names && Passable(n, m[n]);
      var b, rest := EntryBytes(n, ino % 0x1_0000_0000, m[n]), EntriesBytes(names[1..], m, ino + 1);
      Two(p, off, b, rest);
      EntriesStart(p, off + |b|, names[1..], m, ino + 1);
      EntryRead(p, off, n, ino % 0x1_0000_0000, m[n], acc);
      EntryAligned(n, ino % 0x1_0000_0000, m[n]);
      EntriesLoad(p, off + |b|, names[1..], m, ino + 1, With(acc, n, m[n]));
    }
  }

  lemma EntriesStart(p: seq<byte>, off: nat, names: seq<Name>, m: Entries, ino: nat)
    requires Holds(names, m)
    requires off + |EntriesBytes(names, m, ino)| + 6 <= |p|
      && p[off..off + |EntriesBytes(names, m, ino)|] == EntriesBytes(names, m, ino)
    requires var end := off + |EntriesBytes(names, m, ino)|; p[end..end + 6] == NEWC_MAGIC
    ensures p[off..off + 6] == NEWC_MAGIC
  {
    hide Hexadecimal, Align4, HeaderFields;
    if names != [] {
      assert names[0] in names;
      var b := EntriesBytes(names, m, ino);
      assert b[0..6] == NEWC_MAGIC;
      SliceOfSlice(p, off, off + |b|, 0, 6);
    }
  }

  lemma EntriesUnfold(names: seq<Name>, m: Entries, ino: nat, acc: Entries)
    requires Holds(names, m)
    ensures names == [] ==> EntriesBytes(names, m, ino) == [] && Added(names, m, acc) == acc
    ensures names != [] ==> names[0] in names && names[0] in m && Holds(names[1..], m)
    ensures names != [] ==>
      && EntriesBytes(names, m, ino) == EntryBytes(names[0], ino % 0x1_0000_0000, m[names[0]])
        + EntriesBytes(names[1..], m, ino + 1)
      && Added(names, m, acc) == Added(names[1..], m, With(acc, names[0], m[names[0]]))
  {
    hide EntryBytes;
  }

  lemma EntryAligned(name: Name, ino: uint32, e: Entry)
    ensures |EntryBytes(name, ino, e)| % 4 == 0
  {
    hide EntryBytes, Align4, Header;
    Multiples(Align4(HEADER + |name| + 1), Align4(|e.data|));
  }

  lemma Multiples(a: nat, b: nat)
    requires a % 4 == 0 && b % 4 == 0
    ensures (a + b) % 4 == 0
  {
  }

  /** Each entry once: all of `m` has been added. */
  lemma {:induction false} AddedAll(names: seq<Name>, m: Entries, acc: Entries)
    requires Holds(names, m)
    ensures forall k :: k in Added(names, m, acc) <==> (k in names && !Special(k)) || k in acc
    ensures forall k :: k in Added(names, m, acc) ==> Added(names, m, acc)[k] == if k in names && !Special(k) then m[k]
      else acc[k]
  {
    if names != [] {
      assert names[0] in names;
      AddedAll(names[1..], m, With(acc, names[0], m[names[0]]));
    }
  }

  /** What is left of an archive after it was written and read: everything but the special names. */
  function Kept(m: Entries): Entries {
    m - {DOTDOT, TRAILER}
  }

  ghost predicate Enumerates(names: seq<Name>, m: Entries) {
    forall k :: k in names <==> k in m
  }

  /** The result of reading on behind a trailer that ends at `end`. */
  function Behind(p: seq<byte>, end: nat, m: Entries): Option<Entries> {
    match FindMagic(p, end, |p| - 6)
    case None => Some(m)
    case Some(i) => LoadFrom(p, i, m)
  }

  /** A whole dump at an aligned place adds its entries; what follows is searched for another archive. */
  lemma DumpLoads(p: seq<byte>, off: nat, names: seq<Name>, m: Entries, acc: Entries)
    requires Keepable(m) && Holds(names, m) && Enumerates(names, m) && off % 4 == 0
    requires off + |DumpBytes(names, m)| <= |p| && p[off..off + |DumpBytes(names, m)|] == DumpBytes(names, m)
    ensures LoadFrom(p, off, acc) == Behind(p, off + |DumpBytes(names, m)|, acc + Kept(m))
  {
    hide *;
    var ino: uint32 := (1 + |names|) % 0x1_0000_0000;
    var b, t := EntriesBytes(names, m, 1), TrailerBytes(ino);
    assert DumpBytes(names, m) == b + t by { DumpParts(names, m); }
    Two(p, off, b, t);
    TrailerStart(p, off + |b|, ino);
    EntriesLoad(p, off, names, m, 1, acc);
    EntriesAligned(names, m, 1);
    assert Added(names, m, acc) == acc + Kept(m) by { AddedEverything(names, m, acc); }
    TrailerLoads(p, off + |b|, ino, acc + Kept(m));
  }

  lemma TrailerStart(p: seq<byte>, off: nat, ino: uint32)
    requires off + |TrailerBytes(ino)| <= |p| && p[off..off + |TrailerBytes(ino)|] == TrailerBytes(ino)
    ensures off + 6 <= |p| && p[off..off + 6] == NEWC_MAGIC
  {
    hide Hexadecimal, Align4, HeaderFields;
    var t := TrailerBytes(ino);
    assert t[0..6] == NEWC_MAGIC;
    SliceOfSlice(p, off, off + |t|, 0, 6);
  }

  lemma DumpParts(names: seq<Name>, m: Entries)
    requires Holds(names, m)
    ensures DumpBytes(names, m) == EntriesBytes(names, m, 1) + TrailerBytes((1 + |names|) % 0x1_0000_0000)
  {
    hide EntriesBytes, TrailerBytes;
  }

  lemma AddedEverything(names: seq<Name>, m: Entries, acc: Entries)
    requires Holds(names, m) && Enumerates(names, m)
    ensures Added(names, m, acc) == acc + Kept(m)
  {
    AddedAll(names, m, acc);
  }

  lemma DumpStarts(names: seq<Name>, m: Entries)
    requires Holds(names, m)
    ensures |DumpBytes(names, m)| >= 6 && DumpBytes(names, m)[..6] == NEWC_MAGIC
  {
    hide Hexadecimal, Align4;
    if names != [] {
      assert names[0] in names;
    }
  }

  /** For every archive that can be kept and every order of writing: load reads back all but the special names. */
  lemma KeepableRoundTrip(names: seq<Name>, m: Entries)
    requires Keepable(m) && Holds(names, m) && Enumerates(names, m)
    ensures LoadFile(DumpBytes(names, m)) == Some(Kept(m))
  {
    hide *;
    var p := DumpBytes(names, m);
    DumpStarts(names, m);
    LoadsFromStart(p);
    assert p[0..|p|] == p;
    DumpLoads(p, 0, names, m, map[]);
    EndOfFile(p, Kept(m));
    assert map[] + Kept(m) == Kept(m);
  }

  lemma KeptAll(m: Entries)
    ensures Kept(m) == m <==> DOTDOT !in m && TRAILER !in m
  {
    if DOTDOT !in m && TRAILER !in m {
      assert Kept(m) == m;
    } else {
      assert DOTDOT !in Kept(m) && TRAILER !in Kept(m);
    }
  }

  /**
    With data it is worse: the reader passes over the header of ".." only and takes the data for
    the next header, so that the file is refused unless the data start with the magic string.
   */
  lemma DataTakenForHeader(p: seq<byte>, off: nat, ino: uint32, e: Entry, m: Entries)
    requires Fits(DOTDOT, e) && off % 4 == 0 && off + |EntryBytes(DOTDOT, ino, e)| <= |p|
    requires p[off..off + |EntryBytes(DOTDOT, ino, e)|] == EntryBytes(DOTDOT, ino, e)
    ensures var pos, next := off + Align4(HEADER + 3), off + |EntryBytes(DOTDOT, ino, e)|;
      && LoadFrom(p, off, m) == LoadFrom(p, pos, m) && p[pos..pos + |e.data|] == e.data
      && (|e.data| >= 6 && e.data[..6] != NEWC_MAGIC && pos + HEADER <= |p| ==> LoadFrom(p, off, m) == None)
      && (e.data != [] && !(NEWC_MAGIC <= e.data) && next + HEADER <= |p| && p[next..next + 6] == NEWC_MAGIC ==>
          LoadFrom(p, off, m) == None)
  {
    hide EntryBytes, Header, Field, Align4, LoadFrom, EntryAt, TurnAt;
    DotDotPassed(p, off, ino, e, m);
    var pos, next := off + Align4(HEADER + 3), off + |EntryBytes(DOTDOT, ino, e)|;
    if pos + HEADER <= |p| && p[pos..pos + 6] != NEWC_MAGIC {
      NoMagicRefused(p, pos, m);
    }
    if |e.data| >= 6 {
      SliceOfSlice(p, pos, pos + |e.data|, 0, 6);
      assert p[pos..pos + 6] == e.data[..6];
    } else if e.data != [] && next + HEADER <= |p| && p[next..next + 6] == NEWC_MAGIC {
      ShortData(p, off, ino, e);
    }
  }

  lemma DotDotPassed(p: seq<byte>, off: nat, ino: uint32, e: Entry, m: Entries)
    requires Fits(DOTDOT, e) && off % 4 == 0 && off + |EntryBytes(DOTDOT, ino, e)| <= |p|
    requires p[off..off + |EntryBytes(DOTDOT, ino, e)|] == EntryBytes(DOTDOT, ino, e)
    ensures var pos := off + Align4(HEADER + 3);
      LoadFrom(p, off, m) == LoadFrom(p, pos, m) && p[pos..pos + |e.data|] == e.data
  {
    hide EntryBytes, Header, Field, Align4, LoadFrom, EntryAt, TurnAt;
    EntryTurn(p, off, DOTDOT, ino, e, m);
    TurnTaken(p, off, m);
    EntryParts(p, off, DOTDOT, ino, e);
  }

  lemma NoMagicRefused(p: seq<byte>, off: nat, m: Entries)
    requires 0 < off && off + HEADER <= |p| && p[off..off + 6] != NEWC_MAGIC
    ensures LoadFrom(p, off, m) == None
  {
    hide LoadFrom, Field;
    TurnTaken(p, off, m);
  }

  /** Less data than the magic string has do not begin it together with what follows. */
  lemma ShortData(p: seq<byte>, off: nat, ino: uint32, e: Entry)
    requires Fits(DOTDOT, e) && 0 < |e.data| < 6 && off + |EntryBytes(DOTDOT, ino, e)| + 6 <= |p|
    requires p[off..off + |EntryBytes(DOTDOT, ino, e)|] == EntryBytes(DOTDOT, ino, e)
    requires p[off + |EntryBytes(DOTDOT, ino, e)|..off + |EntryBytes(DOTDOT, ino, e)| + 6] == NEWC_MAGIC
    ensures var pos := off + Align4(HEADER + 3);
      pos < off + |EntryBytes(DOTDOT, ino, e)| && p[pos..pos + 6] != NEWC_MAGIC
  {
    hide EntryBytes, Header, Align4;
    BlindData(p, off, DOTDOT, ino, e);
    var pos := off + Align4(HEADER + |DOTDOT| + 1);
    assert pos < off + |EntryBytes(DOTDOT, ino, e)| && !MagicAt(p, pos);
  }

  /** An archive about which dump and load leave no question: under a special name, no data start another archive. */
  predicate Plain(m: Entries) {
    forall n :: n in m ==>
      && Fits(n, m[n]) && Normalize(n) == n
      && (n == DOTDOT ==> !(NEWC_MAGIC <= m[n].data)) && (n == TRAILER ==> Blind(m[n].data))
  }

  lemma {:induction false} EntriesRefused(p: seq<byte>, off: nat, names: seq<Name>, m: Entries, ino: nat, acc: Entries)
    requires Plain(m) && Holds(names, m) && off % 4 == 0 && DOTDOT in names && m[DOTDOT].data != []
    requires off + |EntriesBytes(names, m, ino)| + HEADER <= |p|
      && p[off..off + |EntriesBytes(names, m, ino)|] == EntriesBytes(names, m, ino)
    requires var end := off + |EntriesBytes(names, m, ino)|; p[end..end + 6] == NEWC_MAGIC
    ensures LoadFrom(p, off, acc) == None
    decreases |names|
  {
    hide EntriesBytes, Added, EntryBytes, LoadFrom, Normalize, Align4, Holds, Passable, With, Plain, Blind;
    EntriesUnfold(names, m, ino, acc);
    var n := names[0];
    var b, rest := EntryBytes(n, ino % 0x1_0000_0000, m[n]), EntriesBytes(names[1..], m, ino + 1);
    Two(p, off, b, rest);
    EntriesStart(p, off + |b|, names[1..], m, ino + 1);
    PlainEntry(m, n);
    if n == DOTDOT {
      DataTakenForHeader(p, off, ino % 0x1_0000_0000, m[n], acc);
    } else {
      EntryRead(p, off, n, ino % 0x1_0000_0000, m[n], acc);
      EntryAligned(n, ino % 0x1_0000_0000, m[n]);
      EntriesRefused(p, off + |b|, names[1..], m, ino + 1, With(acc, n, m[n]));
    }
  }

  lemma PlainEntry(m: Entries, n: Name)
    requires Plain(m) && n in m
    ensures if n == DOTDOT then Fits(n, m[n]) && !(NEWC_MAGIC <= m[n].data) else Passable(n, m[n])
  {
    hide Normalize, Blind;
  }

  /**
    What dump writes is refused when ".." has data, and otherwise read back without the special
    names: so the archive comes back exactly when it has none of them.
   */
  lemma RoundTrip(names: seq<Name>, m: Entries)
    requires Plain(m) && Holds(names, m) && Enumerates(names, m)
    ensures LoadFile(DumpBytes(names, m)) == if DOTDOT in m && m[DOTDOT].data != [] then None else Some(Kept(m))
    ensures LoadFile(DumpBytes(names, m)) == Some(m) <==> DOTDOT !in m && TRAILER !in m
  {
    hide *;
    if DOTDOT in m && m[DOTDOT].data != [] {
      DumpRefused(names, m);
    } else {
      assert Keepable(m) by { PlainKeepable(m); }
      KeepableRoundTrip(names, m);
    }
    KeptAll(m);
  }

  lemma PlainKeepable(m: Entries)
    requires Plain(m) && (DOTDOT in m ==> m[DOTDOT].data == [])
    ensures Keepable(m)
  {
    hide Normalize, Blind;
  }

  lemma DumpRefused(names: seq<Name>, m: Entries)
    requires Plain(m) && Holds(names, m) && Enumerates(names, m) && DOTDOT in m && m[DOTDOT].data != []
    ensures LoadFile(DumpBytes(names, m)) == None
  {
    hide *;
    var p := DumpBytes(names, m);
    var ino: uint32 := (1 + |names|) % 0x1_0000_0000;
    var b, t := EntriesBytes(names, m, 1), TrailerBytes(ino);
    assert p == b + t by { DumpParts(names, m); }
    assert p[0..|p|] == p;
    Two(p, 0, b, t);
    TrailerStart(p, |b|, ino);
    DumpStarts(names, m);
    LoadsFromStart(p);
    assert DOTDOT in names by { Listed(names, m, DOTDOT); }
    assert |t| >= HEADER by { TrailerSize(ino); }
    EntriesRefused(p, 0, names, m, 1, map[]);
  }

  lemma Listed(names: seq<Name>, m: Entries, n: Name)
    requires Enumerates(names, m) && n in m
    ensures n in names
  {
  }

  lemma TrailerSize(ino: uint32)
    ensures |TrailerBytes(ino)| >= HEADER
  {
    hide EntryBytes;
  }

  lemma {:induction false} FindBehindZeros(p: seq<byte>, i: nat, z: nat, last: int)
    requires i + z <= last && last + 6 <= |p| && (forall k :: i <= k < i + z ==> p[k] == 0)
    requires p[i + z..i + z + 6] == NEWC_MAGIC
    ensures FindMagic(p, i, last) == Some(i + z)
    decreases z
  {
    if z > 0 {
      assert p[i..i + 6][0] == 0;
      FindBehindZeros(p, i + 1, z - 1, last);
    }
  }

  /** Two archives in one file, with padding that keeps the alignment: the second overrides the first. */
  lemma Overlay(a: seq<Name>, m: Entries, b: seq<Name>, m': Entries, padding: nat)
    requires Keepable(m) && Holds(a, m) && Enumerates(a, m) && Keepable(m') && Holds(b, m') && Enumerates(b, m')
    requires padding % 4 == 0
    ensures LoadFile(DumpBytes(a, m) + Zeros(padding) + DumpBytes(b, m')) == Some(Kept(m) + Kept(m'))
  {
    hide *;
    var d, z, e := DumpBytes(a, m), Zeros(padding), DumpBytes(b, m');
    var p := d + z + e;
    DumpStarts(a, m);
    DumpStarts(b, m');
    DumpAligned(a, m);
    OverlayParts(d, z, e);
    DumpLoads(p, 0, a, m, map[]);
    FindBehindZeros(p, |d|, padding, |p| - 6);
    BehindFound(p, |d|, |d| + padding, Kept(m));
    DumpLoads(p, |d| + padding, b, m', Kept(m));
    EndOfFile(p, Kept(m) + Kept(m'));
    LoadsFromStart(p);
    assert map[] + Kept(m) == Kept(m);
  }

  lemma OverlayParts(d: seq<byte>, z: seq<byte>, e: seq<byte>)
    requires |d| >= 6 && |e| >= 6
    ensures var p := d + z + e; p[0..|d|] == d && p[|d| + |z|..|d| + |z| + |e|] == e && p[..6] == d[..6]
    ensures var p := d + z + e; p[|d| + |z|..|d| + |z| + 6] == e[..6] && forall k :: 0 <= k < |z| ==> p[|d| + k] == z[k]
  {
    var p := d + z + e;
    assert p[|d| + |z|..|d| + |z| + |e|] == e;
    SliceOfSlice(p, |d| + |z|, |d| + |z| + |e|, 0, 6);
  }

  lemma EndOfFile(p: seq<byte>, m: Entries)
    ensures Behind(p, |p|, m) == Some(m)
  {
  }

  lemma BehindFound(p: seq<byte>, end: nat, i: nat, m: Entries)
    requires FindMagic(p, end, |p| - 6) == Some(i)
    ensures Behind(p, end, m) == LoadFrom(p, i, m)
  {
  }

  lemma LoadsFromStart(p: seq<byte>)
    requires |p| >= 6 && p[..6] == NEWC_MAGIC
    ensures LoadFile(p) == LoadFrom(p, 0, map[])
  {
    assert p[0] == p[..6][0];
  }

  lemma DumpAligned(names: seq<Name>, m: Entries)
    requires Holds(names, m)
    ensures |DumpBytes(names, m)| % 4 == 0
  {
    hide EntryBytes, EntriesBytes;
    EntriesAligned(names, m, 1);
    EntryAligned(TRAILER, (1 + |names|) % 0x1_0000_0000, TRAILER_ENTRY);
  }

  lemma {:induction false} EntriesAligned(names: seq<Name>, m: Entries, ino: nat)
    requires Holds(names, m)
    ensures |EntriesBytes(names, m, ino)| % 4 == 0
  {
    hide *;
    EntriesUnfold(names, m, ino, map[]);
    if names != [] {
      EntryAligned(names[0], ino % 0x1_0000_0000, m[names[0]]);
      EntriesAligned(names[1..], m, ino + 1);
    }
  }

  // ---------- what a loaded archive can hold ----------

  lemma {:induction false} NormalizeShortens(path: Name, current: Name)
    ensures |Joined(Segments(path, current))| <= |path| + |current|
    decreases |path|
  {
    if path != [] {
      if path[0] == SLASH {
        NormalizeShortens(path[1..], []);
        var rest := Segments(path[1..], []);
        if Keep(current) != [] {
          assert ([current] + rest)[1..] == rest;
        } else {
          assert Keep(current) + rest == rest;
        }
      } else {
        NormalizeShortens(path[1..], current + [path[0]]);
      }
    }
  }

  /** Every entry fits the format and stands under a normalised name. */
  predicate Tidy(m: Entries) {
    forall n :: n in m ==> Fits(n, m[n]) && Normalize(n) == n
  }

  lemma {:induction false} LoadsTidy(p: seq<byte>, off: nat, m: Entries)
    requires Tidy(m)
    ensures LoadFrom(p, off, m).Some? ==> Tidy(LoadFrom(p, off, m).value)
    decreases |p| - off
  {
    hide TurnAt, Tidy;
    if off + HEADER <= |p| {
      TurnTidy(p, off, m);
      var t := TurnAt(p, off, m);
      if t.GoOn? {
        LoadsTidy(p, t.next, t.entries);
      }
    }
  }

  lemma TurnTidy(p: seq<byte>, off: nat, m: Entries)
    requires Tidy(m) && off + HEADER <= |p|
    ensures TurnAt(p, off, m).GoOn? ==> Tidy(TurnAt(p, off, m).entries)
    ensures TurnAt(p, off, m).Stop? && TurnAt(p, off, m).result.Some? ==> TurnAt(p, off, m).result.value == m
  {
    hide Normalize, Field, FindMagic, Tidy, Align4;
    var nameSize := Field(p, off + 94);
    if p[off..off + 6] == NEWC_MAGIC && nameSize != 0 && off + HEADER + nameSize <= |p| {
      var name, pos := p[off + HEADER..off + HEADER + nameSize - 1], Align4(off + HEADER + nameSize);
      if pos + Field(p, off + 54) <= |p| {
        TidyMore(m, name, EntryAt(p, off, pos));
      }
    }
  }

  lemma TidyMore(m: Entries, name: Name, e: Entry)
    requires Tidy(m) && Fits(name, e)
    ensures Tidy(m[Normalize(name) := e])
  {
    hide Normalize;
    TidyName(name);
  }

  lemma TidyName(name: Name)
    ensures |Normalize(name)| <= |name| && Normalize(Normalize(name)) == Normalize(name)
  {
    NormalizeShortens(name, []);
    NormalizeIdempotent(name);
  }

  /**
    Whatever file was loaded: if the data of entries under special names start no other archive,
    writing the archive and loading it again gives the same archive exactly when there are no such
    entries. A file can bring one in with a name such as "/..".
   */
  lemma Rewritten(p: seq<byte>, names: seq<Name>, m: Entries)
    requires LoadFile(p) == Some(m) && Holds(names, m) && Enumerates(names, m)
    requires DOTDOT in m ==> !(NEWC_MAGIC <= m[DOTDOT].data)
    requires TRAILER in m ==> Blind(m[TRAILER].data)
    ensures LoadFile(DumpBytes(names, m)) == Some(m) <==> DOTDOT !in m && TRAILER !in m
  {
    hide LoadFrom, DumpBytes, Normalize, Blind;
    assert Plain(m) by {
      LoadsTidy(p, 0, map[]);
    }
    RoundTrip(names, m);
  }
}
