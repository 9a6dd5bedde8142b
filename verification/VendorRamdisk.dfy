/** The vendor ramdisk table of version 4 vendor images: fragments of the ramdisk, each with its size and offset. */
module VendorRamdisk {
  import opened Bytes
  import opened Memory

  const ENTRY_SIZE := 108

  /** `rest` is the type, the name and the board id. */
  datatype Entry = Entry(size: uint32, offset: uint32, rest: seq<byte>)

  predicate EntryOk(e: Entry) {
    |e.rest| == ENTRY_SIZE - 8
  }

  predicate TableOk(t: seq<Entry>) {
    forall i :: 0 <= i < |t| ==> EntryOk(t[i])
  }

  function EntryBytes(e: Entry): (s: seq<byte>)
    requires EntryOk(e)
    ensures |s| == ENTRY_SIZE
  {
    Write32(e.size) + Write32(e.offset) + e.rest
  }

  function TableBytes(t: seq<Entry>): (s: seq<byte>)
    requires TableOk(t)
    ensures |s| == ENTRY_SIZE * |t|
  {
    if t == [] then [] else EntryBytes(t[0]) + TableBytes(t[1..])
  }

  function ReadEntry(s: seq<byte>, at: nat): (e: Entry)
    requires at + ENTRY_SIZE <= |s|
    ensures EntryOk(e)
  {
    Entry(Read32(s, at), Read32(s, at + 4), s[at + 8..at + ENTRY_SIZE])
  }

  /** The first `n` entries of a table. */
  function ReadTable(s: seq<byte>, n: nat): (t: seq<Entry>)
    requires ENTRY_SIZE * n <= |s|
    ensures |t| == n && TableOk(t)
  {
    seq(n, i requires 0 <= i < n => ReadEntry(s, ENTRY_SIZE * i))
  }

  lemma EntryReadBack(s: seq<byte>, at: nat, e: Entry)
    requires EntryOk(e) && at + ENTRY_SIZE <= |s| && s[at..at + ENTRY_SIZE] == EntryBytes(e)
    ensures ReadEntry(s, at) == e
  {
    hide Read32, Write32;
    var b := EntryBytes(e);
    SliceOfSlice(s, at, at + ENTRY_SIZE, 0, 4);
    SliceOfSlice(s, at, at + ENTRY_SIZE, 4, 8);
    SliceOfSlice(s, at, at + ENTRY_SIZE, 8, ENTRY_SIZE);
    assert b[0..4] == Write32(e.size) && b[4..8] == Write32(e.offset) && b[8..ENTRY_SIZE] == e.rest;
    ReadWritten(s, at, e.size);
    ReadWritten(s, at + 4, e.offset);
  }

  lemma ReadWritten(s: seq<byte>, at: nat, v: uint32)
    requires at + 4 <= |s| && s[at..at + 4] == Write32(v)
    ensures Read32(s, at) == v
  {
    hide Read32, Write32;
    Read32Injective(s, at, Write32(v), 0);
    assert Write32(v)[0..4] == Write32(v);
  }

  lemma {:induction false} TableEntryAt(t: seq<Entry>, i: nat)
    requires TableOk(t) && i < |t|
    ensures TableBytes(t)[ENTRY_SIZE * i..ENTRY_SIZE * i + ENTRY_SIZE] == EntryBytes(t[i])
  {
    hide EntryBytes;
    var b, rest := EntryBytes(t[0]), TableBytes(t[1..]);
    assert TableBytes(t) == b + rest;
    if i == 0 {
      assert (b + rest)[0..ENTRY_SIZE] == b;
    } else {
      TableEntryAt(t[1..], i - 1);
      var j := ENTRY_SIZE * (i - 1);
      assert (b + rest)[ENTRY_SIZE + j..ENTRY_SIZE + j + ENTRY_SIZE] == rest[j..j + ENTRY_SIZE];
    }
  }

  /** A table that is written is read back. */
  lemma TableRoundTrip(t: seq<Entry>)
    requires TableOk(t)
    ensures ReadTable(TableBytes(t), |t|) == t
  {
    hide EntryBytes, ReadEntry, TableBytes;
    forall i | 0 <= i < |t| ensures ReadTable(TableBytes(t), |t|)[i] == t[i] {
      TableEntryAt(t, i);
      EntryReadBack(TableBytes(t), ENTRY_SIZE * i, t[i]);
    }
  }

  // ---------- the rewritten table ----------

  function Concat(fragments: seq<seq<byte>>): seq<byte> {
    if fragments == [] then [] else Concat(fragments[..|fragments| - 1]) + fragments[|fragments| - 1]
  }

  /** The first `n` entries with the sizes of the new fragments and, as offsets, the sums of the sizes before. */
  function Retabled(t: seq<Entry>, fragments: seq<seq<byte>>, n: nat): (r: seq<Entry>)
    requires n <= |t| == |fragments| && TableOk(t)
    ensures |r| == n && TableOk(r)
  {
    if n == 0 then []
    else Retabled(t, fragments, n - 1) +
         [t[n - 1].(size := |fragments[n - 1]| % 0x1_0000_0000, offset := |Concat(fragments[..n - 1])| % 0x1_0000_0000)]
  }

  lemma {:induction false} RetabledAt(t: seq<Entry>, fragments: seq<seq<byte>>, n: nat, i: nat)
    requires i < n <= |t| == |fragments| && TableOk(t)
    ensures Retabled(t, fragments, n)[i] ==
      t[i].(size := |fragments[i]| % 0x1_0000_0000, offset := |Concat(fragments[..i])| % 0x1_0000_0000)
  {
    if i < n - 1 {
      RetabledAt(t, fragments, n - 1, i);
    }
  }

  /** The part of repack that writes the fragments; the table is updated in place while the ramdisk grows. */
  method WriteFragments(t: seq<Entry>, fragments: seq<seq<byte>>) returns (table: seq<Entry>, ramdisk: seq<byte>)
    requires |t| == |fragments| && TableOk(t)
    ensures table == Retabled(t, fragments, |t|) && ramdisk == Concat(fragments)
  {
    hide TableOk;
    table, ramdisk := t, [];
    var ramdiskOffset: uint32 := 0;
    var i := 0;
    while i < |t|
      invariant 0 <= i <= |t| == |table| && ramdisk == Concat(fragments[..i])
        && ramdiskOffset == |ramdisk| % 0x1_0000_0000
      invariant table[..i] == Retabled(t, fragments, i) && table[i..] == t[i..]
    {
      assert table[i] == table[i..][0] == t[i];
      ghost var was := table;
      var size: uint32 := |fragments[i]| % 0x1_0000_0000;
      table := table[i := table[i].(offset := ramdiskOffset, size := size)];
      assert table[..i + 1] == was[..i] + [table[i]] && table[i + 1..] == was[i..][1..] == t[i..][1..];
      ramdisk := ramdisk + fragments[i];
      assert fragments[..i + 1][..i] == fragments[..i];
      Wraps(|ramdisk| - |fragments[i]|, |fragments[i]|);
      ramdiskOffset := (ramdiskOffset + size) % 0x1_0000_0000;
      i := i + 1;
    }
    assert table[..i] == table && fragments[..i] == fragments;
  }

  lemma Wraps(a: nat, b: nat)
    ensures (a % 0x1_0000_0000 + b % 0x1_0000_0000) % 0x1_0000_0000 == (a + b) % 0x1_0000_0000
  {
  }

  lemma {:induction false} FragmentPlace(fragments: seq<seq<byte>>, i: nat)
    requires i < |fragments|
    ensures var at := |Concat(fragments[..i])|;
      at + |fragments[i]| <= |Concat(fragments)| && Concat(fragments)[at..at + |fragments[i]|] == fragments[i]
  {
    var n := |fragments| - 1;
    if i < n {
      var front := fragments[..n];
      FragmentPlace(front, i);
      assert front[..i] == fragments[..i] && front[i] == fragments[i];
      var at := |Concat(fragments[..i])|;
      assert Concat(fragments)[at..at + |fragments[i]|] == Concat(front)[at..at + |fragments[i]|];
    }
  }

  predicate PieceOf(e: Entry, ramdisk: seq<byte>, fragment: seq<byte>) {
    e.offset + e.size <= |ramdisk| && ramdisk[e.offset..e.offset + e.size] == fragment
  }

  /** The i-th piece ends where the next one starts, the last one at the end. */
  predicate Adjacent(t: seq<Entry>, i: nat, end: nat)
    requires i < |t|
  {
    t[i].offset + t[i].size == if i + 1 < |t| then t[i + 1].offset else end
  }

  /** The entries, otherwise as they were, cut the ramdisk into the fragments. */
  ghost predicate Tiles(t: seq<Entry>, ramdisk: seq<byte>, fragments: seq<seq<byte>>, was: seq<Entry>) {
    && |t| == |fragments| == |was|
    && (forall i :: 0 <= i < |t| ==> PieceOf(t[i], ramdisk, fragments[i]) && t[i].rest == was[i].rest)
    && (forall i :: 0 <= i < |t| ==> Adjacent(t, i, |ramdisk|)) && (t != [] ==> t[0].offset == 0)
  }

  /** Offsets that are prefix sums: every entry's piece of the ramdisk is its fragment, the pieces tile the ramdisk. */
  lemma RetabledTiles(t: seq<Entry>, fragments: seq<seq<byte>>)
    requires |t| == |fragments| && TableOk(t) && |Concat(fragments)| < 0x1_0000_0000
    ensures Tiles(Retabled(t, fragments, |t|), Concat(fragments), fragments, t)
  {
    hide PieceOf, Adjacent, Retabled, Concat, TableOk;
    var r, ramdisk := Retabled(t, fragments, |t|), Concat(fragments);
    forall i | 0 <= i < |t| ensures PieceOf(r[i], ramdisk, fragments[i]) && r[i].rest == t[i].rest
      && Adjacent(r, i, |ramdisk|) {
      PieceRetabled(t, fragments, i);
      PieceAdjacent(t, fragments, i);
    }
    if t != [] {
      FirstRetabled(t, fragments);
    }
  }

  lemma PieceRetabled(t: seq<Entry>, fragments: seq<seq<byte>>, i: nat)
    requires i < |t| == |fragments| && TableOk(t) && |Concat(fragments)| < 0x1_0000_0000
    ensures var r := Retabled(t, fragments, |t|);
      PieceOf(r[i], Concat(fragments), fragments[i]) && r[i].rest == t[i].rest
    ensures Retabled(t, fragments, |t|)[i].offset == |Concat(fragments[..i])|
      && Retabled(t, fragments, |t|)[i].size == |fragments[i]|
  {
    hide Concat, Retabled, TableOk;
    RetabledAt(t, fragments, |t|, i);
    FragmentPlace(fragments, i);
    Small(|Concat(fragments[..i])|);
    Small(|fragments[i]|);
  }

  lemma Small(n: nat)
    ensures n < 0x1_0000_0000 ==> n % 0x1_0000_0000 == n
  {
  }

  lemma PieceAdjacent(t: seq<Entry>, fragments: seq<seq<byte>>, i: nat)
    requires i < |t| == |fragments| && TableOk(t) && |Concat(fragments)| < 0x1_0000_0000
    ensures Adjacent(Retabled(t, fragments, |t|), i, |Concat(fragments)|)
  {
    hide Concat, Retabled, TableOk, PieceOf;
    PieceRetabled(t, fragments, i);
    ConcatMore(fragments, i);
    if i + 1 < |t| {
      PieceRetabled(t, fragments, i + 1);
    }
  }

  lemma FirstRetabled(t: seq<Entry>, fragments: seq<seq<byte>>)
    requires 0 < |t| == |fragments| && TableOk(t)
    ensures Retabled(t, fragments, |t|)[0].offset == 0
  {
    hide Retabled;
    RetabledAt(t, fragments, |t|, 0);
    NoFragments(fragments[..0]);
  }

  lemma NoFragments(fragments: seq<seq<byte>>)
    requires fragments == []
    ensures Concat(fragments) == []
  {
  }

  lemma ConcatMore(fragments: seq<seq<byte>>, i: nat)
    requires i < |fragments|
    ensures |Concat(fragments[..i + 1])| == |Concat(fragments[..i])| + |fragments[i]|
    ensures i + 1 == |fragments| ==> fragments[..i + 1] == fragments
  {
    assert fragments[..i + 1][..i] == fragments[..i];
  }
}
