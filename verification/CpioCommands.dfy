/** The CpioArchive class of src/cpio.cpp and the commands that are run on an archive file. */
module CpioCommands {
  import opened Bytes
  import opened CpioFormat
  import opened CpioArchive
  import LegacyStream

  // ---------- the order of std::map<std::string, ...> ----------

  predicate Before(a: Name, b: Name) {
    if b == [] then false
    else if a == [] then true
    else if a[0] != b[0] then a[0] < b[0]
    else Before(a[1..], b[1..])
  }

  lemma {:induction false} BeforeIsTransitive(a: Name, b: Name, c: Name)
    requires Before(a, b) && Before(b, c)
    ensures Before(a, c)
  {
    if a != [] && a[0] == b[0] == c[0] {
      BeforeIsTransitive(a[1..], b[1..], c[1..]);
    }
  }

  lemma {:induction false} BeforeIsTotal(a: Name, b: Name)
    ensures a == b || Before(a, b) || Before(b, a)
    ensures Before(a, b) ==> a != b && !Before(b, a)
  {
    if a != [] && b != [] {
      BeforeIsTotal(a[1..], b[1..]);
      assert a == [a[0]] + a[1..] && b == [b[0]] + b[1..];
    }
  }

  predicate Least(n: Name, names: set<Name>) {
    n in names && forall k :: k in names && k != n ==> Before(n, k)
  }

  lemma {:induction false} LeastExists(names: set<Name>)
    requires names != {}
    ensures exists n :: Least(n, names)
    decreases |names|
  {
    var a :| a in names;
    var rest := names - {a};
    if rest == {} {
      assert names == {a} + rest;
      assert Least(a, names);
    } else {
      LeastExists(rest);
      var b :| Least(b, rest);
      BeforeIsTotal(a, b);
      if Before(b, a) {
        assert Least(b, names);
      } else {
        forall k | k in names && k != a ensures Before(a, k) {
          if k != b {
            BeforeIsTransitive(a, b, k);
          }
        }
        assert Least(a, names);
      }
    }
  }

  predicate Ascending(names: seq<Name>) {
    forall i, j :: 0 <= i < j < |names| ==> Before(names[i], names[j])
  }

  /** The map alone decides the order in which its entries are written. */
  lemma {:induction false} AscendingIsUnique(a: seq<Name>, b: seq<Name>)
    requires Ascending(a) && Ascending(b) && (forall k :: k in a <==> k in b)
    ensures a == b
  {
    BothEmpty(a, b);
    if a != [] {
      FirstIsLeast(a, b);
      forall k ensures k in a[1..] <==> k in b[1..] {
        RestOf(a, k);
        RestOf(b, k);
      }
      AscendingIsUnique(a[1..], b[1..]);
      assert a == [a[0]] + a[1..] && b == [b[0]] + b[1..];
    }
  }

  lemma BothEmpty(a: seq<Name>, b: seq<Name>)
    requires forall k :: k in a <==> k in b
    ensures a == [] <==> b == []
    ensures a != [] && b != [] ==> a[0] in b && b[0] in a
  {
    if a != [] {
      assert a[0] in b;
    }
    if b != [] {
      assert b[0] in a;
    }
  }

  lemma FirstIsLeast(a: seq<Name>, b: seq<Name>)
    requires Ascending(a) && Ascending(b) && a != [] && b != [] && a[0] in b && b[0] in a
    ensures a[0] == b[0]
  {
    BeforeIsTotal(a[0], b[0]);
  }

  lemma RestOf(a: seq<Name>, k: Name)
    requires Ascending(a) && a != []
    ensures k in a[1..] <==> k in a && k != a[0]
  {
    BeforeIsTotal(a[0], k);
    if k in a && k != a[0] {
      var i :| 0 <= i < |a| && a[i] == k;
      assert a[1..][i - 1] == k;
    }
    if k in a[1..] {
      var i :| 0 <= i < |a| - 1 && a[1..][i] == k;
      assert a[i + 1] == k;
    }
  }

  /** `file` is what dump writes for the archive `m`. */
  ghost predicate IsDump(file: seq<byte>, m: Entries) {
    exists names :: Ascending(names) && Enumerates(names, m) && Holds(names, m) && file == DumpBytes(names, m)
  }

  lemma DumpIsUnique(a: seq<byte>, b: seq<byte>, m: Entries)
    requires IsDump(a, m) && IsDump(b, m)
    ensures a == b
  {
    hide DumpBytes, Ascending;
    var x :| Ascending(x) && Enumerates(x, m) && Holds(x, m) && a == DumpBytes(x, m);
    var y :| Ascending(y) && Enumerates(y, m) && Holds(y, m) && b == DumpBytes(y, m);
    AscendingIsUnique(x, y);
  }

  /** Writing, loading and writing again reproduces the file byte for byte. */
  lemma DumpIsStable(file: seq<byte>, again: seq<byte>, m: Entries)
    requires Keepable(m) && IsDump(file, m) && DOTDOT !in m && TRAILER !in m
    requires LoadFile(file).Some? && IsDump(again, LoadFile(file).value)
    ensures again == file
  {
    hide DumpBytes, Ascending, Keepable, LoadFile;
    var x :| Ascending(x) && Enumerates(x, m) && Holds(x, m) && file == DumpBytes(x, m);
    KeepableRoundTrip(x, m);
    KeptAll(m);
    DumpIsUnique(file, again, m);
  }

  // ---------- changes ----------

  /** What mv leaves: the entry under the new name, nothing under the old one. */
  function Moved(m: Entries, from: Name, to: Name): Entries
    requires from in m
  {
    m[to := m[from]] - {from}
  }

  /** A move keeps the entry exactly when the two names differ; onto the same name, the entry is lost. */
  lemma MoveKeeps(m: Entries, from: Name, to: Name)
    requires from in m
    ensures (to in Moved(m, from, to) && Moved(m, from, to)[to] == m[from]) <==> from != to
    ensures forall k :: k != from && k != to ==>
      (k in Moved(m, from, to) <==> k in m) && (k in m ==> Moved(m, from, to)[k] == m[k])
    ensures from !in Moved(m, from, to)
  {
  }

  /** Moving back undoes a move exactly when it overwrote nothing. */
  lemma MoveBack(m: Entries, from: Name, to: Name)
    requires from in m && from != to
    ensures Moved(Moved(m, from, to), to, from) == m <==> to !in m
  {
    if to !in m {
      assert Moved(Moved(m, from, to), to, from) == m;
    } else {
      assert to !in Moved(Moved(m, from, to), to, from);
    }
  }

  // ---------- commands ----------

  const MAGISK_FILES: seq<Name> := [
    [0x69, 0x6e, 0x69, 0x74, 0x2e, 0x6d, 0x61, 0x67, 0x69, 0x73, 0x6b, 0x2e, 0x72, 0x63],
    [0x2e, 0x62, 0x61, 0x63, 0x6b, 0x75, 0x70, 0x2f, 0x2e, 0x6d, 0x61, 0x67, 0x69, 0x73, 0x6b],
    [0x6f, 0x76, 0x65, 0x72, 0x6c, 0x61, 0x79, 0x2e, 0x64, 0x2f, 0x73, 0x62, 0x69, 0x6e, 0x2f,
     0x6d, 0x61, 0x67, 0x69, 0x73, 0x6b, 0x33, 0x32, 0x2e, 0x78, 0x7a],
    [0x6f, 0x76, 0x65, 0x72, 0x6c, 0x61, 0x79, 0x2e, 0x64, 0x2f, 0x73, 0x62, 0x69, 0x6e, 0x2f,
     0x6d, 0x61, 0x67, 0x69, 0x73, 0x6b, 0x36, 0x34, 0x2e, 0x78, 0x7a]]
  const OTHER_FILES: seq<Name> := [
    [0x73, 0x62, 0x69, 0x6e, 0x2f, 0x6c, 0x61, 0x75, 0x6e, 0x63, 0x68, 0x5f,
     0x64, 0x61, 0x65, 0x6d, 0x6f, 0x6e, 0x73, 0x75, 0x2e, 0x73, 0x68],
    [0x69, 0x6e, 0x69, 0x74, 0x2e, 0x78, 0x70, 0x6f, 0x73, 0x65, 0x64, 0x2e, 0x72, 0x63]]

  const TEST: Name := [0x74, 0x65, 0x73, 0x74]
  const EXISTS: Name := [0x65, 0x78, 0x69, 0x73, 0x74, 0x73]
  const ADD: Name := [0x61, 0x64, 0x64]
  const MKDIR: Name := [0x6d, 0x6b, 0x64, 0x69, 0x72]
  const RM: Name := [0x72, 0x6d]
  const MV: Name := [0x6d, 0x76]

  predicate HoldsAny(m: Entries, paths: seq<Name>) {
    exists i :: 0 <= i < |paths| && Normalize(paths[i]) in m
  }

  function Kind(m: Entries): int {
    if HoldsAny(m, MAGISK_FILES) then 1 else if HoldsAny(m, OTHER_FILES) then 2 else 0
  }

  /** The permission bits of `mode` with the type bits of `kind`. */
  function NewMode(mode: uint32, kind: uint32): (r: uint32)
    requires kind == S_IFREG || kind == S_IFDIR
    ensures r % 0x1000 == mode % 0x1000 && r / 0x1000 == kind / 0x1000
  {
    mode % 0x1000 + kind
  }

  function NewFile(mode: uint32, data: seq<byte>): Entry {
    Entry(NewMode(mode, S_IFREG), 0, 0, 0, 0, data)
  }

  function NewDirectory(mode: uint32): Entry {
    Entry(NewMode(mode, S_IFDIR), 0, 0, 0, 0, [])
  }

  const ULONG_MAX := 0xffff_ffff_ffff_ffff

  function OctalDigits(s: seq<byte>, v: nat): nat {
    if s == [] || !(0x30 <= s[0] <= 0x37) then v else OctalDigits(s[1..], 8 * v + (s[0] - 0x30))
  }

  /** strtoul in base 8 on a token, cut to 32 bits; None when there is no digit. */
  function Octal(token: Name): Option<uint32> {
    var minus := token != [] && token[0] == 0x2d;
    var s := if minus || (token != [] && token[0] == 0x2b) then token[1..] else token;
    if s == [] || !(0x30 <= s[0] <= 0x37) then None
    else
      var v := OctalDigits(s, 0);
      if v > ULONG_MAX then Some(0xffff_ffff) else if minus then Some((ULONG_MAX + 1 - v) % 0x1_0000_0000)
        else Some(v % 0x1_0000_0000)
  }

  /** What one command does: it changes the archive, ends the run with a result, or is blank. */
  datatype Effect = Nothing | Changed(entries: Entries) | Exit(code: int)

  function AfterEffect(m: Entries, effect: Effect): Entries {
    if effect.Changed? then effect.entries else m
  }

  /** One command, as the words it was split into. */
  function EffectOf(m: Entries, tokens: seq<Name>, sources: map<Name, seq<byte>>): Effect {
    if tokens == [] then Nothing
    else if tokens[0] == TEST then Exit(Kind(m))
    else if tokens[0] == EXISTS then
      Exit(if |tokens| == 2 && Normalize(tokens[1]) in m then 0 else 1)
    else if tokens[0] == ADD then
      if |tokens| == 4 && Octal(tokens[1]).Some? && tokens[3] in sources then
        Changed(m[Normalize(tokens[2]) := NewFile(Octal(tokens[1]).value, sources[tokens[3]])])
      else Exit(1)
    else if tokens[0] == MKDIR then
      if |tokens| == 3 && Octal(tokens[1]).Some?
        then Changed(m[Normalize(tokens[2]) := NewDirectory(Octal(tokens[1]).value)])
      else Exit(1)
    else if tokens[0] == RM then
      if |tokens| == 2 then Changed(m - {Normalize(tokens[1])}) else Exit(1)
    else if tokens[0] == MV then
      if |tokens| == 3 && Normalize(tokens[1]) in m then Changed(Moved(m, Normalize(tokens[1]), Normalize(tokens[2])))
      else Exit(1)
    else Exit(1)
  }

  /** A run of commands: the changed archive, or the result that ended it. */
  datatype Outcome = Done(entries: Entries, dirty: bool) | Ended(code: int)

  function RunAll(m: Entries, dirty: bool, commands: seq<seq<Name>>, sources: map<Name, seq<byte>>): Outcome
    decreases |commands|
  {
    if commands == [] then Done(m, dirty)
    else
      match EffectOf(m, commands[0], sources)
      case Nothing => RunAll(m, dirty, commands[1..], sources)
      case Changed(n) => RunAll(n, true, commands[1..], sources)
      case Exit(code) => Ended(code)
  }

  /** `names` have been written, `todo` not yet. */
  ghost predicate Written(names: seq<Name>, todo: set<Name>, m: Entries) {
    && todo <= m.Keys && Ascending(names)
    && (forall k :: k in m ==> (k in names <==> k !in todo))
    && (forall k :: k in names ==> k in m)
    && (forall k, n :: k in names && n in todo ==> Before(k, n))
  }

  lemma WrittenMore(names: seq<Name>, todo: set<Name>, m: Entries, n: Name)
    requires Written(names, todo, m) && Least(n, todo)
    ensures Written(names + [n], todo - {n}, m) && n in m
  {
    hide Before;
    forall k | k in names ensures Before(k, n) && k != n {
      BeforeIsTotal(k, n);
    }
  }

  /** How load goes on after an entry. */
  datatype Progress = Going | Over | Refused

  /** The class CpioArchive. A file that does not exist is None. */
  class Archive {
    var entries: Entries

    constructor ()
      ensures entries == map[]
    {
      entries := map[];
    }

    /** The search of the two loops of load for the next magic string. */
    method Search(p: seq<byte>, from: nat, last: int) returns (r: Option<nat>)
      requires last + 6 <= |p|
      ensures r == FindMagic(p, from, last)
    {
      var i := from;
      while i <= last
        invariant FindMagic(p, from, last) == FindMagic(p, i, last)
      {
        if p[i..i + 6] == NEWC_MAGIC {
          return Some(i);
        }
        i := i + 1;
      }
      return None;
    }

    /** The part of load that follows a header at `off`. */
    method LoadEntry(p: seq<byte>, off: nat) returns (next: nat, progress: Progress)
      requires off + HEADER <= |p| && p[off..off + 6] == NEWC_MAGIC
      modifies this
      ensures progress == Going ==> off < next && LoadFrom(p, off, old(entries)) == LoadFrom(p, next, entries)
      ensures progress == Over ==> LoadFrom(p, off, old(entries)) == Some(entries)
      ensures progress == Refused ==> LoadFrom(p, off, old(entries)) == None
    {
      hide Normalize, Field, FindMagic, Align4;
      next := off + HEADER;
      var nameSize := Field(p, off + 94);
      if nameSize == 0 || next + nameSize > |p| {
        return next, Refused;
      }
      var name := p[next..next + nameSize - 1];
      next := Align4(next + nameSize);
      if name == [DOT] || name == DOTDOT {
        return next, Going;
      }
      if name == TRAILER {
        var found := Search(p, next, |p| - 6);
        match found {
          case None => return next, Over;
          case Some(i) => return i, Going;
        }
      }
      var fileSize := Field(p, off + 54);
      if next + fileSize > |p| {
        return next, Refused;
      }
      var key := NormalizePath(name);
      entries := entries[key := EntryAt(p, off, next)];
      return Align4(next + fileSize), Going;
    }

    /** CpioArchive::load. */
    method Load(file: Option<seq<byte>>) returns (ok: bool)
      modifies this
      ensures file == None ==> ok && entries == map[]
      ensures file.Some? ==> (ok <==> LoadFile(file.value).Some?) && (ok ==> Some(entries) == LoadFile(file.value))
    {
      entries := map[];
      if file == None || file.value == [] {
        return true;
      }
      var p := file.value;
      if LegacyStream.MAGIC <= p {
        return false;
      }
      var off := 0;
      while off + HEADER <= |p|
        invariant LoadFrom(p, 0, map[]) == LoadFrom(p, off, entries)
        decreases |p| - off
      {
        hide FindMagic;
        if p[off..off + 6] != NEWC_MAGIC {
          if off != 0 {
            return false;
          }
          var found := Search(p, 0, Min(|p| - 6, 512));
          if found == None || found == Some(0) {
            return false;
          }
          off := found.value;
          continue;
        }
        var next, progress := LoadEntry(p, off);
        match progress {
          case Going => off := next;
          case Over => break;
          case Refused => return false;
        }
      }
      return true;
    }

    /** CpioArchive::dump: the whole content of the file that is written. */
    method Dump() returns (file: seq<byte>)
      ensures IsDump(file, entries)
    {
      file := [];
      var ino := 1;
      var todo := entries.Keys;
      ghost var names: seq<Name> := [];
      while todo != {}
        invariant Holds(names, entries) && Written(names, todo, entries)
        invariant ino == 1 + |names| && file == EntriesBytes(names, entries, 1)
        decreases |todo|
      {
        hide EntryBytes, Written, Before, Least, EntriesBytes, Holds;
        LeastExists(todo);
        var n: Name :| n in todo && Least(n, todo);
        WrittenMore(names, todo, entries, n);
        file := file + EntryBytes(n, ino % 0x1_0000_0000, entries[n]);
        EntriesMore(names, n, entries, 1);
        names := names + [n];
        ino := ino + 1;
        todo := todo - {n};
      }
      file := file + TrailerBytes(ino % 0x1_0000_0000);
      assert Enumerates(names, entries);
    }

    /** CpioArchive::exists. */
    method Exists(path: Name) returns (found: bool)
      ensures found <==> Normalize(path) in entries
    {
      var key := NormalizePath(path);
      found := key in entries;
    }

    method ExistsAny(paths: seq<Name>) returns (found: bool)
      ensures found <==> HoldsAny(entries, paths)
    {
      var i := 0;
      while i < |paths|
        invariant 0 <= i <= |paths| && forall k :: 0 <= k < i ==> Normalize(paths[k]) !in entries
      {
        found := Exists(paths[i]);
        if found {
          return true;
        }
        i := i + 1;
      }
      return false;
    }

    /** CpioArchive::test: 1 for a Magisk ramdisk, 2 for another rooting tool, 0 for neither. */
    method Test() returns (kind: int)
      ensures kind == Kind(entries)
    {
      hide HoldsAny;
      var found := ExistsAny(MAGISK_FILES);
      if found {
        return 1;
      }
      found := ExistsAny(OTHER_FILES);
      return if found then 2 else 0;
    }

    /** CpioArchive::add; a source file that cannot be opened is None. */
    method Add(mode: uint32, path: Name, source: Option<seq<byte>>) returns (ok: bool)
      modifies this
      ensures ok <==> source.Some?
      ensures entries == if ok then old(entries)[Normalize(path) := NewFile(mode, source.value)] else old(entries)
    {
      if source == None {
        return false;
      }
      var key := NormalizePath(path);
      entries := entries[key := NewFile(mode, source.value)];
      return true;
    }

    /** CpioArchive::mkdir. */
    method Mkdir(mode: uint32, path: Name)
      modifies this
      ensures entries == old(entries)[Normalize(path) := NewDirectory(mode)]
    {
      var key := NormalizePath(path);
      entries := entries[key := NewDirectory(mode)];
    }

    /** CpioArchive::rm. */
    method Rm(path: Name) returns (found: bool)
      modifies this
      ensures found <==> Normalize(path) in old(entries)
      ensures entries == old(entries) - {Normalize(path)}
    {
      var key := NormalizePath(path);
      found := key in entries;
      entries := entries - {key};
    }

    /** CpioArchive::mv: assign, then erase. */
    method Mv(from: Name, to: Name) returns (ok: bool)
      modifies this
      ensures ok <==> Normalize(from) in old(entries)
      ensures entries == if ok then Moved(old(entries), Normalize(from), Normalize(to)) else old(entries)
    {
      var a := NormalizePath(from);
      var b := NormalizePath(to);
      if a !in entries {
        return false;
      }
      entries := entries[b := entries[a]];
      entries := entries - {a};
      return true;
    }

    /** One turn of the loop in cpio_commands. */
    method Execute(tokens: seq<Name>, sources: map<Name, seq<byte>>) returns (effect: Effect)
      modifies this
      ensures effect == EffectOf(old(entries), tokens, sources)
      ensures entries == AfterEffect(old(entries), effect)
    {
      hide Normalize, HoldsAny;
      if tokens == [] {
        return Nothing;
      }
      var op := tokens[0];
      if op == TEST {
        var kind := Test();
        return Exit(kind);
      } else if op == EXISTS {
        if |tokens| != 2 {
          return Exit(1);
        }
        var found := Exists(tokens[1]);
        return Exit(if found then 0 else 1);
      } else if op == ADD {
        if |tokens| != 4 || Octal(tokens[1]) == None {
          return Exit(1);
        }
        var source := if tokens[3] in sources then Some(sources[tokens[3]]) else None;
        var ok := Add(Octal(tokens[1]).value, tokens[2], source);
        return if ok then Changed(entries) else Exit(1);
      } else if op == MKDIR {
        if |tokens| != 3 || Octal(tokens[1]) == None {
          return Exit(1);
        }
        Mkdir(Octal(tokens[1]).value, tokens[2]);
        return Changed(entries);
      } else if op == RM {
        if |tokens| != 2 {
          return Exit(1);
        }
        var found := Rm(tokens[1]);
        return Changed(entries);
      } else if op == MV {
        if |tokens| != 3 {
          return Exit(1);
        }
        var ok := Mv(tokens[1], tokens[2]);
        return if ok then Changed(entries) else Exit(1);
      }
      return Exit(1);
    }
  }

  lemma {:induction false} EntriesMore(names: seq<Name>, last: Name, m: Entries, ino: nat)
    requires Holds(names, m) && last in m
    ensures Holds(names + [last], m)
    ensures EntriesBytes(names + [last], m, ino) == EntriesBytes(names, m, ino)
      + EntryBytes(last, (ino + |names|) % 0x1_0000_0000, m[last])
  {
    hide EntryBytes;
    if names != [] {
      assert names[0] in names && (names + [last])[1..] == names[1..] + [last];
      EntriesMore(names[1..], last, m, ino + 1);
    } else {
      assert ([last])[1..] == [] && names + [last] == [last];
    }
  }

  /** cpio_commands: the file afterwards. It is written only when every command was carried out and one of them changed
      the archive; a query ends the run and drops the changes made before it. */
  method Commands(file: Option<seq<byte>>, commands: seq<seq<Name>>, sources: map<Name, seq<byte>>)
    returns (code: int, after: Option<seq<byte>>)
    ensures Ran(file, commands, sources, code, after)
  {
    hide EffectOf, LoadFile, IsDump;
    var archive := new Archive();
    var ok := archive.Load(file);
    after := file;
    if !ok {
      return 1, after;
    }
    var dirty := false;
    var i := 0;
    while i < |commands|
      invariant 0 <= i <= |commands| && Loaded(file).Some?
      invariant RunAll(Loaded(file).value, false, commands, sources)
        == RunAll(archive.entries, dirty, commands[i..], sources)
    {
      assert commands[i..][0] == commands[i] && commands[i..][1..] == commands[i + 1..];
      var effect := archive.Execute(commands[i], sources);
      match effect {
        case Nothing =>
        case Changed(_) => dirty := true;
        case Exit(c) => return c, after;
      }
      i := i + 1;
    }
    assert commands[i..] == [];
    if dirty {
      var out := archive.Dump();
      after := Some(out);
    }
    return 0, after;
  }

  /** The archive in a file that may not exist. */
  function Loaded(file: Option<seq<byte>>): Option<Entries> {
    if file == None then Some(map[]) else LoadFile(file.value)
  }

  /** What one call of cpio_commands on `file` may leave. */
  ghost predicate Ran(file: Option<seq<byte>>, commands: seq<seq<Name>>, sources: map<Name, seq<byte>>, code: int,
      after: Option<seq<byte>>) {
    if Loaded(file) == None then code == 1 && after == file
    else
      match RunAll(Loaded(file).value, false, commands, sources)
      case Ended(c) => code == c && after == file
      case Done(m, dirty) => code == 0 && if dirty then after.Some? && IsDump(after.value, m) else after == file
  }

  lemma {:induction false} RunMore(m: Entries, dirty: bool, a: seq<seq<Name>>, b: seq<seq<Name>>, sources: map<Name,
      seq<byte>>)
    ensures RunAll(m, dirty, a + b, sources) ==
      match RunAll(m, dirty, a, sources)
      case Ended(c) => Ended(c)
      case Done(n, d) => RunAll(n, d, b, sources)
    decreases |a|
  {
    hide EffectOf;
    if a == [] {
      assert a + b == b;
    } else {
      assert (a + b)[1..] == a[1..] + b;
      var e := EffectOf(m, a[0], sources);
      RunMore(AfterEffect(m, e), dirty || e.Changed?, a[1..], b, sources);
    }
  }

  lemma {:induction false} DirtyIgnored(m: Entries, commands: seq<seq<Name>>, sources: map<Name, seq<byte>>)
    ensures RunAll(m, true, commands, sources) ==
      match RunAll(m, false, commands, sources)
      case Ended(c) => Ended(c)
      case Done(n, _) => Done(n, true)
    ensures RunAll(m, false, commands, sources).Done? && !RunAll(m, false, commands, sources).dirty
      ==> RunAll(m, false, commands, sources).entries == m
    decreases |commands|
  {
    hide EffectOf;
    if commands != [] {
      DirtyIgnored(AfterEffect(m, EffectOf(m, commands[0], sources)), commands[1..], sources);
    }
  }

  /**
    Two calls in a row leave the file that one call with all the commands leaves, unless the second
    one ends in a query or an error: then the single call drops the changes of the first commands
    too.
   */
  lemma Batching(file: Option<seq<byte>>, a: seq<seq<Name>>, b: seq<seq<Name>>, sources: map<Name, seq<byte>>,
    middle: Option<seq<byte>>, end: Option<seq<byte>>, once: Option<seq<byte>>, last: int)
    requires Loaded(file).Some? && RunAll(Loaded(file).value, false, a, sources).Done?
    requires Writable(RunAll(Loaded(file).value, false, a, sources).entries)
    requires Ran(file, a, sources, 0, middle) && Ran(middle, b, sources, last, end)
      && Ran(file, a + b, sources, last, once)
    ensures end == once <==> RunAll(Loaded(file).value, false, a + b, sources).Done? || middle == file
  {
    hide RunAll, IsDump, Writable, Loaded;
    var m := Loaded(file).value;
    var r := RunAll(m, false, a, sources);
    RunMore(m, false, a, b, sources);
    DirtyIgnored(m, a, sources);
    DirtyIgnored(r.entries, b, sources);
    if r.dirty {
      DumpLoadsBack(middle.value, r.entries);
      var s := RunAll(r.entries, false, b, sources);
      if s.Done? {
        if s.dirty {
          DumpIsUnique(end.value, once.value, s.entries);
        } else {
          DumpIsUnique(middle.value, once.value, s.entries);
        }
      }
    } else {
      var s := RunAll(r.entries, false, b, sources);
      if s.Done? && s.dirty {
        DumpIsUnique(end.value, once.value, s.entries);
      }
    }
  }

  lemma DumpLoadsBack(file: seq<byte>, m: Entries)
    requires IsDump(file, m) && Writable(m)
    ensures Loaded(Some(file)) == Some(m)
  {
    hide DumpBytes, Ascending, Keepable, LoadFile;
    var x :| Ascending(x) && Enumerates(x, m) && Holds(x, m) && file == DumpBytes(x, m);
    KeepableRoundTrip(x, m);
    KeptAll(m);
  }

  /** An archive that dump and load keep. */
  predicate Writable(m: Entries) {
    Keepable(m) && DOTDOT !in m && TRAILER !in m
  }
}
