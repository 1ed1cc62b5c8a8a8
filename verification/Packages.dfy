/** The package loader: `loadFromZip` over any bytes, `resolve`, and what they make of an archive
    the bundle writer produced. */
module Packages {
  import opened Bytes
  import opened Zip
  import opened ZipReader

  const MAX_PACKAGES := 32
  const MAX_FILES := 64
  const SLASH: Byte := 47
  const DOT: Byte := 46
  const GENGO := Ascii(".gengo")

  datatype Source = Source(path: Bytes, text: Bytes)
  datatype Package = Package(name: Bytes, files: seq<Source>)

  datatype LoadError = PackageTableFull | FileTableFull | FileTooLarge | InvalidZip | InvalidPath
  datatype Loading<+T> = Loaded(value: T) | Rejected(error: LoadError)

  /** Raw DEFLATE of a known size; the bundle writer never uses it. */
  type Inflate = (Bytes, nat) -> Option<Bytes>

  predicate EndsWith(s: Bytes, suffix: Bytes) {
    |suffix| <= |s| && s[|s| - |suffix|..] == suffix
  }

  /** Two dots in a row, anywhere. */
  predicate HasDotDot(s: Bytes) {
    exists i :: 0 <= i < |s| - 1 && s[i] == DOT && s[i + 1] == DOT
  }

  /** The archive members the loader takes. */
  predicate Wanted(name: Bytes) {
    && |name| > 0 && name[|name| - 1] != SLASH && EndsWith(name, GENGO)
    && !HasDotDot(name) && 0 < |name| - 6 <= 127
  }

  /** The stored data of one member, from its central header to its local data. */
  function MemberData(data: Bytes, c: CentralFields): Option<Bytes> {
    if c.localOffset + 30 > |data| then None
    else
      var l := ReadLocal(data, c.localOffset);
      var start := c.localOffset + 30 + l.nameLen + l.extraLen;
      if l.signature != LOCAL_SIGNATURE || start + c.compressedSize > |data| then None
      else Some(data[start..start + c.compressedSize])
  }

  /** The text of stored data; neither form may have another size than was announced. */
  function Unpack(raw: Bytes, c: CentralFields, inflate: Inflate): Option<Bytes> {
    if c.compression == 0 then if |raw| == c.uncompressedSize then Some(raw) else None
    else inflate(raw, c.uncompressedSize)
  }

  function MemberText(data: Bytes, c: CentralFields, inflate: Inflate): Option<Bytes> {
    var raw := MemberData(data, c);
    if raw.None? then None else Unpack(raw.value, c, inflate)
  }

  /** The loop over the central directory. */
  function LoadMembers(data: Bytes, pos: nat, end: nat, maxSize: nat, inflate: Inflate, acc: seq<Source>)
    : Loading<seq<Source>>
    requires end <= |data|
    decreases |data| - pos
  {
    if pos + 46 > end then Loaded(acc)
    else
      var c := ReadCentral(data, pos);
      if c.signature != CENTRAL_SIGNATURE then Loaded(acc)
      else if pos + 46 + c.nameLen > |data| then Rejected(InvalidZip)
      else
        var name := data[pos + 46..pos + 46 + c.nameLen];
        var next := pos + 46 + c.nameLen + c.extraLen + c.commentLen;
        if !Wanted(name) then LoadMembers(data, next, end, maxSize, inflate, acc)
        else if |acc| >= MAX_FILES then Rejected(FileTableFull)
        else if c.uncompressedSize > maxSize then Rejected(FileTooLarge)
        else if c.compression != 0 && c.compression != 8 then LoadMembers(data, next, end, maxSize, inflate, acc)
        else
          var text := MemberText(data, c, inflate);
          if text.None? then Rejected(InvalidZip)
          else LoadMembers(data, next, end, maxSize, inflate, acc + [Source(name[..|name| - 6], text.value)])
  }

  /** `loadFromZip`: append one package, or reject the archive. */
  function Load(reg: seq<Package>, name: Bytes, data: Bytes, maxSize: nat, inflate: Inflate): Loading<seq<Package>> {
    if |reg| >= MAX_PACKAGES then Rejected(PackageTableFull)
    else if |name| == 0 || |name| > 64 then Rejected(InvalidPath)
    else
      var end := FindEnd(data);
      if end.None? then Rejected(InvalidZip)
      else
        var size, offset := ReadU32(data, end.value + 12), ReadU32(data, end.value + 16);
        if offset + size > |data| then Rejected(InvalidZip)
        else
          var files := LoadMembers(data, offset, offset + size, maxSize, inflate, []);
          if files.Rejected? then Rejected(files.error) else Loaded(reg + [Package(name, files.value)])
  }

  function FileCount(reg: seq<Package>): nat {
    if reg == [] then 0 else FileCount(reg[..|reg| - 1]) + |reg[|reg| - 1].files|
  }

  /** The table of packages. A package is put together in the first free slot, and becomes part of the
      registry only when the count is raised. */
  class PackageRegistry {
    const packages: array<Package>
    var count: nat
    var buffers: nat  // source buffers allocated and not freed

    ghost predicate Valid()
      reads this, packages
    {
      packages.Length == MAX_PACKAGES && count <= MAX_PACKAGES && buffers == FileCount(View())
    }

    ghost function View(): seq<Package>
      requires packages.Length == MAX_PACKAGES && count <= MAX_PACKAGES
      reads this, packages
    {
      packages[..count]
    }

    constructor ()
      ensures Valid() && View() == [] && fresh(packages)
    {
      packages := new Package[MAX_PACKAGES](_ => Package([], []));
      count, buffers := 0, 0;
    }

    /** Whatever the bytes, the registry gains the package the archive holds, or is what it was, with
        no buffer left over. */
    method LoadFromZip(name: Bytes, data: Bytes, maxSize: nat, inflate: Inflate) returns (r: Loading<()>)
      requires Valid()
      modifies this, packages
      ensures Valid()
      ensures match Load(old(View()), name, data, maxSize, inflate)
              case Loaded(reg) => r == Loaded(()) && View() == reg
              case Rejected(e) => r == Rejected(e) && View() == old(View())
    {
      hide FindEnd, ReadU32, LoadMembers, FileCount;
      if count >= MAX_PACKAGES { return Rejected(PackageTableFull); }
      if |name| == 0 || |name| > 64 { return Rejected(InvalidPath); }
      var endAt := FindEndRecord(data);
      if endAt.None? { return Rejected(InvalidZip); }
      var size, offset := ReadU32(data, endAt.value + 12), ReadU32(data, endAt.value + 16);
      if offset + size > |data| { return Rejected(InvalidZip); }
      ghost var before := View();
      packages[count] := Package(name, []);
      assert View() == before;
      r := ScanDirectory(data, offset, offset + size, maxSize, inflate);
      if r.Rejected? {
        buffers := buffers - |packages[count].files|;
        packages[count] := packages[count].(files := []);
        assert View() == before;
        return;
      }
      CountAppended(before, packages[count]);
      count := count + 1;
      assert View() == before + [packages[count - 1]];
    }

    static lemma CountAppended(reg: seq<Package>, pkg: Package)
      ensures FileCount(reg + [pkg]) == FileCount(reg) + |pkg.files|
    {
      assert (reg + [pkg])[..|reg|] == reg;
    }

    /** The loop over the central directory, filling the free slot. */
    method ScanDirectory(data: Bytes, offset: nat, end: nat, maxSize: nat, inflate: Inflate) returns (r: Loading<()>)
      requires Valid() && count < MAX_PACKAGES && packages[count].files == [] && end <= |data|
      modifies this`buffers, packages
      ensures View() == old(View()) && packages[count].name == old(packages[count].name)
      ensures buffers == FileCount(View()) + |packages[count].files|
      ensures match LoadMembers(data, offset, end, maxSize, inflate, [])
              case Loaded(files) => r == Loaded(()) && packages[count].files == files
              case Rejected(e) => r == Rejected(e)
    {
      hide ReadCentral, Wanted, MemberData, Unpack, FileCount;
      var pos := offset;
      ghost var view := View();
      ghost var want := LoadMembers(data, offset, end, maxSize, inflate, []);
      while pos + 46 <= end
        invariant LoadMembers(data, pos, end, maxSize, inflate, packages[count].files) == want
        invariant View() == view && packages[count].name == old(packages[count].name)
        invariant buffers == FileCount(view) + |packages[count].files|
        decreases |data| - pos
      {
        var c := ReadCentral(data, pos);
        if c.signature != CENTRAL_SIGNATURE { break; }
        if pos + 46 + c.nameLen > |data| { return Rejected(InvalidZip); }
        var filename := data[pos + 46..pos + 46 + c.nameLen];
        pos := pos + 46 + c.nameLen + c.extraLen + c.commentLen;
        if !Wanted(filename) { continue; }
        if |packages[count].files| >= MAX_FILES { return Rejected(FileTableFull); }
        if c.uncompressedSize > maxSize { return Rejected(FileTooLarge); }
        if c.compression != 0 && c.compression != 8 { continue; }
        var raw := MemberData(data, c);
        if raw.None? { return Rejected(InvalidZip); }
        buffers := buffers + 1;
        var text := Unpack(raw.value, c, inflate);
        if text.None? {
          buffers := buffers - 1;
          return Rejected(InvalidZip);
        }
        WantedLong(filename);
        AddFile(Source(filename[..|filename| - 6], text.value));
      }
      r := Loaded(());
    }

    /** The next file of the slot being filled, with the buffer that holds it. */
    method AddFile(file: Source)
      requires packages.Length == MAX_PACKAGES && count < MAX_PACKAGES
      modifies packages
      ensures packages[..count] == old(packages[..count])
      ensures packages[count] == old(packages[count]).(files := old(packages[count]).files + [file])
    {
      packages[count] := packages[count].(files := packages[count].files + [file]);
    }

    /** `resolve`, with its two loops. */
    method ResolveImport(importPath: Bytes) returns (r: Option<Bytes>)
      requires Valid()
      ensures r == Resolve(View(), importPath)
    {
      hide SplitAtSlash, FindPackage, FindFile, FileCount;
      var path := if EndsWith(importPath, GENGO) then importPath[..|importPath| - 6] else importPath;
      var split := SplitAtSlash(path);
      if split.None? || split.value.after == [] { return None; }
      ghost var reg := View();
      assert reg[0..] == reg;
      for i := 0 to count
        invariant FindPackage(reg[i..], split.value.before) == FindPackage(reg, split.value.before)
      {
        var pkg := packages[i];
        FindPackageStep(reg[i..], split.value.before);
        assert reg[i..][0] == pkg && reg[i..][1..] == reg[i + 1..];
        if pkg.name == split.value.before {
          r := FindIn(pkg.files, split.value.after);
          return;
        }
      }
      FindPackageStep(reg[count..], split.value.before);
      return None;
    }

    static lemma FindPackageStep(reg: seq<Package>, name: Bytes)
      ensures FindPackage(reg, name) ==
              if reg == [] then None else if reg[0].name == name then Some(reg[0]) else FindPackage(reg[1..], name)
    {
    }

    static method FindIn(files: seq<Source>, path: Bytes) returns (r: Option<Bytes>)
      ensures r == FindFile(files, path)
    {
      assert files[0..] == files;
      for i := 0 to |files|
        invariant FindFile(files[i..], path) == FindFile(files, path)
      {
        assert files[i..][0] == files[i] && files[i..][1..] == files[i + 1..];
        if files[i].path == path { return Some(files[i].text); }
      }
      return None;
    }
  }

  lemma WantedLong(name: Bytes)
    requires Wanted(name)
    ensures |name| > 6
  {
  }

  /** The members the loader takes: sources with a module path of 1 to 127 bytes and no two dots in a row. */
  lemma WantedIff(name: Bytes)
    ensures Wanted(name) <==>
            && 6 < |name| <= 133 && name[|name| - 6..] == Ascii(".gengo")
            && forall i :: 0 <= i < |name| - 1 ==> !(name[i] == 46 && name[i + 1] == 46)
  {
    assert |GENGO| == 6 && GENGO[5] == 111;
    hide Ascii;
    if |name| > 6 && name[|name| - 6..] == GENGO { assert name[|name| - 6..][5] == name[|name| - 1]; }
  }

  // One member of any archive, by the offsets of APPNOTE.

  /** A central header at `pos` and the local data it leads to. */
  ghost predicate MemberAt(data: Bytes, pos: nat, name: Bytes, compression: nat, raw: Bytes, size: nat) {
    && pos + 46 + |name| <= |data| && ReadU32(data, pos) == 0x02014b50
    && U16(data, pos + 10) == compression && ReadU32(data, pos + 20) == |raw| && ReadU32(data, pos + 24) == size
    && U16(data, pos + 28) == |name| && data[pos + 46..pos + 46 + |name|] == name
    && var off := ReadU32(data, pos + 42);
       && off + 30 <= |data| && ReadU32(data, off) == 0x04034b50
       && At(data, off + 30 + U16(data, off + 26) + U16(data, off + 28), raw)
  }

  /** One turn at a wanted member that fits: stored data is taken as it is, if its size is right; deflated
      data is inflated, or else the archive is rejected; a member packed otherwise is passed over. */
  lemma TurnIs(data: Bytes, pos: nat, end: nat, maxSize: nat, inflate: Inflate, acc: seq<Source>,
               name: Bytes, compression: nat, raw: Bytes, size: nat)
    requires MemberAt(data, pos, name, compression, raw, size) && pos + 46 <= end <= |data|
    requires Wanted(name) && |acc| < 64 && size <= maxSize
    ensures var next := pos + 46 + |name| + U16(data, pos + 30) + U16(data, pos + 32);
            var text := if compression == 8 then inflate(raw, size) else if |raw| == size then Some(raw) else None;
            LoadMembers(data, pos, end, maxSize, inflate, acc) ==
            if compression != 0 && compression != 8 then LoadMembers(data, next, end, maxSize, inflate, acc)
            else if text.None? then Rejected(InvalidZip)
            else LoadMembers(data, next, end, maxSize, inflate, acc + [Source(name[..|name| - 6], text.value)])
  {
    hide ReadU32, U16, HasDotDot, EndsWith;
  }

  // What the loader makes of the writer's archive.

  /** The members that get in, in order, or why loading stops. */
  function Admit(fs: seq<File>, maxSize: nat, acc: seq<Source>): Loading<seq<Source>>
    decreases fs
  {
    if fs == [] then Loaded(acc)
    else if !Wanted(fs[0].path) then Admit(fs[1..], maxSize, acc)
    else if |acc| >= MAX_FILES then Rejected(FileTableFull)
    else if |fs[0].contents| > maxSize then Rejected(FileTooLarge)
    else Admit(fs[1..], maxSize, acc + [Source(fs[0].path[..|fs[0].path| - 6], fs[0].contents)])
  }

  /** One turn of the loader's loop at the central header of a written file. */
  lemma LoadOne(data: Bytes, pos: nat, end: nat, off: nat, f: File, maxSize: nat, inflate: Inflate, acc: seq<Source>)
    requires EntryAt(data, pos, off, f) && pos + 46 <= end <= |data|
    ensures var next := pos + CentralSize(f);
            LoadMembers(data, pos, end, maxSize, inflate, acc) ==
            if !Wanted(f.path) then LoadMembers(data, next, end, maxSize, inflate, acc)
            else if |acc| >= MAX_FILES then Rejected(FileTableFull)
            else if |f.contents| > maxSize then Rejected(FileTooLarge)
            else LoadMembers(data, next, end, maxSize, inflate, acc + [Source(f.path[..|f.path| - 6], f.contents)])
  {
    hide ReadCentral, ReadLocal, HasDotDot, EndsWith;
  }

  lemma {:induction false} LoadRest(fs: seq<File>, crc: Crc, i: nat, maxSize: nat, inflate: Inflate, acc: seq<Source>)
    requires Writable(fs) && i <= |fs|
    ensures var base, end := LocalsSize(fs), LocalsSize(fs) + CentralsSize(fs);
            LoadMembers(Archive(fs, crc), base + CentralsSize(fs[..i]), end, maxSize, inflate, acc) ==
            Admit(fs[i..], maxSize, acc)
    decreases |fs| - i
  {
    hide Archive, LocalsSize, CentralsSize, LoadMembers, EntryAt, Wanted, Writable;
    var data, pos, end := Archive(fs, crc), LocalsSize(fs) + CentralsSize(fs[..i]), LocalsSize(fs) + CentralsSize(fs);
    if i < |fs| {
      var f := fs[i];
      assert fs[i..][0] == f && fs[i..][1..] == fs[i + 1..];
      EntryReads(fs, crc, i);
      CentralSizeStep(fs, i);
      LoadOne(data, pos, end, LocalsSize(fs[..i]), f, maxSize, inflate, acc);
      LoadRest(fs, crc, i + 1, maxSize, inflate, acc);
      if Wanted(f.path) {
        WantedLong(f.path);
        LoadRest(fs, crc, i + 1, maxSize, inflate, acc + [Source(f.path[..|f.path| - 6], f.contents)]);
      }
    } else {
      assert fs[i..] == [] && fs[..i] == fs;
      LoadNothing(data, end, maxSize, inflate, acc);
    }
  }

  lemma LoadNothing(data: Bytes, end: nat, maxSize: nat, inflate: Inflate, acc: seq<Source>)
    requires end <= |data|
    ensures LoadMembers(data, end, end, maxSize, inflate, acc) == Loaded(acc)
  {
  }

  /** The repository's own loader reads the repository's own archives: it takes exactly the members
      it wants, with exactly their contents, in order. */
  lemma LoadsWhatWasWritten(reg: seq<Package>, name: Bytes, fs: seq<File>, crc: Crc, maxSize: nat, inflate: Inflate)
    requires Writable(fs) && |reg| < MAX_PACKAGES && 0 < |name| <= 64
    ensures var files := Admit(fs, maxSize, []);
            Load(reg, name, Archive(fs, crc), maxSize, inflate) ==
            if files.Rejected? then Rejected(files.error) else Loaded(reg + [Package(name, files.value)])
  {
    hide Archive, LocalsSize, CentralsSize, LoadMembers, Admit, Writable, FindEnd, ReadU32, U16;
    EndFound(fs, crc);
    LoadRest(fs, crc, 0, maxSize, inflate, []);
    NoCentralsBefore(fs);
    assert fs[0..] == fs;
  }

  // Looking a source up.

  datatype Split = Split(before: Bytes, after: Bytes)

  /** The two sides of the first slash. */
  function SplitAtSlash(s: Bytes): Option<Split> {
    if s == [] then None
    else if s[0] == SLASH then Some(Split([], s[1..]))
    else
      var r := SplitAtSlash(s[1..]);
      if r.None? then None else Some(Split([s[0]] + r.value.before, r.value.after))
  }

  lemma {:induction false} SplitsAtSlash(name: Bytes, rest: Bytes)
    requires SLASH !in name
    ensures SplitAtSlash(name + [SLASH] + rest) == Some(Split(name, rest))
  {
    var s := name + [SLASH] + rest;
    if name == [] {
      assert s[1..] == rest;
    } else {
      assert name[0] in name;
      assert s[1..] == name[1..] + [SLASH] + rest;
      SplitsAtSlash(name[1..], rest);
      assert name == [name[0]] + name[1..];
    }
  }

  lemma {:induction false} SplitIs(s: Bytes)
    requires SplitAtSlash(s).Some?
    ensures var r := SplitAtSlash(s).value; SLASH !in r.before && s == r.before + [SLASH] + r.after
  {
    if s[0] != SLASH {
      SplitIs(s[1..]);
      assert s == [s[0]] + s[1..];
    }
  }

  function FindFile(files: seq<Source>, path: Bytes): Option<Bytes> {
    if files == [] then None
    else if files[0].path == path then Some(files[0].text)
    else FindFile(files[1..], path)
  }

  /** The first file of a path is the one found. */
  lemma {:induction false} FoundIff(files: seq<Source>, path: Bytes, text: Bytes)
    ensures FindFile(files, path) == Some(text) <==>
            exists i :: && 0 <= i < |files| && files[i] == Source(path, text)
                        && forall j :: 0 <= j < i ==> files[j].path != path
  {
    if files != [] {
      var rest := files[1..];
      FoundIff(rest, path, text);
      assert forall j :: 0 <= j < |rest| ==> rest[j] == files[j + 1];
      if files[0].path != path {
        if FindFile(rest, path) == Some(text) {
          var i :| && 0 <= i < |rest| && rest[i] == Source(path, text)
                   && forall j :: 0 <= j < i ==> rest[j].path != path;
          assert files[i + 1] == Source(path, text);
          assert forall j :: 0 < j < i + 1 ==> files[j] == rest[j - 1];
        }
        if exists i :: && 0 <= i < |files| && files[i] == Source(path, text)
                       && forall j :: 0 <= j < i ==> files[j].path != path {
          var i :| && 0 <= i < |files| && files[i] == Source(path, text)
                   && forall j :: 0 <= j < i ==> files[j].path != path;
          assert rest[i - 1] == Source(path, text);
        }
      } else {
        assert files[0].text == text ==> files[0] == Source(path, text);
      }
    }
  }

  function FindPackage(reg: seq<Package>, name: Bytes): Option<Package> {
    if reg == [] then None
    else if reg[0].name == name then Some(reg[0])
    else FindPackage(reg[1..], name)
  }

  /** `resolve`: strip one `.gengo`, split at the first slash, first package of that name, first file
      of that path. */
  function Resolve(reg: seq<Package>, importPath: Bytes): Option<Bytes> {
    var path := if EndsWith(importPath, GENGO) then importPath[..|importPath| - 6] else importPath;
    var split := SplitAtSlash(path);
    if split.None? || split.value.after == [] then None
    else
      var pkg := FindPackage(reg, split.value.before);
      if pkg.None? then None else FindFile(pkg.value.files, split.value.after)
  }

  lemma {:induction false} FindAppended(reg: seq<Package>, pkg: Package, name: Bytes)
    ensures FindPackage(reg + [pkg], name) ==
            if FindPackage(reg, name).Some? then FindPackage(reg, name)
            else if pkg.name == name then Some(pkg) else None
  {
    if reg == [] {
      assert reg + [pkg] == [pkg] && [pkg][1..] == [];
    } else {
      assert (reg + [pkg])[1..] == reg[1..] + [pkg];
      FindAppended(reg[1..], pkg, name);
    }
  }
}
