/** What every successful build guarantees, exactly when a build succeeds, and that a built bundle
    loads and resolves to exactly the files it was built from. */
module BundleTheorems {
  import opened Bytes
  import opened Zip
  import opened Packages
  import opened Bundle
  import ZipReader
  import Glob

  ghost predicate Distinct(fs: seq<File>) {
    forall i, j :: 0 <= i < j < |fs| ==> fs[i].path != fs[j].path
  }

  // Exactly when collection succeeds, and what it collects.

  ghost predicate Good(item: Item, name: Bytes) {
    ValidRelative(item.relative) && |Join(name, item.relative)| - 6 <= 127 && item.read.Contents?
  }

  function FileOf(name: Bytes, item: Item): File {
    File(Join(name, item.relative), if item.read.Contents? then item.read.bytes else [])
  }

  /** The chosen files of a root, in walking order. */
  function ItemFiles(name: Bytes, items: seq<Item>, filter: Filter): seq<File> {
    if items == [] then []
    else (if Chosen(filter, items[0]) then [FileOf(name, items[0])] else []) + ItemFiles(name, items[1..], filter)
  }

  ghost predicate GoodItems(name: Bytes, items: seq<Item>, filter: Filter) {
    forall i :: 0 <= i < |items| && Chosen(filter, items[i]) ==> Good(items[i], name)
  }

  lemma DistinctPrefix(a: seq<File>, b: seq<File>)
    requires Distinct(a + b)
    ensures Distinct(a)
  {
    forall i, j | 0 <= i < j < |a| ensures a[i].path != a[j].path {
      assert (a + b)[i] == a[i] && (a + b)[j] == a[j];
    }
  }

  lemma DistinctSnoc(a: seq<File>, f: File)
    requires Distinct(a)
    ensures Distinct(a + [f]) <==> !Collected(a, f.path)
  {
    if Collected(a, f.path) {
      var i :| 0 <= i < |a| && a[i].path == f.path;
      assert (a + [f])[i] == a[i] && (a + [f])[|a|] == f;
    }
  }

  lemma {:induction false} ItemsIff(name: Bytes, items: seq<Item>, filter: Filter, acc: seq<File>)
    requires ValidRootName(name) && Distinct(acc) && |acc| <= MAX_FILES
    ensures var r, fs := CollectItems(name, items, filter, acc), acc + ItemFiles(name, items, filter);
            && (r.Ok? <==> GoodItems(name, items, filter) && Distinct(fs) && |fs| <= 64)
            && (r.Ok? ==> r.value == fs)
    decreases items
  {
    hide ValidRootName, ValidRelative, Include, Join, Distinct;
    if items == [] {
      assert acc + [] == acc;
    } else {
      var item, rest := items[0], items[1..];
      var tail := ItemFiles(name, rest, filter);
      assert GoodItems(name, items, filter) <==>
             (Chosen(filter, item) ==> Good(item, name)) && GoodItems(name, rest, filter) by {
        assert forall i :: 0 < i < |items| ==> items[i] == rest[i - 1];
        assert forall i :: 0 <= i < |rest| ==> rest[i] == items[i + 1];
      }
      if !Chosen(filter, item) {
        assert [] + tail == tail;
        ItemsIff(name, rest, filter, acc);
      } else {
        var f := FileOf(name, item);
        assert acc + ([f] + tail) == acc + [f] + tail;
        if Distinct(acc + [f] + tail) { DistinctPrefix(acc + [f], tail); }
        DistinctSnoc(acc, f);
        if Take1(name, item, acc).Ok? {
          ItemsIff(name, rest, filter, acc + [f]);
        }
      }
    }
  }

  ghost predicate GoodRoot(root: Root, filter: Filter) {
    ValidRootName(root.name) && root.listing.Some? && GoodItems(root.name, root.listing.value, filter)
  }

  /** The chosen files of all roots, in order. */
  function RootFiles(roots: seq<Root>, filter: Filter): seq<File> {
    if roots == [] then []
    else ItemFiles(roots[0].name, if roots[0].listing.Some? then roots[0].listing.value else [], filter)
         + RootFiles(roots[1..], filter)
  }

  lemma {:induction false} RootsIff(roots: seq<Root>, filter: Filter, acc: seq<File>)
    requires Distinct(acc) && |acc| <= MAX_FILES
    ensures var r, fs := CollectRoots(roots, filter, acc), acc + RootFiles(roots, filter);
            && (r.Ok? <==> (forall i :: 0 <= i < |roots| ==> GoodRoot(roots[i], filter))
                           && Distinct(fs) && |fs| <= MAX_FILES)
            && (r.Ok? ==> r.value == fs)
    decreases roots
  {
    hide ValidRootName, Distinct, GoodItems, CollectItems, ItemFiles;
    if roots == [] {
      assert acc + [] == acc;
    } else {
      var root, rest := roots[0], roots[1..];
      assert (forall i :: 0 <= i < |roots| ==> GoodRoot(roots[i], filter)) <==>
             GoodRoot(root, filter) && (forall i :: 0 <= i < |rest| ==> GoodRoot(rest[i], filter)) by {
        assert forall i :: 0 < i < |roots| ==> roots[i] == rest[i - 1];
        assert forall i :: 0 <= i < |rest| ==> rest[i] == roots[i + 1];
      }
      if ValidRootName(root.name) && root.listing.Some? {
        var mine, tail := ItemFiles(root.name, root.listing.value, filter), RootFiles(rest, filter);
        assert acc + (mine + tail) == acc + mine + tail;
        if Distinct(acc + mine + tail) { DistinctPrefix(acc + mine, tail); }
        ItemsIff(root.name, root.listing.value, filter, acc);
        var r := CollectItems(root.name, root.listing.value, filter, acc);
        if r.Ok? {
          RootsIff(rest, filter, acc + mine);
        }
      }
    }
  }

  /** A build finds its sources exactly when it has a root, an entry that is a source, valid names
      throughout, readable files, at most 64 of them and no two under one archive name - and then
      they are all the chosen files of all roots, in order. */
  lemma SourcesIff(roots: seq<Root>, entry: Bytes, filter: Filter)
    ensures var r, fs := Sources(roots, entry, filter), RootFiles(roots, filter);
            && (r.Ok? <==> && roots != [] && EndsWith(entry, GENGO) && Collected(fs, entry)
                           && (forall i :: 0 <= i < |roots| ==> GoodRoot(roots[i], filter))
                           && Distinct(fs) && |fs| <= 64)
            && (r.Ok? ==> r.value == fs)
  {
    hide CollectRoots, RootFiles, EndsWith, GoodRoot, Collected;
    RootsIff(roots, filter, []);
    assert [] + RootFiles(roots, filter) == RootFiles(roots, filter);
  }

  // What the collected names look like.

  ghost predicate SafeFile(f: File, maxSize: nat) {
    Wanted(f.path) && f.path[0] != SLASH && |f.contents| <= maxSize
  }

  ghost predicate Safe(fs: seq<File>, maxSize: nat) {
    forall i :: 0 <= i < |fs| ==> SafeFile(fs[i], maxSize)
  }

  /** No read returned more than the limit. */
  ghost predicate Limited(roots: seq<Root>, maxSize: nat) {
    forall i, j ::
      (0 <= i < |roots| && roots[i].listing.Some? && 0 <= j < |roots[i].listing.value|) ==>
        var read := roots[i].listing.value[j].read;
        read.Contents? ==> |read.bytes| <= maxSize
  }

  lemma FileIsSafe(name: Bytes, item: Item, filter: Filter, maxSize: nat)
    requires ValidRootName(name) && Chosen(filter, item) && Good(item, name) && |item.read.bytes| <= maxSize
    ensures SafeFile(FileOf(name, item), maxSize)
  {
    JoinIsSafe(name, item.relative);
    var j, r := Join(name, item.relative), item.relative;
    assert |GENGO| == 6 && GENGO[5] == 111;
    hide HasDotDot, GlobAny;
    assert j[|j| - 6..] == r[|r| - 6..];
    assert j[|j| - 1] == j[|j| - 6..][5];
  }

  lemma {:induction false} ItemFilesSafe(name: Bytes, items: seq<Item>, filter: Filter, maxSize: nat)
    requires ValidRootName(name) && GoodItems(name, items, filter)
    requires forall j :: 0 <= j < |items| && items[j].read.Contents? ==> |items[j].read.bytes| <= maxSize
    ensures Safe(ItemFiles(name, items, filter), maxSize)
  {
    hide ValidRootName, SafeFile, Chosen, FileOf;
    if items != [] {
      assert forall j :: 0 <= j < |items[1..]| ==> items[1..][j] == items[j + 1];
      ItemFilesSafe(name, items[1..], filter, maxSize);
      if Chosen(filter, items[0]) {
        FileIsSafe(name, items[0], filter, maxSize);
      }
    }
  }

  lemma {:induction false} RootFilesSafe(roots: seq<Root>, filter: Filter, maxSize: nat)
    requires (forall i :: 0 <= i < |roots| ==> GoodRoot(roots[i], filter)) && Limited(roots, maxSize)
    ensures Safe(RootFiles(roots, filter), maxSize)
  {
    hide SafeFile, ValidRootName, ItemFiles;
    if roots != [] {
      assert GoodRoot(roots[0], filter);
      assert forall i :: 0 <= i < |roots[1..]| ==> roots[1..][i] == roots[i + 1];
      ItemFilesSafe(roots[0].name, roots[0].listing.value, filter, maxSize);
      RootFilesSafe(roots[1..], filter, maxSize);
    }
  }

  /** In every successful build the archive names, the manifest's included, are pairwise distinct; none
      has ".." or a leading slash; the entry is among them; and the loader will take every source. */
  lemma BuildIsSafe(roots: seq<Root>, entry: Bytes, filter: Filter, maxSize: nat)
    requires Sources(roots, entry, filter).Ok? && Limited(roots, maxSize)
    ensures var fs := Sources(roots, entry, filter).value;
            && Safe(fs, maxSize) && |fs| <= MAX_FILES && Collected(fs, entry)
            && Distinct(fs + [Manifest(entry)])
            && !Wanted(MANIFEST_PATH) && !HasDotDot(MANIFEST_PATH) && MANIFEST_PATH[0] != SLASH
  {
    SourcesIff(roots, entry, filter);
    RootFilesSafe(roots, filter, maxSize);
    var fs := RootFiles(roots, filter);
    ManifestIsApart(fs, entry, maxSize);
  }

  lemma ManifestIsApart(fs: seq<File>, entry: Bytes, maxSize: nat)
    requires Distinct(fs) && Safe(fs, maxSize)
    ensures Distinct(fs + [Manifest(entry)])
    ensures !Wanted(MANIFEST_PATH) && !HasDotDot(MANIFEST_PATH) && MANIFEST_PATH[0] != SLASH
  {
    assert |MANIFEST_PATH| == 14 && MANIFEST_PATH[13] == 116 && MANIFEST_PATH[0] == 103;
    assert |GENGO| == 6 && GENGO[5] == 111;
    assert !EndsWith(MANIFEST_PATH, GENGO) by {
      assert MANIFEST_PATH[14 - 6..][5] == MANIFEST_PATH[13];
    }
    assert forall i :: 0 <= i < 14 && i != 5 ==> MANIFEST_PATH[i] != DOT;
    hide Ascii, HasDotDot;
    forall i | 0 <= i < |fs| ensures fs[i].path != MANIFEST_PATH {
      assert SafeFile(fs[i], maxSize);
    }
  }

  // What is in a bundle, said of the directory listings alone.

  /** The filters let a path in: a source that some include pattern accepts, if there is any, and no
      exclude pattern does. */
  ghost predicate LetIn(path: Bytes, filter: Filter) {
    && |path| >= 6 && path[|path| - 6..] == Ascii(".gengo")
    && (filter.includes == [] || exists k :: 0 <= k < |filter.includes| && Glob.Accepts(filter.includes[k], path))
    && forall k :: 0 <= k < |filter.excludes| ==> !Glob.Accepts(filter.excludes[k], path)
  }

  lemma ChosenIff(filter: Filter, item: Item)
    ensures Chosen(filter, item) <==> LetIn(item.relative, filter)
  {
    hide Glob.Matches, Glob.Tokens;
    assert |GENGO| == 6;
    hide Ascii;
    var p := item.relative;
    assert forall k :: 0 <= k < |filter.includes| ==>
        (Glob.Accepts(filter.includes[k], p) <==> Glob.Matches(Glob.Tokens(filter.includes[k]), p));
    assert forall k :: 0 <= k < |filter.excludes| ==>
        (Glob.Accepts(filter.excludes[k], p) <==> Glob.Matches(Glob.Tokens(filter.excludes[k]), p));
  }

  /** The file is item j of a listing, under the root's name. */
  ghost predicate FromItem(f: File, name: Bytes, items: seq<Item>, filter: Filter, j: int) {
    && 0 <= j < |items| && LetIn(items[j].relative, filter)
    && f.path == name + [47] + items[j].relative && items[j].read == Contents(f.contents)
  }

  lemma {:induction false} ItemFilesIff(name: Bytes, items: seq<Item>, filter: Filter, f: File)
    requires GoodItems(name, items, filter)
    ensures f in ItemFiles(name, items, filter) <==> exists j :: FromItem(f, name, items, filter, j)
  {
    hide LetIn, Chosen, ValidRelative;
    if items != [] {
      var rest := items[1..];
      assert forall j :: 0 <= j < |rest| ==> rest[j] == items[j + 1];
      assert GoodItems(name, rest, filter);
      ItemFilesIff(name, rest, filter, f);
      ChosenIff(filter, items[0]);
      assert FromItem(f, name, items, filter, 0) <==> Chosen(filter, items[0]) && f == FileOf(name, items[0]);
      assert forall j :: FromItem(f, name, rest, filter, j) ==> FromItem(f, name, items, filter, j + 1);
      assert forall j :: j > 0 && FromItem(f, name, items, filter, j) ==> FromItem(f, name, rest, filter, j - 1);
    }
  }

  ghost predicate FromRoot(f: File, roots: seq<Root>, filter: Filter, i: int) {
    && 0 <= i < |roots| && roots[i].listing.Some?
    && exists j :: FromItem(f, roots[i].name, roots[i].listing.value, filter, j)
  }

  lemma {:induction false} RootFilesIff(roots: seq<Root>, filter: Filter, f: File)
    requires forall i :: 0 <= i < |roots| ==> GoodRoot(roots[i], filter)
    ensures f in RootFiles(roots, filter) <==> exists i :: FromRoot(f, roots, filter, i)
  {
    hide FromItem, ItemFiles, ValidRootName, GoodItems;
    if roots != [] {
      var rest := roots[1..];
      assert GoodRoot(roots[0], filter);
      assert forall i :: 0 <= i < |rest| ==> rest[i] == roots[i + 1];
      RootFilesIff(rest, filter, f);
      ItemFilesIff(roots[0].name, roots[0].listing.value, filter, f);
      var mine := ItemFiles(roots[0].name, roots[0].listing.value, filter);
      assert RootFiles(roots, filter) == mine + RootFiles(rest, filter);
      hide RootFiles;
      assert FromRoot(f, roots, filter, 0) <==> f in mine;
      assert forall i :: FromRoot(f, rest, filter, i) ==> FromRoot(f, roots, filter, i + 1);
      assert forall i :: i > 0 && FromRoot(f, roots, filter, i) ==> FromRoot(f, rest, filter, i - 1);
    }
  }

  /** Every successful build holds, besides the manifest, exactly the files of the listings that the
      filters let in, each under its root's name, a slash and its path, with the contents read. */
  lemma BundledIff(roots: seq<Root>, entry: Bytes, filter: Filter, f: File)
    requires Sources(roots, entry, filter).Ok?
    ensures f in Sources(roots, entry, filter).value <==> exists i :: FromRoot(f, roots, filter, i)
  {
    hide Sources, RootFiles, FromRoot, GoodRoot;
    SourcesIff(roots, entry, filter);
    RootFilesIff(roots, filter, f);
  }

  /** Reading a built archive gives the sources and, last, the manifest with the entry's line. */
  lemma ManifestReads(roots: seq<Root>, entry: Bytes, filter: Filter, crc: Crc)
    requires Sources(roots, entry, filter).Ok? && Writable(Sources(roots, entry, filter).value + [Manifest(entry)])
    ensures var fs := Sources(roots, entry, filter).value;
            ZipReader.ReadArchive(Archive(fs + [Manifest(entry)], crc)) ==
            Some(fs + [File(Ascii("gengo.manifest"), Ascii("format=gengo.bundle.v1\nentry=") + entry + [10])])
  {
    hide Sources, Archive, Writable, ZipReader.ReadArchive;
    assert Ascii("\n") == [10];
    hide Ascii;
    ZipReader.ReadInvertsWrite(Sources(roots, entry, filter).value + [Manifest(entry)], crc);
  }

  // Loading a bundle.

  /** The module path the loader files a source under. */
  function Stem(path: Bytes): Bytes
    requires |path| >= 6
  {
    path[..|path| - 6]
  }

  ghost predicate Long(fs: seq<File>) {
    forall i :: 0 <= i < |fs| ==> |fs[i].path| >= 6
  }

  function Stems(fs: seq<File>): (r: seq<Source>)
    requires forall i :: 0 <= i < |fs| ==> |fs[i].path| >= 6
    ensures |r| == |fs|
  {
    if fs == [] then [] else [Source(Stem(fs[0].path), fs[0].contents)] + Stems(fs[1..])
  }

  lemma SafeIsLong(fs: seq<File>, maxSize: nat)
    requires Safe(fs, maxSize)
    ensures Long(fs)
  {
    forall i | 0 <= i < |fs| ensures |fs[i].path| >= 6 {
      assert SafeFile(fs[i], maxSize);
    }
  }

  /** The loader takes every source of a bundle and skips the manifest. */
  lemma {:induction false} AdmitsAll(fs: seq<File>, manifest: File, maxSize: nat, acc: seq<Source>)
    requires Safe(fs, maxSize) && Long(fs) && |acc| + |fs| <= MAX_FILES && !Wanted(manifest.path)
    ensures Admit(fs + [manifest], maxSize, acc) == Loaded(acc + Stems(fs))
    decreases fs
  {
    hide Wanted;
    if fs == [] {
      assert fs + [manifest] == [manifest] && [manifest][1..] == [];
      assert Admit([], maxSize, acc) == Loaded(acc);
      assert acc + [] == acc;
    } else {
      assert SafeFile(fs[0], maxSize);
      var rest, one := fs[1..], Source(Stem(fs[0].path), fs[0].contents);
      assert (fs + [manifest])[1..] == rest + [manifest];
      assert forall i :: 0 <= i < |rest| ==> rest[i] == fs[i + 1];
      AdmitsAll(rest, manifest, maxSize, acc + [one]);
      assert acc + [one] + Stems(rest) == acc + ([one] + Stems(rest));
    }
  }

  /** The contents of the file with a given archive path. */
  function ContentsAt(fs: seq<File>, path: Bytes): Option<Bytes> {
    if fs == [] then None
    else if fs[0].path == path then Some(fs[0].contents)
    else ContentsAt(fs[1..], path)
  }

  lemma StemInjective(a: Bytes, b: Bytes)
    requires EndsWith(a, GENGO) && EndsWith(b, GENGO)
    ensures Stem(a) == Stem(b) <==> a == b
  {
    hide Ascii;
    assert a == Stem(a) + GENGO && b == Stem(b) + GENGO;
  }

  lemma {:induction false} FindByStem(fs: seq<File>, path: Bytes)
    requires Long(fs) && EndsWith(path, GENGO) && forall i :: 0 <= i < |fs| ==> EndsWith(fs[i].path, GENGO)
    ensures FindFile(Stems(fs), Stem(path)) == ContentsAt(fs, path)
  {
    hide EndsWith, Stem;
    if fs != [] {
      var rest := fs[1..];
      assert forall i :: 0 <= i < |rest| ==> rest[i] == fs[i + 1];
      assert Stems(fs)[1..] == Stems(rest);
      assert EndsWith(fs[0].path, GENGO);
      StemInjective(fs[0].path, path);
      FindByStem(rest, path);
    }
  }

  /** The archive path an import means: the extension may be left away. */
  function SourcePath(path: Bytes): (r: Bytes)
    ensures EndsWith(r, GENGO)
  {
    if EndsWith(path, GENGO) then path else path + GENGO
  }

  /** The import path without its extension. */
  lemma Stripped(name: Bytes, path: Bytes)
    ensures var full := name + [SLASH] + path;
            (if EndsWith(full, GENGO) then full[..|full| - 6] else full) == name + [SLASH] + Stem(SourcePath(path))
  {
    assert |GENGO| == 6 && SLASH !in GENGO;
    hide Ascii;
    if |path| >= 6 { SameEnd(name + [SLASH], path); } else { ShortEnd(name, path); }
    assert path[..|path|] == path;
    assert (path + GENGO)[..|path|] == path;
  }

  lemma SameEnd(a: Bytes, b: Bytes)
    requires |b| >= 6
    ensures var s := a + b; s[|s| - 6..] == b[|b| - 6..] && s[..|s| - 6] == a + b[..|b| - 6]
  {
  }

  lemma ShortEnd(name: Bytes, path: Bytes)
    requires |path| < 6 && |GENGO| == 6 && SLASH !in GENGO
    ensures !EndsWith(name + [SLASH] + path, GENGO)
  {
    hide Ascii;
    var full := name + [SLASH] + path;
    if |full| >= 6 { assert full[|full| - 6..][5 - |path|] == SLASH; }
  }

  /** Looking up `<package>/<path>`, with or without extension, finds the contents of that source. */
  lemma ResolvesTo(reg: seq<Package>, name: Bytes, fs: seq<File>, maxSize: nat, path: Bytes)
    requires Safe(fs, maxSize) && Long(fs) && SLASH !in name && FindPackage(reg, name).None?
    ensures Resolve(reg + [Package(name, Stems(fs))], name + [SLASH] + path) == ContentsAt(fs, SourcePath(path))
  {
    forall i | 0 <= i < |fs| ensures EndsWith(fs[i].path, GENGO) && |fs[i].path| > 6 {
      assert SafeFile(fs[i], maxSize);
    }
    var source := SourcePath(path);
    assert |GENGO| == 6;
    hide Ascii, Wanted, SourcePath, EndsWith;
    Stripped(name, path);
    SplitsAtSlash(name, Stem(source));
    FindAppended(reg, Package(name, Stems(fs)), name);
    FindByStem(fs, source);
    if Stem(source) == [] { NotThere(fs, source); }
  }

  lemma {:induction false} NotThere(fs: seq<File>, path: Bytes)
    requires |path| == 6 && forall i :: 0 <= i < |fs| ==> |fs[i].path| > 6
    ensures ContentsAt(fs, path) == None
  {
    if fs != [] {
      NotThere(fs[1..], path);
    }
  }

  /** From source tree to import: every successful build is loaded, and importing any path under its
      name, with or without extension, gives the contents of the source with that archive path, or
      nothing when there is none. A name with a slash can never be imported, and where the name was
      taken the earlier package stays. */
  lemma BundleLoads(roots: seq<Root>, entry: Bytes, filter: Filter, maxSize: nat, crc: Crc, inflate: Inflate,
                    reg: seq<Package>, name: Bytes)
    requires Sources(roots, entry, filter).Ok? && Limited(roots, maxSize)
    requires Writable(Sources(roots, entry, filter).value + [Manifest(entry)])
    requires |reg| < 32 && 0 < |name| <= 64
    ensures var fs := Sources(roots, entry, filter).value;
            var r := Load(reg, name, Archive(fs + [Manifest(entry)], crc), maxSize, inflate);
            && r.Loaded?
            && forall path ::
                 Resolve(r.value, name + [SLASH] + path) ==
                 if SLASH in name || FindPackage(reg, name).Some? then Resolve(reg, name + [SLASH] + path)
                 else ContentsAt(fs, SourcePath(path))
  {
    hide Archive, Writable, Sources, Load, Resolve, Limited, Wanted, SourcePath;
    var fs := Sources(roots, entry, filter).value;
    BuildIsSafe(roots, entry, filter, maxSize);
    SafeIsLong(fs, maxSize);
    AdmitsAll(fs, Manifest(entry), maxSize, []);
    assert [] + Stems(fs) == Stems(fs);
    LoadsWhatWasWritten(reg, name, fs + [Manifest(entry)], crc, maxSize, inflate);
    var pkg := Package(name, Stems(fs));
    forall path
      ensures Resolve(reg + [pkg], name + [SLASH] + path) ==
              if SLASH in name || FindPackage(reg, name).Some? then Resolve(reg, name + [SLASH] + path)
              else ContentsAt(fs, SourcePath(path))
    {
      if SLASH in name || FindPackage(reg, name).Some? {
        OthersUnchanged(reg, pkg, name + [SLASH] + path);
      } else {
        ResolvesTo(reg, name, fs, maxSize, path);
      }
    }
  }

  /** Loading a package changes no import that resolved before, and no import at all when its name
      was taken, has a slash in it or is not the one imported. */
  lemma OthersUnchanged(reg: seq<Package>, pkg: Package, importPath: Bytes)
    ensures || Resolve(reg, importPath).Some? || FindPackage(reg, pkg.name).Some? || SLASH in pkg.name
            || !(pkg.name + [SLASH] <= importPath)
            ==> Resolve(reg + [pkg], importPath) == Resolve(reg, importPath)
  {
    hide Ascii;
    var path := if EndsWith(importPath, GENGO) then importPath[..|importPath| - 6] else importPath;
    var split := SplitAtSlash(path);
    if split.Some? {
      SplitIs(path);
      FindAppended(reg, pkg, split.value.before);
      assert split.value.before + [SLASH] <= path <= importPath;
    }
  }
}
