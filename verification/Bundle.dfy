/** The bundle builder over a given directory listing: which files are collected, under which
    names, and how the result loads. */
module Bundle {
  import opened Bytes
  import opened Zip
  import opened Packages
  import Glob

  /** What reading one file gave; the limit is enforced by the read. */
  datatype Read = Contents(bytes: Bytes) | TooLong | Unreadable

  /** One regular file found under a root, by its path relative to the root. */
  datatype Item = Item(relative: Bytes, read: Read)

  /** A root and its files in walking order; None when its directory cannot be opened. */
  datatype Root = Root(name: Bytes, listing: Option<seq<Item>>)

  datatype Error =
    | InvalidRootName | InvalidRelativePath | ArchivePathTooLong | DuplicateArchivePath
    | EntryNotFound | TooManySourceFiles | FileTooLarge | ReadError | ZipError(result: WriteResult)

  datatype Outcome<+T> = Ok(value: T) | Failed(error: Error)

  const MANIFEST_PATH := Ascii("gengo.manifest")

  // Names.

  predicate ValidRootName(name: Bytes) {
    name != [] && SLASH !in name && !HasDotDot(name)
  }

  predicate ValidRelative(relative: Bytes) {
    relative != [] && relative[0] != SLASH && !HasDotDot(relative)
  }

  function Join(name: Bytes, relative: Bytes): Bytes {
    name + [SLASH] + relative
  }

  /** `archivePath`: the joined path in the caller's buffer, or why there is none. */
  method ArchivePath(name: Bytes, relative: Bytes, out: array<Byte>) returns (r: Outcome<nat>)
    modifies out
    ensures r.Ok? <==> ValidRootName(name) && ValidRelative(relative) && |Join(name, relative)| <= out.Length
    ensures r.Ok? ==> r.value == |Join(name, relative)| && out[..r.value] == Join(name, relative)
                      && out[r.value..] == old(out[r.value..])
    ensures r.Failed? ==> out[..] == old(out[..])
    ensures r == Failed(InvalidRootName) <==> !ValidRootName(name)
    ensures r == Failed(InvalidRelativePath) <==> ValidRootName(name) && !ValidRelative(relative)
  {
    if !ValidRootName(name) { return Failed(InvalidRootName); }
    if !ValidRelative(relative) { return Failed(InvalidRelativePath); }
    var len := |name| + 1 + |relative|;
    if len > out.Length { return Failed(ArchivePathTooLong); }
    forall i | 0 <= i < |name| { out[i] := name[i]; }
    out[|name|] := SLASH;
    forall i | 0 <= i < |relative| { out[|name| + 1 + i] := relative[i]; }
    assert out[..len] == Join(name, relative);
    return Ok(len);
  }

  /** Which names are valid. */
  lemma NamesIff(name: Bytes)
    ensures ValidRootName(name) <==>
            name != [] && 47 !in name && forall i :: 0 <= i < |name| - 1 ==> !(name[i] == 46 && name[i + 1] == 46)
    ensures ValidRelative(name) <==>
            name != [] && name[0] != 47 && forall i :: 0 <= i < |name| - 1 ==> !(name[i] == 46 && name[i + 1] == 46)
  {
  }

  /** Different roots or different relative paths never collide, since root names hold no slash. */
  lemma JoinInjective(n1: Bytes, r1: Bytes, n2: Bytes, r2: Bytes)
    requires ValidRootName(n1) && ValidRootName(n2) && Join(n1, r1) == Join(n2, r2)
    ensures n1 == n2 && r1 == r2
  {
    SplitsAtSlash(n1, r1);
    SplitsAtSlash(n2, r2);
  }

  lemma JoinIsSafe(name: Bytes, relative: Bytes)
    requires ValidRootName(name) && ValidRelative(relative)
    ensures !HasDotDot(Join(name, relative)) && Join(name, relative)[0] != SLASH
  {
    var j := Join(name, relative);
    assert j[0] == name[0] && name[0] in name;
    forall i | 0 <= i < |j| - 1 ensures !(j[i] == DOT && j[i + 1] == DOT) {
      if i + 1 < |name| {
        assert j[i] == name[i] && j[i + 1] == name[i + 1];
      } else if i > |name| {
        var k := i - |name| - 1;
        assert j[i] == relative[k] && j[i + 1] == relative[k + 1];
      }
    }
  }

  // Selection.

  predicate GlobAny(patterns: seq<Bytes>, path: Bytes) {
    exists i :: 0 <= i < |patterns| && Glob.Matches(Glob.Tokens(patterns[i]), path)
  }

  predicate Include(path: Bytes, includes: seq<Bytes>, excludes: seq<Bytes>) {
    EndsWith(path, GENGO) && (includes == [] || GlobAny(includes, path)) && !GlobAny(excludes, path)
  }

  method MatchesAny(patterns: seq<Bytes>, path: Bytes) returns (r: bool)
    ensures r == GlobAny(patterns, path)
  {
    for i := 0 to |patterns|
      invariant forall k :: 0 <= k < i ==> !Glob.Matches(Glob.Tokens(patterns[k]), path)
    {
      var m := Glob.GlobMatchAt(patterns[i], path, 0, 0);
      assert patterns[i][0..] == patterns[i] && path[0..] == path;
      if m { return true; }
    }
    r := false;
  }

  method ShouldInclude(path: Bytes, includes: seq<Bytes>, excludes: seq<Bytes>) returns (r: bool)
    ensures r == Include(path, includes, excludes)
  {
    if !EndsWith(path, GENGO) { return false; }
    if |includes| > 0 {
      var matched := MatchesAny(includes, path);
      if !matched { return false; }
    }
    var excluded := MatchesAny(excludes, path);
    r := !excluded;
  }

  predicate Collected(files: seq<File>, path: Bytes) {
    exists i :: 0 <= i < |files| && files[i].path == path
  }

  /** The filters: the patterns to include and to exclude. */
  datatype Filter = Filter(includes: seq<Bytes>, excludes: seq<Bytes>)

  predicate Chosen(filter: Filter, item: Item) {
    Include(item.relative, filter.includes, filter.excludes)
  }

  /** Take one included file. */
  function Take1(name: Bytes, item: Item, acc: seq<File>): Outcome<seq<File>> {
    if |acc| >= MAX_FILES then Failed(TooManySourceFiles)
    else if !ValidRootName(name) then Failed(InvalidRootName)
    else if !ValidRelative(item.relative) then Failed(InvalidRelativePath)
    else
      var path := Join(name, item.relative);
      if |path| - 6 > 127 then Failed(ArchivePathTooLong)
      else if Collected(acc, path) then Failed(DuplicateArchivePath)
      else match item.read
        case TooLong => Failed(Error.FileTooLarge)
        case Unreadable => Failed(ReadError)
        case Contents(c) => Ok(acc + [File(path, c)])
  }

  function CollectItems(name: Bytes, items: seq<Item>, filter: Filter, acc: seq<File>): Outcome<seq<File>>
    decreases items
  {
    if items == [] then Ok(acc)
    else if !Chosen(filter, items[0]) then CollectItems(name, items[1..], filter, acc)
    else
      var r := Take1(name, items[0], acc);
      if r.Failed? then r else CollectItems(name, items[1..], filter, r.value)
  }

  function CollectRoots(roots: seq<Root>, filter: Filter, acc: seq<File>): Outcome<seq<File>>
    decreases roots
  {
    if roots == [] then Ok(acc)
    else if !ValidRootName(roots[0].name) then Failed(InvalidRootName)
    else if roots[0].listing.None? then Failed(InvalidRelativePath)
    else
      var r := CollectItems(roots[0].name, roots[0].listing.value, filter, acc);
      if r.Failed? then r else CollectRoots(roots[1..], filter, r.value)
  }

  function Manifest(entry: Bytes): File {
    File(MANIFEST_PATH, Ascii("format=gengo.bundle.v1\nentry=") + entry + Ascii("\n"))
  }

  /** The sources of a bundle, before the manifest is added. */
  function Sources(roots: seq<Root>, entry: Bytes, filter: Filter): Outcome<seq<File>> {
    if roots == [] then Failed(InvalidRootName)
    else if !EndsWith(entry, GENGO) then Failed(EntryNotFound)
    else
      var r := CollectRoots(roots, filter, []);
      if r.Failed? then r else if Collected(r.value, entry) then r else Failed(EntryNotFound)
  }

  datatype BuildResult = BuildResult(archive: Bytes, sourceCount: nat)

  method BuildFromRoots(roots: seq<Root>, entry: Bytes, filter: Filter, crc: Crc) returns (r: Outcome<BuildResult>)
    ensures var s := Sources(roots, entry, filter);
            if s.Failed? then r == Failed(s.error)
            else if !Writable(s.value + [Manifest(entry)]) then r.Failed? && r.error.ZipError?
            else r == Ok(BuildResult(Archive(s.value + [Manifest(entry)], crc), |s.value|))
  {
    hide Archive, Writable, Take1, EndsWith, Ascii, Chosen;
    if |roots| == 0 { return Failed(InvalidRootName); }
    if !EndsWith(entry, GENGO) { return Failed(EntryNotFound); }
    var collected: seq<File> := [];
    var i := 0;
    assert roots[0..] == roots;
    while i < |roots|
      invariant 0 <= i <= |roots|
      invariant CollectRoots(roots[i..], filter, collected) == CollectRoots(roots, filter, [])
    {
      var root := roots[i];
      assert roots[i..][0] == root && roots[i..][1..] == roots[i + 1..];
      if !ValidRootName(root.name) { return Failed(InvalidRootName); }
      if root.listing.None? { return Failed(InvalidRelativePath); }
      var c := WalkRoot(root.name, root.listing.value, filter, collected);
      if c.Failed? { return Failed(c.error); }
      collected := c.value;
      i := i + 1;
    }
    if !Collected(collected, entry) { return Failed(EntryNotFound); }
    var sourceCount := |collected|;
    collected := collected + [Manifest(entry)];
    var zip := WriteStoredZip(collected, crc);
    if !zip.Written? { return Failed(ZipError(zip)); }
    return Ok(BuildResult(zip.bytes, sourceCount));
  }

  method WalkRoot(name: Bytes, items: seq<Item>, filter: Filter, start: seq<File>) returns (r: Outcome<seq<File>>)
    ensures r == CollectItems(name, items, filter, start)
  {
    hide Take1, Include;
    var collected := start;
    assert items[0..] == items;
    for i := 0 to |items|
      invariant CollectItems(name, items[i..], filter, collected) == CollectItems(name, items, filter, start)
    {
      var item := items[i];
      assert items[i..][0] == item && items[i..][1..] == items[i + 1..];
      var wanted := ShouldInclude(item.relative, filter.includes, filter.excludes);
      if !wanted { continue; }
      r := TakeFile(name, item, collected);
      if r.Failed? { return; }
      collected := r.value;
    }
    r := Ok(collected);
  }

  method TakeFile(name: Bytes, item: Item, collected: seq<File>) returns (r: Outcome<seq<File>>)
    ensures r == Take1(name, item, collected)
  {
    if |collected| >= MAX_FILES { return Failed(TooManySourceFiles); }
    var buffer := new Byte[|name| + 1 + |item.relative|](_ => 0);
    var len := ArchivePath(name, item.relative, buffer);
    if len.Failed? { return Failed(len.error); }
    var path := buffer[..len.value];
    if |path| - 6 > 127 { return Failed(ArchivePathTooLong); }
    if Collected(collected, path) { return Failed(DuplicateArchivePath); }
    match item.read
    case TooLong => return Failed(Error.FileTooLarge);
    case Unreadable => return Failed(ReadError);
    case Contents(c) => return Ok(collected + [File(path, c)]);
  }
}
