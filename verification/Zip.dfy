/** The stored-ZIP writer (sections 4.3.7, 4.3.12 and 4.3.16 of PKWARE APPNOTE.TXT), what an
    archive consists of, and reading its headers back. */
module Zip {
  import opened Bytes

  const U16_MAX := 0xFFFF
  const U32_MAX := 0xFFFF_FFFF
  const LOCAL_SIGNATURE := 0x04034b50
  const CENTRAL_SIGNATURE := 0x02014b50
  const END_SIGNATURE := 0x06054b50

  type U32 = n: int | 0 <= n <= U32_MAX

  /** CRC-32 is carried but not interpreted. */
  type Crc = Bytes -> U32

  datatype File = File(path: Bytes, contents: Bytes)

  ghost predicate EntryFits(f: File) {
    0 < |f.path| <= U16_MAX && |f.contents| <= U32_MAX
  }

  // The parts of an archive. Headers are cut where the readers look.

  function LocalHead(f: File, crc: U32): (r: Bytes)
    ensures |r| == 30
  {
    (Le(LOCAL_SIGNATURE, 4) + Le(20, 2) + Le(0, 2) + Le(0, 2) + Le(0, 2) + Le(0, 2))
    + (Le(crc, 4) + Le(|f.contents|, 4) + Le(|f.contents|, 4) + Le(|f.path|, 2) + Le(0, 2))
  }

  function Local(f: File, crc: U32): (r: Bytes)
    ensures |r| == LocalSize(f)
  {
    LocalHead(f, crc) + f.path + f.contents
  }

  function CentralHead(f: File, crc: U32, offset: nat): (r: Bytes)
    ensures |r| == 46
  {
    (Le(CENTRAL_SIGNATURE, 4) + Le(20, 2) + Le(20, 2) + Le(0, 2) + Le(0, 2) + Le(0, 2) + Le(0, 2))
    + (Le(crc, 4) + Le(|f.contents|, 4) + Le(|f.contents|, 4) + Le(|f.path|, 2))
    + (Le(0, 2) + Le(0, 2) + Le(0, 2) + Le(0, 2) + Le(0, 4) + Le(offset, 4))
  }

  function Central(f: File, crc: U32, offset: nat): (r: Bytes)
    ensures |r| == CentralSize(f)
  {
    CentralHead(f, crc, offset) + f.path
  }

  function EndRecord(count: nat, size: nat, offset: nat): (r: Bytes)
    ensures |r| == 22
  {
    (Le(END_SIGNATURE, 4) + Le(0, 2) + Le(0, 2) + Le(count, 2) + Le(count, 2))
    + (Le(size, 4) + Le(offset, 4) + Le(0, 2))
  }

  function LocalSize(f: File): nat { 30 + |f.path| + |f.contents| }

  function CentralSize(f: File): nat { 46 + |f.path| }

  function LocalsSize(fs: seq<File>): nat {
    if fs == [] then 0 else LocalsSize(fs[..|fs| - 1]) + LocalSize(fs[|fs| - 1])
  }

  function CentralsSize(fs: seq<File>): nat {
    if fs == [] then 0 else CentralsSize(fs[..|fs| - 1]) + CentralSize(fs[|fs| - 1])
  }

  /** Every length, offset, size and count fits its field. */
  ghost predicate Writable(fs: seq<File>) {
    && (forall i :: 0 <= i < |fs| ==> EntryFits(fs[i]))
    && LocalsSize(fs) <= U32_MAX && CentralsSize(fs) <= U32_MAX && |fs| <= U16_MAX
  }

  lemma {:induction false} SizesGrow(fs: seq<File>, i: nat)
    requires i <= |fs|
    ensures LocalsSize(fs[..i]) <= LocalsSize(fs) && CentralsSize(fs[..i]) <= CentralsSize(fs)
    decreases |fs|
  {
    if i < |fs| {
      SizesGrow(fs[..|fs| - 1], i);
      assert fs[..|fs| - 1][..i] == fs[..i];
    } else {
      assert fs[..i] == fs;
    }
  }

  /** The local region: every entry's header, path and contents. */
  function Locals(fs: seq<File>, crc: Crc): (r: Bytes)
    ensures |r| == LocalsSize(fs)
  {
    if fs == [] then []
    else
      var init, f := fs[..|fs| - 1], fs[|fs| - 1];
      Locals(init, crc) + Local(f, crc(f.contents))
  }

  /** The central region: each entry records where its local part starts. */
  function Centrals(fs: seq<File>, crc: Crc): (r: Bytes)
    ensures |r| == CentralsSize(fs)
  {
    if fs == [] then []
    else
      var init, f := fs[..|fs| - 1], fs[|fs| - 1];
      Centrals(init, crc) + Central(f, crc(f.contents), LocalsSize(init))
  }

  function Archive(fs: seq<File>, crc: Crc): (r: Bytes)
    ensures |r| == LocalsSize(fs) + CentralsSize(fs) + 22
  {
    Locals(fs, crc) + Centrals(fs, crc) + EndRecord(|fs|, CentralsSize(fs), LocalsSize(fs))
  }

  lemma EmptyRegions(crc: Crc)
    ensures Locals([], crc) == [] && Centrals([], crc) == []
  {
  }

  lemma LocalsSnoc(fs: seq<File>, i: nat, crc: Crc)
    requires i < |fs|
    ensures Locals(fs[..i + 1], crc) == Locals(fs[..i], crc) + Local(fs[i], crc(fs[i].contents))
  {
    hide Local;
    assert fs[..i + 1][..i] == fs[..i];
  }

  lemma CentralsSnoc(fs: seq<File>, i: nat, crc: Crc)
    requires i < |fs|
    ensures Centrals(fs[..i + 1], crc) ==
            Centrals(fs[..i], crc) + Central(fs[i], crc(fs[i].contents), LocalsSize(fs[..i]))
  {
    hide Central;
    assert fs[..i + 1][..i] == fs[..i];
  }

  // The writer.

  datatype WriteResult = Written(bytes: Bytes) | InvalidZipEntry | ArchiveTooLarge

  datatype ZipRecord = ZipRecord(file: File, crc32: U32, localOffset: U32)

  /** The record each entry leaves for the central region. */
  ghost predicate Recorded(records: seq<ZipRecord>, files: seq<File>, crc: Crc) {
    && |records| <= |files|
    && forall k :: 0 <= k < |records| ==>
         && LocalsSize(files[..k]) <= U32_MAX
         && records[k] == ZipRecord(files[k], crc(files[k].contents), LocalsSize(files[..k]))
  }

  lemma RecordedAt(records: seq<ZipRecord>, files: seq<File>, crc: Crc, i: nat)
    requires Recorded(records, files, crc) && i < |records|
    ensures records[i].file == files[i] && records[i].crc32 == crc(files[i].contents)
    ensures records[i].localOffset == LocalsSize(files[..i])
  {
    hide LocalsSize;
  }

  lemma NothingRecorded(files: seq<File>, crc: Crc)
    ensures Recorded([], files, crc)
  {
  }

  lemma RecordedSnoc(records: seq<ZipRecord>, files: seq<File>, crc: Crc)
    requires Recorded(records, files, crc) && |records| < |files| && LocalsSize(files[..|records|]) <= U32_MAX
    ensures var f := files[|records|];
            Recorded(records + [ZipRecord(f, crc(f.contents), LocalsSize(files[..|records|]))], files, crc)
  {
    hide LocalsSize;
  }

  method WriteStoredZip(files: seq<File>, crc: Crc) returns (r: WriteResult)
    ensures r.Written? <==> Writable(files)
    ensures r.Written? ==> r.bytes == Archive(files, crc)
    ensures r.InvalidZipEntry? ==> |files| > U16_MAX || exists i :: 0 <= i < |files| && !EntryFits(files[i])
    ensures r.ArchiveTooLarge? ==> LocalsSize(files) > U32_MAX || CentralsSize(files) > U32_MAX
  {
    hide Locals, Centrals, LocalsSize, CentralsSize, Recorded, EntryFits, EndRecord;
    var records := new ZipRecord[|files|](_ => ZipRecord(File([], []), 0, 0));
    r := WriteLocals(files, crc, records);
    if !r.Written? { return; }
    var bytes := r.bytes;
    var centralOffset := |bytes|;
    if centralOffset > U32_MAX { return ArchiveTooLarge; }
    bytes := WriteCentrals(files, crc, records, bytes);
    var centralSize := |bytes| - centralOffset;
    if centralSize > U32_MAX { return ArchiveTooLarge; }
    if records.Length > U16_MAX { return InvalidZipEntry; }
    bytes := AppendEnd(bytes, records.Length, centralSize, centralOffset);
    return Written(bytes);
  }

  method WriteLocals(files: seq<File>, crc: Crc, records: array<ZipRecord>) returns (r: WriteResult)
    requires records.Length == |files|
    modifies records
    ensures r.Written? ==> (forall i :: 0 <= i < |files| ==> EntryFits(files[i])) && r.bytes == Locals(files, crc)
                           && Recorded(records[..], files, crc)
    ensures r.InvalidZipEntry? ==> exists i :: 0 <= i < |files| && !EntryFits(files[i])
    ensures r.ArchiveTooLarge? ==> LocalsSize(files) > U32_MAX
  {
    hide Local, Locals, LocalsSize, Recorded;
    EmptyRegions(crc);
    var bytes: Bytes := [];
    assert files[..0] == [];
    NothingRecorded(files, crc);
    assert records[..0] == [];
    for i := 0 to |files|
      invariant forall k :: 0 <= k < i ==> EntryFits(files[k])
      invariant bytes == Locals(files[..i], crc)
      invariant Recorded(records[..i], files, crc)
    {
      var file := files[i];
      if |file.path| == 0 || |file.path| > U16_MAX || |file.contents| > U32_MAX {
        return InvalidZipEntry;
      }
      SizesGrow(files, i);
      if |bytes| > U32_MAX { return ArchiveTooLarge; }
      records[i] := ZipRecord(file, crc(file.contents), |bytes|);
      LocalsSnoc(files, i, crc);
      RecordedSnoc(records[..i], files, crc);
      assert records[..i + 1] == records[..i] + [records[i]];
      bytes := AppendLocal(bytes, file, records[i].crc32);
    }
    assert files[..|files|] == files && records[..] == records[..|files|];
    return Written(bytes);
  }

  method WriteCentrals(files: seq<File>, crc: Crc, records: array<ZipRecord>, start: Bytes) returns (bytes: Bytes)
    requires records.Length == |files| && Recorded(records[..], files, crc)
    ensures bytes == start + Centrals(files, crc)
  {
    hide Central, Centrals, LocalsSize, CentralsSize, Recorded;
    EmptyRegions(crc);
    bytes := start;
    assert files[..0] == [];
    for i := 0 to records.Length
      invariant bytes == start + Centrals(files[..i], crc)
    {
      CentralsSnoc(files, i, crc);
      RecordedAt(records[..], files, crc, i);
      ghost var before := Centrals(files[..i], crc);
      bytes := AppendCentral(bytes, records[i]);
      assert bytes == start + (before + Central(files[i], crc(files[i].contents), LocalsSize(files[..i])));
    }
    assert files[..records.Length] == files;
  }

  method AppendLocal(bytes: Bytes, file: File, crc: U32) returns (r: Bytes)
    ensures r == bytes + Local(file, crc)
  {
    hide Le;
    r := bytes + Le(LOCAL_SIGNATURE, 4);
    r := r + Le(20, 2);
    r := r + Le(0, 2);
    r := r + Le(0, 2);
    r := r + Le(0, 2);
    r := r + Le(0, 2);
    r := r + Le(crc, 4);
    r := r + Le(|file.contents|, 4);
    r := r + Le(|file.contents|, 4);
    r := r + Le(|file.path|, 2);
    r := r + Le(0, 2);
    assert r == bytes + LocalHead(file, crc);
    r := r + file.path;
    r := r + file.contents;
  }

  method AppendCentral(bytes: Bytes, record: ZipRecord) returns (r: Bytes)
    ensures r == bytes + Central(record.file, record.crc32, record.localOffset)
  {
    hide Le;
    r := bytes + Le(CENTRAL_SIGNATURE, 4);
    r := r + Le(20, 2);
    r := r + Le(20, 2);
    r := r + Le(0, 2);
    r := r + Le(0, 2);
    r := r + Le(0, 2);
    r := r + Le(0, 2);
    r := r + Le(record.crc32, 4);
    r := r + Le(|record.file.contents|, 4);
    r := r + Le(|record.file.contents|, 4);
    r := r + Le(|record.file.path|, 2);
    r := r + Le(0, 2);
    r := r + Le(0, 2);
    r := r + Le(0, 2);
    r := r + Le(0, 2);
    r := r + Le(0, 4);
    r := r + Le(record.localOffset, 4);
    assert r == bytes + CentralHead(record.file, record.crc32, record.localOffset);
    r := r + record.file.path;
  }

  method AppendEnd(bytes: Bytes, count: nat, size: U32, offset: U32) returns (r: Bytes)
    ensures r == bytes + EndRecord(count, size, offset)
  {
    hide Le;
    r := bytes + Le(END_SIGNATURE, 4);
    r := r + Le(0, 2);
    r := r + Le(0, 2);
    r := r + Le(count, 2);
    r := r + Le(count, 2);
    r := r + Le(size, 4);
    r := r + Le(offset, 4);
    r := r + Le(0, 2);
  }

  // Reading headers back.

  function U16(data: Bytes, i: nat): nat
    requires i + 2 <= |data|
  {
    FromLe(data[i..i + 2])
  }

  function ReadU32(data: Bytes, i: nat): nat
    requires i + 4 <= |data|
  {
    FromLe(data[i..i + 4])
  }

  lemma AtU16(data: Bytes, i: nat, n: nat)
    requires At(data, i, Le(n, 2)) && n <= U16_MAX
    ensures U16(data, i) == n
  {
    Pow256Values();
    LeRoundTrip(n, 2);
  }

  lemma AtU32(data: Bytes, i: nat, n: nat)
    requires At(data, i, Le(n, 4)) && n <= U32_MAX
    ensures ReadU32(data, i) == n
  {
    Pow256Values();
    LeRoundTrip(n, 4);
  }

  /** The fields of a central header that a reader needs. */
  datatype CentralFields = CentralFields(
    signature: nat, compression: nat, compressedSize: nat, uncompressedSize: nat,
    nameLen: nat, extraLen: nat, commentLen: nat, localOffset: nat)

  function ReadCentral(data: Bytes, pos: nat): CentralFields
    requires pos + 46 <= |data|
  {
    CentralFields(ReadU32(data, pos), U16(data, pos + 10), ReadU32(data, pos + 20), ReadU32(data, pos + 24),
                  U16(data, pos + 28), U16(data, pos + 30), U16(data, pos + 32), ReadU32(data, pos + 42))
  }

  datatype LocalFields = LocalFields(signature: nat, nameLen: nat, extraLen: nat)

  function ReadLocal(data: Bytes, pos: nat): LocalFields
    requires pos + 30 <= |data|
  {
    LocalFields(ReadU32(data, pos), U16(data, pos + 26), U16(data, pos + 28))
  }

  /** Every field of a local header, at its offset in section 4.3.7 of APPNOTE. */
  ghost predicate LocalFieldsAt(data: Bytes, pos: nat, crc: nat, size: nat, nameLen: nat) {
    && pos + 30 <= |data|
    && ReadU32(data, pos) == 0x04034b50
    && U16(data, pos + 4) == 20 && U16(data, pos + 6) == 0 && U16(data, pos + 8) == 0
    && U16(data, pos + 10) == 0 && U16(data, pos + 12) == 0
    && ReadU32(data, pos + 14) == crc && ReadU32(data, pos + 18) == size && ReadU32(data, pos + 22) == size
    && U16(data, pos + 26) == nameLen && U16(data, pos + 28) == 0
  }

  /** Every field of a central header, at its offset in section 4.3.12. */
  ghost predicate CentralFieldsAt(data: Bytes, pos: nat, crc: nat, size: nat, nameLen: nat, offset: nat) {
    && pos + 46 <= |data|
    && ReadU32(data, pos) == 0x02014b50
    && U16(data, pos + 4) == 20 && U16(data, pos + 6) == 20 && U16(data, pos + 8) == 0 && U16(data, pos + 10) == 0
    && U16(data, pos + 12) == 0 && U16(data, pos + 14) == 0
    && ReadU32(data, pos + 16) == crc && ReadU32(data, pos + 20) == size && ReadU32(data, pos + 24) == size
    && U16(data, pos + 28) == nameLen && U16(data, pos + 30) == 0 && U16(data, pos + 32) == 0
    && U16(data, pos + 34) == 0 && U16(data, pos + 36) == 0 && ReadU32(data, pos + 38) == 0
    && ReadU32(data, pos + 42) == offset
  }

  /** Every field of the end record, at its offset in section 4.3.16. */
  ghost predicate EndFieldsAt(data: Bytes, pos: nat, count: nat, size: nat, offset: nat) {
    && pos + 22 <= |data|
    && ReadU32(data, pos) == 0x06054b50 && U16(data, pos + 4) == 0 && U16(data, pos + 6) == 0
    && U16(data, pos + 8) == count && U16(data, pos + 10) == count
    && ReadU32(data, pos + 12) == size && ReadU32(data, pos + 16) == offset && U16(data, pos + 20) == 0
  }

  lemma CentralHeadReads(data: Bytes, pos: nat, f: File, crc: U32, offset: nat)
    requires At(data, pos, CentralHead(f, crc, offset)) && EntryFits(f) && offset <= U32_MAX
    ensures CentralFieldsAt(data, pos, crc, |f.contents|, |f.path|, offset)
    ensures ReadCentral(data, pos) ==
            CentralFields(CENTRAL_SIGNATURE, 0, |f.contents|, |f.contents|, |f.path|, 0, 0, offset)
  {
    hide Le, ReadU32, U16, At;
    var z, n, size := Le(0, 2), Le(|f.path|, 2), Le(|f.contents|, 4);
    var a := Le(CENTRAL_SIGNATURE, 4) + Le(20, 2) + Le(20, 2) + z + z + z + z;
    var b := Le(crc, 4) + size + size + n;
    var c := z + z + z + z + Le(0, 4) + Le(offset, 4);
    AtSplit(data, pos, a + b, c);
    AtSplit(data, pos, a, b);
    CentralHeadA(data, pos);
    SizesRead(data, pos + 16, crc, |f.contents|, |f.path|);
    CentralHeadC(data, pos + 30, offset);
  }

  lemma CentralHeadA(data: Bytes, pos: nat)
    requires var z := Le(0, 2); At(data, pos, Le(CENTRAL_SIGNATURE, 4) + Le(20, 2) + Le(20, 2) + z + z + z + z)
    ensures pos + 16 <= |data| && ReadU32(data, pos) == CENTRAL_SIGNATURE
    ensures U16(data, pos + 4) == 20 && U16(data, pos + 6) == 20 && U16(data, pos + 8) == 0 && U16(data, pos + 10) == 0
    ensures U16(data, pos + 12) == 0 && U16(data, pos + 14) == 0
  {
    hide Le, ReadU32, U16, At;
    var z := Le(0, 2);
    var a, b := Le(CENTRAL_SIGNATURE, 4), Le(20, 2);
    AtLength(data, pos, a + b + b + z + z + z + z);
    AtSplit(data, pos, a + b + b + z + z + z, z);
    AtSplit(data, pos, a + b + b + z + z, z);
    AtSplit(data, pos, a + b + b + z, z);
    AtSplit(data, pos, a + b + b, z);
    AtSplit(data, pos, a + b, b);
    AtSplit(data, pos, a, b);
    AtU32(data, pos, CENTRAL_SIGNATURE);
    AtU16(data, pos + 4, 20);
    AtU16(data, pos + 6, 20);
    AtU16(data, pos + 8, 0);
    AtU16(data, pos + 10, 0);
    AtU16(data, pos + 12, 0);
    AtU16(data, pos + 14, 0);
  }

  /** The CRC, both sizes and the length of the name, as both headers have them. */
  lemma SizesRead(data: Bytes, pos: nat, crc: U32, size: nat, n: nat)
    requires At(data, pos, Le(crc, 4) + Le(size, 4) + Le(size, 4) + Le(n, 2)) && size <= U32_MAX && n <= U16_MAX
    ensures pos + 14 <= |data| && ReadU32(data, pos) == crc
    ensures ReadU32(data, pos + 4) == size && ReadU32(data, pos + 8) == size && U16(data, pos + 12) == n
  {
    hide Le, ReadU32, U16, At;
    var a, b, c := Le(crc, 4), Le(size, 4), Le(n, 2);
    AtLength(data, pos, a + b + b + c);
    AtSplit(data, pos, a + b + b, c);
    AtSplit(data, pos, a + b, b);
    AtSplit(data, pos, a, b);
    AtU32(data, pos, crc);
    AtU32(data, pos + 4, size);
    AtU32(data, pos + 8, size);
    AtU16(data, pos + 12, n);
  }

  lemma CentralHeadC(data: Bytes, pos: nat, offset: nat)
    requires var z := Le(0, 2); At(data, pos, z + z + z + z + Le(0, 4) + Le(offset, 4)) && offset <= U32_MAX
    ensures pos + 16 <= |data| && U16(data, pos) == 0 && U16(data, pos + 2) == 0
    ensures U16(data, pos + 4) == 0 && U16(data, pos + 6) == 0
    ensures ReadU32(data, pos + 8) == 0 && ReadU32(data, pos + 12) == offset
  {
    hide Le, ReadU32, U16, At;
    var z, y, x := Le(0, 2), Le(0, 4), Le(offset, 4);
    AtLength(data, pos, z + z + z + z + y + x);
    AtSplit(data, pos, z + z + z + z + y, x);
    AtSplit(data, pos, z + z + z + z, y);
    AtSplit(data, pos, z + z + z, z);
    AtSplit(data, pos, z + z, z);
    AtSplit(data, pos, z, z);
    AtU16(data, pos, 0);
    AtU16(data, pos + 2, 0);
    AtU16(data, pos + 4, 0);
    AtU16(data, pos + 6, 0);
    AtU32(data, pos + 8, 0);
    AtU32(data, pos + 12, offset);
  }

  lemma LocalHeadReads(data: Bytes, pos: nat, f: File, crc: U32)
    requires At(data, pos, LocalHead(f, crc)) && EntryFits(f)
    ensures LocalFieldsAt(data, pos, crc, |f.contents|, |f.path|)
    ensures ReadLocal(data, pos) == LocalFields(LOCAL_SIGNATURE, |f.path|, 0)
  {
    hide Le, ReadU32, U16, At;
    var z, s := Le(0, 2), Le(LOCAL_SIGNATURE, 4);
    var c, size, n := Le(crc, 4), Le(|f.contents|, 4), Le(|f.path|, 2);
    var a, b := s + Le(20, 2) + z + z + z + z, c + size + size + n + z;
    AtLength(data, pos, a + b);
    AtSplit(data, pos, a, b);
    LocalHeadA(data, pos);
    AtSplit(data, pos + 14, c + size + size + n, z);
    SizesRead(data, pos + 14, crc, |f.contents|, |f.path|);
    AtU16(data, pos + 28, 0);
  }

  lemma LocalHeadA(data: Bytes, pos: nat)
    requires var z := Le(0, 2); At(data, pos, Le(LOCAL_SIGNATURE, 4) + Le(20, 2) + z + z + z + z)
    ensures pos + 14 <= |data| && ReadU32(data, pos) == LOCAL_SIGNATURE
    ensures U16(data, pos + 4) == 20 && U16(data, pos + 6) == 0 && U16(data, pos + 8) == 0
    ensures U16(data, pos + 10) == 0 && U16(data, pos + 12) == 0
  {
    hide Le, ReadU32, U16, At;
    var z, s, t := Le(0, 2), Le(LOCAL_SIGNATURE, 4), Le(20, 2);
    AtLength(data, pos, s + t + z + z + z + z);
    AtSplit(data, pos, s + t + z + z + z, z);
    AtSplit(data, pos, s + t + z + z, z);
    AtSplit(data, pos, s + t + z, z);
    AtSplit(data, pos, s + t, z);
    AtSplit(data, pos, s, t);
    AtU32(data, pos, LOCAL_SIGNATURE);
    AtU16(data, pos + 4, 20);
    AtU16(data, pos + 6, 0);
    AtU16(data, pos + 8, 0);
    AtU16(data, pos + 10, 0);
    AtU16(data, pos + 12, 0);
  }

  lemma EndRecordReads(data: Bytes, pos: nat, count: nat, size: nat, offset: nat)
    requires At(data, pos, EndRecord(count, size, offset)) && count <= U16_MAX && size <= U32_MAX && offset <= U32_MAX
    ensures EndFieldsAt(data, pos, count, size, offset)
  {
    hide Le, ReadU32, U16, At;
    var z, s, n := Le(0, 2), Le(END_SIGNATURE, 4), Le(count, 2);
    var x, y := Le(size, 4), Le(offset, 4);
    var a, b := s + z + z + n + n, x + y + z;
    AtLength(data, pos, a + b);
    AtSplit(data, pos, a, b);
    AtSplit(data, pos + 12, x + y, z);
    AtSplit(data, pos + 12, x, y);
    AtSplit(data, pos, s + z + z + n, n);
    AtSplit(data, pos, s + z + z, n);
    AtSplit(data, pos, s + z, z);
    AtSplit(data, pos, s, z);
    AtU32(data, pos, END_SIGNATURE);
    AtU16(data, pos + 4, 0);
    AtU16(data, pos + 6, 0);
    AtU16(data, pos + 8, count);
    AtU16(data, pos + 10, count);
    AtU32(data, pos + 12, size);
    AtU32(data, pos + 16, offset);
    AtU16(data, pos + 20, 0);
  }
}
