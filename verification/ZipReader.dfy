/** Reading a ZIP archive the way APPNOTE describes it - end record by a backward scan, then the
    central directory, then each local header - and the proof that it inverts the writer. */
module ZipReader {
  import opened Bytes
  import opened Zip

  // Where everything stands in an archive.

  lemma {:induction false} LocalsAt(fs: seq<File>, crc: Crc, i: nat)
    requires i < |fs|
    ensures At(Locals(fs, crc), LocalsSize(fs[..i]), Local(fs[i], crc(fs[i].contents)))
    decreases |fs|
  {
    hide Local;
    var init, last := fs[..|fs| - 1], fs[|fs| - 1];
    assert Locals(fs, crc) == Locals(init, crc) + Local(last, crc(last.contents));
    if i < |fs| - 1 {
      LocalsAt(init, crc, i);
      assert init[..i] == fs[..i];
      AtInPrefix(Locals(init, crc), Local(last, crc(last.contents)),
                 LocalsSize(fs[..i]), Local(fs[i], crc(fs[i].contents)));
    } else {
      assert fs[..i] == init;
      AtTail(Locals(init, crc), Local(last, crc(last.contents)));
    }
  }

  lemma {:induction false} CentralsAt(fs: seq<File>, crc: Crc, i: nat)
    requires i < |fs|
    ensures At(Centrals(fs, crc), CentralsSize(fs[..i]), Central(fs[i], crc(fs[i].contents), LocalsSize(fs[..i])))
    decreases |fs|
  {
    hide Central, LocalsSize;
    var init, last := fs[..|fs| - 1], fs[|fs| - 1];
    var part := Central(last, crc(last.contents), LocalsSize(init));
    assert Centrals(fs, crc) == Centrals(init, crc) + part;
    if i < |fs| - 1 {
      CentralsAt(init, crc, i);
      assert init[..i] == fs[..i];
      AtInPrefix(Centrals(init, crc), part, CentralsSize(fs[..i]),
                 Central(fs[i], crc(fs[i].contents), LocalsSize(fs[..i])));
    } else {
      assert fs[..i] == init;
      AtTail(Centrals(init, crc), part);
    }
  }

  /** The three regions tile the archive: entry i's local part starts at the sum of the sizes of the
      local parts before it, which is also the offset its central header records; the central
      headers follow one another right after the local region; the end record closes the archive. */
  lemma Tiles(fs: seq<File>, crc: Crc, i: nat)
    requires i < |fs|
    ensures At(Archive(fs, crc), LocalsSize(fs[..i]), Local(fs[i], crc(fs[i].contents)))
    ensures At(Archive(fs, crc), LocalsSize(fs) + CentralsSize(fs[..i]),
               Central(fs[i], crc(fs[i].contents), LocalsSize(fs[..i])))
    ensures At(Archive(fs, crc), LocalsSize(fs) + CentralsSize(fs), EndRecord(|fs|, CentralsSize(fs), LocalsSize(fs)))
    ensures LocalsSize(fs) + CentralsSize(fs) + 22 == |Archive(fs, crc)|
  {
    hide Local, Central, Locals, Centrals, LocalsSize, CentralsSize, EndRecord, At;
    var e := EndRecord(|fs|, CentralsSize(fs), LocalsSize(fs));
    LocalsAt(fs, crc, i);
    InFirst(Locals(fs, crc), Centrals(fs, crc), e, LocalsSize(fs[..i]), Local(fs[i], crc(fs[i].contents)));
    CentralsAt(fs, crc, i);
    InSecond(Locals(fs, crc), Centrals(fs, crc), e, CentralsSize(fs[..i]),
             Central(fs[i], crc(fs[i].contents), LocalsSize(fs[..i])));
    AtTail(Locals(fs, crc) + Centrals(fs, crc), e);
  }

  lemma InFirst(a: Bytes, b: Bytes, c: Bytes, pos: nat, part: Bytes)
    requires At(a, pos, part)
    ensures At(a + b + c, pos, part)
  {
    hide At;
    AtInPrefix(a, b, pos, part);
    AtInPrefix(a + b, c, pos, part);
  }

  lemma InSecond(a: Bytes, b: Bytes, c: Bytes, pos: nat, part: Bytes)
    requires At(b, pos, part)
    ensures At(a + b + c, |a| + pos, part)
  {
    hide At;
    AtInSuffix(a, b, pos, part);
    AtInPrefix(a + b, c, |a| + pos, part);
  }

  // The backward scan.

  /** The last place at or before `i` where the end signature stands. */
  function LastSignature(data: Bytes, i: nat): (r: Option<nat>)
    requires i + 4 <= |data|
    ensures r.Some? ==> r.value <= i && ReadU32(data, r.value) == END_SIGNATURE
    ensures forall j :: (if r.Some? then r.value < j <= i else 0 <= j <= i) ==> ReadU32(data, j) != END_SIGNATURE
  {
    if ReadU32(data, i) == END_SIGNATURE then Some(i)
    else if i == 0 then None
    else LastSignature(data, i - 1)
  }

  /** Where the end record starts. */
  function FindEnd(data: Bytes): (r: Option<nat>)
    ensures r.Some? ==> r.value + 22 <= |data|
  {
    if |data| < 22 then None else LastSignature(data, |data| - 22)
  }

  method FindEndRecord(data: Bytes) returns (r: Option<nat>)
    ensures r == FindEnd(data)
  {
    if |data| < 22 { return None; }
    var i := |data| - 22;
    while true
      invariant 0 <= i <= |data| - 22
      invariant LastSignature(data, |data| - 22) == LastSignature(data, i)
      decreases i
    {
      if ReadU32(data, i) == END_SIGNATURE { return Some(i); }
      if i == 0 { return None; }
      i := i - 1;
    }
  }

  /** The end record found in `data` has these fields. */
  ghost predicate Ends(data: Bytes, count: nat, size: nat, offset: nat) {
    var end := FindEnd(data);
    && end.Some?
    && U16(data, end.value + 10) == count
    && ReadU32(data, end.value + 12) == size && ReadU32(data, end.value + 16) == offset
  }

  /** The scan finds the writer's end record, whatever the files hold. */
  lemma EndFound(fs: seq<File>, crc: Crc)
    requires Writable(fs)
    ensures Ends(Archive(fs, crc), |fs|, CentralsSize(fs), LocalsSize(fs))
  {
    hide Locals, Centrals, LocalsSize, CentralsSize, EndRecord, Ends;
    EndAfter(Locals(fs, crc) + Centrals(fs, crc), |fs|, CentralsSize(fs), LocalsSize(fs));
  }

  lemma EndAfter(before: Bytes, count: nat, size: nat, offset: nat)
    requires count <= U16_MAX && size <= U32_MAX && offset <= U32_MAX
    ensures Ends(before + EndRecord(count, size, offset), count, size, offset)
  {
    hide EndRecord, ReadU32, U16, FindEnd, At;
    var data := before + EndRecord(count, size, offset);
    AtTail(before, EndRecord(count, size, offset));
    EndRecordReads(data, |before|, count, size, offset);
    FoundAtOnce(data, |before|);
  }

  lemma FoundAtOnce(data: Bytes, pos: nat)
    requires pos + 22 == |data| && ReadU32(data, pos) == END_SIGNATURE
    ensures FindEnd(data) == Some(pos)
  {
  }

  // A reader of whole archives.

  datatype Entry = Entry(file: File, next: nat)

  /** The central header at `pos` and the contents its local header leads to. */
  function ReadEntry(data: Bytes, pos: nat): Option<Entry> {
    if pos + 46 > |data| then None
    else
      var c := ReadCentral(data, pos);
      if c.signature != CENTRAL_SIGNATURE || pos + 46 + c.nameLen > |data| || c.localOffset + 30 > |data| then None
      else
        var l := ReadLocal(data, c.localOffset);
        var start := c.localOffset + 30 + l.nameLen + l.extraLen;
        if l.signature != LOCAL_SIGNATURE || start + c.compressedSize > |data| then None
        else Some(Entry(File(data[pos + 46..pos + 46 + c.nameLen], data[start..start + c.compressedSize]),
                        pos + 46 + c.nameLen + c.extraLen + c.commentLen))
  }

  function ReadEntries(data: Bytes, pos: nat, count: nat): Option<seq<File>>
    decreases count
  {
    if count == 0 then Some([])
    else
      var e := ReadEntry(data, pos);
      if e.None? then None
      else
        var rest := ReadEntries(data, e.value.next, count - 1);
        if rest.None? then None else Some([e.value.file] + rest.value)
  }

  function ReadArchive(data: Bytes): Option<seq<File>> {
    var end := FindEnd(data);
    if end.None? then None
    else ReadEntries(data, ReadU32(data, end.value + 16), U16(data, end.value + 10))
  }

  /** The central header of `f` stands at `pos`, its local part at `off`, and both read as written. */
  ghost predicate EntryAt(data: Bytes, pos: nat, off: nat, f: File) {
    && pos + 46 + |f.path| <= |data| && off + 30 + |f.path| + |f.contents| <= |data|
    && ReadCentral(data, pos) == CentralFields(CENTRAL_SIGNATURE, 0, |f.contents|, |f.contents|, |f.path|, 0, 0, off)
    && data[pos + 46..pos + 46 + |f.path|] == f.path
    && ReadLocal(data, off) == LocalFields(LOCAL_SIGNATURE, |f.path|, 0)
    && data[off + 30 + |f.path|..off + 30 + |f.path| + |f.contents|] == f.contents
  }

  /** The headers and data of one entry, as any reader finds them in the writer's archive. */
  lemma EntryReads(fs: seq<File>, crc: Crc, i: nat)
    requires Writable(fs) && i < |fs|
    ensures EntryAt(Archive(fs, crc), LocalsSize(fs) + CentralsSize(fs[..i]), LocalsSize(fs[..i]), fs[i])
  {
    hide Writable, EntryFits, Archive, Local, Central, LocalsSize, CentralsSize, EntryAt, At, EndRecord;
    WritableAt(fs, i);
    Tiles(fs, crc, i);
    var data, pos, off := Archive(fs, crc), LocalsSize(fs) + CentralsSize(fs[..i]), LocalsSize(fs[..i]);
    PartsRead(data, pos, off, fs[i], crc(fs[i].contents));
  }

  /** Every field of both headers of every entry stands where APPNOTE has it, the CRC included. */
  lemma HeadersStand(fs: seq<File>, crc: Crc, i: nat)
    requires Writable(fs) && i < |fs|
    ensures var data, f, off := Archive(fs, crc), fs[i], LocalsSize(fs[..i]);
            && LocalFieldsAt(data, off, crc(f.contents), |f.contents|, |f.path|)
            && CentralFieldsAt(data, LocalsSize(fs) + CentralsSize(fs[..i]), crc(f.contents), |f.contents|,
                               |f.path|, off)
  {
    hide Writable, EntryFits, Archive, LocalHead, CentralHead, LocalsSize, CentralsSize, At, LocalFieldsAt,
         CentralFieldsAt;
    var data, f := Archive(fs, crc), fs[i];
    var off, pos := LocalsSize(fs[..i]), LocalsSize(fs) + CentralsSize(fs[..i]);
    WritableAt(fs, i);
    Tiles(fs, crc, i);
    AtSplit(data, pos, CentralHead(f, crc(f.contents), off), f.path);
    CentralHeadReads(data, pos, f, crc(f.contents), off);
    AtSplit(data, off, LocalHead(f, crc(f.contents)) + f.path, f.contents);
    AtSplit(data, off, LocalHead(f, crc(f.contents)), f.path);
    LocalHeadReads(data, off, f, crc(f.contents));
  }

  lemma WritableAt(fs: seq<File>, i: nat)
    requires Writable(fs) && i < |fs|
    ensures EntryFits(fs[i]) && LocalsSize(fs[..i]) <= U32_MAX
  {
    SizesGrow(fs, i);
  }

  lemma PartsRead(data: Bytes, pos: nat, off: nat, f: File, c: U32)
    requires EntryFits(f) && off <= U32_MAX
    requires At(data, pos, Central(f, c, off)) && At(data, off, Local(f, c))
    ensures EntryAt(data, pos, off, f)
  {
    hide CentralHead, LocalHead, ReadCentral, ReadLocal, At;
    AtSplit(data, pos, CentralHead(f, c, off), f.path);
    CentralHeadReads(data, pos, f, c, off);
    AtSlice(data, pos + 46, f.path);
    AtSplit(data, off, LocalHead(f, c) + f.path, f.contents);
    AtSplit(data, off, LocalHead(f, c), f.path);
    LocalHeadReads(data, off, f, c);
    AtSlice(data, off + 30 + |f.path|, f.contents);
  }

  lemma CentralSizeStep(fs: seq<File>, i: nat)
    requires i < |fs|
    ensures CentralsSize(fs[..i + 1]) == CentralsSize(fs[..i]) + CentralSize(fs[i])
    ensures CentralsSize(fs[..i]) + CentralSize(fs[i]) <= CentralsSize(fs)
  {
    assert fs[..i + 1][..i] == fs[..i];
    SizesGrow(fs, i + 1);
  }

  lemma {:induction false} EntriesRead(fs: seq<File>, crc: Crc, i: nat)
    requires Writable(fs) && i <= |fs|
    ensures ReadEntries(Archive(fs, crc), LocalsSize(fs) + CentralsSize(fs[..i]), |fs| - i) == Some(fs[i..])
    decreases |fs| - i
  {
    hide Archive, LocalsSize, CentralsSize, ReadEntry, Writable;
    if i < |fs| {
      OneEntryReads(fs, crc, i);
      CentralSizeStep(fs, i);
      EntriesRead(fs, crc, i + 1);
      assert fs[i..] == [fs[i]] + fs[i + 1..];
    } else {
      assert fs[i..] == [];
    }
  }

  lemma OneEntryReads(fs: seq<File>, crc: Crc, i: nat)
    requires Writable(fs) && i < |fs|
    ensures var pos := LocalsSize(fs) + CentralsSize(fs[..i]);
            ReadEntry(Archive(fs, crc), pos) == Some(Entry(fs[i], pos + CentralSize(fs[i])))
  {
    hide Archive, LocalsSize, CentralsSize, ReadEntry, EntryAt, Writable;
    EntryReads(fs, crc, i);
    EntryIs(Archive(fs, crc), LocalsSize(fs) + CentralsSize(fs[..i]), LocalsSize(fs[..i]), fs[i]);
  }

  lemma EntryIs(data: Bytes, pos: nat, off: nat, f: File)
    requires EntryAt(data, pos, off, f)
    ensures ReadEntry(data, pos) == Some(Entry(f, pos + CentralSize(f)))
  {
    hide ReadCentral, ReadLocal;
  }

  /** Reading what the writer wrote returns exactly the files, in order. */
  lemma ReadInvertsWrite(fs: seq<File>, crc: Crc)
    requires Writable(fs)
    ensures ReadArchive(Archive(fs, crc)) == Some(fs)
  {
    hide Archive, FindEnd, ReadEntries, LocalsSize, CentralsSize, Writable;
    EndFound(fs, crc);
    EntriesRead(fs, crc, 0);
    NoCentralsBefore(fs);
    assert fs[0..] == fs;
  }

  lemma NoCentralsBefore(fs: seq<File>)
    ensures CentralsSize(fs[..0]) == 0
  {
  }
}
