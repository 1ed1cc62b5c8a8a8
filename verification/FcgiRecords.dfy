/** FastCGI record framing (section 3.3 of the FastCGI Specification 1.0) as both ends of the
    example implement it: the gateway's `record`, the responder's `write_record` and the
    responder's record reader. */
module FcgiRecords {
  import opened Bytes

  const VERSION_1: Byte := 1
  const BEGIN_REQUEST: Byte := 1
  const END_REQUEST: Byte := 3
  const PARAMS: Byte := 4
  const STDIN: Byte := 5
  const STDOUT: Byte := 6
  const STDERR: Byte := 7
  const RESPONDER := 1
  const MAX_CONTENT := 65535

  type Id = n: int | 0 <= n < 65536

  /** A record as the protocol machine sees it: the padding is gone. */
  datatype Record = Record(kind: Byte, id: Id, content: Bytes)

  type WireRecord = r: Record | |r.content| <= MAX_CONTENT witness Record(0, 0, [])

  function Padding(len: nat): (r: Byte)
    ensures r < 8 && (len + r) % 8 == 0
  {
    (8 - len % 8) % 8
  }

  function Header(kind: Byte, id: Id, len: nat, padding: Byte): (r: Bytes)
    requires len <= MAX_CONTENT
    ensures |r| == 8
  {
    [VERSION_1, kind, id / 256, id % 256, len / 256, len % 256, padding, 0]
  }

  /** One record on the wire, padded to a multiple of eight bytes. */
  function Frame(r: WireRecord): (s: Bytes)
    ensures |s| % 8 == 0 && |s| >= 8
  {
    var pad := Padding(|r.content|);
    Header(r.kind, r.id, |r.content|, pad) + r.content + Zeros(pad)
  }

  function FrameAll(rs: seq<WireRecord>): Bytes {
    if rs == [] then [] else Frame(rs[0]) + FrameAll(rs[1..])
  }

  lemma {:induction false} FrameAllAppend(a: seq<WireRecord>, b: seq<WireRecord>)
    ensures FrameAll(a + b) == FrameAll(a) + FrameAll(b)
  {
    if a == [] {
      assert a + b == b;
    } else {
      assert (a + b)[1..] == a[1..] + b;
      FrameAllAppend(a[1..], b);
    }
  }

  // Reading.

  datatype Parsed =
    | AtEnd                                  // the stream ended at a record boundary
    | Malformed                              // bad version, bad reserved byte or truncated record
    | Parsed(record: WireRecord, rest: Bytes)

  function Be16(hi: Byte, lo: Byte): (r: Id) {
    hi * 256 + lo
  }

  /** Read one record of any padding from the front of a stream. */
  function ParseRecord(s: Bytes): (p: Parsed)
    ensures p.Parsed? ==> |p.rest| + 8 <= |s|
  {
    if s == [] then AtEnd
    else if |s| < 8 || s[0] != VERSION_1 || s[7] != 0 then Malformed
    else
      var len := Be16(s[4], s[5]);
      var pad := s[6];
      if |s| < 8 + len + pad then Malformed
      else Parsed(Record(s[1], Be16(s[2], s[3]), s[8..8 + len]), s[8 + len + pad..])
  }

  datatype Decoded = Decoded(records: seq<WireRecord>, clean: bool)

  /** Every record up to the end of the stream or the first malformed one. */
  function DecodeAll(s: Bytes): Decoded
    decreases |s|
  {
    match ParseRecord(s)
    case AtEnd => Decoded([], true)
    case Malformed => Decoded([], false)
    case Parsed(r, rest) =>
      var d := DecodeAll(rest);
      Decoded([r] + d.records, d.clean)
  }

  /** A framed record is read back exactly and leaves the rest of the stream untouched. */
  lemma ParseFrame(r: WireRecord, rest: Bytes)
    ensures ParseRecord(Frame(r) + rest) == Parsed(r, rest)
  {
    ParsePadded(r, Zeros(Padding(|r.content|)), rest);
  }

  /** The eight bytes of a header, then content, padding and rest. */
  ghost predicate Spells(s: Bytes, r: WireRecord, padding: Bytes, rest: Bytes) {
    && |padding| < 256
    && s == [1, r.kind, r.id / 256, r.id % 256, |r.content| / 256, |r.content| % 256, |padding|, 0]
            + r.content + padding + rest
  }

  /** A record is read exactly from its header, its content, any padding of up to 255 bytes and the rest:
      nothing else parses, and nothing parses otherwise. */
  lemma ParsesIff(s: Bytes, r: WireRecord, rest: Bytes)
    ensures ParseRecord(s) == Parsed(r, rest) <==> exists padding: Bytes :: Spells(s, r, padding, rest)
  {
    assert forall padding: Bytes :: |padding| < 256 ==>
        (Spells(s, r, padding, rest) <==>
         s == Header(r.kind, r.id, |r.content|, |padding|) + r.content + padding + rest);
    hide ParseRecord, Header, Spells;
    var len := |r.content|;
    if ParseRecord(s) == Parsed(r, rest) {
      var padding := PaddingOf(s, r, rest);
      assert Spells(s, r, padding, rest);
    }
    forall padding: Bytes | Spells(s, r, padding, rest) ensures ParseRecord(s) == Parsed(r, rest) {
      SpellsShort(s, r, padding, rest);
      ParsePadded(r, padding, rest);
    }
  }

  lemma SpellsShort(s: Bytes, r: WireRecord, padding: Bytes, rest: Bytes)
    requires Spells(s, r, padding, rest)
    ensures |padding| < 256
  {
  }

  /** On the wire a record is padded with fewer than eight zeros, to a multiple of eight bytes. */
  lemma FrameSpells(r: WireRecord)
    ensures exists padding: Bytes :: && Spells(Frame(r), r, padding, []) && |padding| < 8
                                     && forall i :: 0 <= i < |padding| ==> padding[i] == 0
  {
    var padding := Zeros(Padding(|r.content|));
    assert Frame(r) + [] == Frame(r);
    assert Spells(Frame(r), r, padding, []);
  }

  lemma PaddingOf(s: Bytes, r: WireRecord, rest: Bytes) returns (padding: Bytes)
    requires ParseRecord(s) == Parsed(r, rest)
    ensures |padding| < 256 && s == Header(r.kind, r.id, |r.content|, |padding|) + r.content + padding + rest
  {
    var len, end := |r.content|, 8 + |r.content| + s[6];
    padding := s[8 + len..end];
    HeaderOf(s, r, rest);
    hide Header;
    InFour(s, 8, 8 + len, end);
  }

  lemma HeaderOf(s: Bytes, r: WireRecord, rest: Bytes)
    requires ParseRecord(s) == Parsed(r, rest)
    ensures s[..8] == Header(r.kind, r.id, |r.content|, s[6])
  {
  }

  lemma InFour(s: Bytes, i: nat, j: nat, k: nat)
    requires i <= j <= k <= |s|
    ensures s == s[..i] + s[i..j] + s[j..k] + s[k..]
  {
  }

  lemma ParsePadded(r: WireRecord, padding: Bytes, rest: Bytes)
    requires |padding| < 256
    ensures ParseRecord(Header(r.kind, r.id, |r.content|, |padding|) + r.content + padding + rest) == Parsed(r, rest)
  {
    var len, pad := |r.content|, |padding|;
    var s := Header(r.kind, r.id, len, pad) + r.content + padding + rest;
    assert s[..8] == Header(r.kind, r.id, len, pad);
    assert s[4] == len / 256 && s[5] == len % 256 && s[6] == pad;
    assert Be16(s[4], s[5]) == len;
    assert s[2] == r.id / 256 && s[3] == r.id % 256;
    assert s[8..8 + len] == r.content;
    assert s[8 + len + pad..] == rest;
  }

  lemma DecodeOne(s: Bytes)
    requires ParseRecord(s).Parsed?
    ensures DecodeAll(s).records == [ParseRecord(s).record] + DecodeAll(ParseRecord(s).rest).records
    ensures DecodeAll(s).clean == DecodeAll(ParseRecord(s).rest).clean
  {
  }

  /** Decoding inverts framing: any list of records followed by anything decodes to that list
      followed by whatever the rest decodes to. */
  lemma {:induction false} DecodeFrames(rs: seq<WireRecord>, rest: Bytes)
    ensures DecodeAll(FrameAll(rs) + rest).records == rs + DecodeAll(rest).records
    ensures DecodeAll(FrameAll(rs) + rest).clean == DecodeAll(rest).clean
  {
    hide Frame, ParseRecord;
    if rs == [] {
      assert FrameAll(rs) + rest == rest;
    } else {
      var tail := FrameAll(rs[1..]) + rest;
      assert FrameAll(rs) + rest == Frame(rs[0]) + tail;
      ParseFrame(rs[0], tail);
      DecodeOne(Frame(rs[0]) + tail);
      DecodeFrames(rs[1..], rest);
      assert rs == [rs[0]] + rs[1..];
    }
  }

  lemma DecodeFramesOnly(rs: seq<WireRecord>)
    ensures DecodeAll(FrameAll(rs)) == Decoded(rs, true)
  {
    DecodeFrames(rs, []);
    assert FrameAll(rs) + [] == FrameAll(rs);
  }

  // Writing a long block as several records.

  /** The records `write_record` emits for a non-null block: none when it is empty. */
  function Chunks(kind: Byte, id: Id, data: Bytes): (rs: seq<WireRecord>)
    decreases |data|
  {
    if data == [] then []
    else
      var n := Min(|data|, MAX_CONTENT);
      [Record(kind, id, data[..n])] + Chunks(kind, id, data[n..])
  }

  lemma FrameSingle(r: WireRecord)
    ensures FrameAll([r]) == Frame(r)
  {
    hide Frame;
    assert [r][1..] == [];
  }

  lemma NothingLeft(kind: Byte, id: Id)
    ensures FrameAll(Chunks(kind, id, [])) == []
  {
  }

  lemma FrameChunk(kind: Byte, id: Id, data: Bytes)
    requires data != []
    ensures var n := Min(|data|, MAX_CONTENT);
            FrameAll(Chunks(kind, id, data)) ==
            Frame(Record(kind, id, data[..n])) + FrameAll(Chunks(kind, id, data[n..]))
  {
    hide Frame;
    var n := Min(|data|, MAX_CONTENT);
    assert Chunks(kind, id, data)[1..] == Chunks(kind, id, data[n..]);
  }

  lemma {:induction false} GatherNone(kind: Byte, id: Id, rs: seq<Record>)
    requires forall r :: r in rs ==> r.kind != kind
    ensures Gather(kind, id, rs) == []
  {
    if rs != [] {
      assert rs[0] in rs;
      GatherNone(kind, id, rs[1..]);
    }
  }

  /** The content of the records of one kind and id, concatenated. */
  function Gather(kind: Byte, id: Id, rs: seq<Record>): Bytes {
    if rs == [] then []
    else (if rs[0].kind == kind && rs[0].id == id then rs[0].content else []) + Gather(kind, id, rs[1..])
  }

  lemma {:induction false} GatherAppend(kind: Byte, id: Id, a: seq<Record>, b: seq<Record>)
    ensures Gather(kind, id, a + b) == Gather(kind, id, a) + Gather(kind, id, b)
  {
    if a == [] {
      assert a + b == b;
    } else {
      assert (a + b)[1..] == a[1..] + b;
      GatherAppend(kind, id, a[1..], b);
    }
  }

  /** Chunking loses nothing: the chunks are all of the one kind and id, none is empty, and their
      contents concatenate to the block. */
  lemma {:induction false} ChunksContent(kind: Byte, id: Id, data: Bytes)
    ensures Gather(kind, id, Chunks(kind, id, data)) == data
    ensures forall r :: r in Chunks(kind, id, data) ==> r.kind == kind && r.id == id && r.content != []
    decreases |data|
  {
    if data != [] {
      var n := Min(|data|, MAX_CONTENT);
      var first, rest := Record(kind, id, data[..n]), Chunks(kind, id, data[n..]);
      ChunksContent(kind, id, data[n..]);
      assert Chunks(kind, id, data) == [first] + rest;
      hide Chunks;
      assert ([first] + rest)[1..] == rest && data[..n] + data[n..] == data;
    }
  }
}
