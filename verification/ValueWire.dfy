/** ValueWire: the encoder that lays values out in flat memory with back-patched pointers, the
    matching decoder, and exactly when the one inverts the other. */
module ValueWire {
  import opened Bytes

  const WIRE_SIZE := 24
  const TAG_NULL: Byte := 0
  const TAG_BOOL: Byte := 1
  const TAG_NUM: Byte := 2
  const TAG_STR: Byte := 3
  const TAG_ARR: Byte := 4
  const TAG_MAP: Byte := 5
  const TAG_ERR: Byte := 6
  const TWO_63 := 0x8000_0000_0000_0000
  const TWO_64 := 0x1_0000_0000_0000_0000

  type U64 = n: int | 0 <= n < TWO_64

  /** A JavaScript number: an integral one by its value, any other by its IEEE 754 bits. */
  datatype Number = Integer(i: int) | Fraction(bits: U64)

  /** A value; strings are their UTF-8 bytes. */
  datatype GVal =
    | Null
    | Bool(b: bool)
    | Num(n: Number)
    | Str(s: Bytes)
    | Arr(items: seq<GVal>)
    | Map(entries: seq<Entry>)
    | Err(s: Bytes)

  datatype Entry = Entry(key: GVal, value: GVal)

  // Layout.

  function Header(tag: Byte, flags: Byte, payload: nat, len: nat): (r: Bytes)
    ensures |r| == WIRE_SIZE
  {
    [tag, flags, 0, 0, 0, 0, 0, 0] + Le(payload, 8) + Le(len, 4) + Le(0, 4)
  }

  /** `BigInt.asUintN(64, ...)`. */
  function AsUnsigned(i: int): U64 {
    i % TWO_64
  }

  /** `BigInt.asIntN(64, ...)`. */
  function AsSigned(n: U64): int {
    if n < TWO_63 then n else n - TWO_64
  }

  function Size(v: GVal): (n: nat)
    ensures n >= WIRE_SIZE
    decreases v
  {
    match v
    case Str(s) => |s| + WIRE_SIZE
    case Err(s) => |s| + WIRE_SIZE
    case Arr(items) => SizeAll(items) + WIRE_SIZE
    case Map(entries) => SizePairs(entries) + WIRE_SIZE
    case _ => WIRE_SIZE
  }

  function SizeAll(items: seq<GVal>): nat
    decreases items
  {
    if items == [] then 0 else SizeAll(items[..|items| - 1]) + Size(items[|items| - 1])
  }

  function SizePairs(entries: seq<Entry>): nat
    decreases entries
  {
    if entries == [] then 0
    else SizePairs(entries[..|entries| - 1]) + EntrySize(entries[|entries| - 1])
  }

  function EntrySize(e: Entry): nat
    decreases e
  {
    Size(e.key) + Size(e.value)
  }

  /** A value's own record. */
  function Record(v: GVal, base: nat): (r: Bytes)
    ensures |r| == WIRE_SIZE
  {
    match v
    case Null => Header(TAG_NULL, 0, 0, 0)
    case Bool(b) => Header(TAG_BOOL, 0, if b then 1 else 0, 0)
    case Num(Integer(i)) => Header(TAG_NUM, 1, AsUnsigned(i), 0)
    case Num(Fraction(bits)) => Header(TAG_NUM, 0, bits, 0)
    case Str(s) => Header(TAG_STR, 0, base, |s|)
    case Arr(items) => Header(TAG_ARR, 0, base, |items|)
    case Map(entries) => Header(TAG_MAP, 0, base, |entries|)
    case Err(s) => Header(TAG_ERR, 0, base, |s|)
  }

  /** The first two bytes of a record: its tag, and the flag of an integer. */
  lemma TagsAre(v: GVal, base: nat)
    ensures var r := Record(v, base);
            && r[1] == (if v.Num? && v.n.Integer? then 1 else 0)
            && r[0] == match v
                       case Null => 0
                       case Bool(_) => 1
                       case Num(_) => 2
                       case Str(_) => 3
                       case Arr(_) => 4
                       case Map(_) => 5
                       case Err(_) => 6
  {
    hide Le;
  }

  /** What comes before the record: string bytes, or the encodings of the children. */
  function Body(v: GVal, base: nat): (r: Bytes)
    ensures |r| + WIRE_SIZE == Size(v)
    decreases v, 0
  {
    match v
    case Str(s) => s
    case Err(s) => s
    case Arr(items) => EncodeAll(items, base)
    case Map(entries) => EncodePairs(entries, base)
    case _ => []
  }

  /** All bytes of a value encoded at `base`: its body, then its record. */
  function Encoding(v: GVal, base: nat): (r: Bytes)
    ensures |r| == Size(v)
    decreases v, 1
  {
    Body(v, base) + Record(v, base)
  }

  function EncodeAll(items: seq<GVal>, base: nat): (r: Bytes)
    ensures |r| == SizeAll(items)
    decreases items
  {
    if items == [] then []
    else
      var init, last := items[..|items| - 1], items[|items| - 1];
      EncodeAll(init, base) + Encoding(last, base + SizeAll(init))
  }

  function EncodePairs(entries: seq<Entry>, base: nat): (r: Bytes)
    ensures |r| == SizePairs(entries)
    decreases entries
  {
    if entries == [] then []
    else
      var init, last := entries[..|entries| - 1], entries[|entries| - 1];
      EncodePairs(init, base) + EncodeEntry(last, base + SizePairs(init))
  }

  function EncodeEntry(e: Entry, base: nat): (r: Bytes)
    ensures |r| == EntrySize(e)
    decreases e
  {
    Encoding(e.key, base) + Encoding(e.value, base + Size(e.key))
  }

  // Decoding.

  function Pairs(vs: seq<GVal>): seq<Entry> {
    if |vs| < 2 then [] else [Entry(vs[0], vs[1])] + Pairs(vs[2..])
  }

  /** The decoder reads the first 20 bytes of a record. */
  predicate Readable(mem: Bytes, off: nat) {
    off + 20 <= |mem|
  }

  function PayloadAt(mem: Bytes, off: nat): nat
    requires Readable(mem, off)
  {
    FromLe(mem[off + 8..off + 16])
  }

  function LenAt(mem: Bytes, off: nat): nat
    requires Readable(mem, off)
  {
    FromLe(mem[off + 16..off + 20])
  }

  const BOM: Bytes := [0xEF, 0xBB, 0xBF]

  /** `new TextDecoder().decode(...)` of well-formed text: a byte order mark in front is dropped. */
  function DecodeText(s: Bytes): Bytes {
    if BOM <= s then s[3..] else s
  }

  /** What decoding comes to. `Thrown` is a RangeError; `Unfinished` is a decoder stopped on its way,
      because it may not go deeper or is about to go round in a circle. */
  datatype Decoded<+T> = Value(value: T) | Thrown | Unfinished

  /** A record by itself: a value, or where its children are. */
  datatype Shape = Leaf(result: Decoded<GVal>) | Children(isMap: bool, ptr: nat, count: nat)

  function TextAt(mem: Bytes, ptr: nat, len: nat, isError: bool): Decoded<GVal> {
    if ptr + len > |mem| then Thrown
    else
      var text := DecodeText(mem[ptr..ptr + len]);
      Value(if isError then Err(text) else Str(text))
  }

  function ShapeAt(mem: Bytes, off: nat): Shape
    requires Readable(mem, off)
  {
    var tag, payload, len := mem[off], PayloadAt(mem, off), LenAt(mem, off);
    if tag == TAG_BOOL then Leaf(Value(Bool(payload != 0)))
    else if tag == TAG_NUM then
      var bits := payload % TWO_64;
      Leaf(Value(Num(if mem[off + 1] % 2 == 1 then Integer(AsSigned(bits)) else Fraction(bits))))
    else if tag == TAG_STR || tag == TAG_ERR then Leaf(TextAt(mem, payload, len, tag == TAG_ERR))
    else if tag == TAG_ARR then Children(false, payload, len)
    else if tag == TAG_MAP then Children(true, payload, 2 * len)
    else Leaf(Value(Null))
  }

  function Build(isMap: bool, items: Decoded<seq<GVal>>): Decoded<GVal> {
    match items
    case Value(vs) => Value(if isMap then Map(Pairs(vs)) else Arr(vs))
    case Thrown => Thrown
    case Unfinished => Unfinished
  }

  /** Decode the record at `off`, following pointers at most `depth` levels down: nothing in the
      program bounds that. */
  function Decode(mem: Bytes, off: nat, depth: nat): Decoded<GVal>
    decreases depth, 0
  {
    if depth == 0 then Unfinished
    else if !Readable(mem, off) then Thrown
    else match ShapeAt(mem, off)
      case Leaf(result) => result
      case Children(isMap, ptr, count) => Build(isMap, DecodeAll(mem, ptr, count, depth - 1))
  }

  /** `count` records in a row from `pos`, 24 bytes apart. */
  function DecodeAll(mem: Bytes, pos: nat, count: nat, depth: nat): Decoded<seq<GVal>>
    decreases depth, 1, count
  {
    if count == 0 then Value([])
    else Prepend(Decode(mem, pos, depth), DecodeAll(mem, pos + WIRE_SIZE, count - 1, depth))
  }

  /** The children after the first are only looked at when the first is a value. */
  function Prepend(first: Decoded<GVal>, rest: Decoded<seq<GVal>>): Decoded<seq<GVal>> {
    match first
    case Thrown => Thrown
    case Unfinished => Unfinished
    case Value(v) =>
      match rest
      case Value(vs) => Value([v] + vs)
      case Thrown => Thrown
      case Unfinished => Unfinished
  }

  // Where things land.

  /** The encoder puts a value's own record in the last 24 bytes it writes, right after the body its
      pointer refers to; so the pointer never exceeds the record's own offset, and is below it as
      soon as the body is not empty. */
  lemma RecordIsLast(mem: Bytes, v: GVal, base: nat)
    requires At(mem, base, Encoding(v, base))
    ensures var off := base + Size(v) - WIRE_SIZE;
            && At(mem, base, Body(v, base)) && At(mem, off, Record(v, base))
            && base <= off && (base < off <==> Body(v, base) != [])
  {
    hide Body, Record, Size, At;
    AtSplit(mem, base, Body(v, base), Record(v, base));
  }

  /** Where the record of child i is. */
  function RecordOffset(items: seq<GVal>, base: nat, i: nat): int
    requires i < |items|
  {
    base + SizeAll(items[..i + 1]) - WIRE_SIZE
  }

  lemma SizeAllStep(items: seq<GVal>, i: nat)
    requires i < |items|
    ensures SizeAll(items[..i + 1]) == SizeAll(items[..i]) + Size(items[i])
  {
    assert items[..i + 1][..i] == items[..i];
  }

  lemma {:induction false} AllRecordsSize(items: seq<GVal>, i: nat)
    requires i <= |items| && forall k :: 0 <= k < i ==> Size(items[k]) == WIRE_SIZE
    ensures SizeAll(items[..i]) == WIRE_SIZE * i
  {
    hide Size;
    if i > 0 {
      AllRecordsSize(items, i - 1);
      SizeAllStep(items, i - 1);
    }
  }

  /** Every child's record is where the decoder looks for it, 24 bytes after the one before, if and
      only if every child encodes to exactly 24 bytes. */
  lemma AlignedIff(items: seq<GVal>, base: nat)
    ensures (forall i :: 0 <= i < |items| ==> RecordOffset(items, base, i) == base + 24 * i) <==>
            (forall i :: 0 <= i < |items| ==> Size(items[i]) == 24)
  {
    hide Size, SizeAll;
    if forall i :: 0 <= i < |items| ==> Size(items[i]) == WIRE_SIZE {
      forall i | 0 <= i < |items| ensures RecordOffset(items, base, i) == base + WIRE_SIZE * i {
        AllRecordsSize(items, i + 1);
      }
    }
    if forall i :: 0 <= i < |items| ==> RecordOffset(items, base, i) == base + WIRE_SIZE * i {
      forall i | 0 <= i < |items| ensures Size(items[i]) == WIRE_SIZE {
        SizeAllStep(items, i);
        assert RecordOffset(items, base, i) == base + WIRE_SIZE * i;
        if i > 0 {
          assert RecordOffset(items, base, i - 1) == base + WIRE_SIZE * (i - 1);
        } else {
          assert SizeAll(items[..0]) == 0 by { NoItems(items); }
        }
      }
    }
  }

  lemma NoItems(items: seq<GVal>)
    ensures SizeAll(items[..0]) == 0
  {
  }

  // Round trip.

  predicate InRange(v: GVal) {
    v.Num? && v.n.Integer? ==> -TWO_63 <= v.n.i < TWO_63
  }

  /** Text beginning with a byte order mark, which the decoder drops. */
  predicate Marked(v: GVal) {
    (v.Str? || v.Err?) && BOM <= v.s
  }

  /** A value the decoder can find and reads as it was: its children, if any, each fill exactly one
      record, integers fit 64 bits, and text does not begin with a byte order mark. */
  predicate WellPlaced(v: GVal) {
    && InRange(v) && !Marked(v)
    && (v.Arr? ==> forall i :: 0 <= i < |v.items| ==> Size(v.items[i]) == WIRE_SIZE && InRange(v.items[i]))
    && (v.Map? ==> forall i :: 0 <= i < |v.entries| ==>
          && Size(v.entries[i].key) == WIRE_SIZE && Size(v.entries[i].value) == WIRE_SIZE
          && InRange(v.entries[i].key) && InRange(v.entries[i].value))
  }

  lemma FieldsFit(payload: nat, len: nat)
    requires payload < TWO_64 && len < 0x1_0000_0000
    ensures FromLe(Le(payload, 8)) == payload && FromLe(Le(len, 4)) == len
  {
    hide Le, FromLe;
    Pow256Values();
    LeRoundTrip(payload, 8);
    LeRoundTrip(len, 4);
  }

  lemma HeaderReads(mem: Bytes, off: nat, tag: Byte, flags: Byte, payload: nat, len: nat)
    requires At(mem, off, Header(tag, flags, payload, len)) && payload < TWO_64 && len < 0x1_0000_0000
    ensures off + WIRE_SIZE <= |mem| && mem[off] == tag && mem[off + 1] == flags
    ensures PayloadAt(mem, off) == payload && LenAt(mem, off) == len
    ensures FromLe(mem[off + 8..off + 16]) == payload && FromLe(mem[off + 16..off + 20]) == len
    ensures mem[off + 2..off + 8] == [0, 0, 0, 0, 0, 0]
  {
    hide Le, FromLe, At;
    FieldsFit(payload, len);
    var head: Bytes := [tag, flags, 0, 0, 0, 0, 0, 0];
    AtLength(mem, off, Header(tag, flags, payload, len));
    AtSplit(mem, off, head + Le(payload, 8) + Le(len, 4), Le(0, 4));
    AtSplit(mem, off, head + Le(payload, 8), Le(len, 4));
    AtSplit(mem, off, head, Le(payload, 8));
    AtSlice(mem, off, head);
    AtSlice(mem, off + 8, Le(payload, 8));
    AtSlice(mem, off + 16, Le(len, 4));
    assert mem[off] == mem[off..off + 8][0] && mem[off + 1] == mem[off..off + 8][1];
    assert mem[off + 2..off + 8] == mem[off..off + 8][2..];
  }

  lemma ScalarDecodes(mem: Bytes, off: nat, v: GVal, depth: nat)
    requires (v.Null? || v.Bool? || v.Num?) && InRange(v) && depth > 0 && At(mem, off, Record(v, off))
    ensures Decode(mem, off, depth) == Value(v)
  {
    hide Header, At, PayloadAt, LenAt, DecodeAll;
    if v.Null? {
      HeaderReads(mem, off, TAG_NULL, 0, 0, 0);
    } else if v.Bool? {
      HeaderReads(mem, off, TAG_BOOL, 0, if v.b then 1 else 0, 0);
    } else if v.n.Integer? {
      HeaderReads(mem, off, TAG_NUM, 1, AsUnsigned(v.n.i), 0);
    } else {
      HeaderReads(mem, off, TAG_NUM, 0, v.n.bits, 0);
    }
  }

  lemma EmptyDecodes(mem: Bytes, off: nat, tag: Byte, depth: nat)
    requires (tag == TAG_ARR || tag == TAG_MAP) && depth > 0 && |mem| <= 0x1_0000_0000
    requires At(mem, off, Header(tag, 0, off, 0))
    ensures Decode(mem, off, depth) == Value(if tag == TAG_ARR then Arr([]) else Map([]))
  {
    hide Header, At, PayloadAt, LenAt;
    AtLength(mem, off, Header(tag, 0, off, 0));
    HeaderReads(mem, off, tag, 0, off, 0);
    assert DecodeAll(mem, off, 0, depth - 1) == Value([]);
    assert Pairs([]) == [];
  }

  /** A value that fills just one record has nothing before it. */
  lemma LeafIsRecord(v: GVal, off: nat)
    requires Size(v) == WIRE_SIZE
    ensures Encoding(v, off) == Record(v, off)
    ensures (v.Str? ==> v.s == []) && (v.Err? ==> v.s == [])
            && (v.Arr? ==> v.items == []) && (v.Map? ==> v.entries == [])
  {
    hide Record;
    assert Body(v, off) == [];
    if v.Arr? { NothingSmall(v.items); }
    if v.Map? { NothingSmallPairs(v.entries); }
  }

  /** A value that fills just its record is found by reading that record. */
  lemma LeafDecodes(mem: Bytes, off: nat, v: GVal, depth: nat)
    requires Size(v) == WIRE_SIZE && InRange(v) && depth > 0 && |mem| <= 0x1_0000_0000
    requires At(mem, off, Encoding(v, off))
    ensures Decode(mem, off, depth) == Value(v)
  {
    hide Header, At, Decode, Encoding, Size;
    LeafIsRecord(v, off);
    AtLength(mem, off, Record(v, off));
    assert At(mem, off, []) by { AtNothing(mem, off); }
    if v.Str? {
      StringDecodes(mem, off, TAG_STR, off, [], depth);
    } else if v.Err? {
      StringDecodes(mem, off, TAG_ERR, off, [], depth);
    } else if v.Arr? {
      EmptyDecodes(mem, off, TAG_ARR, depth);
    } else if v.Map? {
      EmptyDecodes(mem, off, TAG_MAP, depth);
    } else {
      ScalarDecodes(mem, off, v, depth);
    }
  }

  lemma AtNothing(mem: Bytes, off: nat)
    requires off <= |mem|
    ensures At(mem, off, [])
  {
  }

  lemma NothingSmall(items: seq<GVal>)
    requires SizeAll(items) == 0
    ensures items == []
  {
  }

  lemma NothingSmallPairs(entries: seq<Entry>)
    requires SizePairs(entries) == 0
    ensures entries == []
  {
  }

  lemma {:induction false} ChildAt(mem: Bytes, items: seq<GVal>, base: nat, i: nat)
    requires At(mem, base, EncodeAll(items, base)) && i < |items|
    ensures var at := base + SizeAll(items[..i]); At(mem, at, Encoding(items[i], at))
    decreases |items|
  {
    hide At, Encoding, Size;
    var n := |items| - 1;
    var init, last := items[..n], items[n];
    AtSplit(mem, base, EncodeAll(init, base), Encoding(last, base + SizeAll(init)));
    if i < n {
      assert init[..i] == items[..i];
      ChildAt(mem, init, base, i);
    }
  }

  lemma {:induction false} ItemsDecode(mem: Bytes, items: seq<GVal>, base: nat, i: nat, depth: nat)
    requires At(mem, base, EncodeAll(items, base)) && |mem| <= 0x1_0000_0000 && depth > 0 && i <= |items|
    requires forall k :: 0 <= k < |items| ==> Size(items[k]) == WIRE_SIZE && InRange(items[k])
    ensures DecodeAll(mem, base + WIRE_SIZE * i, |items| - i, depth) == Value(items[i..])
    decreases |items| - i
  {
    hide At, EncodeAll, Encoding, Decode, Size, SizeAll;
    if i < |items| {
      ChildAt(mem, items, base, i);
      AllRecordsSize(items, i);
      LeafDecodes(mem, base + WIRE_SIZE * i, items[i], depth);
      ItemsDecode(mem, items, base, i + 1, depth);
      assert items[i..] == [items[i]] + items[i + 1..];
    } else {
      assert items[i..] == [];
    }
  }

  // The entries of a map are laid out like a list of keys and values alternating.

  function Alternate(entries: seq<Entry>): (r: seq<GVal>)
    ensures |r| == 2 * |entries|
  {
    if entries == [] then []
    else
      var last := entries[|entries| - 1];
      Alternate(entries[..|entries| - 1]) + [last.key] + [last.value]
  }

  lemma {:induction false} PairsSnoc(vs: seq<GVal>, k: GVal, v: GVal)
    requires |vs| % 2 == 0
    ensures Pairs(vs + [k] + [v]) == Pairs(vs) + [Entry(k, v)]
    decreases |vs|
  {
    var more := vs + [k] + [v];
    if vs == [] {
      assert more == [k, v] && more[2..] == [];
    } else {
      assert more[2..] == vs[2..] + [k] + [v];
      PairsSnoc(vs[2..], k, v);
    }
  }

  lemma {:induction false} PairsInvert(entries: seq<Entry>)
    ensures Pairs(Alternate(entries)) == entries
  {
    if entries != [] {
      var init, last := entries[..|entries| - 1], entries[|entries| - 1];
      PairsInvert(init);
      PairsSnoc(Alternate(init), last.key, last.value);
      assert entries == init + [last];
    }
  }

  lemma OneMore(items: seq<GVal>, v: GVal, base: nat)
    ensures SizeAll(items + [v]) == SizeAll(items) + Size(v)
    ensures EncodeAll(items + [v], base) == EncodeAll(items, base) + Encoding(v, base + SizeAll(items))
  {
    hide Encoding, Size;
    assert (items + [v])[..|items|] == items;
  }

  lemma TwoMore(items: seq<GVal>, e: Entry, base: nat)
    ensures SizeAll(items + [e.key] + [e.value]) == SizeAll(items) + EntrySize(e)
    ensures EncodeAll(items + [e.key] + [e.value], base) ==
            EncodeAll(items, base) + EncodeEntry(e, base + SizeAll(items))
  {
    hide Encoding, Size, EncodeAll, SizeAll;
    OneMore(items, e.key, base);
    OneMore(items + [e.key], e.value, base);
  }

  lemma NothingEncoded(base: nat)
    ensures SizeAll([]) == 0 && EncodeAll([], base) == []
  {
  }

  lemma {:induction false} PairsAreItems(entries: seq<Entry>, base: nat)
    ensures SizePairs(entries) == SizeAll(Alternate(entries))
    ensures EncodePairs(entries, base) == EncodeAll(Alternate(entries), base)
  {
    hide EncodeEntry, EntrySize, EncodeAll, SizeAll;
    if entries == [] {
      NothingEncoded(base);
    } else {
      var init, last := entries[..|entries| - 1], entries[|entries| - 1];
      PairsAreItems(init, base);
      TwoMore(Alternate(init), last, base);
    }
  }

  lemma {:induction false} AlternateSmall(entries: seq<Entry>)
    requires WellPlaced(Map(entries))
    ensures forall i :: 0 <= i < 2 * |entries| ==>
              Size(Alternate(entries)[i]) == WIRE_SIZE && InRange(Alternate(entries)[i])
  {
    hide Size;
    if entries != [] {
      var init := entries[..|entries| - 1];
      assert forall i :: 0 <= i < |init| ==> init[i] == entries[i];
      AlternateSmall(init);
    }
  }

  /** Decoding inverts encoding for every well-placed value, wherever it lies in a memory of at most
      4 GiB, and never follows pointers more than one level down. */
  lemma RoundTrip(mem: Bytes, v: GVal, base: nat, depth: nat)
    requires At(mem, base, Encoding(v, base)) && |mem| <= 0x1_0000_0000 && WellPlaced(v) && depth >= 2
    ensures Decode(mem, base + Size(v) - WIRE_SIZE, depth) == Value(v)
  {
    hide At, Encoding, Decode, EncodeAll, EncodePairs, SizeAll, SizePairs, Header, WellPlaced;
    RecordIsLast(mem, v, base);
    PlacedInRange(v);
    var off := base + Size(v) - WIRE_SIZE;
    if v.Str? {
      StringDecodes(mem, off, TAG_STR, base, v.s, depth);
    } else if v.Err? {
      StringDecodes(mem, off, TAG_ERR, base, v.s, depth);
    } else if v.Arr? {
      ArrayDecodes(mem, off, v.items, base, depth);
    } else if v.Map? {
      MapDecodes(mem, off, v.entries, base, depth);
    } else {
      LeafDecodes(mem, base, v, depth);
    }
  }

  lemma PlacedInRange(v: GVal)
    requires WellPlaced(v)
    ensures InRange(v) && !Marked(v)
  {
  }

  lemma StringDecodes(mem: Bytes, off: nat, tag: Byte, base: nat, s: Bytes, depth: nat)
    requires tag == TAG_STR || tag == TAG_ERR
    requires depth > 0 && |mem| <= 0x1_0000_0000 && At(mem, off, Header(tag, 0, base, |s|)) && At(mem, base, s)
    requires off == base + |s|
    ensures Decode(mem, off, depth) == Value(if tag == TAG_STR then Str(DecodeText(s)) else Err(DecodeText(s)))
  {
    hide Header;
    AtLength(mem, off, Header(tag, 0, base, |s|));
    AtSlice(mem, base, s);
    HeaderReads(mem, off, tag, 0, base, |s|);
  }

  lemma ArrayDecodes(mem: Bytes, off: nat, items: seq<GVal>, base: nat, depth: nat)
    requires depth >= 2 && |mem| <= 0x1_0000_0000 && WellPlaced(Arr(items)) && off == base + SizeAll(items)
    requires At(mem, off, Header(TAG_ARR, 0, base, |items|)) && At(mem, base, EncodeAll(items, base))
    ensures Decode(mem, off, depth) == Value(Arr(items))
  {
    hide Header, At, EncodeAll, Size, SizeAll, DecodeAll;
    AtLength(mem, off, Header(TAG_ARR, 0, base, |items|));
    assert items[..|items|] == items;
    AllRecordsSize(items, |items|);
    HeaderReads(mem, off, TAG_ARR, 0, base, |items|);
    ItemsDecode(mem, items, base, 0, depth - 1);
    assert items[0..] == items;
  }

  lemma MapDecodes(mem: Bytes, off: nat, entries: seq<Entry>, base: nat, depth: nat)
    requires depth >= 2 && |mem| <= 0x1_0000_0000 && WellPlaced(Map(entries)) && off == base + SizePairs(entries)
    requires At(mem, off, Header(TAG_MAP, 0, base, |entries|)) && At(mem, base, EncodePairs(entries, base))
    ensures Decode(mem, off, depth) == Value(Map(entries))
  {
    hide Header, At, EncodePairs, EncodeAll, Size, SizePairs, SizeAll, DecodeAll, Alternate, Pairs;
    var items := Alternate(entries);
    PairsAreItems(entries, base);
    AlternateSmall(entries);
    AtLength(mem, off, Header(TAG_MAP, 0, base, |entries|));
    assert items[..|items|] == items;
    AllRecordsSize(items, |items|);
    HeaderReads(mem, off, TAG_MAP, 0, base, |entries|);
    ItemsDecode(mem, items, base, 0, depth - 1);
    assert items[0..] == items;
    PairsInvert(entries);
  }

  // Where it does not.

  /** An integral number comes back exactly when it fits 64 signed bits. */
  lemma IntegerIff(mem: Bytes, i: int, base: nat, depth: nat)
    requires At(mem, base, Encoding(Num(Integer(i)), base)) && depth > 0
    ensures Decode(mem, base, depth) == Value(Num(Integer(i))) <==> -TWO_63 <= i < TWO_63
  {
    hide Header, At, PayloadAt, LenAt;
    assert Encoding(Num(Integer(i)), base) == Record(Num(Integer(i)), base);
    HeaderReads(mem, base, TAG_NUM, 1, AsUnsigned(i), 0);
  }

  /** The pointer and count of an encoded array. */
  lemma ArrayHead(mem: Bytes, items: seq<GVal>, base: nat, depth: nat)
    requires At(mem, base, Encoding(Arr(items), base)) && |mem| <= 0x1_0000_0000 && depth > 0
    ensures var vs := DecodeAll(mem, base, |items|, depth - 1);
            Decode(mem, base + SizeAll(items), depth) == Build(false, vs)
  {
    hide Header, At, EncodeAll, SizeAll, DecodeAll, PayloadAt, LenAt;
    RecordIsLast(mem, Arr(items), base);
    var off := base + SizeAll(items);
    AtLength(mem, off, Header(TAG_ARR, 0, base, |items|));
    CountBelowSize(items);
    HeaderReads(mem, off, TAG_ARR, 0, base, |items|);
  }

  lemma {:induction false} CountBelowSize(items: seq<GVal>)
    ensures |items| <= SizeAll(items)
  {
    hide Size;
    if items != [] { CountBelowSize(items[..|items| - 1]); }
  }

  /** No string in the value begins with one of the bytes 0 to 6, which could be taken for a tag. */
  predicate Plain(v: GVal)
    decreases v
  {
    match v
    case Str(s) => s == [] || s[0] > TAG_ERR
    case Err(s) => s == [] || s[0] > TAG_ERR
    case Arr(items) => forall i :: 0 <= i < |items| ==> Plain(items[i])
    case Map(entries) => forall i :: 0 <= i < |entries| ==> PlainEntry(entries[i])
    case _ => true
  }

  predicate PlainEntry(e: Entry)
    decreases e
  {
    Plain(e.key) && Plain(e.value)
  }

  lemma TextStarts(mem: Bytes, v: GVal, base: nat)
    requires (v.Str? || v.Err?) && v.s != [] && At(mem, base, Encoding(v, base))
    ensures base + WIRE_SIZE <= |mem| && mem[base] == v.s[0]
  {
    hide At, Encoding;
    RecordIsLast(mem, v, base);
    AtLength(mem, base, Encoding(v, base));
    AtSlice(mem, base, v.s);
    assert mem[base] == mem[base..base + |v.s|][0];
  }

  /** A record with an unknown tag reads as null. */
  lemma UnknownTag(mem: Bytes, off: nat, depth: nat)
    requires off + WIRE_SIZE <= |mem| && mem[off] > TAG_ERR && depth > 0
    ensures Decode(mem, off, depth) == Value(Null)
  {
    hide PayloadAt, LenAt;
  }

  lemma FirstKeyAt(mem: Bytes, entries: seq<Entry>, base: nat)
    requires At(mem, base, EncodePairs(entries, base)) && entries != []
    ensures At(mem, base, Encoding(entries[0].key, base))
  {
    hide At, Encoding, EncodeAll, EncodePairs, SizeAll, SizePairs;
    PairsAreItems(entries, base);
    ChildAt(mem, Alternate(entries), base, 0);
    NoItems(Alternate(entries));
    FirstOfAlternate(entries);
  }

  lemma {:induction false} FirstOfAlternate(entries: seq<Entry>)
    requires entries != []
    ensures Alternate(entries)[0] == entries[0].key
  {
    if |entries| > 1 { FirstOfAlternate(entries[..|entries| - 1]); }
  }

  /** A decoded value that fills one record, and is `v` only if `v` fills one record too. */
  ghost predicate OneRecord(d: Decoded<GVal>, v: GVal) {
    && d.Value? && Size(d.value) == WIRE_SIZE
    && (d.value == v <==> Size(v) == WIRE_SIZE && InRange(v))
  }

  /** Where the encoding of a value begins, the decoder always finds a single record - the value's own
      only if it fills no more than that. */
  lemma {:induction false} FirstRecord(mem: Bytes, v: GVal, base: nat, depth: nat)
    requires At(mem, base, Encoding(v, base)) && |mem| <= 0x1_0000_0000 && Plain(v) && depth > 0
    ensures OneRecord(Decode(mem, base, depth), v)
    decreases v
  {
    hide At, Encoding, Decode, EncodeAll, EncodePairs, SizeAll, SizePairs;
    RecordIsLast(mem, v, base);
    if Size(v) == WIRE_SIZE {
      SmallRecord(mem, v, base, depth);
    } else if v.Str? || v.Err? {
      TextStarts(mem, v, base);
      UnknownTag(mem, base, depth);
    } else if v.Arr? {
      if v.items == [] { NothingEncoded(base); }
      ChildAt(mem, v.items, base, 0);
      NoItems(v.items);
      FirstRecord(mem, v.items[0], base, depth);
    } else {
      if v.entries == [] { NoEntries(base); }
      FirstKeyAt(mem, v.entries, base);
      assert PlainEntry(v.entries[0]);
      FirstRecord(mem, v.entries[0].key, base, depth);
    }
  }

  lemma NoEntries(base: nat)
    ensures SizePairs([]) == 0
  {
  }

  lemma SmallRecord(mem: Bytes, v: GVal, base: nat, depth: nat)
    requires At(mem, base, Encoding(v, base)) && |mem| <= 0x1_0000_0000 && depth > 0 && Size(v) == WIRE_SIZE
    ensures OneRecord(Decode(mem, base, depth), v)
  {
    hide At, Encoding;
    if InRange(v) {
      LeafDecodes(mem, base, v, depth);
    } else {
      IntegerWraps(mem, v.n.i, base, depth);
    }
  }

  lemma IntegerWraps(mem: Bytes, i: int, base: nat, depth: nat)
    requires At(mem, base, Encoding(Num(Integer(i)), base)) && depth > 0
    ensures Decode(mem, base, depth) == Value(Num(Integer(AsSigned(AsUnsigned(i)))))
  {
    hide Header, At, PayloadAt, LenAt;
    assert Encoding(Num(Integer(i)), base) == Record(Num(Integer(i)), base);
    HeaderReads(mem, base, TAG_NUM, 1, AsUnsigned(i), 0);
  }

  lemma DecodeAllStep(mem: Bytes, pos: nat, count: nat, depth: nat, items: seq<GVal>)
    requires count > 0 && DecodeAll(mem, pos, count, depth) == Value(items)
    ensures |items| > 0 && Decode(mem, pos, depth) == Value(items[0])
    ensures DecodeAll(mem, pos + WIRE_SIZE, count - 1, depth) == Value(items[1..])
  {
    hide Decode;
  }

  /** If the children of a list decode to themselves, every one fills exactly one record. */
  lemma {:induction false} OnlySmallItems(mem: Bytes, items: seq<GVal>, base: nat, i: nat, depth: nat)
    requires At(mem, base, EncodeAll(items, base)) && |mem| <= 0x1_0000_0000 && i <= |items| && depth > 0
    requires forall k :: 0 <= k < |items| ==> Plain(items[k])
    requires forall k :: 0 <= k < i ==> Size(items[k]) == WIRE_SIZE && InRange(items[k])
    requires DecodeAll(mem, base + WIRE_SIZE * i, |items| - i, depth) == Value(items[i..])
    ensures forall k :: 0 <= k < |items| ==> Size(items[k]) == WIRE_SIZE && InRange(items[k])
    decreases |items| - i
  {
    hide At, EncodeAll, Encoding, Decode, DecodeAll, Size, SizeAll, Plain, InRange;
    if i < |items| {
      ChildAt(mem, items, base, i);
      AllRecordsSize(items, i);
      FirstRecord(mem, items[i], base + WIRE_SIZE * i, depth);
      DecodeAllStep(mem, base + WIRE_SIZE * i, |items| - i, depth, items[i..]);
      assert items[i..][0] == items[i] && items[i..][1..] == items[i + 1..];
      OnlySmallItems(mem, items, base, i + 1, depth);
    }
  }

  /** For every value in which no string begins with a byte 0 to 6: decoding what was encoded gives
      the value back if and only if it is well placed - its children each fill exactly one record, its
      integers fit, and as text it does not begin with a byte order mark. */
  lemma RoundTripIff(mem: Bytes, v: GVal, base: nat, depth: nat)
    requires At(mem, base, Encoding(v, base)) && |mem| <= 0x1_0000_0000 && Plain(v) && depth >= 2
    ensures Decode(mem, base + Size(v) - WIRE_SIZE, depth) == Value(v) <==> WellPlaced(v)
  {
    hide At, Encoding, Decode, EncodeAll, EncodePairs, SizeAll, SizePairs, DecodeAll, Record;
    if WellPlaced(v) {
      RoundTrip(mem, v, base, depth);
    } else if v.Num? {
      IntegerIff(mem, v.n.i, base, depth);
    } else if v.Str? || v.Err? {
      MarkIsDropped(mem, v, base, depth);
    } else if v.Arr? {
      ArrayOnlyIf(mem, v.items, base, depth);
    } else {
      MapOnlyIf(mem, v.entries, base, depth);
    }
  }

  /** Text that begins with a byte order mark comes back without it. */
  lemma MarkIsDropped(mem: Bytes, v: GVal, base: nat, depth: nat)
    requires At(mem, base, Encoding(v, base)) && |mem| <= 0x1_0000_0000 && depth > 0 && Marked(v)
    ensures var text := v.s[3..];
            Decode(mem, base + Size(v) - WIRE_SIZE, depth) == Value(if v.Str? then Str(text) else Err(text))
  {
    hide At, Encoding, Decode;
    RecordIsLast(mem, v, base);
    StringDecodes(mem, base + |v.s|, if v.Str? then TAG_STR else TAG_ERR, base, v.s, depth);
  }

  lemma ArrayOnlyIf(mem: Bytes, items: seq<GVal>, base: nat, depth: nat)
    requires At(mem, base, Encoding(Arr(items), base)) && |mem| <= 0x1_0000_0000 && Plain(Arr(items)) && depth >= 2
    ensures Decode(mem, base + SizeAll(items), depth) == Value(Arr(items)) ==> WellPlaced(Arr(items))
  {
    hide At, Encoding, Decode, EncodeAll, SizeAll, DecodeAll, Record, Size;
    ArrayHead(mem, items, base, depth);
    RecordIsLast(mem, Arr(items), base);
    if DecodeAll(mem, base, |items|, depth - 1) == Value(items) {
      assert items[0..] == items;
      OnlySmallItems(mem, items, base, 0, depth - 1);
    }
  }

  lemma MapHead(mem: Bytes, entries: seq<Entry>, base: nat, depth: nat)
    requires At(mem, base, Encoding(Map(entries), base)) && |mem| <= 0x1_0000_0000 && depth > 0
    ensures var vs := DecodeAll(mem, base, 2 * |entries|, depth - 1);
            Decode(mem, base + SizePairs(entries), depth) == Build(true, vs)
  {
    hide Header, At, EncodePairs, SizePairs, DecodeAll, PayloadAt, LenAt, Alternate, SizeAll;
    RecordIsLast(mem, Map(entries), base);
    var off := base + SizePairs(entries);
    AtLength(mem, off, Header(TAG_MAP, 0, base, |entries|));
    PairsAreItems(entries, base);
    CountBelowSize(Alternate(entries));
    HeaderReads(mem, off, TAG_MAP, 0, base, |entries|);
  }

  /** As many values as were asked for. */
  lemma {:induction false} DecodeAllCount(mem: Bytes, pos: nat, count: nat, depth: nat)
    ensures var vs := DecodeAll(mem, pos, count, depth); vs.Value? ==> |vs.value| == count
    decreases count
  {
    hide Decode;
    if count > 0 { DecodeAllCount(mem, pos + WIRE_SIZE, count - 1, depth); }
  }

  lemma {:induction false} PairsDecide(vs: seq<GVal>)
    requires |vs| % 2 == 0
    ensures Alternate(Pairs(vs)) == vs
    decreases |vs|
  {
    if vs != [] {
      var n := |vs| - 2;
      var init, k, v := vs[..n], vs[n], vs[n + 1];
      assert vs == init + [k] + [v];
      PairsSnoc(init, k, v);
      PairsDecide(init);
      var es := Pairs(init) + [Entry(k, v)];
      assert es[..|es| - 1] == Pairs(init);
    }
  }

  lemma {:induction false} AlternatePlain(entries: seq<Entry>)
    requires forall i :: 0 <= i < |entries| ==> PlainEntry(entries[i])
    ensures forall i :: 0 <= i < 2 * |entries| ==> Plain(Alternate(entries)[i])
  {
    hide Plain;
    if entries != [] {
      var init := entries[..|entries| - 1];
      assert forall i :: 0 <= i < |init| ==> init[i] == entries[i];
      AlternatePlain(init);
      assert PlainEntry(entries[|entries| - 1]);
    }
  }

  lemma {:induction false} AlternateIndex(entries: seq<Entry>, i: nat)
    requires i < |entries|
    ensures Alternate(entries)[2 * i] == entries[i].key && Alternate(entries)[2 * i + 1] == entries[i].value
    decreases |entries|
  {
    if i < |entries| - 1 { AlternateIndex(entries[..|entries| - 1], i); }
  }

  lemma MapOnlyIf(mem: Bytes, entries: seq<Entry>, base: nat, depth: nat)
    requires At(mem, base, Encoding(Map(entries), base)) && |mem| <= 0x1_0000_0000 && Plain(Map(entries)) && depth >= 2
    ensures Decode(mem, base + SizePairs(entries), depth) == Value(Map(entries)) ==> WellPlaced(Map(entries))
  {
    hide At, Encoding, Decode, EncodeAll, EncodePairs, SizeAll, SizePairs, DecodeAll, Record,
         Size, InRange, Alternate, Pairs;
    MapHead(mem, entries, base, depth);
    RecordIsLast(mem, Map(entries), base);
    var items, n := Alternate(entries), 2 * |entries|;
    var got := DecodeAll(mem, base, n, depth - 1);
    DecodeAllCount(mem, base, n, depth - 1);
    if got.Value? && Pairs(got.value) == entries {
      PairsDecide(got.value);
      PairsAreItems(entries, base);
      AlternatePlain(entries);
      assert items[0..] == items;
      OnlySmallItems(mem, items, base, 0, depth - 1);
      forall i | 0 <= i < |entries|
        ensures Size(entries[i].key) == WIRE_SIZE && Size(entries[i].value) == WIRE_SIZE
        ensures InRange(entries[i].key) && InRange(entries[i].value)
      {
        AlternateIndex(entries, i);
      }
      MapInRange(entries);
    }
  }

  lemma MapInRange(entries: seq<Entry>)
    ensures InRange(Map(entries))
  {
  }

  // Exactly when the decoder comes to an end.

  /** The decoder with an eye on where it is: it stops when it would enter a record it is inside of.
      `room` holds the offsets it is not inside of. */
  function DecodeIn(mem: Bytes, off: nat, room: set<nat>): Decoded<GVal>
    decreases room, 0
  {
    if !Readable(mem, off) then Thrown
    else if off !in room then Unfinished
    else match ShapeAt(mem, off)
      case Leaf(result) => result
      case Children(isMap, ptr, count) => Build(isMap, DecodeAllIn(mem, ptr, count, room - {off}))
  }

  function DecodeAllIn(mem: Bytes, pos: nat, count: nat, room: set<nat>): Decoded<seq<GVal>>
    decreases room, 1, count
  {
    if count == 0 then Value([])
    else Prepend(DecodeIn(mem, pos, room), DecodeAllIn(mem, pos + WIRE_SIZE, count - 1, room))
  }

  /** The numbers below n. */
  function Below(n: nat): (r: set<nat>)
    ensures |r| == n && forall k: nat :: k in r <==> k < n
  {
    if n == 0 then {} else Below(n - 1) + {n - 1}
  }

  lemma OneLevel(mem: Bytes, off: nat, depth: nat)
    requires depth > 0 && Readable(mem, off) && ShapeAt(mem, off).Children?
    ensures var c := ShapeAt(mem, off);
            Decode(mem, off, depth) == Build(c.isMap, DecodeAll(mem, c.ptr, c.count, depth - 1))
  {
    hide ShapeAt;
  }

  /** More depth does not change a result. */
  lemma {:induction false} Deeper(mem: Bytes, off: nat, depth: nat, more: nat)
    requires depth <= more && !Decode(mem, off, depth).Unfinished?
    ensures Decode(mem, off, more) == Decode(mem, off, depth)
    decreases depth, 0
  {
    hide ShapeAt, DecodeAll;
    if Readable(mem, off) && ShapeAt(mem, off).Children? {
      var c := ShapeAt(mem, off);
      DeeperAll(mem, c.ptr, c.count, depth - 1, more - 1);
    }
  }

  lemma {:induction false} DeeperAll(mem: Bytes, pos: nat, count: nat, depth: nat, more: nat)
    requires depth <= more && !DecodeAll(mem, pos, count, depth).Unfinished?
    ensures DecodeAll(mem, pos, count, more) == DecodeAll(mem, pos, count, depth)
    decreases depth, 1, count
  {
    hide Decode;
    if count > 0 {
      Deeper(mem, pos, depth, more);
      if Decode(mem, pos, depth).Value? { DeeperAll(mem, pos + WIRE_SIZE, count - 1, depth, more); }
    }
  }

  /** Where the watchful decoder comes to an end, so does the other, with as many levels as there is room. */
  lemma {:induction false} RoomIsEnough(mem: Bytes, off: nat, room: set<nat>, depth: nat)
    requires !DecodeIn(mem, off, room).Unfinished? && depth > |room|
    ensures Decode(mem, off, depth) == DecodeIn(mem, off, room)
    decreases room, 0
  {
    hide ShapeAt, DecodeAll, DecodeAllIn;
    if Readable(mem, off) && ShapeAt(mem, off).Children? {
      var c := ShapeAt(mem, off);
      RoomIsEnoughAll(mem, c.ptr, c.count, room - {off}, depth - 1);
    }
  }

  lemma {:induction false} RoomIsEnoughAll(mem: Bytes, pos: nat, count: nat, room: set<nat>, depth: nat)
    requires !DecodeAllIn(mem, pos, count, room).Unfinished? && depth > |room|
    ensures DecodeAll(mem, pos, count, depth) == DecodeAllIn(mem, pos, count, room)
    decreases room, 1, count
  {
    hide Decode, DecodeIn;
    if count > 0 {
      RoomIsEnough(mem, pos, room, depth);
      if DecodeIn(mem, pos, room).Value? { RoomIsEnoughAll(mem, pos + WIRE_SIZE, count - 1, room, depth); }
    }
  }

  /** No record the watchful decoder is inside of comes to an end within `depth` levels. */
  ghost predicate Stuck(mem: Bytes, room: set<nat>, depth: nat) {
    forall x: nat :: x < |mem| && x !in room ==> Decode(mem, x, depth) == Unfinished
  }

  /** The fewest levels with which decoding comes to an end. */
  lemma {:induction false} Fewest(mem: Bytes, off: nat, depth: nat) returns (least: nat)
    requires !Decode(mem, off, depth).Unfinished?
    ensures 0 < least <= depth && Decode(mem, off, least) == Decode(mem, off, depth)
    ensures Decode(mem, off, least - 1) == Unfinished
  {
    TooDeep(mem, off);
    hide Decode;
    if Decode(mem, off, depth - 1).Unfinished? {
      least := depth;
    } else {
      Deeper(mem, off, depth - 1, depth);
      least := Fewest(mem, off, depth - 1);
    }
  }

  /** Where the decoder comes to an end, it never enters a record it is inside of: with the fewest
      levels that do, none of those records comes to an end in fewer. */
  lemma {:induction false} EndsWithoutCircle(mem: Bytes, off: nat, room: set<nat>, depth: nat)
    requires !Decode(mem, off, depth).Unfinished? && Stuck(mem, room, depth)
    ensures DecodeIn(mem, off, room) == Decode(mem, off, depth)
    decreases depth, 0
  {
    hide ShapeAt, DecodeAll, DecodeAllIn;
    var least := Fewest(mem, off, depth);
    if Readable(mem, off) {
      assert off in room;
      if ShapeAt(mem, off).Children? {
        var c := ShapeAt(mem, off);
        OneLevel(mem, off, least);
        StillStuck(mem, off, room, depth, least - 1);
        EndsWithoutCircleAll(mem, c.ptr, c.count, room - {off}, least - 1);
      }
    }
  }

  lemma StillStuck(mem: Bytes, off: nat, room: set<nat>, depth: nat, fewer: nat)
    requires Stuck(mem, room, depth) && fewer <= depth && Decode(mem, off, fewer) == Unfinished
    ensures Stuck(mem, room - {off}, fewer)
  {
    hide Decode;
    forall x: nat | x < |mem| && x !in room - {off} ensures Decode(mem, x, fewer) == Unfinished {
      if x != off && !Decode(mem, x, fewer).Unfinished? { Deeper(mem, x, fewer, depth); }
    }
  }

  lemma {:induction false} EndsWithoutCircleAll(mem: Bytes, pos: nat, count: nat, room: set<nat>, depth: nat)
    requires !DecodeAll(mem, pos, count, depth).Unfinished? && Stuck(mem, room, depth)
    ensures DecodeAllIn(mem, pos, count, room) == DecodeAll(mem, pos, count, depth)
    decreases depth, 1, count
  {
    hide Decode, DecodeIn, Stuck;
    if count > 0 {
      EndsWithoutCircle(mem, pos, room, depth);
      if Decode(mem, pos, depth).Value? { EndsWithoutCircleAll(mem, pos + WIRE_SIZE, count - 1, room, depth); }
    }
  }

  /** On any memory the decoder comes to an end, with a value or an error, if and only if it never
      enters a record it is inside of; and then it goes no deeper than the memory is long. */
  lemma EndsIff(mem: Bytes, off: nat)
    ensures var watched := DecodeIn(mem, off, Below(|mem|));
            && (watched.Unfinished? <==> forall depth: nat :: Decode(mem, off, depth) == Unfinished)
            && (!watched.Unfinished? ==> forall depth: nat :: depth > |mem| ==> Decode(mem, off, depth) == watched)
  {
    hide Decode, DecodeIn;
    var watched := DecodeIn(mem, off, Below(|mem|));
    if watched.Unfinished? {
      forall depth: nat ensures Decode(mem, off, depth) == Unfinished {
        if !Decode(mem, off, depth).Unfinished? { EndsWithoutCircle(mem, off, Below(|mem|), depth); }
      }
    } else {
      forall depth: nat | depth > |mem| ensures Decode(mem, off, depth) == watched {
        RoomIsEnough(mem, off, Below(|mem|), depth);
      }
      var enough := |mem| + 1;
      assert Decode(mem, off, enough) != Unfinished;
    }
  }

  /** A record of an array that begins with the record itself: the decoder never comes back. */
  lemma {:induction false} SelfContained(mem: Bytes, off: nat, depth: nat)
    requires off + WIRE_SIZE <= |mem| && mem[off] == TAG_ARR && PayloadAt(mem, off) == off && LenAt(mem, off) > 0
    ensures Decode(mem, off, depth) == Unfinished
  {
    hide PayloadAt, LenAt;
    if depth > 0 { SelfContained(mem, off, depth - 1); }
  }

  /** An array of one string that spells out the record of an array beginning where the string lies:
      decoding what the encoder wrote for it does not end, however deep the decoder goes. */
  lemma EndlessArray(mem: Bytes, base: nat, depth: nat)
    requires |mem| <= 0x1_0000_0000
    requires At(mem, base, Encoding(Arr([Str(Header(TAG_ARR, 0, base, 1))]), base))
    ensures Decode(mem, base + SizeAll([Str(Header(TAG_ARR, 0, base, 1))]), depth) == Unfinished
  {
    hide At, Encoding, Decode, Size, SizeAll, Record, Header, PayloadAt, LenAt;
    var v := Str(Header(TAG_ARR, 0, base, 1));
    if depth > 0 {
      ArrayHead(mem, [v], base, depth);
      RecordIsLast(mem, Arr([v]), base);
      ChildAt(mem, [v], base, 0);
      NoItems([v]);
      RecordIsLast(mem, v, base);
      AtLength(mem, base, v.s);
      HeaderReads(mem, base, TAG_ARR, 0, base, 1);
      SelfContained(mem, base, depth - 1);
    } else {
      TooDeep(mem, base + SizeAll([v]));
    }
  }

  lemma TooDeep(mem: Bytes, off: nat)
    ensures Decode(mem, off, 0) == Unfinished
  {
  }

  /** An array of one array of one record-sized value comes back without its inner array. */
  lemma NestedIsFlattened(mem: Bytes, x: GVal, base: nat, depth: nat)
    requires At(mem, base, Encoding(Arr([Arr([x])]), base)) && |mem| <= 0x1_0000_0000
    requires Size(x) == WIRE_SIZE && InRange(x) && depth >= 2
    ensures Decode(mem, base + SizeAll([Arr([x])]), depth) == Value(Arr([x])) && Arr([x]) != Arr([Arr([x])])
  {
    hide At, Encoding, Decode, Size, Record;
    var inner := Arr([x]);
    ArrayHead(mem, [inner], base, depth);
    RecordIsLast(mem, Arr([inner]), base);
    ChildAt(mem, [inner], base, 0);
    NoItems([inner]);
    RecordIsLast(mem, inner, base);
    ChildAt(mem, [x], base, 0);
    NoItems([x]);
    LeafDecodes(mem, base, x, depth - 1);
    OneDecodes(mem, base, x, depth - 1);
    assert inner.items[0] == x;
    NotItself(x);
  }

  lemma NotItself(x: GVal)
    requires Size(x) == WIRE_SIZE
    ensures x != Arr([x])
  {
    if x.Arr? { NothingSmall(x.items); }
  }

  lemma OneDecodes(mem: Bytes, pos: nat, x: GVal, depth: nat)
    requires Decode(mem, pos, depth) == Value(x)
    ensures DecodeAll(mem, pos, 1, depth) == Value([x])
  {
    hide Decode;
    assert DecodeAll(mem, pos + WIRE_SIZE, 0, depth) == Value([]);
    assert [x] + [] == [x];
  }

  /** Misplacement alone does not decide it: a string that spells out the record of itself sits in
      the wrong place and still comes back. */
  lemma SelfDescribingString(mem: Bytes, base: nat, depth: nat)
    requires |mem| <= 0x1_0000_0000 && depth >= 2
    requires At(mem, base, Encoding(Arr([Str(Header(TAG_STR, 0, base, WIRE_SIZE))]), base))
    ensures var v := Arr([Str(Header(TAG_STR, 0, base, WIRE_SIZE))]);
            !WellPlaced(v) && Decode(mem, base + Size(v) - WIRE_SIZE, depth) == Value(v)
  {
    hide At, Encoding, Decode, Header, Record;
    var h := Header(TAG_STR, 0, base, WIRE_SIZE);
    var one := Str(h);
    ArrayHead(mem, [one], base, depth);
    RecordIsLast(mem, Arr([one]), base);
    ChildAt(mem, [one], base, 0);
    NoItems([one]);
    RecordIsLast(mem, one, base);
    AtLength(mem, base, h);
    AtSlice(mem, base, h);
    assert mem[base..base + WIRE_SIZE][0] == mem[base];
    HeaderReads(mem, base, TAG_STR, 0, base, WIRE_SIZE);
    StringReads(mem, base, base, WIRE_SIZE, depth - 1);
    OneDecodes(mem, base, one, depth - 1);
    assert Arr([one]).items[0] == one && Size(one) == 2 * WIRE_SIZE;
  }

  lemma StringReads(mem: Bytes, off: nat, ptr: nat, len: nat, depth: nat)
    requires off + WIRE_SIZE <= |mem| && depth > 0 && mem[off] == TAG_STR
    requires PayloadAt(mem, off) == ptr && LenAt(mem, off) == len && ptr + len <= |mem|
    ensures Decode(mem, off, depth) == Value(Str(DecodeText(mem[ptr..ptr + len])))
  {
  }
}
