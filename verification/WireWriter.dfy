/** The encoder as it runs: bytes written into a fixed memory at an advancing position, headers first
    written blank and then patched, proved to leave exactly the layout of ValueWire. */
module WireWriter {
  import opened Bytes
  import opened ValueWire

  /** Memory with a part overwritten. */
  function Splice(mem: Bytes, at: nat, part: Bytes): (r: Bytes)
    requires at + |part| <= |mem|
    ensures |r| == |mem|
  {
    mem[..at] + part + mem[at + |part|..]
  }

  lemma SpliceNothing(mem: Bytes, at: nat)
    requires at <= |mem|
    ensures Splice(mem, at, []) == mem
  {
  }

  lemma SpliceNext(mem: Bytes, at: nat, a: Bytes, b: Bytes)
    requires at + |a| + |b| <= |mem|
    ensures Splice(Splice(mem, at, a), at + |a|, b) == Splice(mem, at, a + b)
  {
    var m := Splice(mem, at, a);
    assert m[..at + |a|] == mem[..at] + a;
    assert m[at + |a| + |b|..] == mem[at + |a| + |b|..];
  }

  /** Overwriting the middle of what was just written. */
  lemma SplicePatch(mem: Bytes, at: nat, a: Bytes, old1: Bytes, c: Bytes, new1: Bytes)
    requires at + |a| + |old1| + |c| <= |mem| && |new1| == |old1|
    ensures Splice(Splice(mem, at, a + old1 + c), at + |a|, new1) == Splice(mem, at, a + new1 + c)
  {
    var m := Splice(mem, at, a + old1 + c);
    var n := at + |a|;
    assert m[..n] == mem[..at] + a;
    assert m[n + |old1|..] == c + mem[n + |old1| + |c|..];
  }

  lemma SpliceAt(mem: Bytes, at: nat, part: Bytes)
    requires at + |part| <= |mem|
    ensures At(Splice(mem, at, part), at, part)
  {
  }

  method PutAt(dv: array<Byte>, at: nat, part: Bytes)
    requires at + |part| <= dv.Length
    modifies dv
    ensures dv[..] == Splice(old(dv[..]), at, part)
  {
    forall i | 0 <= i < |part| { dv[at + i] := part[i]; }
  }

  /** Fill in the payload and the length of a header. */
  method PatchHeader(dv: array<Byte>, off: nat, payload: nat, len: nat,
                     ghost mem: Bytes, ghost tag: Byte, ghost flags: Byte)
    requires off + WIRE_SIZE <= dv.Length == |mem| && dv[..] == Splice(mem, off, Header(tag, flags, 0, 0))
    modifies dv
    ensures dv[..] == Splice(mem, off, Header(tag, flags, payload, len))
  {
    hide Le, Splice;
    ghost var head: Bytes := [tag, flags, 0, 0, 0, 0, 0, 0];
    PutAt(dv, off + 8, Le(payload, 8));
    assert Header(tag, flags, 0, 0) == head + Le(0, 8) + (Le(0, 4) + Le(0, 4));
    SplicePatch(mem, off, head, Le(0, 8), Le(0, 4) + Le(0, 4), Le(payload, 8));
    assert head + Le(payload, 8) + (Le(0, 4) + Le(0, 4)) == (head + Le(payload, 8)) + Le(0, 4) + Le(0, 4);
    PutAt(dv, off + 16, Le(len, 4));
    SplicePatch(mem, off, head + Le(payload, 8), Le(0, 4), Le(0, 4), Le(len, 4));
  }

  class WireWriteCtx {
    const dv: array<Byte>
    var pos: nat

    constructor (dv: array<Byte>, pos: nat)
      ensures this.dv == dv && this.pos == pos
    {
      this.dv, this.pos := dv, pos;
    }

    /** writeU8, writeU16, writeU32 and writeU64: some bytes at the position, which advances. */
    method Put(part: Bytes)
      requires pos + |part| <= dv.Length
      modifies this`pos, dv
      ensures pos == old(pos) + |part| && dv[..] == Splice(old(dv[..]), old(pos), part)
    {
      PutAt(dv, pos, part);
      pos := pos + |part|;
    }

    /** The byte loop for string data. */
    method PutString(s: Bytes)
      requires pos + |s| <= dv.Length
      modifies this`pos, dv
      ensures pos == old(pos) + |s| && dv[..] == Splice(old(dv[..]), old(pos), s)
    {
      hide Splice;
      ghost var mem, start := dv[..], pos;
      SpliceNothing(mem, start);
      assert s[..0] == [];
      for i := 0 to |s|
        invariant pos == start + i && dv[..] == Splice(mem, start, s[..i])
      {
        ghost var done, one := s[..i], [s[i]];
        SpliceNext(mem, start, done, one);
        assert s[..i + 1] == done + one;
        Put([s[i]]);
      }
      assert s[..|s|] == s;
    }

    /** A blank header; the caller patches it. */
    method WriteWireHeader(tag: Byte) returns (off: nat)
      requires pos + WIRE_SIZE <= dv.Length
      modifies this`pos, dv
      ensures off == old(pos) && pos == off + WIRE_SIZE
      ensures dv[..] == Splice(old(dv[..]), off, Header(tag, 0, 0, 0))
    {
      BlankHeader(tag);
      hide Header, Le, Splice;
      ghost var mem := dv[..];
      off := pos;
      Put([tag]);
      Put([0]);
      SpliceNext(mem, off, [tag], [0]);
      Put(Le(0, 2));
      SpliceNext(mem, off, [tag] + [0], Le(0, 2));
      Put(Le(0, 4));
      SpliceNext(mem, off, [tag] + [0] + Le(0, 2), Le(0, 4));
      Put(Le(0, 8));
      SpliceNext(mem, off, [tag] + [0] + Le(0, 2) + Le(0, 4), Le(0, 8));
      Put(Le(0, 4));
      SpliceNext(mem, off, [tag] + [0] + Le(0, 2) + Le(0, 4) + Le(0, 8), Le(0, 4));
      Put(Le(0, 4));
      SpliceNext(mem, off, [tag] + [0] + Le(0, 2) + Le(0, 4) + Le(0, 8) + Le(0, 4), Le(0, 4));
    }

    static lemma BlankHeader(tag: Byte)
      ensures Header(tag, 0, 0, 0) == [tag] + [0] + Le(0, 2) + Le(0, 4) + Le(0, 8) + Le(0, 4) + Le(0, 4)
    {
      assert Le(0, 1) == [0] && Le(0, 2) == [0, 0];
      assert Le(0, 3) == [0, 0, 0] && Le(0, 4) == [0, 0, 0, 0];
    }

    method PatchWire(off: nat, payload: nat, len: nat, ghost mem: Bytes, ghost tag: Byte, ghost flags: Byte)
      requires off + WIRE_SIZE <= dv.Length == |mem| && dv[..] == Splice(mem, off, Header(tag, flags, 0, 0))
      modifies dv
      ensures dv[..] == Splice(mem, off, Header(tag, flags, payload, len))
    {
      PatchHeader(dv, off, payload, len, mem, tag, flags);
    }

    /** `ctx.dv.setUint8(off + 1, FLAG_INTEGER)`. */
    method SetIntegerFlag(off: nat, ghost mem: Bytes, ghost tag: Byte)
      requires off + WIRE_SIZE <= dv.Length == |mem| && dv[..] == Splice(mem, off, Header(tag, 0, 0, 0))
      modifies dv
      ensures dv[..] == Splice(mem, off, Header(tag, 1, 0, 0))
    {
      hide Le, Splice;
      ghost var rest := [0, 0, 0, 0, 0, 0] + Le(0, 8) + Le(0, 4) + Le(0, 4);
      PutAt(dv, off + 1, [1]);
      assert Header(tag, 0, 0, 0) == [tag] + [0] + rest;
      assert Header(tag, 1, 0, 0) == [tag] + [1] + rest;
      SplicePatch(mem, off, [tag], [0], rest, [1]);
    }

    /** The record after a body that has already been written. */
    method Finish(tag: Byte, start: nat, len: nat, ghost mem: Bytes, ghost body: Bytes)
      requires pos == start + |body| && pos + WIRE_SIZE <= dv.Length == |mem| && dv[..] == Splice(mem, start, body)
      modifies this`pos, dv
      ensures pos == old(pos) + WIRE_SIZE && dv[..] == Splice(mem, start, body + Header(tag, 0, start, len))
    {
      hide Header, Splice;
      ghost var m := dv[..];
      var off := WriteWireHeader(tag);
      PatchWire(off, start, len, m, tag, 0);
      SpliceNext(mem, start, body, Header(tag, 0, start, len));
    }

    /** A value without children or bytes of its own. */
    method EncodeScalar(v: GVal)
      requires (v.Null? || v.Bool? || v.Num?) && pos + WIRE_SIZE <= dv.Length
      modifies this`pos, dv
      ensures pos == old(pos) + WIRE_SIZE && dv[..] == Splice(old(dv[..]), old(pos), Record(v, old(pos)))
    {
      hide Header, Splice;
      ghost var mem := dv[..];
      if v.Null? {
        var off := WriteWireHeader(TAG_NULL);
      } else if v.Bool? {
        var off := WriteWireHeader(TAG_BOOL);
        PatchWire(off, if v.b then 1 else 0, 0, mem, TAG_BOOL, 0);
      } else {
        var off := WriteWireHeader(TAG_NUM);
        if v.n.Integer? {
          SetIntegerFlag(off, mem, TAG_NUM);
          PatchWire(off, AsUnsigned(v.n.i), 0, mem, TAG_NUM, 1);
        } else {
          PatchWire(off, v.n.bits, 0, mem, TAG_NUM, 0);
        }
      }
    }

    /** `encodeGVal`: exactly the value's encoding at the old position, and nothing else changed. */
    method EncodeGVal(v: GVal)
      requires pos + Size(v) <= dv.Length
      modifies this`pos, dv
      ensures pos == old(pos) + Size(v)
      ensures dv[..] == Splice(old(dv[..]), old(pos), Encoding(v, old(pos)))
      decreases v, 1
    {
      hide Header, Splice;
      ghost var mem := dv[..];
      var start := pos;
      match v
      case Str(s) =>
        PutString(s);
        Finish(TAG_STR, start, |s|, mem, s);
      case Err(s) =>
        PutString(s);
        Finish(TAG_ERR, start, |s|, mem, s);
      case Arr(items) =>
        EncodeItems(items);
        Finish(TAG_ARR, start, |items|, mem, EncodeAll(items, start));
      case Map(entries) =>
        EncodeEntries(entries);
        Finish(TAG_MAP, start, |entries|, mem, EncodePairs(entries, start));
      case Null => ScalarOnly(v, start); EncodeScalar(v);
      case Bool(_) => ScalarOnly(v, start); EncodeScalar(v);
      case Num(_) => ScalarOnly(v, start); EncodeScalar(v);
    }

    static lemma ScalarOnly(v: GVal, base: nat)
      requires v.Null? || v.Bool? || v.Num?
      ensures Encoding(v, base) == Record(v, base)
    {
      hide Record;
      assert Body(v, base) == [];
    }

    method EncodeItems(items: seq<GVal>)
      requires pos + SizeAll(items) <= dv.Length
      modifies this`pos, dv
      ensures pos == old(pos) + SizeAll(items)
      ensures dv[..] == Splice(old(dv[..]), old(pos), EncodeAll(items, old(pos)))
      decreases items, 0
    {
      hide Encoding, EncodeAll, Size, SizeAll, Splice;
      ghost var mem, start := dv[..], pos;
      NothingYet(mem, start);
      assert items[..0] == [];
      for i := 0 to |items|
        invariant pos == start + SizeAll(items[..i])
        invariant pos <= dv.Length && dv[..] == Splice(mem, start, EncodeAll(items[..i], start))
      {
        FitsNext(items, i);
        SpliceNext(mem, start, EncodeAll(items[..i], start), Encoding(items[i], pos));
        OneMore(items[..i], items[i], start);
        assert items[..i + 1] == items[..i] + [items[i]];
        EncodeGVal(items[i]);
      }
      assert items[..|items|] == items;
    }

    static lemma NothingYet(mem: Bytes, start: nat)
      requires start <= |mem|
      ensures SizeAll([]) == 0 && SizePairs([]) == 0
      ensures Splice(mem, start, EncodeAll([], start)) == mem && Splice(mem, start, EncodePairs([], start)) == mem
    {
    }

    static lemma {:induction false} FitsNext(items: seq<GVal>, i: nat)
      requires i < |items|
      ensures SizeAll(items[..i]) + Size(items[i]) <= SizeAll(items)
      decreases |items| - i
    {
      hide Size;
      SizeAllStep(items, i);
      if i + 1 < |items| {
        FitsNext(items, i + 1);
      } else {
        assert items[..i + 1] == items;
      }
    }

    method EncodeEntries(entries: seq<Entry>)
      requires pos + SizePairs(entries) <= dv.Length
      modifies this`pos, dv
      ensures pos == old(pos) + SizePairs(entries)
      ensures dv[..] == Splice(old(dv[..]), old(pos), EncodePairs(entries, old(pos)))
      decreases entries, 0
    {
      hide EncodeEntry, EncodePairs, EntrySize, SizePairs, Splice;
      ghost var mem, start := dv[..], pos;
      NothingYet(mem, start);
      assert entries[..0] == [];
      for i := 0 to |entries|
        invariant pos == start + SizePairs(entries[..i])
        invariant pos <= dv.Length && dv[..] == Splice(mem, start, EncodePairs(entries[..i], start))
      {
        EntryFitsNext(entries, i);
        SpliceNext(mem, start, EncodePairs(entries[..i], start), EncodeEntry(entries[i], pos));
        OneEntryMore(entries, i, start);
        EncodeOneEntry(entries[i]);
      }
      assert entries[..|entries|] == entries;
    }

    static lemma OneEntryMore(entries: seq<Entry>, i: nat, base: nat)
      requires i < |entries|
      ensures SizePairs(entries[..i + 1]) == SizePairs(entries[..i]) + EntrySize(entries[i])
      ensures EncodePairs(entries[..i + 1], base) ==
              EncodePairs(entries[..i], base) + EncodeEntry(entries[i], base + SizePairs(entries[..i]))
    {
      hide EncodeEntry, EntrySize;
      assert entries[..i + 1][..i] == entries[..i];
    }

    static lemma {:induction false} EntryFitsNext(entries: seq<Entry>, i: nat)
      requires i < |entries|
      ensures SizePairs(entries[..i]) + EntrySize(entries[i]) <= SizePairs(entries)
      decreases |entries| - i
    {
      hide EntrySize;
      OneEntryMore(entries, i, 0);
      if i + 1 < |entries| {
        EntryFitsNext(entries, i + 1);
      } else {
        assert entries[..i + 1] == entries;
      }
    }

    method EncodeOneEntry(e: Entry)
      requires pos + EntrySize(e) <= dv.Length
      modifies this`pos, dv
      ensures pos == old(pos) + EntrySize(e)
      ensures dv[..] == Splice(old(dv[..]), old(pos), EncodeEntry(e, old(pos)))
      decreases e, 0
    {
      hide Encoding, Size, Splice;
      ghost var mem, start := dv[..], pos;
      EncodeGVal(e.key);
      SpliceNext(mem, start, Encoding(e.key, start), Encoding(e.value, pos));
      EncodeGVal(e.value);
    }
  }

  /** What was written is what the decoder will be given: a well-placed value comes back. */
  method EncodeThenDecode(v: GVal, dv: array<Byte>, pos: nat) returns (back: Decoded<GVal>)
    requires pos + Size(v) <= dv.Length <= 0x1_0000_0000
    modifies dv
    ensures WellPlaced(v) ==> back == Value(v)
    ensures Plain(v) && back == Value(v) ==> WellPlaced(v)
  {
    hide Encoding, Size, Decode, Splice, WellPlaced, Plain;
    var ctx := new WireWriteCtx(dv, pos);
    ghost var mem := dv[..];
    ctx.EncodeGVal(v);
    SpliceAt(mem, pos, Encoding(v, pos));
    back := Decode(dv[..], ctx.pos - WIRE_SIZE, 2);
    if WellPlaced(v) { RoundTrip(dv[..], v, pos, 2); }
    if Plain(v) { RoundTripIff(dv[..], v, pos, 2); }
  }
}
