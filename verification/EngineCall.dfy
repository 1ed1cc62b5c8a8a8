/** The arguments of a call into the engine: records and text laid out in scratch memory by a bump
    allocator, and what a reader of those records finds. */
module EngineCall {
  import opened Bytes
  import opened ValueWire
  import opened WireWriter

  const TWO_31 := 0x8000_0000
  const TWO_32 := 0x1_0000_0000

  /** A JavaScript argument. An integral number comes with its IEEE 754 bits, since both go into the
      record; anything else than the documented kinds is `Other`. */
  datatype Arg =
    | Nothing
    | Truth(b: bool)
    | Fractional(bits: U64)
    | Integral(i: int, bits: U64)
    | Text(s: Bytes)
    | Other

  // The bump allocator.

  /** The conversion to a signed 32-bit integer that bit operations begin with. */
  function ToInt32(n: int): (r: int)
    ensures -TWO_31 <= r < TWO_31
  {
    var m := n % TWO_32;
    if m < TWO_31 then m else m - TWO_32
  }

  /** `(pos + 7) & ~7`. */
  function Align8(pos: int): (r: int)
    ensures r % 8 == 0 && -TWO_31 <= r < TWO_31
  {
    var x := ToInt32(pos + 7);
    x - x % 8
  }

  /** Up to 2 GiB aligning gives the next multiple of eight; from there to 4 GiB a negative number,
      and beyond a small one. */
  lemma AlignIs(pos: nat)
    requires pos <= TWO_32
    ensures pos + 7 < TWO_31 ==> pos <= Align8(pos) < pos + 8
    ensures TWO_31 <= pos + 7 < TWO_32 ==> Align8(pos) < 0
    ensures TWO_32 <= pos + 7 ==> Align8(pos) == 0
  {
  }

  lemma AlignTwice(pos: int)
    ensures Align8(Align8(pos)) == Align8(pos)
  {
  }

  // The layout.

  function TextOf(a: Arg): Bytes {
    if a.Text? then a.s else []
  }

  /** The text of all arguments, one after the other. */
  function Texts(args: seq<Arg>): Bytes {
    if args == [] then [] else Texts(args[..|args| - 1]) + TextOf(args[|args| - 1])
  }

  function ArgRecord(a: Arg, ptr: nat): (r: Bytes)
    ensures |r| == WIRE_SIZE
  {
    match a
    case Nothing => Header(TAG_NULL, 0, 0, 0)
    case Other => Header(TAG_NULL, 0, 0, 0)
    case Truth(b) => Header(TAG_BOOL, 0, if b then 1 else 0, 0)
    case Fractional(bits) => Header(TAG_NUM, 0, bits, 0)
    case Integral(_, bits) => Header(TAG_NUM, 1, bits, 0)
    case Text(s) => Header(TAG_STR, 0, ptr, |s|)
  }

  /** The records of all arguments; `start` is where their text begins. */
  function Records(args: seq<Arg>, start: nat): (r: Bytes)
    ensures |r| == WIRE_SIZE * |args|
  {
    if args == [] then []
    else
      var init := args[..|args| - 1];
      Records(init, start) + ArgRecord(args[|args| - 1], start + |Texts(init)|)
  }

  datatype Plan = Plan(argsBase: int, textBase: int, textEnd: int, outPtr: int)

  function PlanFor(base: nat, name: Bytes, args: seq<Arg>): Plan {
    var a := Align8(base + |name|);
    var t := a + WIRE_SIZE * |args|;
    var e := t + |Texts(args)|;
    Plan(a, t, e, Align8(e))
  }

  /** Everything has its place in a memory of this size. */
  predicate Fits(size: nat, base: nat, name: Bytes, args: seq<Arg>) {
    var p := PlanFor(base, name, args);
    base + |name| <= size && p.argsBase >= 0 && p.textEnd <= size && p.outPtr >= 0 && p.outPtr + WIRE_SIZE <= size
  }

  /** Memory as the engine finds it: the name, then the records and the text, then a blank result. */
  function Prepared(mem: Bytes, base: nat, name: Bytes, args: seq<Arg>): Bytes
    requires Fits(|mem|, base, name, args)
  {
    var p := PlanFor(base, name, args);
    Splice(Splice(Splice(mem, base, name), p.argsBase, Records(args, p.textBase) + Texts(args)),
           p.outPtr, Zeros(WIRE_SIZE))
  }

  /** Name, records, text and result follow one another: nothing overlaps, and records are aligned. */
  predicate Straight(base: nat, name: Bytes, args: seq<Arg>) {
    var p := PlanFor(base, name, args);
    base + |name| <= p.argsBase && p.textEnd <= p.outPtr && p.argsBase % 8 == 0 && p.outPtr % 8 == 0
  }

  /** What fits is laid out without overlap if and only if neither the end of the name nor the end of
      the text lies within seven bytes of 4 GiB, where aligning starts over at zero. In particular it
      always is in a memory below that. */
  lemma StraightIff(size: nat, base: nat, name: Bytes, args: seq<Arg>)
    requires size <= TWO_32 && Fits(size, base, name, args)
    ensures Straight(base, name, args) <==>
            base + |name| + 7 < TWO_32 && PlanFor(base, name, args).textEnd + 7 < TWO_32
  {
    hide Texts, Align8;
    AlignIs(base + |name|);
    AlignIs(PlanFor(base, name, args).textEnd);
  }

  lemma SmallMemoryIsStraight(size: nat, base: nat, name: Bytes, args: seq<Arg>)
    requires size + 7 < TWO_32 && Fits(size, base, name, args)
    ensures Straight(base, name, args)
  {
    hide Straight, Align8, Texts;
    StraightIff(size, base, name, args);
  }

  // What stands where.

  lemma SpliceKeeps(mem: Bytes, at: nat, part: Bytes, pos: nat, piece: Bytes)
    requires at + |part| <= |mem| && At(mem, pos, piece) && (pos + |piece| <= at || at + |part| <= pos)
    ensures At(Splice(mem, at, part), pos, piece)
  {
    var m := Splice(mem, at, part);
    forall k | 0 <= k < |piece| ensures m[pos..pos + |piece|][k] == piece[k] {
      assert mem[pos..pos + |piece|][k] == mem[pos + k];
      assert m[pos..pos + |piece|][k] == m[pos + k];
    }
  }

  /** The name, the block of records and text, and the blank result are all in place. */
  lemma InPlace(mem: Bytes, base: nat, name: Bytes, args: seq<Arg>)
    requires Fits(|mem|, base, name, args) && Straight(base, name, args)
    ensures var p, m := PlanFor(base, name, args), Prepared(mem, base, name, args);
            && At(m, base, name) && At(m, p.argsBase, Records(args, p.textBase) + Texts(args))
            && At(m, p.outPtr, Zeros(WIRE_SIZE))
  {
    hide Splice, At, Texts, Records, Align8, Zeros;
    var p := PlanFor(base, name, args);
    var block := Records(args, p.textBase) + Texts(args);
    var m1 := Splice(mem, base, name);
    var m2 := Splice(m1, p.argsBase, block);
    SpliceAt(mem, base, name);
    SpliceAt(m1, p.argsBase, block);
    SpliceAt(m2, p.outPtr, Zeros(WIRE_SIZE));
    SpliceKeeps(m1, p.argsBase, block, base, name);
    SpliceKeeps(m2, p.outPtr, Zeros(WIRE_SIZE), base, name);
    SpliceKeeps(m2, p.outPtr, Zeros(WIRE_SIZE), p.argsBase, block);
  }

  /** And nothing outside the scratch area has changed. */
  lemma OthersKept(mem: Bytes, base: nat, name: Bytes, args: seq<Arg>, i: nat)
    requires Fits(|mem|, base, name, args) && Straight(base, name, args) && i < |mem|
    requires i < base || PlanFor(base, name, args).outPtr + WIRE_SIZE <= i
    ensures |Prepared(mem, base, name, args)| == |mem| && Prepared(mem, base, name, args)[i] == mem[i]
  {
    hide Texts, Records, Align8, Zeros;
  }

  lemma {:induction false} RecordAt(mem: Bytes, args: seq<Arg>, base: nat, start: nat, i: nat)
    requires At(mem, base, Records(args, start)) && i < |args|
    ensures At(mem, base + WIRE_SIZE * i, ArgRecord(args[i], start + |Texts(args[..i])|))
    decreases |args|
  {
    hide At, ArgRecord, Texts;
    var n := |args| - 1;
    var init := args[..n];
    AtSplit(mem, base, Records(init, start), ArgRecord(args[n], start + |Texts(init)|));
    if i < n {
      assert init[..i] == args[..i];
      RecordAt(mem, init, base, start, i);
    }
  }

  lemma {:induction false} TextAtPlace(mem: Bytes, args: seq<Arg>, start: nat, i: nat)
    requires At(mem, start, Texts(args)) && i < |args|
    ensures At(mem, start + |Texts(args[..i])|, TextOf(args[i]))
    decreases |args|
  {
    hide At, TextOf;
    var n := |args| - 1;
    var init := args[..n];
    AtSplit(mem, start, Texts(init), TextOf(args[n]));
    if i < n {
      assert init[..i] == args[..i];
      TextAtPlace(mem, init, start, i);
    }
  }

  // Reading records back.

  /** `wireRead`: only flat values; anything else reads as null. */
  function WireRead(mem: Bytes, off: nat): Decoded<GVal> {
    if !Readable(mem, off) then Thrown
    else
      var tag, payload, len := mem[off], PayloadAt(mem, off), LenAt(mem, off);
      if tag == TAG_BOOL then Value(Bool(payload != 0))
      else if tag == TAG_NUM then
        var bits := payload % TWO_64;
        Value(Num(if mem[off + 1] % 2 == 1 then Integer(AsSigned(bits)) else Fraction(bits)))
      else if tag == TAG_STR || tag == TAG_ERR then
        if len == 0 then Value(Str([])) else TextAt(mem, payload, len, false)
      else Value(Null)
  }

  /** A row of records, as `gengo_native_call` reads its arguments. */
  function ReadArgs(mem: Bytes, pos: nat, count: nat): Decoded<seq<GVal>>
    decreases count
  {
    if count == 0 then Value([]) else Prepend(WireRead(mem, pos), ReadArgs(mem, pos + WIRE_SIZE, count - 1))
  }

  /** What a reader sees of an argument: an integral number as the integer with the bits of its double,
      text without its byte order mark. */
  function Seen(a: Arg): GVal {
    match a
    case Nothing => Null
    case Other => Null
    case Truth(b) => Bool(b)
    case Fractional(bits) => Num(Fraction(bits))
    case Integral(_, bits) => Num(Integer(AsSigned(bits)))
    case Text(s) => Str(DecodeText(s))
  }

  function SeenAll(args: seq<Arg>): seq<GVal> {
    seq(|args|, i requires 0 <= i < |args| => Seen(args[i]))
  }

  lemma ArgReads(mem: Bytes, off: nat, a: Arg, ptr: nat)
    requires At(mem, off, ArgRecord(a, ptr)) && At(mem, ptr, TextOf(a)) && |mem| <= TWO_32 && ptr > 0
    ensures WireRead(mem, off) == Value(Seen(a))
  {
    hide Header, At, PayloadAt, LenAt;
    AtLength(mem, ptr, TextOf(a));
    match a
    case Nothing => HeaderReads(mem, off, TAG_NULL, 0, 0, 0);
    case Other => HeaderReads(mem, off, TAG_NULL, 0, 0, 0);
    case Truth(b) => HeaderReads(mem, off, TAG_BOOL, 0, if b then 1 else 0, 0);
    case Fractional(bits) => HeaderReads(mem, off, TAG_NUM, 0, bits, 0);
    case Integral(_, bits) => HeaderReads(mem, off, TAG_NUM, 1, bits, 0);
    case Text(s) => TextReads(mem, off, s, ptr);
  }

  lemma TextReads(mem: Bytes, off: nat, s: Bytes, ptr: nat)
    requires At(mem, off, Header(TAG_STR, 0, ptr, |s|)) && At(mem, ptr, s) && |mem| <= TWO_32 && ptr > 0
    ensures WireRead(mem, off) == Value(Str(DecodeText(s)))
  {
    hide Header, PayloadAt, LenAt;
    AtLength(mem, off, Header(TAG_STR, 0, ptr, |s|));
    AtSlice(mem, ptr, s);
    HeaderReads(mem, off, TAG_STR, 0, ptr, |s|);
    if s == [] { assert DecodeText(s) == s; }
  }

  lemma {:induction false} ArgsRead(mem: Bytes, args: seq<Arg>, base: nat, start: nat, i: nat)
    requires At(mem, base, Records(args, start)) && At(mem, start, Texts(args)) && |mem| <= TWO_32 && i <= |args|
    requires args != [] ==> start > 0
    ensures ReadArgs(mem, base + WIRE_SIZE * i, |args| - i) == Value(SeenAll(args)[i..])
    decreases |args| - i
  {
    hide At, Records, Texts, ArgRecord, Seen, WireRead;
    var seen := SeenAll(args);
    if i < |args| {
      RecordAt(mem, args, base, start, i);
      TextAtPlace(mem, args, start, i);
      ArgReads(mem, base + WIRE_SIZE * i, args[i], start + |Texts(args[..i])|);
      ArgsRead(mem, args, base, start, i + 1);
      assert seen[i..] == [seen[i]] + seen[i + 1..];
    } else {
      assert seen[i..] == [];
    }
  }

  /** Reading the row of records that a call lays out gives every argument as it is seen, in order,
      however long the texts are. */
  lemma CallArgsRead(mem: Bytes, base: nat, name: Bytes, args: seq<Arg>)
    requires |mem| <= TWO_32 && Fits(|mem|, base, name, args) && Straight(base, name, args)
    ensures var m, at := Prepared(mem, base, name, args), PlanFor(base, name, args).argsBase;
            ReadArgs(m, at, |args|) == Value(SeenAll(args))
  {
    hide Prepared, At, Records, Texts, ReadArgs, SeenAll, PlanFor, Fits, Straight;
    InPlace(mem, base, name, args);
    PlanIs(|mem|, base, name, args);
    PreparedSize(mem, base, name, args);
    var p, m := PlanFor(base, name, args), Prepared(mem, base, name, args);
    var at: nat, text: nat := p.argsBase, p.textBase;
    AtSplit(m, at, Records(args, text), Texts(args));
    ArgsRead(m, args, at, text, 0);
    assert SeenAll(args)[0..] == SeenAll(args);
  }

  lemma PlanIs(size: nat, base: nat, name: Bytes, args: seq<Arg>)
    requires Fits(size, base, name, args)
    ensures var p := PlanFor(base, name, args);
            0 <= p.argsBase && p.textBase == p.argsBase + WIRE_SIZE * |args| && 0 <= p.outPtr
  {
    hide Align8, Texts;
  }

  lemma PreparedSize(mem: Bytes, base: nat, name: Bytes, args: seq<Arg>)
    requires Fits(|mem|, base, name, args)
    ensures |Prepared(mem, base, name, args)| == |mem|
  {
  }

  /** What an argument is; one of no documented kind counts as null. */
  function Meant(a: Arg): GVal {
    match a
    case Nothing => Null
    case Other => Null
    case Truth(b) => Bool(b)
    case Fractional(bits) => Num(Fraction(bits))
    case Integral(i, _) => Num(Integer(i))
    case Text(s) => Str(s)
  }

  /** Every argument is seen as what it is, but for integral numbers whose double bits are not the
      number itself and for text that begins with a byte order mark. */
  lemma SeenIff(a: Arg)
    ensures Seen(a) == Meant(a) <==> (a.Integral? ==> AsSigned(a.bits) == a.i) && (a.Text? ==> !(BOM <= a.s))
  {
    if a.Text? && BOM <= a.s { assert |DecodeText(a.s)| == |a.s| - 3; }
  }

  /** The number one is seen as 4607182418800017408. */
  lemma OneIsSeenWrong()
    ensures Seen(Integral(1, 0x3FF0_0000_0000_0000)) == Num(Integer(4607182418800017408)) != Num(Integer(1))
  {
  }

  // The call itself, up to the engine.

  lemma TextsSnoc(args: seq<Arg>, i: nat)
    requires i < |args|
    ensures Texts(args[..i + 1]) == Texts(args[..i]) + TextOf(args[i])
  {
    assert args[..i + 1][..i] == args[..i];
  }

  lemma RecordsSnoc(args: seq<Arg>, start: nat, i: nat)
    requires i < |args|
    ensures Records(args[..i + 1], start) ==
            Records(args[..i], start) + ArgRecord(args[i], start + |Texts(args[..i])|)
  {
    hide ArgRecord, Texts;
    assert args[..i + 1][..i] == args[..i];
  }

  lemma {:induction false} TextsGrow(args: seq<Arg>, i: nat)
    requires i <= |args|
    ensures |Texts(args[..i])| <= |Texts(args)|
    decreases |args| - i
  {
    if i < |args| {
      TextsGrow(args, i + 1);
      TextsSnoc(args, i);
    } else {
      assert args[..i] == args;
    }
  }

  /** The first i records are filled in, the others blank, and the first i texts follow. */
  function Partly(args: seq<Arg>, start: nat, i: nat): (r: Bytes)
    requires i <= |args|
    ensures |r| == WIRE_SIZE * |args| + |Texts(args[..i])|
  {
    Records(args[..i], start) + Zeros(WIRE_SIZE * (|args| - i)) + Texts(args[..i])
  }

  lemma PartlyEnds(args: seq<Arg>, start: nat)
    ensures Partly(args, start, 0) == Zeros(WIRE_SIZE * |args|)
    ensures Partly(args, start, |args|) == Records(args, start) + Texts(args)
  {
    assert args[..|args|] == args && args[..0] == [];
    assert Records(args, start) + Zeros(0) == Records(args, start);
  }

  /** Appending a text and filling in its record takes the block one argument further. */
  lemma PartlyStep(mem: Bytes, at: nat, args: seq<Arg>, start: nat, i: nat)
    requires i < |args| && at + |Partly(args, start, i + 1)| <= |mem|
    requires |Partly(args, start, i + 1)| == |Partly(args, start, i)| + |TextOf(args[i])|
    ensures var m := Splice(Splice(mem, at, Partly(args, start, i)), at + |Partly(args, start, i)|, TextOf(args[i]));
            var off := at + WIRE_SIZE * i;
            && At(m, off, Zeros(WIRE_SIZE))
            && Splice(m, off, ArgRecord(args[i], start + |Texts(args[..i])|)) ==
               Splice(mem, at, Partly(args, start, i + 1))
  {
    hide Splice, Records, Texts, TextOf, ArgRecord, At, Zeros;
    var done, text := Records(args[..i], start), TextOf(args[i]);
    var left := WIRE_SIZE * (|args| - i - 1);
    var tail := Zeros(left) + (Texts(args[..i]) + text);
    var record := ArgRecord(args[i], start + |Texts(args[..i])|);
    SpliceNext(mem, at, Partly(args, start, i), text);
    ZerosSplit(WIRE_SIZE, left);
    Regroup(done, Zeros(WIRE_SIZE), Zeros(left), Texts(args[..i]), text);
    var m := Splice(mem, at, done + Zeros(WIRE_SIZE) + tail);
    SpliceAt(mem, at, done + Zeros(WIRE_SIZE) + tail);
    AtSplit(m, at, done + Zeros(WIRE_SIZE), tail);
    AtSplit(m, at, done, Zeros(WIRE_SIZE));
    SplicePatch(mem, at, done, Zeros(WIRE_SIZE), tail, record);
    RecordsSnoc(args, start, i);
    TextsSnoc(args, i);
    Regroup2(done, record, Zeros(left), Texts(args[..i]), text);
  }

  lemma ZerosSplit(a: nat, b: nat)
    ensures Zeros(a + b) == Zeros(a) + Zeros(b)
  {
  }

  lemma Regroup(a: Bytes, b: Bytes, c: Bytes, d: Bytes, e: Bytes)
    ensures a + (b + c) + d + e == a + b + (c + (d + e))
  {
  }

  lemma Regroup2(a: Bytes, b: Bytes, c: Bytes, d: Bytes, e: Bytes)
    ensures a + b + c + (d + e) == a + b + (c + (d + e))
  {
  }

  lemma SpliceSelf(mem: Bytes, at: nat, part: Bytes)
    requires At(mem, at, part)
    ensures Splice(mem, at, part) == mem
  {
  }

  class Engine {
    const mem: array<Byte>
    const scratchBase: nat
    var scratchPos: int

    constructor (mem: array<Byte>, scratchBase: nat)
      ensures this.mem == mem && this.scratchBase == scratchBase
    {
      this.mem, this.scratchBase, this.scratchPos := mem, scratchBase, scratchBase;
    }

    method Bump(n: nat) returns (ptr: int)
      modifies this`scratchPos
      ensures ptr == old(scratchPos) && scratchPos == ptr + n
    {
      ptr := scratchPos;
      scratchPos := scratchPos + n;
    }

    /** The bytes of a string at the scratch position; fails where the view would lie outside memory. */
    method WriteString(s: Bytes) returns (ok: bool, ptr: int)
      modifies this`scratchPos, mem
      ensures ptr == old(scratchPos) && scratchPos == ptr + |s|
      ensures ok <==> 0 <= ptr && ptr + |s| <= mem.Length
      ensures ok ==> mem[..] == Splice(old(mem[..]), ptr, s)
    {
      ptr := Bump(|s|);
      ok := 0 <= ptr && ptr + |s| <= mem.Length;
      if ok { PutAt(mem, ptr, s); }
    }

    /** Fill in a blank record. */
    method SetRecord(off: nat, tag: Byte, flags: Byte, payload: nat, len: nat)
      requires At(mem[..], off, Zeros(WIRE_SIZE))
      modifies mem
      ensures mem[..] == Splice(old(mem[..]), off, Header(tag, flags, payload, len))
    {
      hide Le, Splice, At, Zeros, Header;
      ghost var m := mem[..];
      AtLength(m, off, Zeros(WIRE_SIZE));
      SpliceSelf(m, off, Zeros(WIRE_SIZE));
      SetTag(off, tag, flags, m);
      PatchHeader(mem, off, payload, len, m, tag, flags);
    }

    method SetTag(off: nat, tag: Byte, flags: Byte, ghost m: Bytes)
      requires off + WIRE_SIZE <= mem.Length == |m| && mem[..] == Splice(m, off, Zeros(WIRE_SIZE))
      modifies mem
      ensures mem[..] == Splice(m, off, Header(tag, flags, 0, 0))
    {
      hide Splice, Zeros, Header;
      ghost var rest := Zeros(6) + Le(0, 8) + Le(0, 4) + Le(0, 4);
      BlankIs(tag, flags);
      PutAt(mem, off, [tag]);
      SplicePatch(m, off, [], [0], [0] + rest, [tag]);
      PutAt(mem, off + 1, [flags]);
      SplicePatch(m, off, [tag], [0], rest, [flags]);
    }

    static lemma BlankIs(tag: Byte, flags: Byte)
      ensures var rest := Zeros(6) + Le(0, 8) + Le(0, 4) + Le(0, 4);
              && Zeros(WIRE_SIZE) == [] + [0] + ([0] + rest)
              && [] + [tag] + ([0] + rest) == [tag] + [0] + rest
              && Header(tag, flags, 0, 0) == [tag] + [flags] + rest
    {
      NoughtsOf(8);
      NoughtsOf(4);
    }

    static lemma {:induction false} NoughtsOf(k: nat)
      ensures Le(0, k) == Zeros(k)
    {
      if k > 0 { NoughtsOf(k - 1); }
    }

    /** The record of one argument; the text, if it is one, goes to the scratch position. */
    method WriteArg(a: Arg, off: nat, ghost m: Bytes) returns (ok: bool)
      requires 0 <= scratchPos <= mem.Length == |m| && mem[..] == m && off + WIRE_SIZE <= scratchPos
      requires At(m, off, Zeros(WIRE_SIZE))
      modifies this`scratchPos, mem
      ensures scratchPos == old(scratchPos) + |TextOf(a)|
      ensures ok <==> scratchPos <= mem.Length
      ensures ok ==> mem[..] == Splice(Splice(m, old(scratchPos), TextOf(a)), off, ArgRecord(a, old(scratchPos)))
    {
      hide Splice, At, Header, Zeros;
      ok := true;
      if a.Text? {
        var ptr;
        ok, ptr := WriteString(a.s);
        if !ok { return; }
        SpliceKeeps(m, ptr, a.s, off, Zeros(WIRE_SIZE));
        SetRecord(off, TAG_STR, 0, ptr, |a.s|);
        return;
      }
      SpliceNothing(m, scratchPos);
      match a
      case Nothing => SetRecord(off, TAG_NULL, 0, 0, 0);
      case Other => SetRecord(off, TAG_NULL, 0, 0, 0);
      case Truth(b) => SetRecord(off, TAG_BOOL, 0, if b then 1 else 0, 0);
      case Fractional(bits) => SetRecord(off, TAG_NUM, 0, bits, 0);
      case Integral(_, bits) => SetRecord(off, TAG_NUM, 1, bits, 0);
    }

    /** The loop over the arguments. */
    method WriteArgs(args: seq<Arg>, argsBase: nat, ghost m: Bytes) returns (ok: bool)
      requires scratchPos == argsBase + WIRE_SIZE * |args| <= mem.Length == |m|
      requires mem[..] == Splice(m, argsBase, Zeros(WIRE_SIZE * |args|))
      modifies this`scratchPos, mem
      ensures ok <==> old(scratchPos) + |Texts(args)| <= mem.Length
      ensures ok ==> scratchPos == old(scratchPos) + |Texts(args)|
      ensures ok ==> mem[..] == Splice(m, argsBase, Records(args, old(scratchPos)) + Texts(args))
    {
      hide Splice, Records, Texts, TextOf, ArgRecord, At, Zeros, Partly;
      var start: nat := scratchPos;
      PartlyEnds(args, start);
      assert args[..0] == [] && args[..|args|] == args;
      NoText();
      for i := 0 to |args|
        invariant scratchPos == start + |Texts(args[..i])| <= mem.Length
        invariant mem[..] == Splice(m, argsBase, Partly(args, start, i))
      {
        TextsSnoc(args, i);
        TextsGrow(args, i + 1);
        ghost var before := mem[..];
        BlankNext(m, argsBase, args, start, i);
        ok := WriteArg(args[i], argsBase + WIRE_SIZE * i, before);
        if !ok { return; }
        PartlyStep(m, argsBase, args, start, i);
      }
      ok := true;
    }

    static lemma NoText()
      ensures Texts([]) == []
    {
    }

    /** The next record is still blank. */
    static lemma BlankNext(mem: Bytes, at: nat, args: seq<Arg>, start: nat, i: nat)
      requires i < |args| && at + |Partly(args, start, i)| <= |mem|
      ensures At(Splice(mem, at, Partly(args, start, i)), at + WIRE_SIZE * i, Zeros(WIRE_SIZE))
    {
      hide Splice, Records, Texts, At, Zeros;
      var left := WIRE_SIZE * (|args| - i - 1);
      var done, texts := Records(args[..i], start), Texts(args[..i]);
      var m := Splice(mem, at, Partly(args, start, i));
      SpliceAt(mem, at, Partly(args, start, i));
      ZerosSplit(WIRE_SIZE, left);
      assert done + (Zeros(WIRE_SIZE) + Zeros(left)) + texts == done + Zeros(WIRE_SIZE) + (Zeros(left) + texts);
      AtSplit(m, at, done + Zeros(WIRE_SIZE), Zeros(left) + texts);
      AtSplit(m, at, done, Zeros(WIRE_SIZE));
    }

    /** Blank bytes, one by one; fails where one of them lies outside memory. */
    method Blank(at: int, n: nat) returns (ok: bool)
      modifies mem
      ensures ok <==> n == 0 || (0 <= at && at + n <= mem.Length)
      ensures ok && n > 0 ==> mem[..] == Splice(old(mem[..]), at, Zeros(n))
      ensures n == 0 ==> mem[..] == old(mem[..])
    {
      ok := n == 0 || (0 <= at && at + n <= mem.Length);
      if ok && n > 0 { PutAt(mem, at, Zeros(n)); }
    }

    /** `call` up to the engine: succeeds exactly when everything fits, and then memory is as planned. */
    method Prepare(name: Bytes, args: seq<Arg>) returns (ok: bool, argsBase: int, outPtr: int)
      requires mem.Length <= TWO_32
      modifies this`scratchPos, mem
      ensures ok <==> Fits(mem.Length, scratchBase, name, args)
      ensures ok ==> var p := PlanFor(scratchBase, name, args);
                     && argsBase == p.argsBase && outPtr == p.outPtr
                     && mem[..] == Prepared(old(mem[..]), scratchBase, name, args)
    {
      hide Splice, Records, Texts, Align8, Zeros;
      ghost var m := mem[..];
      scratchPos := scratchBase;
      var namePtr;
      ok, namePtr := WriteString(name);
      argsBase := 0;
      outPtr := 0;
      if !ok { return; }
      ghost var named := mem[..];
      scratchPos := Align8(scratchPos);
      argsBase := Bump(WIRE_SIZE * |args|);
      ok := Blank(argsBase, WIRE_SIZE * |args|);
      if !ok { return; }
      if |args| > 0 {
        ok := WriteArgs(args, argsBase, named);
        if !ok { return; }
      } else {
        NoArgs(args, named, argsBase);
        AlignTwice(scratchBase + |name|);
      }
      scratchPos := Align8(scratchPos);
      outPtr := Bump(WIRE_SIZE);
      ok := Blank(outPtr, WIRE_SIZE);
    }

    static lemma NoArgs(args: seq<Arg>, mem: Bytes, at: int)
      requires args == []
      ensures Texts(args) == []
      ensures 0 <= at <= |mem| ==> Splice(mem, at, Records(args, at) + Texts(args)) == mem
    {
    }
  }
}
