/** The length-prefixed frames between the function service and its worker processes. */
module WorkerFrames {
  import opened Bytes

  const MAX_RESPONSE := 128 * 1024

  datatype Frame = Frame(kind: Byte, fields: seq<Bytes>)

  function EncodeFields(fields: seq<Bytes>): Bytes {
    if fields == [] then [] else Le(|fields[0]|, 4) + fields[0] + EncodeFields(fields[1..])
  }

  function Encode(f: Frame): Bytes {
    [f.kind, |f.fields| % 256] + EncodeFields(f.fields)
  }

  function Total(fields: seq<Bytes>): nat {
    if fields == [] then 0 else |fields[0]| + Total(fields[1..])
  }

  /** What comes before field i. */
  function FieldsSize(fields: seq<Bytes>): nat {
    if fields == [] then 0 else 4 + |fields[0]| + FieldsSize(fields[1..])
  }

  /** A length in four bytes, the low one first. */
  lemma LengthBytes(n: nat)
    ensures Le(n, 4) == [n % 256, n / 256 % 256, n / 256 / 256 % 256, n / 256 / 256 / 256 % 256]
  {
    var a, b, c := n / 256, n / 256 / 256, n / 256 / 256 / 256;
    assert Le(c, 1) == [c % 256];
    assert Le(b, 2) == [b % 256, c % 256];
    assert Le(a, 3) == [a % 256, b % 256, c % 256];
  }

  lemma {:induction false} FieldStands(fields: seq<Bytes>, i: nat)
    requires i < |fields|
    ensures At(EncodeFields(fields), FieldsSize(fields[..i]), Le(|fields[i]|, 4) + fields[i])
    decreases fields
  {
    hide Le;
    var first, rest := Le(|fields[0]|, 4) + fields[0], EncodeFields(fields[1..]);
    if i == 0 {
      assert fields[..0] == [] && (first + rest)[..|first|] == first;
    } else {
      FieldStands(fields[1..], i - 1);
      assert fields[..i][1..] == fields[1..][..i - 1];
      AtInSuffix(first, rest, FieldsSize(fields[1..][..i - 1]), Le(|fields[i]|, 4) + fields[i]);
    }
  }

  /** A frame on the wire: the kind, the number of fields, and each field behind its length. */
  lemma FrameStands(f: Frame, i: nat)
    requires |f.fields| <= 255 && i < |f.fields|
    ensures Encode(f)[0] == f.kind && Encode(f)[1] == |f.fields|
    ensures var n, at := |f.fields[i]|, 2 + FieldsSize(f.fields[..i]);
            At(Encode(f), at, [n % 256, n / 256 % 256, n / 256 / 256 % 256, n / 256 / 256 / 256 % 256] + f.fields[i])
  {
    hide Le, EncodeFields, At;
    LengthBytes(|f.fields[i]|);
    FieldStands(f.fields, i);
    AtInSuffix([f.kind, |f.fields| % 256], EncodeFields(f.fields), FieldsSize(f.fields[..i]),
               Le(|f.fields[i]|, 4) + f.fields[i]);
  }

  // Writing.

  /** The writer refuses a frame of more than 255 fields, or with a field over the limit. */
  predicate Sendable(f: Frame) {
    |f.fields| <= 255 && forall i :: 0 <= i < |f.fields| ==> |f.fields[i]| <= MAX_RESPONSE
  }

  lemma {:induction false} EncodeFieldsSnoc(fields: seq<Bytes>, last: Bytes)
    ensures EncodeFields(fields + [last]) == EncodeFields(fields) + (Le(|last|, 4) + last)
  {
    hide Le;
    if fields == [] {
      assert [] + [last] == [last] && [last][1..] == [];
      assert EncodeFields([]) == [];
    } else {
      assert (fields + [last])[1..] == fields[1..] + [last];
      EncodeFieldsSnoc(fields[1..], last);
    }
  }

  /** `writeWorkerFrame` into a growing stream: the whole frame, or an error with a proper prefix of one written. */
  method WriteWorkerFrame(stream: Bytes, f: Frame) returns (ok: bool, out: Bytes)
    ensures ok <==> Sendable(f)
    ensures ok <==> |f.fields| <= 255 && forall i :: 0 <= i < |f.fields| ==> |f.fields[i]| <= 131072
    ensures ok ==> out == stream + Encode(f)
    ensures !ok ==>
              || out == stream
              || exists n :: && 0 <= n < |f.fields|
                             && out == stream + [f.kind, |f.fields| % 256] + EncodeFields(f.fields[..n])
  {
    hide Le;
    out := stream;
    if |f.fields| > 255 { return false, out; }
    out := out + [f.kind, |f.fields|];
    ghost var prefix := out;
    assert f.fields[..0] == [];
    for i := 0 to |f.fields|
      invariant forall k :: 0 <= k < i ==> |f.fields[k]| <= MAX_RESPONSE
      invariant out == prefix + EncodeFields(f.fields[..i])
    {
      var field := f.fields[i];
      if |field| > MAX_RESPONSE { return false, out; }
      EncodeFieldsSnoc(f.fields[..i], field);
      assert f.fields[..i + 1] == f.fields[..i] + [field];
      out := out + Le(|field|, 4);
      out := out + field;
    }
    assert f.fields[..|f.fields|] == f.fields;
    ok := true;
  }

  // Reading.

  datatype Reading<+T> =
    | Read(value: T, rest: Bytes)
    | Short                        // the stream ends inside the frame
    | OverLimit

  /** The remaining fields, with `budget` bytes of the limit left. */
  function ReadFields(s: Bytes, count: nat, budget: nat): (r: Reading<seq<Bytes>>)
    ensures r.Read? ==> |r.value| == count && Total(r.value) <= budget
    decreases count
  {
    if count == 0 then Read([], s)
    else if |s| < 4 then Short
    else
      var size := FromLe(s[..4]);
      if size > budget then OverLimit
      else if |s| < 4 + size then Short
      else
        var r := ReadFields(s[4 + size..], count - 1, budget - size);
        if r.Read? then Read([s[4..4 + size]] + r.value, r.rest) else r
  }

  function ReadFrame(s: Bytes, maximum: nat): Reading<Frame> {
    if |s| < 2 then Short
    else
      var r := ReadFields(s[2..], s[1], maximum);
      match r
      case Read(fields, rest) => Read(Frame(s[0], fields), rest)
      case Short => Short
      case OverLimit => OverLimit
  }

  ghost function Prepend(fields: seq<Bytes>, r: Reading<seq<Bytes>>): Reading<seq<Bytes>> {
    if r.Read? then Read(fields + r.value, r.rest) else r
  }

  lemma PrependNone(r: Reading<seq<Bytes>>)
    ensures Prepend([], r) == r
  {
    if r.Read? { assert [] + r.value == r.value; }
  }

  /** One turn of the reading loop: where it stops, and how a field moves from the unread part to the read part. */
  lemma ReadStep(fields: seq<Bytes>, s: Bytes, count: nat, budget: nat)
    ensures var all := Prepend(fields, ReadFields(s, count, budget));
            if count == 0 then all == Read(fields, s)
            else if |s| < 4 then all == Short
            else
              var size := FromLe(s[..4]);
              if size > budget then all == OverLimit
              else if |s| < 4 + size then all == Short
              else all == Prepend(fields + [s[4..4 + size]], ReadFields(s[4 + size..], count - 1, budget - size))
  {
    hide FromLe;
    if count == 0 {
      assert fields + [] == fields;
    } else if |s| >= 4 && FromLe(s[..4]) <= budget && |s| >= 4 + FromLe(s[..4]) {
      var size := FromLe(s[..4]);
      var r := ReadFields(s[4 + size..], count - 1, budget - size);
      if r.Read? {
        assert fields + ([s[4..4 + size]] + r.value) == fields + [s[4..4 + size]] + r.value;
      }
    }
  }

  /** `readWorkerFrame`, with its running total. */
  method ReadWorkerFrame(stream: Bytes, maximum: nat) returns (r: Reading<Frame>)
    ensures r == ReadFrame(stream, maximum)
  {
    hide FromLe, ReadFields, Prepend;
    if |stream| < 2 { return Short; }
    var kind, count := stream[0], stream[1];
    var rest := stream[2..];
    var fields: seq<Bytes> := [];
    var total := 0;
    ghost var want := ReadFields(rest, count, maximum);
    PrependNone(want);
    while |fields| < count
      invariant |fields| <= count && 0 <= total <= maximum
      invariant Prepend(fields, ReadFields(rest, count - |fields|, maximum - total)) == want
      decreases count - |fields|
    {
      ReadStep(fields, rest, count - |fields|, maximum - total);
      if |rest| < 4 { return Short; }
      var size := FromLe(rest[..4]);
      if size > maximum - total { return OverLimit; }
      if |rest| < 4 + size { return Short; }
      fields := fields + [rest[4..4 + size]];
      rest := rest[4 + size..];
      total := total + size;
    }
    ReadStep(fields, rest, 0, maximum - total);
    return Read(Frame(kind, fields), rest);
  }

  // Round trip.

  lemma LengthReads(field: Bytes, tail: Bytes)
    requires |field| < 0x1_0000_0000
    ensures var s := Le(|field|, 4) + field + tail;
            FromLe(s[..4]) == |field| && s[4..4 + |field|] == field && s[4 + |field|..] == tail
  {
    Pow256Values();
    LeRoundTrip(|field|, 4);
    hide Le;
    var s := Le(|field|, 4) + field + tail;
    assert s[..4] == Le(|field|, 4);
  }

  lemma {:induction false} FieldsRoundTrip(fields: seq<Bytes>, rest: Bytes, budget: nat)
    requires forall i :: 0 <= i < |fields| ==> |fields[i]| < 0x1_0000_0000
    ensures ReadFields(EncodeFields(fields) + rest, |fields|, budget) ==
            if Total(fields) <= budget then Read(fields, rest) else OverLimit
    decreases fields
  {
    hide Le, FromLe;
    if fields == [] {
      assert EncodeFields(fields) + rest == rest;
    } else {
      var first, others := fields[0], fields[1..];
      var tail := EncodeFields(others) + rest;
      var s := Le(|first|, 4) + first + tail;
      assert EncodeFields(fields) + rest == s;
      LengthReads(first, tail);
      assert fields == [first] + others;
      if |first| <= budget {
        FieldsRoundTrip(others, rest, budget - |first|);
      }
    }
  }

  /** A written frame is read back, with the rest of the stream untouched, exactly when its fields
      total at most the reader's maximum; otherwise the reader refuses it. */
  lemma FrameRoundTrip(f: Frame, rest: Bytes, maximum: nat)
    requires |f.fields| <= 255 && forall i :: 0 <= i < |f.fields| ==> |f.fields[i]| < 0x1_0000_0000
    ensures ReadFrame(Encode(f) + rest, maximum) == if Total(f.fields) <= maximum then Read(f, rest) else OverLimit
  {
    hide EncodeFields, ReadFields;
    var s := Encode(f) + rest;
    assert s[2..] == EncodeFields(f.fields) + rest;
    FieldsRoundTrip(f.fields, rest, maximum);
  }

  /** What a reader takes for the fields is their encoding. */
  lemma {:induction false} FieldsRead(s: Bytes, count: nat, budget: nat)
    requires ReadFields(s, count, budget).Read?
    ensures var r := ReadFields(s, count, budget);
            && s == EncodeFields(r.value) + r.rest
            && forall i :: 0 <= i < count ==> |r.value[i]| < 0x1_0000_0000
    decreases count
  {
    hide Le, FromLe, ReadFields, EncodeFields;
    if count == 0 {
      NoFieldRead(s, budget);
    } else {
      var first, rest := FirstFieldRead(s, count, budget);
      FieldsRead(s[4 + |first|..], count - 1, budget - |first|);
      FieldFirst(first, rest.value);
      var head, others := Le(|first|, 4) + first, EncodeFields(rest.value);
      assert head + others + rest.rest == head + (others + rest.rest);
      assert forall i :: 0 < i < count ==> ([first] + rest.value)[i] == rest.value[i - 1];
    }
  }

  lemma NoFieldRead(s: Bytes, budget: nat)
    ensures ReadFields(s, 0, budget) == Read([], s) && EncodeFields([]) + s == s
  {
  }

  lemma FirstFieldRead(s: Bytes, count: nat, budget: nat) returns (first: Bytes, rest: Reading<seq<Bytes>>)
    requires count > 0 && ReadFields(s, count, budget).Read?
    ensures |first| <= budget && |first| < 0x1_0000_0000 && 4 + |first| <= |s|
    ensures s == Le(|first|, 4) + first + s[4 + |first|..]
    ensures rest == ReadFields(s[4 + |first|..], count - 1, budget - |first|)
    ensures rest.Read? && ReadFields(s, count, budget) == Read([first] + rest.value, rest.rest)
  {
    hide Le, FromLe;
    var size := FromLe(s[..4]);
    LengthIs(s[..4]);
    first := s[4..4 + size];
    rest := ReadFields(s[4 + size..], count - 1, budget - size);
    InThree(s, 4, 4 + size);
  }

  lemma LengthIs(s: Bytes)
    requires |s| == 4
    ensures FromLe(s) < 0x1_0000_0000 && Le(FromLe(s), 4) == s
  {
    hide Le, FromLe;
    Pow256Values();
    LeOfFromLe(s);
  }

  lemma FieldFirst(first: Bytes, others: seq<Bytes>)
    ensures EncodeFields([first] + others) == Le(|first|, 4) + first + EncodeFields(others)
  {
    hide Le;
    assert ([first] + others)[1..] == others;
  }

  /** On any input, exactly the written frames that fit the limit are read, and nothing else is. */
  lemma ReadsIff(s: Bytes, f: Frame, rest: Bytes, maximum: nat)
    ensures ReadFrame(s, maximum) == Read(f, rest) <==>
            && s == Encode(f) + rest && |f.fields| <= 255 && Total(f.fields) <= maximum
            && forall i :: 0 <= i < |f.fields| ==> |f.fields[i]| < 0x1_0000_0000
  {
    hide EncodeFields, ReadFields;
    if ReadFrame(s, maximum) == Read(f, rest) {
      FieldsRead(s[2..], s[1], maximum);
      assert s == s[..2] + s[2..];
      assert s[..2] == [f.kind, |f.fields| % 256];
    }
    if && s == Encode(f) + rest && |f.fields| <= 255 && Total(f.fields) <= maximum
       && forall i :: 0 <= i < |f.fields| ==> |f.fields[i]| < 0x1_0000_0000 {
      FrameRoundTrip(f, rest, maximum);
    }
  }

  /** The fields cut off anywhere before their end. */
  lemma {:induction false} FieldsCutShort(fields: seq<Bytes>, n: nat, budget: nat)
    requires forall i :: 0 <= i < |fields| ==> |fields[i]| < 0x1_0000_0000
    requires n < |EncodeFields(fields)| && Total(fields) <= budget
    ensures ReadFields(EncodeFields(fields)[..n], |fields|, budget) == Short
    decreases fields
  {
    hide Le, FromLe;
    var first, others := fields[0], fields[1..];
    var tail := EncodeFields(others);
    var all, s := EncodeFields(fields), EncodeFields(fields)[..n];
    assert all == Le(|first|, 4) + first + tail;
    LengthReads(first, tail);
    if n >= 4 {
      assert s[..4] == all[..4];
      if n >= 4 + |first| {
        assert s[4 + |first|..] == tail[..n - 4 - |first|];
        FieldsCutShort(others, n - 4 - |first|, budget - |first|);
      }
    }
  }

  /** A frame cut off anywhere before its end is never taken for a frame. */
  lemma FrameCutShort(f: Frame, n: nat, maximum: nat)
    requires |f.fields| <= 255 && forall i :: 0 <= i < |f.fields| ==> |f.fields[i]| < 0x1_0000_0000
    requires n < |Encode(f)| && Total(f.fields) <= maximum
    ensures ReadFrame(Encode(f)[..n], maximum) == Short
  {
    hide EncodeFields, ReadFields;
    if n >= 2 {
      assert Encode(f)[..n][2..] == EncodeFields(f.fields)[..n - 2];
      FieldsCutShort(f.fields, n - 2, maximum);
    }
  }

  function EncodeAll(fs: seq<Frame>): Bytes {
    if fs == [] then [] else Encode(fs[0]) + EncodeAll(fs[1..])
  }

  function ReadAll(s: Bytes, maximum: nat, count: nat): Reading<seq<Frame>>
    decreases count
  {
    if count == 0 then Read([], s)
    else
      match ReadFrame(s, maximum)
      case Short => Short
      case OverLimit => OverLimit
      case Read(f, rest) =>
        var r := ReadAll(rest, maximum, count - 1);
        if r.Read? then Read([f] + r.value, r.rest) else r
  }

  /** Any stream of frames within the limits is read back as the same frames. */
  lemma {:induction false} StreamRoundTrip(fs: seq<Frame>, rest: Bytes, maximum: nat)
    requires forall i :: 0 <= i < |fs| ==> Sendable(fs[i]) && Total(fs[i].fields) <= maximum
    ensures ReadAll(EncodeAll(fs) + rest, maximum, |fs|) == Read(fs, rest)
    decreases fs
  {
    hide Encode, ReadFrame;
    if fs == [] {
      assert EncodeAll(fs) + rest == rest;
    } else {
      var tail := EncodeAll(fs[1..]) + rest;
      assert EncodeAll(fs) + rest == Encode(fs[0]) + tail;
      FrameRoundTrip(fs[0], tail, maximum);
      StreamRoundTrip(fs[1..], rest, maximum);
      assert fs == [fs[0]] + fs[1..];
    }
  }
}
