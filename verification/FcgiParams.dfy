/** FastCGI name-value pairs (section 3.4 of the FastCGI Specification 1.0): the gateway's
    encoder, the responder's decoder, and what the responder keeps of the decoded pairs. */
module FcgiParams {
  import opened Bytes

  const MAX_METHOD := 32
  const MAX_PATH := 4096
  const MAX_QUERY := 4096

  datatype Pair = Pair(name: Bytes, value: Bytes)

  // The gateway's encoder.

  function Be32(n: nat): (r: Bytes)
    requires n < 0x1_0000_0000
    ensures |r| == 4
  {
    [n / 0x100_0000, n / 0x1_0000 % 256, n / 256 % 256, n % 256]
  }

  /** One byte below 128, otherwise four bytes with the top bit set. `struct.pack(">I", ...)`
      raises on a number of 33 bits or more; between 2^31 and 2^32 setting the top bit changes nothing. */
  function EncodeLength(n: nat): Option<Bytes> {
    if n < 128 then Some([n])
    else if n < 0x8000_0000 then Some(Be32(n + 0x8000_0000))
    else if n < 0x1_0000_0000 then Some(Be32(n))
    else None
  }

  function NameValue(p: Pair): Option<Bytes> {
    var a, b := EncodeLength(|p.name|), EncodeLength(|p.value|);
    if a.None? || b.None? then None else Some(a.value + b.value + p.name + p.value)
  }

  function EncodePairs(ps: seq<Pair>): Option<Bytes> {
    if ps == [] then Some([])
    else
      var a, b := NameValue(ps[0]), EncodePairs(ps[1..]);
      if a.None? || b.None? then None else Some(a.value + b.value)
  }

  // The responder's decoder.

  datatype Length = Length(len: nat, rest: Bytes)

  function DecodeLength(s: Bytes): (r: Option<Length>)
    ensures r.Some? ==> |r.value.rest| < |s| && r.value.rest == s[|s| - |r.value.rest|..]
  {
    if s == [] then None
    else if s[0] < 128 then Some(Length(s[0], s[1..]))
    else if |s| < 4 then None
    else
      var a: int, b: int, c: int, d: int := s[0], s[1], s[2], s[3];
      Some(Length((a - 128) * 0x100_0000 + b * 0x1_0000 + c * 256 + d, s[4..]))
  }

  datatype Head = Head(pair: Pair, rest: Bytes)

  /** The first pair of a block, or None when it is malformed. */
  function DecodePair(s: Bytes): (r: Option<Head>)
    ensures r.Some? ==> |r.value.rest| < |s|
  {
    var n := DecodeLength(s);
    if n.None? then None
    else
      var v := DecodeLength(n.value.rest);
      if v.None? || n.value.len + v.value.len > |v.value.rest| then None
      else
        var nl, vl, rest := n.value.len, v.value.len, v.value.rest;
        Some(Head(Pair(rest[..nl], rest[nl..nl + vl]), rest[nl + vl..]))
  }

  function DecodePairs(s: Bytes): Option<seq<Pair>>
    decreases |s|
  {
    if s == [] then Some([])
    else
      var h := DecodePair(s);
      if h.None? then None
      else
        var t := DecodePairs(h.value.rest);
        if t.None? then None else Some([h.value.pair] + t.value)
  }

  ghost predicate Encodable(p: Pair) {
    |p.name| < 0x8000_0000 && |p.value| < 0x8000_0000
  }

  lemma LengthRoundTrip(n: nat, rest: Bytes)
    requires n < 0x8000_0000
    ensures EncodeLength(n).Some?
    ensures DecodeLength(EncodeLength(n).value + rest) == Some(Length(n, rest))
  {
    if n >= 128 { OfBytes(n + 0x8000_0000); }
    FormDecodes(EncodeLength(n).value, n, rest);
  }

  /** The two forms a length can have on the wire; a small one may also be written in four bytes. */
  ghost predicate LengthForm(form: Bytes, n: nat) {
    || (n < 128 && form == [n])
    || (|form| == 4 && form[0] >= 128
        && n == (form[0] - 128) as int * 0x100_0000 + form[1] as int * 0x1_0000
                + form[2] as int * 0x100 + form[3] as int)
  }

  /** A length is decoded exactly from one of its forms, whatever follows. */
  lemma LengthIff(s: Bytes, n: nat, rest: Bytes)
    ensures DecodeLength(s) == Some(Length(n, rest)) <==> exists form :: LengthForm(form, n) && s == form + rest
  {
    hide DecodeLength, LengthForm;
    if DecodeLength(s) == Some(Length(n, rest)) {
      var form := FormOf(s, n, rest);
    }
    forall form | LengthForm(form, n) && s == form + rest ensures DecodeLength(s) == Some(Length(n, rest)) {
      FormDecodes(form, n, rest);
    }
  }

  lemma FormOf(s: Bytes, n: nat, rest: Bytes) returns (form: Bytes)
    requires DecodeLength(s) == Some(Length(n, rest))
    ensures LengthForm(form, n) && s == form + rest
  {
    if s[0] < 128 {
      form := [s[0]];
    } else {
      form := [s[0], s[1], s[2], s[3]];
    }
  }

  lemma OfBytes(n: nat)
    ensures n == n / 0x100_0000 * 0x100_0000 + n / 0x1_0000 % 256 * 0x1_0000 + n / 256 % 256 * 256 + n % 256
  {
    Nested(n, 256);
    Nested(n, 0x1_0000);
    var y := n / 256;
    var x := y / 256;
    assert x == x / 256 * 256 + x % 256 && y == x * 256 + y % 256 && n == y * 256 + n % 256;
  }

  lemma Nested(n: nat, d: nat)
    requires d == 256 || d == 0x1_0000
    ensures n / (d * 256) == n / d / 256
  {
    var q := n / d / 256;
    assert q * 256 <= n / d < q * 256 + 256;
    if d == 256 {
      assert q * 0x1_0000 <= n < q * 0x1_0000 + 0x1_0000;
    } else {
      assert q * 0x100_0000 <= n < q * 0x100_0000 + 0x100_0000;
    }
  }

  lemma FormDecodes(form: Bytes, n: nat, rest: Bytes)
    requires LengthForm(form, n)
    ensures DecodeLength(form + rest) == Some(Length(n, rest))
  {
    var s := form + rest;
    assert s[..|form|] == form && s[|form|..] == rest;
    assert forall i :: 0 <= i < |form| ==> s[i] == form[i];
  }

  /** A pair on the wire: the two lengths in either form, then name and value. */
  ghost predicate PairForm(s: Bytes, a: Bytes, b: Bytes, p: Pair, rest: Bytes) {
    LengthForm(a, |p.name|) && LengthForm(b, |p.value|) && s == a + b + p.name + p.value + rest
  }

  lemma PairFormDecodes(s: Bytes, a: Bytes, b: Bytes, p: Pair, rest: Bytes)
    requires PairForm(s, a, b, p, rest)
    ensures DecodePair(s) == Some(Head(p, rest))
  {
    hide DecodeLength, LengthForm;
    assert s == a + (b + (p.name + p.value + rest));
    FormDecodes(a, |p.name|, b + (p.name + p.value + rest));
    FormDecodes(b, |p.value|, p.name + p.value + rest);
    Pieces(p.name, p.value, rest);
  }

  lemma Pieces(a: Bytes, b: Bytes, c: Bytes)
    ensures var s := a + b + c;
            s[..|a|] == a && s[|a|..|a| + |b|] == b && s[|a| + |b|..] == c
  {
  }

  lemma DecodedPairForm(s: Bytes) returns (a: Bytes, b: Bytes)
    requires DecodePair(s).Some?
    ensures PairForm(s, a, b, DecodePair(s).value.pair, DecodePair(s).value.rest)
  {
    hide DecodeLength, LengthForm;
    var n := DecodeLength(s).value;
    var v := DecodeLength(n.rest).value;
    a := FormOf(s, n.len, n.rest);
    b := FormOf(n.rest, v.len, v.rest);
    InThree(v.rest, n.len, n.len + v.len);
    var h := DecodePair(s).value;
    Regrouped(a, b, h.pair.name, h.pair.value, h.rest);
  }

  lemma Regrouped(a: Bytes, b: Bytes, c: Bytes, d: Bytes, e: Bytes)
    ensures a + (b + (c + d + e)) == a + b + c + d + e
  {
  }

  /** A pair is decoded exactly from one of its forms. */
  lemma PairIff(s: Bytes, p: Pair, rest: Bytes)
    ensures DecodePair(s) == Some(Head(p, rest)) <==> exists a, b :: PairForm(s, a, b, p, rest)
  {
    hide DecodePair, PairForm;
    if DecodePair(s) == Some(Head(p, rest)) {
      var a, b := DecodedPairForm(s);
    }
    forall a, b | PairForm(s, a, b, p, rest) ensures DecodePair(s) == Some(Head(p, rest)) {
      PairFormDecodes(s, a, b, p, rest);
    }
  }

  /** A block is one form after another, of exactly these pairs. */
  ghost predicate BlockForm(s: Bytes, ps: seq<Pair>)
    decreases ps
  {
    if ps == [] then s == []
    else exists a, b, rest :: PairForm(s, a, b, ps[0], rest) && BlockForm(rest, ps[1..])
  }

  /** On any bytes, the decoder gives a list of pairs if and only if the block spells out that list. */
  lemma {:induction false} BlockIff(s: Bytes, ps: seq<Pair>)
    ensures DecodePairs(s) == Some(ps) <==> BlockForm(s, ps)
    decreases ps
  {
    hide DecodePair, PairForm;
    if ps == [] {
      assert s != [] && DecodePairs(s).Some? ==> |DecodePairs(s).value| > 0;
    } else {
      if DecodePairs(s) == Some(ps) {
        var h := DecodePair(s).value;
        PairIff(s, h.pair, h.rest);
        assert ps[0] == h.pair && ps[1..] == DecodePairs(h.rest).value;
        BlockIff(h.rest, ps[1..]);
        var a, b :| PairForm(s, a, b, ps[0], h.rest);
        assert PairForm(s, a, b, ps[0], h.rest) && BlockForm(h.rest, ps[1..]);
      }
      if BlockForm(s, ps) {
        var a, b, rest :| PairForm(s, a, b, ps[0], rest) && BlockForm(rest, ps[1..]);
        PairIff(s, ps[0], rest);
        BlockIff(rest, ps[1..]);
        assert s != [] by { FormNotEmpty(s, a, b, ps[0], rest); }
        assert ps == [ps[0]] + ps[1..];
      }
    }
  }

  lemma FormNotEmpty(s: Bytes, a: Bytes, b: Bytes, p: Pair, rest: Bytes)
    requires PairForm(s, a, b, p, rest)
    ensures s != []
  {
  }

  lemma PairRoundTrip(p: Pair, rest: Bytes)
    requires Encodable(p)
    ensures NameValue(p).Some?
    ensures DecodePair(NameValue(p).value + rest) == Some(Head(p, rest))
  {
    hide EncodeLength, DecodeLength;
    LengthRoundTrip(|p.value|, p.name + p.value + rest);
    LengthRoundTrip(|p.name|, EncodeLength(|p.value|).value + p.name + p.value + rest);
    var a, b := EncodeLength(|p.name|).value, EncodeLength(|p.value|).value;
    var tail := p.name + p.value + rest;
    assert NameValue(p).value + rest == a + (b + p.name + p.value + rest);
    assert b + p.name + p.value + rest == b + tail;
    assert tail[..|p.name|] == p.name;
    assert tail[|p.name|..|p.name| + |p.value|] == p.value;
    assert tail[|p.name| + |p.value|..] == rest;
  }

  /** The responder's decoder inverts the gateway's encoder on every list of pairs. */
  lemma {:induction false} PairsRoundTrip(ps: seq<Pair>)
    requires forall p :: p in ps ==> Encodable(p)
    ensures EncodePairs(ps).Some?
    ensures DecodePairs(EncodePairs(ps).value) == Some(ps)
  {
    hide NameValue, DecodePair;
    if ps != [] {
      var rest := ps[1..];
      PairsRoundTrip(rest);
      PairRoundTrip(ps[0], EncodePairs(rest).value);
      assert EncodePairs(ps).value == NameValue(ps[0]).value + EncodePairs(rest).value;
      assert ps == [ps[0]] + rest;
    }
  }

  // What the responder keeps: three C strings in fixed buffers.

  const REQUEST_METHOD := Ascii("REQUEST_METHOD")
  const SCRIPT_NAME := Ascii("SCRIPT_NAME")
  const PATH_INFO := Ascii("PATH_INFO")
  const QUERY_STRING := Ascii("QUERY_STRING")

  /** The text of a C string: everything before the first NUL. */
  function CString(s: Bytes): (r: Bytes)
    ensures 0 !in r && r <= s
    ensures |r| < |s| ==> s[|r|] == 0
  {
    if s == [] || s[0] == 0 then [] else [s[0]] + CString(s[1..])
  }

  /** The text left in a buffer of `capacity` bytes by `copy_param`. */
  function Kept(value: Bytes, capacity: nat): Bytes
    requires capacity > 0
  {
    CString(Take(value, capacity - 1))
  }

  datatype Env = Env(verb: Bytes, path: Bytes, query: Bytes)

  const EMPTY_ENV := Env([], [], [])

  function Apply(env: Env, p: Pair): Env {
    if p.name == REQUEST_METHOD then env.(verb := Kept(p.value, MAX_METHOD))
    else if p.name == SCRIPT_NAME then env.(path := Kept(p.value, MAX_PATH))
    else if p.name == PATH_INFO && env.path == [] then env.(path := Kept(p.value, MAX_PATH))
    else if p.name == QUERY_STRING then env.(query := Kept(p.value, MAX_QUERY))
    else env
  }

  function ApplyAll(env: Env, ps: seq<Pair>): Env
    decreases ps
  {
    if ps == [] then env else ApplyAll(Apply(env, ps[0]), ps[1..])
  }

  /** `parse_params`: the environment of a well-formed block that names a method, else None. */
  function ParseParams(block: Bytes): Option<Env> {
    var ps := DecodePairs(block);
    if ps.None? then None
    else
      var env := ApplyAll(EMPTY_ENV, ps.value);
      if env.verb == [] then None else Some(env)
  }

  /** The value of the last pair of a given name. */
  function LastValue(name: Bytes, ps: seq<Pair>): Option<Bytes> {
    if ps == [] then None
    else if ps[|ps| - 1].name == name then Some(ps[|ps| - 1].value)
    else LastValue(name, ps[..|ps| - 1])
  }

  function KeptLast(name: Bytes, capacity: nat, ps: seq<Pair>): Bytes
    requires capacity > 0
  {
    var v := LastValue(name, ps);
    if v.None? then [] else Kept(v.value, capacity)
  }

  lemma NamesDistinct()
    ensures REQUEST_METHOD != SCRIPT_NAME && REQUEST_METHOD != PATH_INFO && REQUEST_METHOD != QUERY_STRING
    ensures SCRIPT_NAME != PATH_INFO && SCRIPT_NAME != QUERY_STRING && PATH_INFO != QUERY_STRING
  {
  }

  lemma {:induction false} ApplyAllSnoc(env: Env, ps: seq<Pair>, p: Pair)
    ensures ApplyAll(env, ps + [p]) == Apply(ApplyAll(env, ps), p)
    decreases ps
  {
    if ps == [] {
      assert [] + [p] == [p];
      assert [p][1..] == [];
    } else {
      assert (ps + [p])[1..] == ps[1..] + [p];
      ApplyAllSnoc(Apply(env, ps[0]), ps[1..], p);
    }
  }

  lemma ApplyCases(env: Env, p: Pair)
    ensures Apply(env, p).verb == if p.name == REQUEST_METHOD then Kept(p.value, MAX_METHOD) else env.verb
    ensures Apply(env, p).query == if p.name == QUERY_STRING then Kept(p.value, MAX_QUERY) else env.query
    ensures Apply(env, p).path ==
            if p.name == SCRIPT_NAME || (p.name == PATH_INFO && env.path == []) then Kept(p.value, MAX_PATH)
            else env.path
    ensures p.name == PATH_INFO ==> p.name != SCRIPT_NAME
  {
    NamesDistinct();
  }

  /** The pairs after the last SCRIPT_NAME. */
  function SinceScriptName(ps: seq<Pair>): seq<Pair> {
    if ps == [] || ps[|ps| - 1].name == SCRIPT_NAME then []
    else SinceScriptName(ps[..|ps| - 1]) + [ps[|ps| - 1]]
  }

  /** The first PATH_INFO value that is not blank. */
  function FirstPathInfo(ps: seq<Pair>): Bytes {
    if ps == [] then []
    else
      var before, p := FirstPathInfo(ps[..|ps| - 1]), ps[|ps| - 1];
      if before != [] || p.name != PATH_INFO then before else Kept(p.value, MAX_PATH)
  }

  /** What a well-formed block means, in terms of the list of its pairs: method and query are those
      of the last pair of that name; the path is the last SCRIPT_NAME, and only where that is
      missing or blank the first PATH_INFO after it that is not blank. */
  lemma {:induction false} LastPairWins(ps: seq<Pair>)
    ensures ApplyAll(EMPTY_ENV, ps).verb == KeptLast(REQUEST_METHOD, MAX_METHOD, ps)
    ensures ApplyAll(EMPTY_ENV, ps).query == KeptLast(QUERY_STRING, MAX_QUERY, ps)
    ensures ApplyAll(EMPTY_ENV, ps).path ==
            if KeptLast(SCRIPT_NAME, MAX_PATH, ps) != [] then KeptLast(SCRIPT_NAME, MAX_PATH, ps)
            else FirstPathInfo(SinceScriptName(ps))
  {
    hide Kept, Ascii, Apply;
    if ps != [] {
      var init, p := ps[..|ps| - 1], ps[|ps| - 1];
      assert ps == init + [p];
      LastPairWins(init);
      ApplyAllSnoc(EMPTY_ENV, init, p);
      ApplyCases(ApplyAll(EMPTY_ENV, init), p);
      var since := SinceScriptName(init);
      assert (since + [p])[..|since|] == since;
    }
  }
}
