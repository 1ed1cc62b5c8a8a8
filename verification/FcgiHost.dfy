/** The responder process itself: `request_t`'s buffers updated in place, the record reader, the
    chunking writer and the loop of `main`, proved against the machine of FcgiResponder. */
module FcgiHost {
  import opened Bytes
  import opened FcgiRecords
  import opened FcgiParams
  import R = FcgiResponder

  lemma {:induction false} CStringAtNul(a: Bytes, b: Bytes)
    ensures CString(a + [0] + b) == CString(a)
  {
    if a == [] {
      assert (a + [0] + b)[0] == 0;
    } else {
      assert (a + [0] + b)[1..] == a[1..] + [0] + b;
      CStringAtNul(a[1..], b);
    }
  }

  /** The environment after the rest of a block, starting from what is already in the buffers. */
  ghost function ParseTail(env: Env, s: Bytes): Option<Env> {
    var ps := DecodePairs(s);
    if ps.None? then None else Some(ApplyAll(env, ps.value))
  }

  lemma ParseTailStep(env: Env, s: Bytes)
    requires s != []
    ensures DecodePair(s).None? ==> ParseTail(env, s) == None
    ensures DecodePair(s).Some? ==>
              ParseTail(env, s) == ParseTail(Apply(env, DecodePair(s).value.pair), DecodePair(s).value.rest)
  {
    hide DecodePair, Apply;
  }

  lemma SliceOfSlice(s: Bytes, from: nat, to: nat, i: nat, j: nat)
    requires from <= to <= |s| && i <= j <= to - from
    ensures s[from..to][i..j] == s[from + i..from + j]
    ensures s[from..to][j..] == s[from + j..to]
  {
    var part := s[from..to];
    var a, b, c, d := part[i..j], s[from + i..from + j], part[j..], s[from + j..to];
    forall k | 0 <= k < |a| ensures a[k] == b[k] {
      assert a[k] == part[i + k];
    }
    forall k | 0 <= k < |c| ensures c[k] == d[k] {
      assert c[k] == part[j + k];
    }
    assert a == b && c == d;
  }

  /** A name and a value that follow one another, and what comes after them. */
  lemma TwoSlices(s: Bytes, from: nat, to: nat, n: nat, v: nat)
    requires from <= to <= |s| && n + v <= to - from
    ensures var part := s[from..to];
            && part[..n] == s[from..from + n] && part[n..n + v] == s[from + n..from + n + v]
            && part[n + v..] == s[from + n + v..to]
  {
    SliceOfSlice(s, from, to, 0, n);
    SliceOfSlice(s, from, to, n, n + v);
  }

  method CopyParam(dest: array<Byte>, value: Bytes)
    requires dest.Length > 0
    modifies dest
    ensures CString(dest[..]) == Kept(value, dest.Length)
  {
    var n := if |value| < dest.Length - 1 then |value| else dest.Length - 1;
    forall i | 0 <= i < n {
      dest[i] := value[i];
    }
    dest[n] := 0;
    assert dest[..] == value[..n] + [0] + dest[n + 1..];
    CStringAtNul(value[..n], dest[n + 1..]);
  }

  class Host {
    const handler: R.Handler

    var input: Bytes   // stdin, not yet read
    var output: Bytes  // stdout, not yet taken by the reader at the other end
    var calls: seq<R.Call>

    var requestId: Id
    var active: bool
    var paramsComplete: bool
    const params: array<Byte>
    var paramsLen: nat
    const body: array<Byte>
    var bodyLen: nat
    const verb: array<Byte>
    const path: array<Byte>
    const query: array<Byte>

    ghost predicate Valid()
      reads this
    {
      && params.Length == R.MAX_PARAMS && body.Length == R.MAX_BODY + 1
      && verb.Length == MAX_METHOD && path.Length == MAX_PATH && query.Length == MAX_QUERY
      && params != body && params != verb && params != path && params != query
      && body != verb && body != path && body != query
      && verb != path && verb != query && path != query
      && paramsLen <= R.MAX_PARAMS && bodyLen <= R.MAX_BODY
    }

    /** The request state, without the parts of the buffers beyond their lengths. */
    ghost function View(): R.State
      requires Valid()
      reads this, params, body
    {
      R.State(active, requestId, paramsComplete, params[..paramsLen], body[..bodyLen], calls)
    }

    constructor (handler: R.Handler)
      ensures Valid() && View() == R.INITIAL
      ensures input == [] && output == [] && this.handler == handler
    {
      this.handler := handler;
      input, output, calls := [], [], [];
      requestId, active, paramsComplete := 0, false, false;
      params := new Byte[R.MAX_PARAMS];
      paramsLen := 0;
      body := new Byte[R.MAX_BODY + 1];
      bodyLen := 0;
      verb := new Byte[MAX_METHOD];
      path := new Byte[MAX_PATH];
      query := new Byte[MAX_QUERY];
    }

    // Input.

    method ReadExact(len: nat) returns (ok: bool, data: Bytes)
      modifies this`input
      ensures ok <==> len <= |old(input)|
      ensures if ok then data == old(input)[..len] && input == old(input)[len..] else input == []
    {
      ok := len <= |input|;
      if ok {
        data, input := input[..len], input[len..];
      } else {
        data, input := input, [];
      }
    }

    method DiscardExact(len: nat) returns (ok: bool)
      modifies this`input
      ensures ok <==> len <= |old(input)|
      ensures ok ==> input == old(input)[len..]
    {
      var left := len;
      while left > 0
        invariant 0 <= left <= len && len - left <= |old(input)|
        invariant input == old(input)[len - left..]
      {
        var chunk := if left < 256 then left else 256;
        var skipped;
        ok, skipped := ReadExact(chunk);
        if !ok { return; }
        left := left - chunk;
      }
      ok := true;
    }

    /** Read one record, header, content and padding: exactly the record at the front of the input. */
    method ReadRecord() returns (p: Parsed)
      modifies this`input
      ensures p == ParseRecord(old(input))
      ensures p.Parsed? ==> input == p.rest
      ensures p.AtEnd? ==> input == []
    {
      var ok, first, raw, content;
      ok, first := ReadExact(1);
      if !ok { return AtEnd; }
      ok, raw := ReadExact(7);
      if !ok { return Malformed; }
      if first[0] != VERSION_1 || raw[6] != 0 { return Malformed; }
      var kind, id, len, pad := raw[0], Be16(raw[1], raw[2]), Be16(raw[3], raw[4]), raw[5];
      ok, content := ReadExact(len);
      if !ok { return Malformed; }
      ok := DiscardExact(pad);
      if !ok { return Malformed; }
      return Parsed(Record(kind, id, content), input);
    }

    // Output.

    /** The chunking writer; `isNull` is the null pointer that asks for one empty record. */
    method WriteRecord(kind: Byte, id: Id, isNull: bool, data: Bytes)
      requires isNull ==> data == []
      modifies this`output
      ensures output == old(output) + FrameAll(if isNull then [Record(kind, id, [])] else Chunks(kind, id, data))
    {
      hide Frame, FrameAll, Chunks;
      var left := data;
      ghost var out := old(output);
      if isNull {
        EmitOne(kind, id, []);
        FrameSingle(Record(kind, id, []));
        return;
      }
      while left != []
        invariant output + FrameAll(Chunks(kind, id, left)) == out + FrameAll(Chunks(kind, id, data))
        decreases |left|
      {
        var chunk := if |left| > MAX_CONTENT then MAX_CONTENT else |left|;
        FrameChunk(kind, id, left);
        EmitOne(kind, id, left[..chunk]);
        left := left[chunk..];
      }
      NothingLeft(kind, id);
    }

    /** Header, content and padding of one record. */
    method EmitOne(kind: Byte, id: Id, chunk: Bytes)
      requires |chunk| <= MAX_CONTENT
      modifies this`output
      ensures output == old(output) + Frame(Record(kind, id, chunk))
    {
      var pad: Byte := (8 - |chunk| % 8) % 8;
      output := output + [VERSION_1, kind, id / 256, id % 256, |chunk| / 256, |chunk| % 256, pad, 0];
      output := output + chunk;
      output := output + Zeros(pad);
    }

    method SendEnd(id: Id, status: Byte)
      modifies this`output
      ensures output == old(output) + FrameAll(R.SendEnd(id, status))
    {
      WriteRecord(STDOUT, id, true, []);
      WriteRecord(END_REQUEST, id, false, [0, 0, 0, status, 0, 0, 0, 0]);
      hide Frame;
      FrameAllAppend([Record(STDOUT, id, [])], Chunks(END_REQUEST, id, [0, 0, 0, status, 0, 0, 0, 0]));
    }

    method SendError(id: Id, message: Bytes)
      modifies this`output
      ensures output == old(output) + FrameAll(R.SendError(id, message))
    {
      hide Frame, FrameAll, Chunks, R.SendEnd;
      ghost var a, b := Chunks(STDERR, id, message), Chunks(STDOUT, id, R.ERROR_HEAD);
      ghost var c, d := Chunks(STDOUT, id, message), Chunks(STDOUT, id, [10]);
      WriteRecord(STDERR, id, false, message);
      WriteRecord(STDOUT, id, false, R.ERROR_HEAD);
      FrameAllAppend(a, b);
      assert output == old(output) + FrameAll(a + b);
      WriteRecord(STDOUT, id, false, message);
      FrameAllAppend(a + b, c);
      assert output == old(output) + FrameAll(a + b + c);
      WriteRecord(STDOUT, id, false, [10]);
      FrameAllAppend(a + b + c, d);
      assert output == old(output) + FrameAll(a + b + c + d);
      SendEnd(id, 1);
      FrameAllAppend(a + b + c + d, R.SendEnd(id, 1));
    }

    // Parameters.

    /** Decode one length at an offset into the params buffer. */
    method DecodeLengthAt(offset: nat) returns (ok: bool, next: nat, len: nat)
      requires Valid() && offset <= paramsLen
      ensures ok <==> DecodeLength(params[offset..paramsLen]).Some?
      ensures ok ==> next <= paramsLen
                     && DecodeLength(params[offset..paramsLen]) == Some(Length(len, params[next..paramsLen]))
    {
      next, len := offset, 0;
      if next >= paramsLen { return false, next, len; }
      var first: int := params[next];
      next := next + 1;
      if first < 128 { return true, next, first; }
      if paramsLen - next < 3 { return false, next, len; }
      var b: int, c: int, d: int := params[next], params[next + 1], params[next + 2];
      len := (first - 128) * 0x100_0000 + b * 0x1_0000 + c * 256 + d;
      next := next + 3;
      ok := true;
    }

    /** The environment held in the three string buffers. */
    ghost function Strings(): Env
      reads this, verb, path, query
    {
      Env(CString(verb[..]), CString(path[..]), CString(query[..]))
    }

    /** File one decoded pair. */
    method KeepPair(name: Bytes, value: Bytes)
      requires Valid()
      modifies verb, path, query
      ensures Strings() == Apply(old(Strings()), Pair(name, value))
    {
      NamesDistinct();
      if name == REQUEST_METHOD {
        CopyParam(verb, value);
      } else if name == SCRIPT_NAME {
        CopyParam(path, value);
      } else if name == PATH_INFO && path[0] == 0 {
        CopyParam(path, value);
      } else if name == QUERY_STRING {
        CopyParam(query, value);
      }
    }

    /** Decode the pair at an offset into the params buffer. */
    method NextPair(offset: nat) returns (ok: bool, next: nat, name: Bytes, value: Bytes)
      requires Valid() && offset < paramsLen
      ensures ok <==> DecodePair(params[offset..paramsLen]).Some?
      ensures ok ==> offset < next <= paramsLen
                     && DecodePair(params[offset..paramsLen]) == Some(Head(Pair(name, value), params[next..paramsLen]))
    {
      hide DecodeLength;
      ghost var block := params[..];
      var nameLen, valueLen;
      name, value := [], [];
      ok, next, nameLen := DecodeLengthAt(offset);
      if !ok { return; }
      ok, next, valueLen := DecodeLengthAt(next);
      if !ok { return; }
      if nameLen > paramsLen - next || valueLen > paramsLen - next - nameLen { return false, next, [], []; }
      TwoSlices(block, next, paramsLen, nameLen, valueLen);
      name, value := params[next..next + nameLen], params[next + nameLen..next + nameLen + valueLen];
      next := next + nameLen + valueLen;
    }

    method ParseParams() returns (ok: bool)
      requires Valid()
      modifies verb, path, query
      ensures ok <==> FcgiParams.ParseParams(params[..paramsLen]).Some?
      ensures ok ==> FcgiParams.ParseParams(params[..paramsLen]) == Some(Strings())
    {
      verb[0], path[0], query[0] := 0, 0, 0;
      ghost var block := params[..paramsLen];
      var offset := 0;
      assert params[offset..paramsLen] == block;
      hide DecodePairs, DecodePair, ApplyAll, Apply, CString;
      assert Strings() == EMPTY_ENV by { EmptyBuffers(); }
      while offset < paramsLen
        invariant offset <= paramsLen && params[..paramsLen] == block
        invariant ParseTail(Strings(), params[offset..paramsLen]) == ParseTail(EMPTY_ENV, block)
        decreases paramsLen - offset
      {
        ghost var tail, env := params[offset..paramsLen], Strings();
        ParseTailStep(env, tail);
        var next, name, value;
        ok, next, name, value := NextPair(offset);
        if !ok { return; }
        offset := next;
        KeepPair(name, value);
      }
      assert params[offset..paramsLen] == [];
      TailEmpty(Strings());
      ok := verb[0] != 0;
      assert CString(verb[..]) == [] <==> verb[0] == 0 by { CStringEmpty(verb[..]); }
    }

    lemma EmptyBuffers()
      requires Valid() && verb[0] == path[0] == query[0] == 0
      ensures Strings() == EMPTY_ENV
    {
    }

    // Requests.

    method RunRequest()
      requires Valid()
      modifies this`output, this`calls, body, verb, path, query
      ensures Valid()
      ensures var e := R.RunRequest(handler, old(View()));
              View() == e.state && output == old(output) + FrameAll(e.output)
    {
      hide FrameAll, R.SendError, R.SendEnd, Chunks, FcgiParams.ParseParams, CString, Ascii;
      var ok := ParseParams();
      if !ok {
        SendError(requestId, R.MSG_BAD_PARAMS);
        return;
      }
      body[bodyLen] := 0;
      assert body[..bodyLen] == old(body[..bodyLen]);
      var call := ReadCall();
      var reply := handler(calls, call);
      calls := calls + [call];
      match reply
      case Failed => SendError(requestId, R.MSG_HANDLER);
      case NotString => SendError(requestId, R.MSG_NOT_STRING);
      case Text(text) =>
        WriteRecord(STDOUT, requestId, false, text);
        SendEnd(requestId, 0);
        FrameAllAppend(Chunks(STDOUT, requestId, text), R.SendEnd(requestId, 0));
    }

    /** The arguments of the handler. */
    method ReadCall() returns (call: R.Call)
      requires Valid()
      ensures call == R.Call(Strings().verb, Strings().path, Strings().query, body[..bodyLen])
    {
      hide CString;
      var v := ReadCString(verb);
      var p := ReadCString(path);
      var q := ReadCString(query);
      call := R.Call(v, p, q, body[..bodyLen]);
    }

    /** `memset(&request, 0, sizeof request)`, then the new request's id. */
    method Begin(id: Id)
      requires Valid()
      modifies this`requestId, this`active, this`paramsComplete, this`paramsLen, this`bodyLen,
               params, body, verb, path, query
      ensures Valid() && View() == R.State(true, id, false, [], [], calls)
    {
      paramsComplete, paramsLen, bodyLen := false, 0, 0;
      forall i | 0 <= i < params.Length { params[i] := 0; }
      forall i | 0 <= i < body.Length { body[i] := 0; }
      forall i | 0 <= i < verb.Length { verb[i] := 0; }
      forall i | 0 <= i < path.Length { path[i] := 0; }
      forall i | 0 <= i < query.Length { query[i] := 0; }
      requestId, active := id, true;
    }

    method AppendParams(content: Bytes)
      requires Valid() && paramsLen + |content| <= R.MAX_PARAMS
      modifies this`paramsLen, params
      ensures Valid() && View() == old(View()).(params := old(View()).params + content)
    {
      forall i | 0 <= i < |content| { params[paramsLen + i] := content[i]; }
      paramsLen := paramsLen + |content|;
      assert params[..paramsLen] == old(params[..paramsLen]) + content;
    }

    method AppendBody(content: Bytes)
      requires Valid() && bodyLen + |content| <= R.MAX_BODY
      modifies this`bodyLen, body
      ensures Valid() && View() == old(View()).(body := old(View()).body + content)
    {
      forall i | 0 <= i < |content| { body[bodyLen + i] := content[i]; }
      bodyLen := bodyLen + |content|;
      assert body[..bodyLen] == old(body[..bodyLen]) + content;
    }

    method HandleBegin(r: WireRecord)
      requires Valid()
      modifies this`output, this`requestId, this`active, this`paramsComplete, this`paramsLen, this`bodyLen,
               params, body, verb, path, query
      ensures Valid()
      ensures var e := R.StepBegin(old(View()), r);
              View() == e.state && output == old(output) + FrameAll(e.output)
    {
      hide R.SendError, Ascii;
      if |r.content| < 3 || active || Be16(r.content[0], r.content[1]) != RESPONDER {
        SendError(r.id, R.MSG_SEQUENTIAL);
      } else {
        Begin(r.id);
      }
    }

    method HandleParams(content: Bytes)
      requires Valid()
      modifies this`output, this`active, this`paramsComplete, this`paramsLen, params
      ensures Valid()
      ensures var e := R.StepParams(old(View()), content);
              View() == e.state && output == old(output) + FrameAll(e.output)
    {
      hide R.SendError, Ascii;
      if content == [] {
        paramsComplete := true;
      } else if paramsLen + |content| > params.Length {
        SendError(requestId, R.MSG_PARAMS_LIMIT);
        active := false;
      } else {
        AppendParams(content);
      }
    }

    method HandleStdin(content: Bytes)
      requires Valid()
      modifies this`output, this`calls, this`active, this`bodyLen, body, verb, path, query
      ensures Valid()
      ensures var e := R.StepStdin(handler, old(View()), content);
              View() == e.state && output == old(output) + FrameAll(e.output)
    {
      hide R.SendError, Ascii, R.RunRequest;
      if content == [] {
        if !paramsComplete {
          SendError(requestId, R.MSG_EARLY_STDIN);
        } else {
          RunRequest();
        }
        active := false;
      } else if bodyLen + |content| > R.MAX_BODY {
        SendError(requestId, R.MSG_BODY_LIMIT);
        active := false;
      } else {
        AppendBody(content);
      }
    }

    /** One turn of the loop does exactly one step of the machine. */
    method HandleRecord(r: WireRecord)
      requires Valid()
      modifies this`output, this`calls, this`requestId, this`active, this`paramsComplete, this`paramsLen, this`bodyLen,
               params, body, verb, path, query
      ensures Valid()
      ensures var e := R.Step(handler, old(View()), r);
              View() == e.state && output == old(output) + FrameAll(e.output)
    {
      hide R.StepBegin, R.StepParams, R.StepStdin;
      if r.kind == BEGIN_REQUEST {
        HandleBegin(r);
      } else if !active || r.id != requestId {
      } else if r.kind == PARAMS {
        HandleParams(r.content);
      } else if r.kind == STDIN {
        HandleStdin(r.content);
      }
    }

    /** The loop of `main` over everything on stdin: the machine's run over the decoded records. */
    method Serve() returns (clean: bool)
      requires Valid()
      modifies this, params, body, verb, path, query
      ensures Valid()
      ensures View() == R.Serve(handler, old(View()), old(input)).0
      ensures output == old(output) + R.Serve(handler, old(View()), old(input)).1
      ensures clean == DecodeAll(old(input)).clean
      ensures clean ==> input == []
    {
      ghost var work := Work(handler, View(), input, output);
      hide Work, ParseRecord, R.Step;
      while true
        invariant Valid()
        invariant Work(handler, View(), input, output) == work
        decreases |input|
      {
        WorkStep(handler, View(), input, output);
        var p := ReadRecord();
        if !p.Parsed? {
          clean := p.AtEnd?;
          break;
        }
        HandleRecord(p.record);
      }
      assert work == Work(handler, old(View()), old(input), old(output));
      WorkIs(handler, old(View()), old(input), old(output));
    }
  }

  /** What serving an input will come to: the final state, all output, and whether the input ends cleanly. */
  ghost function Work(h: R.Handler, s: R.State, input: Bytes, output: Bytes): (R.State, Bytes, bool) {
    var (s', out) := R.Serve(h, s, input);
    (s', output + out, DecodeAll(input).clean)
  }

  lemma WorkIs(h: R.Handler, s: R.State, input: Bytes, output: Bytes)
    ensures Work(h, s, input, output) ==
            (R.Serve(h, s, input).0, output + R.Serve(h, s, input).1, DecodeAll(input).clean)
  {
  }

  /** Handling the first record leaves the same work to do; without one there is none left. */
  lemma WorkStep(h: R.Handler, s: R.State, input: Bytes, output: Bytes)
    ensures match ParseRecord(input)
            case AtEnd => Work(h, s, input, output) == (s, output, true)
            case Malformed => Work(h, s, input, output) == (s, output, false)
            case Parsed(r, rest) =>
              var e := R.Step(h, s, r);
              Work(h, s, input, output) == Work(h, e.state, rest, output + FrameAll(e.output))
  {
    match ParseRecord(input)
    case AtEnd => assert output + [] == output;
    case Malformed => assert output + [] == output;
    case Parsed(r, rest) => WorkOne(h, s, input, output);
  }

  lemma WorkOne(h: R.Handler, s: R.State, input: Bytes, output: Bytes)
    requires ParseRecord(input).Parsed?
    ensures var e := R.Step(h, s, ParseRecord(input).record);
            Work(h, s, input, output) == Work(h, e.state, ParseRecord(input).rest, output + FrameAll(e.output))
  {
    hide R.Step, ParseRecord, DecodeAll, FrameAll;
    DecodeOne(input);
    var r, rs := ParseRecord(input).record, DecodeAll(ParseRecord(input).rest).records;
    assert ([r] + rs)[1..] == rs;
    var e := R.Step(h, s, r);
    var after := R.Run(h, e.state, rs).output;
    FrameAllAppend(e.output, after);
    assert output + (FrameAll(e.output) + FrameAll(after)) == output + FrameAll(e.output) + FrameAll(after);
  }

  lemma CStringEmpty(s: Bytes)
    requires s != []
    ensures CString(s) == [] <==> s[0] == 0
  {
  }

  lemma TailEmpty(env: Env)
    ensures ParseTail(env, []) == Some(env)
  {
  }

  /** strlen and the bytes before the NUL. */
  method ReadCString(a: array<Byte>) returns (text: Bytes)
    ensures text == CString(a[..])
  {
    var n := 0;
    while n < a.Length && a[n] != 0
      invariant n <= a.Length
      invariant 0 !in a[..n]
    {
      n := n + 1;
    }
    text := a[..n];
    CStringIs(a[..], n);
  }

  lemma {:induction false} CStringIs(s: Bytes, n: nat)
    requires n <= |s| && 0 !in s[..n] && (n == |s| || s[n] == 0)
    ensures CString(s) == s[..n]
  {
    if n > 0 {
      assert s[..n][0] == s[0] != 0;
      assert s[..n] == [s[0]] + s[1..][..n - 1];
      CStringIs(s[1..], n - 1);
    }
  }
}
