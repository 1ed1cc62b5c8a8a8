/** The gateway's side of the protocol, and the two ends together: what one `request` call
    returns, and what a whole session of calls does. */
module FcgiGateway {
  import opened Bytes
  import opened FcgiRecords
  import opened FcgiParams
  import opened FcgiResponder
  import C = CgiResponse

  /** A request after `urlsplit`, with its strings encoded. */
  datatype Request = Request(verb: Bytes, path: Bytes, query: Bytes, body: Bytes)

  datatype Outcome =
    | Returned(stdout: Bytes)
    | ApplicationError(detail: Bytes)  // END_REQUEST with a non-zero status
    | ProtocolError(message: Bytes)    // a bad or missing response record
    | PackError                        // struct.pack could not represent a length

  const CONTENT_LENGTH := Ascii("CONTENT_LENGTH")
  const MSG_CLOSED := Ascii("FastCGI responder closed its output stream")
  const MSG_RECORD := Ascii("invalid FastCGI response record")
  const MSG_END := Ascii("invalid FastCGI END_REQUEST record")
  const MSG_DEFAULT := Ascii("FastCGI application failed")

  function PathOrSlash(path: Bytes): Bytes {
    if path == [] then Ascii("/") else path
  }

  function RequestPairs(q: Request): seq<Pair> {
    [Pair(REQUEST_METHOD, q.verb), Pair(SCRIPT_NAME, PathOrSlash(q.path)),
     Pair(QUERY_STRING, q.query), Pair(CONTENT_LENGTH, Decimal(|q.body|))]
  }

  /** The encoded PARAMS block, or None where `struct.pack` raises. */
  function RequestParams(q: Request): (r: Option<Bytes>)
    ensures r.Some? ==> |r.value| <= MAX_CONTENT
  {
    var e := EncodePairs(RequestPairs(q));
    if e.Some? && |e.value| <= MAX_CONTENT then e else None
  }

  const BEGIN_BODY: Bytes := [0, RESPONDER, 0, 0, 0, 0, 0, 0]

  /** The records of one request. The body is cut every 65535 bytes. */
  function RequestRecords(id: Id, params: Bytes, body: Bytes): seq<WireRecord>
    requires |params| <= MAX_CONTENT
  {
    [Record(BEGIN_REQUEST, id, BEGIN_BODY), Record(PARAMS, id, params), Record(PARAMS, id, [])]
    + Chunks(STDIN, id, body) + [Record(STDIN, id, [])]
  }

  datatype Reading = Reading(outcome: Outcome, rest: Bytes)

  /** What comes of a stream without a record for this request in front: a bad header is taken and
      complained about, and a record that is cut off is read to the end of the stream. */
  function AfterBad(id: Id, s: Bytes): Reading {
    if |s| >= 8 && (s[0] != VERSION_1 || s[7] != 0 || Be16(s[2], s[3]) != id) then
      Reading(ProtocolError(MSG_RECORD), s[8..])
    else Reading(ProtocolError(MSG_CLOSED), [])
  }

  /** The gateway's read loop: collect STDOUT and STDERR until END_REQUEST. */
  function ReadResponse(id: Id, s: Bytes, out: Bytes, err: Bytes): Reading
    decreases |s|
  {
    match ParseRecord(s)
    case AtEnd => AfterBad(id, s)
    case Malformed => AfterBad(id, s)
    case Parsed(r, rest) =>
      if r.id != id then AfterBad(id, s)
      else if r.kind == STDOUT then ReadResponse(id, rest, out + r.content, err)
      else if r.kind == STDERR then ReadResponse(id, rest, out, err + r.content)
      else if r.kind == END_REQUEST then
        if |r.content| != 8 then Reading(ProtocolError(MSG_END), rest)
        else if r.content[..4] != [0, 0, 0, 0] then
          Reading(ApplicationError(if err == [] then MSG_DEFAULT else err), rest)
        else Reading(Returned(out), rest)
      else ReadResponse(id, rest, out, err)
  }

  // What a request should come to, said without records or streams.

  datatype Answer = Answer(outcome: Outcome, calls: seq<Call>)

  function Expected(h: Handler, calls: seq<Call>, q: Request): Answer {
    var params := RequestParams(q);
    if params.None? then Answer(PackError, calls)
    else if |params.value| > 16384 then Answer(ApplicationError(Ascii("FastCGI PARAMS exceed host limit")), calls)
    else if |q.body| > 65536 then Answer(ApplicationError(Ascii("FastCGI request body exceeds host limit")), calls)
    else
      var call := Call(Kept(q.verb, MAX_METHOD), Kept(PathOrSlash(q.path), MAX_PATH), Kept(q.query, MAX_QUERY), q.body);
      if call.verb == [] then Answer(ApplicationError(Ascii("invalid or incomplete FastCGI PARAMS")), calls)
      else
        var outcome := match h(calls, call)
          case Failed => ApplicationError(Ascii("Gengoscript handler failed"))
          case NotString => ApplicationError(Ascii("Gengoscript handle() must return a string"))
          case Text(text) => Returned(text);
        Answer(outcome, calls + [call])
  }

  // Reading back what the responder writes.

  lemma ReadOne(id: Id, r: WireRecord, rest: Bytes, out: Bytes, err: Bytes)
    requires r.id == id && (r.kind == STDOUT || r.kind == STDERR)
    ensures ReadResponse(id, Frame(r) + rest, out, err) ==
            if r.kind == STDOUT then ReadResponse(id, rest, out + r.content, err)
            else ReadResponse(id, rest, out, err + r.content)
  {
    hide Frame, ParseRecord, AfterBad;
    ParseFrame(r, rest);
  }

  /** A block written as any number of records is collected whole. */
  lemma {:induction false} ReadChunks(kind: Byte, id: Id, data: Bytes, rest: Bytes, out: Bytes, err: Bytes)
    requires kind == STDOUT || kind == STDERR
    ensures ReadResponse(id, FrameAll(Chunks(kind, id, data)) + rest, out, err) ==
            if kind == STDOUT then ReadResponse(id, rest, out + data, err) else ReadResponse(id, rest, out, err + data)
    decreases |data|
  {
    hide Frame, ReadResponse;
    if data == [] {
      assert FrameAll(Chunks(kind, id, data)) + rest == rest;
      assert out + data == out && err + data == err;
    } else {
      var n := Min(|data|, MAX_CONTENT);
      var r, tail := Record(kind, id, data[..n]), Chunks(kind, id, data[n..]);
      assert Chunks(kind, id, data)[1..] == tail;
      assert FrameAll(Chunks(kind, id, data)) + rest == Frame(r) + (FrameAll(tail) + rest);
      ReadOne(id, r, FrameAll(tail) + rest, out, err);
      assert data[..n] + data[n..] == data;
      if kind == STDOUT {
        ReadChunks(kind, id, data[n..], rest, out + data[..n], err);
        assert out + data[..n] + data[n..] == out + data;
      } else {
        ReadChunks(kind, id, data[n..], rest, out, err + data[..n]);
        assert err + data[..n] + data[n..] == err + data;
      }
    }
  }

  lemma SendEndFrames(id: Id, status: Byte)
    ensures var body := [0, 0, 0, status, 0, 0, 0, 0];
            FrameAll(SendEnd(id, status)) == Frame(Record(STDOUT, id, [])) + Frame(Record(END_REQUEST, id, body))
  {
    var body: Bytes := [0, 0, 0, status, 0, 0, 0, 0];
    var end := Record(END_REQUEST, id, body);
    assert body[..8] == body && body[8..] == [];
    assert Chunks(END_REQUEST, id, []) == [];
    assert Chunks(END_REQUEST, id, body) == [end];
    hide Frame;
    assert SendEnd(id, status)[1..] == [end];
    assert [end][1..] == [];
    assert FrameAll([end]) == Frame(end);
  }

  lemma ReadEnd(id: Id, status: Byte, rest: Bytes, out: Bytes, err: Bytes)
    ensures ReadResponse(id, FrameAll(SendEnd(id, status)) + rest, out, err) ==
            Reading(if status == 0 then Returned(out)
                    else ApplicationError(if err == [] then MSG_DEFAULT else err), rest)
  {
    hide Frame, SendEnd, Ascii, AfterBad, ReadResponse;
    var body: Bytes := [0, 0, 0, status, 0, 0, 0, 0];
    var end := Record(END_REQUEST, id, body);
    SendEndFrames(id, status);
    var f := Frame(end) + rest;
    assert FrameAll(SendEnd(id, status)) + rest == Frame(Record(STDOUT, id, [])) + f;
    ReadOne(id, Record(STDOUT, id, []), f, out, err);
    assert out + [] == out;
    ReadEndRecord(id, status, rest, out, err);
  }

  lemma ReadEndRecord(id: Id, status: Byte, rest: Bytes, out: Bytes, err: Bytes)
    ensures ReadResponse(id, Frame(Record(END_REQUEST, id, [0, 0, 0, status, 0, 0, 0, 0])) + rest, out, err) ==
            Reading(if status == 0 then Returned(out)
                    else ApplicationError(if err == [] then MSG_DEFAULT else err), rest)
  {
    hide Frame, ParseRecord, Ascii, AfterBad;
    var body: Bytes := [0, 0, 0, status, 0, 0, 0, 0];
    assert body[..4] == [0, 0, 0, status];
    ParseFrame(Record(END_REQUEST, id, body), rest);
  }

  /** The ways a response can be no response, each with its message and with what is left unread: a
      stream that ends, a header that is no record's, another request's record, and an end that is not
      eight bytes. */
  lemma NoResponse(id: Id, s: Bytes, out: Bytes, err: Bytes)
    ensures |s| < 8 ==>
              ReadResponse(id, s, out, err) ==
              Reading(ProtocolError(Ascii("FastCGI responder closed its output stream")), [])
    ensures |s| >= 8 && (s[0] != 1 || s[7] != 0 || s[2] != id / 256 || s[3] != id % 256) ==>
              ReadResponse(id, s, out, err) ==
              Reading(ProtocolError(Ascii("invalid FastCGI response record")), s[8..])
    ensures ParseRecord(s).Parsed? && ParseRecord(s).record.id == id && ParseRecord(s).record.kind == 3
            && |ParseRecord(s).record.content| != 8 ==>
              ReadResponse(id, s, out, err) ==
              Reading(ProtocolError(Ascii("invalid FastCGI END_REQUEST record")), ParseRecord(s).rest)
  {
    hide Ascii;
  }

  /** Records of other kinds are passed over, and a failure without a message gets a standard one. */
  lemma OtherRecords(id: Id, r: WireRecord, rest: Bytes, out: Bytes, err: Bytes)
    requires r.id == id
    ensures r.kind != 3 && r.kind != 6 && r.kind != 7 ==>
              ReadResponse(id, Frame(r) + rest, out, err) == ReadResponse(id, rest, out, err)
    ensures r.kind == 3 && |r.content| == 8 && r.content[..4] != [0, 0, 0, 0] ==>
              ReadResponse(id, Frame(r) + rest, out, []) ==
              Reading(ApplicationError(Ascii("FastCGI application failed")), rest)
  {
    hide Frame, ParseRecord, AfterBad, Ascii;
    ParseFrame(r, rest);
  }

  lemma FrameFive(a: seq<WireRecord>, b: seq<WireRecord>, c: seq<WireRecord>, d: seq<WireRecord>, e: seq<WireRecord>,
                  rest: Bytes)
    ensures FrameAll(a + b + c + d + e) + rest ==
            FrameAll(a) + (FrameAll(b) + (FrameAll(c) + (FrameAll(d) + (FrameAll(e) + rest))))
  {
    FrameAllAppend(a, b);
    FrameAllAppend(a + b, c);
    FrameAllAppend(a + b + c, d);
    FrameAllAppend(a + b + c + d, e);
    hide FrameAll;
    Reassociate(FrameAll(a), FrameAll(b), FrameAll(c), FrameAll(d), FrameAll(e), rest);
  }

  lemma Reassociate(a: Bytes, b: Bytes, c: Bytes, d: Bytes, e: Bytes, f: Bytes)
    ensures a + b + c + d + e + f == a + (b + (c + (d + (e + f))))
  {
    var ef := e + f;
    var def := d + ef;
    var cdef := c + def;
    assert a + b + c + d + e + f == a + b + c + d + ef;
    assert a + b + c + d + ef == a + b + c + def;
    assert a + b + c + def == a + b + cdef;
    assert a + b + cdef == a + (b + cdef);
  }

  /** An error response reads back as an error carrying exactly the responder's message. */
  lemma ReadError(id: Id, message: Bytes, rest: Bytes)
    requires message != []
    ensures ReadResponse(id, FrameAll(SendError(id, message)) + rest, [], []) ==
            Reading(ApplicationError(message), rest)
  {
    hide ReadResponse, SendEnd, Frame, Chunks, Ascii;
    var a, b := Chunks(STDERR, id, message), Chunks(STDOUT, id, ERROR_HEAD);
    var c, d, e := Chunks(STDOUT, id, message), Chunks(STDOUT, id, [10]), SendEnd(id, 1);
    var s4 := FrameAll(e) + rest;
    var s3 := FrameAll(d) + s4;
    var s2 := FrameAll(c) + s3;
    var s1 := FrameAll(b) + s2;
    FrameFive(a, b, c, d, e, rest);
    hide FrameAll;
    ReadChunks(STDERR, id, message, s1, [], []);
    assert [] + message == message;
    ReadChunks(STDOUT, id, ERROR_HEAD, s2, [], message);
    ReadChunks(STDOUT, id, message, s3, [] + ERROR_HEAD, message);
    ReadChunks(STDOUT, id, [10], s4, [] + ERROR_HEAD + message, message);
    ReadEnd(id, 1, rest, [] + ERROR_HEAD + message + [10], message);
  }

  /** A text response of any length, empty ones included, reads back as exactly that text. */
  lemma ReadText(id: Id, text: Bytes, rest: Bytes)
    ensures ReadResponse(id, FrameAll(Chunks(STDOUT, id, text) + SendEnd(id, 0)) + rest, [], []) ==
            Reading(Returned(text), rest)
  {
    hide ReadResponse, SendEnd, Frame, Chunks;
    var a, e := Chunks(STDOUT, id, text), SendEnd(id, 0);
    FrameAllAppend(a, e);
    assert FrameAll(a + e) + rest == FrameAll(a) + (FrameAll(e) + rest);
    hide FrameAll;
    ReadChunks(STDOUT, id, text, FrameAll(e) + rest, [], []);
    assert [] + text == text;
    ReadEnd(id, 0, rest, text, []);
  }

  // The responder's view of a request.

  lemma {:induction false} EncodedIsLonger(ps: seq<Pair>, i: nat)
    requires EncodePairs(ps).Some? && i < |ps|
    ensures |ps[i].name| <= |EncodePairs(ps).value| && |ps[i].value| <= |EncodePairs(ps).value|
    decreases |ps|
  {
    hide EncodeLength;
    if i > 0 {
      EncodedIsLonger(ps[1..], i - 1);
    }
  }

  /** The responder makes of an encoded request exactly the fields the gateway was given, each cut
      to its buffer and at its first NUL. */
  lemma ParsedRequest(q: Request)
    requires RequestParams(q).Some?
    ensures var verb := Kept(q.verb, MAX_METHOD);
            ParseParams(RequestParams(q).value) ==
            if verb == [] then None
            else Some(Env(verb, Kept(PathOrSlash(q.path), MAX_PATH), Kept(q.query, MAX_QUERY)))
  {
    var ps := RequestPairs(q);
    forall p | p in ps ensures Encodable(p) {
      var i :| 0 <= i < |ps| && ps[i] == p;
      EncodedIsLonger(ps, i);
    }
    hide EncodePairs, DecodePairs, Kept;
    PairsRoundTrip(ps);
    ApplyRequest(q);
  }

  lemma ApplyRequest(q: Request)
    ensures ApplyAll(EMPTY_ENV, RequestPairs(q)) ==
            Env(Kept(q.verb, MAX_METHOD), Kept(PathOrSlash(q.path), MAX_PATH), Kept(q.query, MAX_QUERY))
  {
    NamesDistinct();
    assert |CONTENT_LENGTH| == 14 && CONTENT_LENGTH[0] == 67 && REQUEST_METHOD[0] == 82;
    assert |SCRIPT_NAME| == 11 && |PATH_INFO| == 9 && |QUERY_STRING| == 12;
    hide Kept, Ascii, Decimal, PathOrSlash;
    var ps := RequestPairs(q);
    var e1 := Apply(EMPTY_ENV, ps[0]);
    var e2 := Apply(e1, ps[1]);
    var e3 := Apply(e2, ps[2]);
    var e4 := Apply(e3, ps[3]);
    assert e4 == e3;
    assert ps[1..][1..] == ps[2..] && ps[2..][1..] == ps[3..] && ps[3..][1..] == [];
    assert ApplyAll(e3, ps[3..]) == e4;
    assert ApplyAll(e2, ps[2..]) == e4;
  }

  /** The records of a request that the responder accepts, up to the end of STDIN. */
  lemma RequestFeeds(id: Id, params: Bytes, body: Bytes, calls: seq<Call>)
    requires 0 < |params| <= MAX_CONTENT
    ensures var rs := Middle(id, params, body);
            && KeepsOpen(id, rs) && NoBegin(rs)
            && Fed(Begun(id, calls), rs) == State(true, id, true, params, body, calls)
            && Refusals(rs) == []
  {
    var head: seq<WireRecord> := [Record(PARAMS, id, params), Record(PARAMS, id, [])];
    var chunks := Chunks(STDIN, id, body);
    ChunksContent(STDIN, id, body);
    hide Chunks, Gather, Refusals;
    var rs := head + chunks;
    forall i | 0 <= i < |rs| ensures rs[i] != Record(STDIN, id, []) && rs[i].kind != BEGIN_REQUEST {
      if i >= 2 { assert rs[i] in chunks; }
    }
    MiddleFeeds(id, params, body, calls);
    NoRefusals(rs);
  }

  lemma MiddleFeeds(id: Id, params: Bytes, body: Bytes, calls: seq<Call>)
    requires |params| <= MAX_CONTENT
    ensures Fed(Begun(id, calls), Middle(id, params, body)) == State(true, id, true, params, body, calls)
  {
    hide Chunks, Gather;
    MiddleGathers(id, params, body);
    assert Middle(id, params, body)[1] == Record(PARAMS, id, []);
    assert [] + params == params && [] + body == body;
  }

  lemma MiddleGathers(id: Id, params: Bytes, body: Bytes)
    requires |params| <= MAX_CONTENT
    ensures Gather(PARAMS, id, Middle(id, params, body)) == params
    ensures Gather(STDIN, id, Middle(id, params, body)) == body
  {
    hide Chunks;
    var head: seq<WireRecord> := [Record(PARAMS, id, params), Record(PARAMS, id, [])];
    var chunks := Chunks(STDIN, id, body);
    ChunksContent(STDIN, id, body);
    GatherAppend(PARAMS, id, head, chunks);
    GatherAppend(STDIN, id, head, chunks);
    GatherNone(PARAMS, id, chunks);
    assert head[1..] == [Record(PARAMS, id, [])] && head[1..][1..] == [];
    assert Gather(PARAMS, id, head[1..]) == [] && Gather(STDIN, id, head[1..]) == [];
    assert params + [] == params && params + [] + [] == params && [] + [] + body == body;
  }

  function Begun(id: Id, calls: seq<Call>): State {
    State(true, id, false, [], [], calls)
  }

  /** What follows BEGIN_REQUEST, up to the end of STDIN. */
  function Middle(id: Id, params: Bytes, body: Bytes): seq<WireRecord>
    requires |params| <= MAX_CONTENT
  {
    [Record(PARAMS, id, params), Record(PARAMS, id, [])] + Chunks(STDIN, id, body)
  }

  lemma RequestBegins(h: Handler, s: State, id: Id, params: Bytes, body: Bytes)
    requires !s.active && |params| <= MAX_CONTENT
    ensures Run(h, s, RequestRecords(id, params, body)) ==
            Run(h, Begun(id, s.calls), Middle(id, params, body) + [Record(STDIN, id, [])])
  {
    var begin := Record(BEGIN_REQUEST, id, BEGIN_BODY);
    var rest := Middle(id, params, body) + [Record(STDIN, id, [])];
    assert RequestRecords(id, params, body) == [begin] + rest;
    assert Step(h, s, begin) == Effect(Begun(id, s.calls), []);
    hide Step, Middle, RequestRecords, Begun;
    RunOne(h, s, begin);
    RunAppend(h, s, [begin], rest);
    var e := Run(h, Begun(id, s.calls), rest);
    assert [] + e.output == e.output;
  }

  /** The responder's side of a request within the limits: from any idle state, exactly the answer
      to the whole request. */
  lemma ResponderAnswers(h: Handler, s: State, id: Id, params: Bytes, body: Bytes)
    requires !s.active && 0 < |params| <= MAX_PARAMS && |body| <= MAX_BODY
    ensures Run(h, s, RequestRecords(id, params, body)) == Finish(h, State(true, id, true, params, body, s.calls))
    ensures !Run(h, s, RequestRecords(id, params, body)).state.active
  {
    var full := State(true, id, true, params, body, s.calls);
    RequestBegins(h, s, id, params, body);
    RequestFeeds(id, params, body, s.calls);
    hide Finish, RequestRecords, Run, Fed, Refusals;
    WholeRequest(h, Begun(id, s.calls), Middle(id, params, body));
    assert [] + Finish(h, full).output == Finish(h, full).output;
    FinishIsIdle(h, full);
  }

  /** The responder's side of a request over a limit: one error, no call, and the rest ignored. */
  lemma ResponderRefuses(h: Handler, s: State, id: Id, params: Bytes, body: Bytes)
    requires !s.active && 0 < |params| <= MAX_CONTENT && (|params| > MAX_PARAMS || |body| > MAX_BODY)
    ensures var e := Run(h, s, RequestRecords(id, params, body));
            && !e.state.active && e.state.calls == s.calls
            && e.output == SendError(id, if |params| > MAX_PARAMS then MSG_PARAMS_LIMIT else MSG_BODY_LIMIT)
  {
    hide Ascii, SendError, RequestRecords, Fed, Run, Step, Middle, Begun;
    RequestBegins(h, s, id, params, body);
    if |params| > MAX_PARAMS {
      RefusesParams(h, id, params, body, s.calls);
    } else {
      RefusesBody(h, id, params, body, s.calls);
    }
  }

  lemma RefusesParams(h: Handler, id: Id, params: Bytes, body: Bytes, calls: seq<Call>)
    requires MAX_PARAMS < |params| <= MAX_CONTENT
    ensures var e := Run(h, Begun(id, calls), Middle(id, params, body) + [Record(STDIN, id, [])]);
            !e.state.active && e.state.calls == calls && e.output == SendError(id, MSG_PARAMS_LIMIT)
  {
    hide Ascii, SendError, Fed, Run;
    var begun, mid, last := Begun(id, calls), Middle(id, params, body), Record(STDIN, id, []);
    RequestFeeds(id, params, body, calls);
    ParamsOver(h, begun, mid[0]);
    hide Step, Middle;
    RunOne(h, begun, mid[0]);
    RunAppend(h, begun, [mid[0]], mid[1..] + [last]);
    assert mid + [last] == [mid[0]] + (mid[1..] + [last]);
    IdleIgnores(h, begun.(active := false), mid[1..] + [last]);
    assert SendError(id, MSG_PARAMS_LIMIT) + [] == SendError(id, MSG_PARAMS_LIMIT);
  }

  lemma RefusesBody(h: Handler, id: Id, params: Bytes, body: Bytes, calls: seq<Call>)
    requires 0 < |params| <= MAX_PARAMS && |body| > MAX_BODY
    ensures var e := Run(h, Begun(id, calls), Middle(id, params, body) + [Record(STDIN, id, [])]);
            !e.state.active && e.state.calls == calls && e.output == SendError(id, MSG_BODY_LIMIT)
  {
    hide Ascii, SendError, Fed, Run, Step, Middle;
    var begun, mid, last := Begun(id, calls), Middle(id, params, body), Record(STDIN, id, []);
    RequestFeeds(id, params, body, calls);
    OverLimitAlone(h, begun, mid);
    RunAppend(h, begun, mid, [last]);
    IdleIgnores(h, Run(h, begun, mid).state, [last]);
    assert SendError(id, MSG_BODY_LIMIT) + [] == SendError(id, MSG_BODY_LIMIT);
  }

  lemma FinishIsIdle(h: Handler, s: State)
    ensures !Finish(h, s).state.active
  {
  }

  lemma ParamsOver(h: Handler, s: State, r: WireRecord)
    requires s.active && r.kind == PARAMS && r.id == s.id && |r.content| > MAX_PARAMS
    ensures Step(h, s, r) == Effect(s.(active := false), SendError(s.id, MSG_PARAMS_LIMIT))
  {
    hide SendError;
  }

  // One call, and a session of calls.

  /** Gateway and responder with the pipes between them: what the responder has not yet been able to
      read is always consumed, so only its unread output is part of the state. */
  datatype System = System(nextId: Id, server: State, unread: Bytes)

  datatype Result = Result(system: System, outcome: Outcome)

  function NextId(id: Id): Id {
    if id == 65535 then 1 else id + 1
  }

  /** `FastCGIGateway.request`: take an id, write the whole request, let the responder work through
      it, read one response. */
  function Exchange(h: Handler, sys: System, q: Request): Result {
    var id, params := sys.nextId, RequestParams(q);
    if params.None? then Result(sys.(nextId := NextId(id)), PackError)
    else
      var (server, output) := Serve(h, sys.server, FrameAll(RequestRecords(id, params.value, q.body)));
      var reading := ReadResponse(id, sys.unread + output, [], []);
      Result(System(NextId(id), server, reading.rest), reading.outcome)
  }

  function Session(h: Handler, sys: System, qs: seq<Request>): (System, seq<Outcome>)
    decreases qs
  {
    if qs == [] then (sys, [])
    else
      var r := Exchange(h, sys, qs[0]);
      var (last, rest) := Session(h, r.system, qs[1..]);
      (last, [r.outcome] + rest)
  }

  /** Between calls: no request is open, nothing is left unread, and the next id is a legal one. */
  ghost predicate Quiet(sys: System) {
    !sys.server.active && sys.unread == [] && 1 <= sys.nextId <= 65535
  }

  lemma FinishReads(h: Handler, q: Request, params: Bytes, id: Id, calls: seq<Call>)
    requires RequestParams(q) == Some(params) && |params| <= MAX_PARAMS && |q.body| <= MAX_BODY
    ensures var e := Finish(h, State(true, id, true, params, q.body, calls));
            && ReadResponse(id, FrameAll(e.output), [], []) == Reading(Expected(h, calls, q).outcome, [])
            && e.state.calls == Expected(h, calls, q).calls
  {
    ParsedRequest(q);
    var s := State(true, id, true, params, q.body, calls);
    var output := RunRequest(h, s).output;
    assert FrameAll(output) + [] == FrameAll(output);
    assert |MSG_BAD_PARAMS| > 0 && |MSG_HANDLER| > 0 && |MSG_NOT_STRING| > 0;
    hide FrameAll, ReadResponse, SendError, SendEnd, Chunks, ParseParams, Kept, Ascii, RequestParams, PathOrSlash;
    var env := ParseParams(params);
    if env.None? {
      ReadError(id, MSG_BAD_PARAMS, []);
    } else {
      match h(calls, Call(env.value.verb, env.value.path, env.value.query, q.body))
      case Failed => ReadError(id, MSG_HANDLER, []);
      case NotString => ReadError(id, MSG_NOT_STRING, []);
      case Text(text) => ReadText(id, text, []);
    }
  }

  lemma LimitReads(id: Id, message: Bytes)
    requires message != []
    ensures ReadResponse(id, FrameAll(SendError(id, message)), [], []) == Reading(ApplicationError(message), [])
  {
    ReadError(id, message, []);
    hide ReadResponse, SendError, FrameAll;
    assert FrameAll(SendError(id, message)) + [] == FrameAll(SendError(id, message));
  }

  lemma ParamsNotEmpty(q: Request)
    requires RequestParams(q).Some?
    ensures RequestParams(q).value != []
  {
    EncodedIsLonger(RequestPairs(q), 0);
    assert |REQUEST_METHOD| == 14;
  }

  /** Every gateway call between two ends at rest returns the outcome of its own request - whatever
      the request, oversized ones included - and leaves both ends at rest again. */
  lemma ExchangeCorrect(h: Handler, sys: System, q: Request)
    requires Quiet(sys)
    ensures var r := Exchange(h, sys, q);
            && Quiet(r.system)
            && r.outcome == Expected(h, sys.server.calls, q).outcome
            && r.system.server.calls == Expected(h, sys.server.calls, q).calls
  {
    var id := sys.nextId;
    if RequestParams(q).Some? {
      var params := RequestParams(q).value;
      ParamsNotEmpty(q);
      var rs := RequestRecords(id, params, q.body);
      DecodeFramesOnly(rs);
      hide RequestRecords, Run, ReadResponse, FrameAll, DecodeAll, RequestParams, Expected;
      var e := Run(h, sys.server, rs);
      assert sys.unread + FrameAll(e.output) == FrameAll(e.output);
      AnswerReads(h, sys.server, id, params, q);
    }
  }

  /** What an idle responder writes for a request reads back as what the request should come to. */
  lemma AnswerReads(h: Handler, s: State, id: Id, params: Bytes, q: Request)
    requires !s.active && RequestParams(q) == Some(params) && params != []
    ensures var e := Run(h, s, RequestRecords(id, params, q.body));
            && !e.state.active && e.state.calls == Expected(h, s.calls, q).calls
            && ReadResponse(id, FrameAll(e.output), [], []) == Reading(Expected(h, s.calls, q).outcome, [])
  {
    assert |MSG_PARAMS_LIMIT| > 0 && |MSG_BODY_LIMIT| > 0;
    hide RequestRecords, Run, ReadResponse, FrameAll, RequestParams, SendError, Ascii, Finish, Kept, PathOrSlash;
    if |params| > MAX_PARAMS {
      ResponderRefuses(h, s, id, params, q.body);
      LimitReads(id, MSG_PARAMS_LIMIT);
    } else if |q.body| > MAX_BODY {
      ResponderRefuses(h, s, id, params, q.body);
      LimitReads(id, MSG_BODY_LIMIT);
    } else {
      ResponderAnswers(h, s, id, params, q.body);
      FinishReads(h, q, params, id, s.calls);
    }
  }

  function ExpectedAll(h: Handler, calls: seq<Call>, qs: seq<Request>): seq<Outcome>
    decreases qs
  {
    if qs == [] then []
    else
      var a := Expected(h, calls, qs[0]);
      [a.outcome] + ExpectedAll(h, a.calls, qs[1..])
  }

  /** Over any session the i-th call returns the outcome of the i-th request, computed with the
      handler calls of the requests before it and nothing else; failed requests leave no trace. */
  lemma {:induction false} SessionCorrect(h: Handler, sys: System, qs: seq<Request>)
    requires Quiet(sys)
    ensures var (last, outcomes) := Session(h, sys, qs);
            Quiet(last) && outcomes == ExpectedAll(h, sys.server.calls, qs)
    decreases qs
  {
    if qs != [] {
      ExchangeCorrect(h, sys, qs[0]);
      hide Exchange, Expected;
      SessionCorrect(h, Exchange(h, sys, qs[0]).system, qs[1..]);
    }
  }

  // When the handler sees the request unchanged.

  lemma {:induction false} CStringWhole(s: Bytes)
    ensures CString(s) == s <==> 0 !in s
  {
    if s != [] {
      CStringWhole(s[1..]);
      assert s == [s[0]] + s[1..];
    }
  }

  lemma KeptWhole(v: Bytes, capacity: nat)
    requires capacity > 0
    ensures Kept(v, capacity) == v <==> |v| < capacity && 0 !in v
  {
    CStringWhole(Take(v, capacity - 1));
  }

  /** The handler is called with exactly the method, path, query and body given to the gateway - and
      called once - if and only if the request fits: a non-empty NUL-free method of at most 31 bytes,
      NUL-free path and query of at most 4095, 16384 bytes of encoded PARAMS and 65536 of body. */
  lemma DeliveredIff(h: Handler, sys: System, q: Request)
    requires Quiet(sys)
    ensures Exchange(h, sys, q).system.server.calls ==
              sys.server.calls + [Call(q.verb, PathOrSlash(q.path), q.query, q.body)]
            <==>
            && 0 < |q.verb| <= 31 && 0 !in q.verb
            && |q.path| <= 4095 && 0 !in q.path
            && |q.query| <= 4095 && 0 !in q.query
            && RequestParams(q).Some? && |RequestParams(q).value| <= 16384
            && |q.body| <= 65536
  {
    ExchangeCorrect(h, sys, q);
    ExpectedCalls(h, sys.server.calls, q);
    CallIsWhole(q);
    hide Exchange, RequestParams, Expected, DeliveredCall, PathOrSlash;
    SnocInjective(sys.server.calls, DeliveredCall(q), Call(q.verb, PathOrSlash(q.path), q.query, q.body));
  }

  /** What the handler is given for a request. */
  function DeliveredCall(q: Request): Call {
    Call(Kept(q.verb, MAX_METHOD), Kept(PathOrSlash(q.path), MAX_PATH), Kept(q.query, MAX_QUERY), q.body)
  }

  lemma ExpectedCalls(h: Handler, calls: seq<Call>, q: Request)
    ensures Expected(h, calls, q).calls ==
            if RequestParams(q).Some? && |RequestParams(q).value| <= MAX_PARAMS && |q.body| <= MAX_BODY
               && DeliveredCall(q).verb != []
            then calls + [DeliveredCall(q)] else calls
  {
    hide RequestParams, Kept, PathOrSlash, Ascii;
  }

  lemma CallIsWhole(q: Request)
    ensures DeliveredCall(q) == Call(q.verb, PathOrSlash(q.path), q.query, q.body) <==>
            && |q.verb| <= 31 && 0 !in q.verb
            && |q.path| <= 4095 && 0 !in q.path
            && |q.query| <= 4095 && 0 !in q.query
  {
    KeptWhole(q.verb, MAX_METHOD);
    KeptWhole(PathOrSlash(q.path), MAX_PATH);
    KeptWhole(q.query, MAX_QUERY);
    assert Ascii("/") == [47];
    hide Kept, Ascii;
  }

  lemma SnocInjective<T>(s: seq<T>, a: T, b: T)
    ensures s + [a] == s + [b] <==> a == b
    ensures s != s + [b]
  {
    assert (s + [a])[|s|] == a && (s + [b])[|s|] == b;
    assert |s + [b]| == |s| + 1;
  }

  // What goes over the wire.

  /** The block that is sent spells out these four pairs, with a slash for an empty path and the length of
      the body in decimal. */
  lemma SentPairs(q: Request)
    requires RequestParams(q).Some?
    ensures DecodePairs(RequestParams(q).value) ==
            Some([Pair(Ascii("REQUEST_METHOD"), q.verb),
                  Pair(Ascii("SCRIPT_NAME"), if q.path == [] then [47] else q.path),
                  Pair(Ascii("QUERY_STRING"), q.query), Pair(Ascii("CONTENT_LENGTH"), Decimal(|q.body|))])
    ensures C.ParseInt(Decimal(|q.body|)) == Some(|q.body|)
  {
    var ps := RequestPairs(q);
    forall p | p in ps ensures Encodable(p) {
      var i :| 0 <= i < |ps| && ps[i] == p;
      EncodedIsLonger(ps, i);
    }
    assert Ascii("/") == [47];
    hide EncodePairs, DecodePairs, Decimal, Ascii;
    PairsRoundTrip(ps);
    C.PrintedReads(|q.body|);
  }

  /** What an idle responder writes for any request, read record by record: the text alone on STDOUT,
      or the message on STDERR and the whole error page on STDOUT. */
  lemma ServedDocument(h: Handler, s: State, id: Id, params: Bytes, q: Request)
    requires !s.active && RequestParams(q) == Some(params)
    ensures var output := Serve(h, s, FrameAll(RequestRecords(id, params, q.body))).1;
            var rs := DecodeAll(output).records;
            match Expected(h, s.calls, q).outcome
            case Returned(text) => Gather(6, id, rs) == text && Gather(7, id, rs) == []
            case ApplicationError(m) => Gather(7, id, rs) == m && Gather(6, id, rs) == ErrorPage(m)
            case _ => false
  {
    var sent := RequestRecords(id, params, q.body);
    ParamsNotEmpty(q);
    DecodeFramesOnly(sent);
    hide RequestRecords, Run, FrameAll, DecodeAll, RequestParams, SendError, Ascii, Kept, PathOrSlash, Gather,
         ErrorPage, SendEnd, Chunks, ParseParams;
    DecodeFramesOnly(Run(h, s, sent).output);
    if |params| > MAX_PARAMS || |q.body| > MAX_BODY {
      ResponderRefuses(h, s, id, params, q.body);
      ErrorDocument(id, if |params| > MAX_PARAMS then MSG_PARAMS_LIMIT else MSG_BODY_LIMIT);
    } else {
      ResponderAnswers(h, s, id, params, q.body);
      FinishDocument(h, q, params, id, s.calls);
    }
  }

  lemma FinishDocument(h: Handler, q: Request, params: Bytes, id: Id, calls: seq<Call>)
    requires RequestParams(q) == Some(params) && |params| <= MAX_PARAMS && |q.body| <= MAX_BODY
    ensures var rs := Finish(h, State(true, id, true, params, q.body, calls)).output;
            match Expected(h, calls, q).outcome
            case Returned(text) => Gather(6, id, rs) == text && Gather(7, id, rs) == []
            case ApplicationError(m) => Gather(7, id, rs) == m && Gather(6, id, rs) == ErrorPage(m)
            case _ => false
  {
    ParsedRequest(q);
    hide SendError, SendEnd, Chunks, ParseParams, Kept, Ascii, RequestParams, PathOrSlash, Gather, ErrorPage;
    var env := ParseParams(params);
    if env.None? {
      ErrorDocument(id, MSG_BAD_PARAMS);
    } else {
      match h(calls, Call(env.value.verb, env.value.path, env.value.query, q.body))
      case Failed => ErrorDocument(id, MSG_HANDLER);
      case NotString => ErrorDocument(id, MSG_NOT_STRING);
      case Text(text) => TextDocument(id, text);
    }
  }

  /** The error page is a CGI document: cut at its first blank line it has the status line, the type
      line, and the message with a line end as its body, whatever the message holds. */
  lemma ErrorPageCuts(message: Bytes)
    ensures C.Cut(ErrorPage(message), [13, 10, 13, 10]) ==
            Some(C.Halves(STATUS_LINE + [13, 10] + TYPE_LINE, message + [10]))
    ensures C.Lines(STATUS_LINE + [13, 10] + TYPE_LINE) ==
            [Ascii("Status: 500 Internal Server Error"), Ascii("Content-Type: text/plain; charset=utf-8")]
  {
    NoReturns("Status: 500 Internal Server Error");
    NoReturns("Content-Type: text/plain; charset=utf-8");
    hide Ascii, C.Cut, C.Lines;
    C.CutsAtBlankLine(STATUS_LINE, TYPE_LINE, message + [10]);
    C.TwoLines(STATUS_LINE, TYPE_LINE);
    var head := STATUS_LINE + [13, 10] + TYPE_LINE + [13, 10, 13, 10];
    assert head + message + [10] == head + (message + [10]);
  }

  lemma NoReturns(s: string)
    requires forall i :: 0 <= i < |s| ==> 32 <= s[i] as int < 256
    ensures C.NoCR(Ascii(s)) && |Ascii(s)| == |s|
  {
  }

  // Request ids.

  /** The id with which a session's next call goes out depends on the number of calls before it alone. */
  lemma {:induction false} SessionIds(h: Handler, sys: System, qs: seq<Request>)
    requires 1 <= sys.nextId <= 65535
    ensures Session(h, sys, qs).0.nextId == (sys.nextId - 1 + |qs|) % 65535 + 1
    decreases qs
  {
    hide Exchange;
    if qs == [] {
      IdFits(sys.nextId);
    } else {
      var r := Exchange(h, sys, qs[0]);
      ExchangeTakesId(h, sys, qs[0]);
      SessionIds(h, r.system, qs[1..]);
      NextAndMore(sys.nextId, |qs| - 1);
    }
  }

  lemma IdFits(id: Id)
    requires 1 <= id <= 65535
    ensures id == (id - 1) % 65535 + 1
  {
  }

  lemma NextAndMore(id: Id, n: nat)
    requires 1 <= id <= 65535
    ensures (NextId(id) - 1 + n) % 65535 == (id + n) % 65535
  {
    if id == 65535 { assert (id + n) % 65535 == n % 65535; }
  }

  lemma ExchangeTakesId(h: Handler, sys: System, q: Request)
    ensures Exchange(h, sys, q).system.nextId == NextId(sys.nextId)
  {
    hide Serve, ReadResponse, RequestParams, FrameAll, RequestRecords;
  }

  /** Any 65535 calls in a row go out with different ids. */
  lemma IdsDiffer(h: Handler, sys: System, xs: seq<Request>, ys: seq<Request>)
    requires 1 <= sys.nextId <= 65535 && xs < ys && |ys| - |xs| < 65535
    ensures Session(h, sys, xs).0.nextId != Session(h, sys, ys).0.nextId
  {
    hide Session;
    SessionIds(h, sys, xs);
    SessionIds(h, sys, ys);
    ModsDiffer(sys.nextId - 1 + |xs|, |ys| - |xs|);
  }

  lemma ModsDiffer(a: nat, d: nat)
    requires 0 < d < 65535
    ensures a % 65535 != (a + d) % 65535
  {
    var q := a / 65535;
    assert a == q * 65535 + a % 65535;
    if a % 65535 + d < 65535 {
      assert (a + d) / 65535 == q;
    } else {
      assert (a + d) / 65535 == q + 1;
    }
  }
}
