/** The gateway object holding one responder process: `FastCGIGateway.request` with its loops,
    proved against the exchange of FcgiGateway. */
module FcgiClient {
  import opened Bytes
  import opened FcgiRecords
  import R = FcgiResponder
  import opened FcgiGateway
  import opened FcgiHost

  lemma FrameThree(a: WireRecord, b: WireRecord, c: WireRecord)
    ensures FrameAll([a, b, c]) == Frame(a) + Frame(b) + Frame(c)
  {
    hide Frame;
    FrameSingle(c);
    assert [a, b, c] == [a] + ([b] + [c]);
    FrameAllAppend([b], [c]);
    FrameSingle(b);
    FrameAllAppend([a], [b] + [c]);
    FrameSingle(a);
  }

  lemma ExchangeUnfolds(h: R.Handler, sys: System, q: FcgiGateway.Request)
    ensures RequestParams(q).None? ==> Exchange(h, sys, q) == Result(sys.(nextId := NextId(sys.nextId)), PackError)
    ensures RequestParams(q).Some? ==>
              var stream := FrameAll(RequestRecords(sys.nextId, RequestParams(q).value, q.body));
              var (server, output) := R.Serve(h, sys.server, stream);
              var reading := FcgiGateway.ReadResponse(sys.nextId, sys.unread + output, [], []);
              Exchange(h, sys, q) == Result(System(NextId(sys.nextId), server, reading.rest), reading.outcome)
  {
    hide R.Serve, FcgiGateway.ReadResponse, RequestParams, RequestRecords, FrameAll;
  }

  datatype Next = Got(record: WireRecord) | Raised(message: Bytes)

  class Gateway {
    const host: Host
    var nextRequestId: Id

    constructor (host: Host)
      ensures this.host == host && nextRequestId == 1
    {
      this.host := host;
      nextRequestId := 1;
    }

    ghost function View(): System
      requires host.Valid()
      reads this, host, host.params, host.body
    {
      System(nextRequestId, host.View(), host.output)
    }

    /** Take exactly n bytes from the response pipe, in whatever pieces it delivers them. */
    method ReadExact(n: nat) returns (ok: bool, data: Bytes)
      modifies host`output
      ensures ok <==> n <= |old(host.output)|
      ensures ok ==> data == old(host.output)[..n] && host.output == old(host.output)[n..]
      ensures !ok ==> host.output == []
    {
      data := [];
      while |data| < n
        invariant |data| <= n && data + host.output == old(host.output)
      {
        if host.output == [] { return false, data; }
        var k :| 1 <= k <= n - |data| && k <= |host.output|;
        data, host.output := data + host.output[..k], host.output[k..];
      }
      ok := true;
    }

    /** The STDIN records of a body, cut every 65535 bytes. */
    method BodyStream(id: Id, body: Bytes) returns (stream: Bytes)
      ensures stream == FrameAll(Chunks(STDIN, id, body))
    {
      hide Frame, FrameAll, Chunks;
      ghost var all := FrameAll(Chunks(STDIN, id, body));
      stream := [];
      var offset := 0;
      assert body[offset..] == body;
      while offset < |body|
        invariant 0 <= offset <= |body|
        invariant stream + FrameAll(Chunks(STDIN, id, body[offset..])) == all
      {
        var n := Min(|body| - offset, 65535);
        FrameChunk(STDIN, id, body[offset..]);
        assert body[offset..][..n] == body[offset..offset + n] && body[offset..][n..] == body[offset + n..];
        stream := stream + Frame(Record(STDIN, id, body[offset..offset + n]));
        offset := offset + n;
      }
      assert body[offset..] == [];
      NothingLeft(STDIN, id);
    }

    /** The bytes of one request. */
    method BuildStream(id: Id, params: Bytes, body: Bytes) returns (stream: Bytes)
      requires |params| <= MAX_CONTENT
      ensures stream == FrameAll(RequestRecords(id, params, body))
    {
      var begin: WireRecord := Record(BEGIN_REQUEST, id, BEGIN_BODY);
      var first, last: WireRecord := Record(PARAMS, id, params), Record(PARAMS, id, []);
      var end: WireRecord := Record(STDIN, id, []);
      hide Frame, FrameAll, Chunks;
      ghost var head: seq<WireRecord> := [begin, first, last];
      FrameThree(begin, first, last);
      FrameSingle(end);
      FrameAllAppend(head, Chunks(STDIN, id, body));
      FrameAllAppend(head + Chunks(STDIN, id, body), [end]);
      var rest := BodyStream(id, body);
      stream := Frame(begin) + Frame(first) + Frame(last) + rest + Frame(end);
    }

    /** One response record for the given request, or the message with which the gateway raises. */
    method ReadRecord(id: Id) returns (r: Next)
      modifies host`output
      ensures r.Got? <==> ParseRecord(old(host.output)).Parsed? && ParseRecord(old(host.output)).record.id == id
      ensures r.Got? ==> ParseRecord(old(host.output)) == Parsed(r.record, host.output)
      ensures r.Raised? ==> AfterBad(id, old(host.output)) == Reading(ProtocolError(r.message), host.output)
    {
      hide Ascii;
      var ok, h, content, padding;
      ok, h := ReadExact(8);
      if !ok { return Raised(MSG_CLOSED); }
      if h[0] != VERSION_1 || h[7] != 0 || Be16(h[2], h[3]) != id { return Raised(MSG_RECORD); }
      ok, content := ReadExact(Be16(h[4], h[5]));
      if !ok { return Raised(MSG_CLOSED); }
      ok, padding := ReadExact(h[6]);
      if !ok { return Raised(MSG_CLOSED); }
      return Got(Record(h[1], id, content));
    }

    /** The response loop: what it returns and leaves unread is what ReadResponse says. */
    method ReadResponse(id: Id) returns (outcome: Outcome)
      modifies host`output
      ensures var reading := FcgiGateway.ReadResponse(id, old(host.output), [], []);
              outcome == reading.outcome && host.output == reading.rest
    {
      var out, err: Bytes := [], [];
      ghost var want := FcgiGateway.ReadResponse(id, host.output, [], []);
      hide Ascii, ParseRecord;
      while true
        invariant FcgiGateway.ReadResponse(id, host.output, out, err) == want
        decreases |host.output|
      {
        var next := ReadRecord(id);
        if next.Raised? { return ProtocolError(next.message); }
        var r := next.record;
        if r.kind == STDOUT {
          out := out + r.content;
        } else if r.kind == STDERR {
          err := err + r.content;
        } else if r.kind == END_REQUEST {
          if |r.content| != 8 { return ProtocolError(MSG_END); }
          if r.content[..4] != [0, 0, 0, 0] {
            return ApplicationError(if err == [] then MSG_DEFAULT else err);
          }
          return Returned(out);
        }
      }
    }

    /** Write a whole request, let the responder work through it, read one response. */
    method Transact(id: Id, stream: Bytes) returns (outcome: Outcome)
      requires host.Valid() && host.input == [] && DecodeAll(stream).clean
      modifies host, host.params, host.body, host.verb, host.path, host.query
      ensures host.Valid() && host.input == []
      ensures var (server, output) := R.Serve(host.handler, old(host.View()), stream);
              var reading := FcgiGateway.ReadResponse(id, old(host.output) + output, [], []);
              outcome == reading.outcome && host.View() == server && host.output == reading.rest
    {
      hide FcgiGateway.ReadResponse, R.Serve, DecodeAll;
      host.input := host.input + stream;
      assert host.input == stream;
      var clean := host.Serve();
      outcome := ReadResponse(id);
    }

    /** One call is exactly one exchange, so between two ends at rest it returns what its own request
        should come to and leaves them at rest. */
    method Request(q: FcgiGateway.Request) returns (outcome: Outcome)
      requires host.Valid() && host.input == []
      modifies this`nextRequestId, host, host.params, host.body, host.verb, host.path, host.query
      ensures host.Valid() && host.input == []
      ensures Result(View(), outcome) == Exchange(host.handler, old(View()), q)
      ensures old(Quiet(View())) ==>
                Quiet(View()) && Answer(outcome, host.calls) == Expected(host.handler, old(host.calls), q)
    {
      hide FcgiGateway.ReadResponse, R.Serve, FrameAll, DecodeAll, RequestRecords, RequestParams, Exchange, Expected;
      ghost var before := View();
      ExchangeUnfolds(host.handler, before, q);
      if Quiet(before) { ExchangeCorrect(host.handler, before, q); }
      var id := nextRequestId;
      nextRequestId := if id == 0xFFFF then 1 else id + 1;
      var params := RequestParams(q);
      if params.None? { return PackError; }
      var stream := BuildStream(id, params.value, q.body);
      DecodeFramesOnly(RequestRecords(id, params.value, q.body));
      outcome := Transact(id, stream);
    }
  }
}
