/** The responder as a machine over records: what `main`'s record loop and `run_request` do with
    each record, and what holds over every run. */
module FcgiResponder {
  import opened Bytes
  import opened FcgiRecords
  import opened FcgiParams

  const MAX_PARAMS := 16384
  const MAX_BODY := 65536

  /** One call of the script's `handle`. */
  datatype Call = Call(verb: Bytes, path: Bytes, query: Bytes, body: Bytes)

  datatype Reply =
    | Failed            // engine_call returned an error
    | NotString         // the result is no string, or a null one
    | Text(text: Bytes)

  /** The script engine keeps state between calls, so its answer may depend on every earlier call. */
  type Handler = (seq<Call>, Call) -> Reply

  datatype State = State(
    active: bool, id: Id, paramsComplete: bool, params: Bytes, body: Bytes, calls: seq<Call>)

  const INITIAL := State(false, 0, false, [], [], [])

  datatype Effect = Effect(state: State, output: seq<WireRecord>)

  ghost predicate Valid(s: State) {
    |s.params| <= MAX_PARAMS && |s.body| <= MAX_BODY
  }

  // Output.

  const ERROR_HEAD :=
    Ascii("Status: 500 Internal Server Error" + "\r\n" + "Content-Type: text/plain; charset=utf-8" + "\r\n\r\n")
  const MSG_SEQUENTIAL := Ascii("only one sequential FastCGI responder request is supported")
  const MSG_PARAMS_LIMIT := Ascii("FastCGI PARAMS exceed host limit")
  const MSG_EARLY_STDIN := Ascii("FastCGI STDIN arrived before PARAMS completed")
  const MSG_BODY_LIMIT := Ascii("FastCGI request body exceeds host limit")
  const MSG_BAD_PARAMS := Ascii("invalid or incomplete FastCGI PARAMS")
  const MSG_HANDLER := Ascii("Gengoscript handler failed")
  const MSG_NOT_STRING := Ascii("Gengoscript handle() must return a string")

  function SendEnd(id: Id, status: Byte): seq<WireRecord> {
    [Record(STDOUT, id, [])] + Chunks(END_REQUEST, id, [0, 0, 0, status, 0, 0, 0, 0])
  }

  function SendError(id: Id, message: Bytes): seq<WireRecord> {
    Chunks(STDERR, id, message) + Chunks(STDOUT, id, ERROR_HEAD) + Chunks(STDOUT, id, message)
    + Chunks(STDOUT, id, [10]) + SendEnd(id, 1)
  }

  // Steps.

  /** `run_request`: at most one handler call, and the whole response. */
  function RunRequest(h: Handler, s: State): Effect {
    var env := ParseParams(s.params);
    if env.None? then Effect(s, SendError(s.id, MSG_BAD_PARAMS))
    else
      var call := Call(env.value.verb, env.value.path, env.value.query, s.body);
      var s' := s.(calls := s.calls + [call]);
      match h(s.calls, call)
      case Failed => Effect(s', SendError(s.id, MSG_HANDLER))
      case NotString => Effect(s', SendError(s.id, MSG_NOT_STRING))
      case Text(text) => Effect(s', Chunks(STDOUT, s.id, text) + SendEnd(s.id, 0))
  }

  /** The end of STDIN answers the request and closes it. */
  function Finish(h: Handler, s: State): Effect {
    var e := if s.paramsComplete then RunRequest(h, s) else Effect(s, SendError(s.id, MSG_EARLY_STDIN));
    e.(state := e.state.(active := false))
  }

  /** `BEGIN_REQUEST` is refused while a request is active and for any role but the responder's. */
  predicate Refused(s: State, r: Record)
  {
    |r.content| < 3 || s.active || Be16(r.content[0], r.content[1]) != RESPONDER
  }

  function StepBegin(s: State, r: WireRecord): Effect {
    if Refused(s, r) then Effect(s, SendError(r.id, MSG_SEQUENTIAL))
    else Effect(State(true, r.id, false, [], [], s.calls), [])
  }

  function StepParams(s: State, content: Bytes): Effect {
    if content == [] then Effect(s.(paramsComplete := true), [])
    else if |s.params| + |content| > MAX_PARAMS then
      Effect(s.(active := false), SendError(s.id, MSG_PARAMS_LIMIT))
    else Effect(s.(params := s.params + content), [])
  }

  function StepStdin(h: Handler, s: State, content: Bytes): Effect {
    if content == [] then Finish(h, s)
    else if |s.body| + |content| > MAX_BODY then
      Effect(s.(active := false), SendError(s.id, MSG_BODY_LIMIT))
    else Effect(s.(body := s.body + content), [])
  }

  /** One turn of the record loop. */
  function Step(h: Handler, s: State, r: WireRecord): Effect {
    if r.kind == BEGIN_REQUEST then StepBegin(s, r)
    else if !s.active || r.id != s.id then Effect(s, [])
    else if r.kind == PARAMS then StepParams(s, r.content)
    else if r.kind == STDIN then StepStdin(h, s, r.content)
    else Effect(s, [])
  }

  function Run(h: Handler, s: State, rs: seq<WireRecord>): Effect
    decreases rs
  {
    if rs == [] then Effect(s, [])
    else
      var first := Step(h, s, rs[0]);
      var rest := Run(h, first.state, rs[1..]);
      Effect(rest.state, first.output + rest.output)
  }

  /** The whole process: bytes in, bytes out. */
  function Serve(h: Handler, s: State, input: Bytes): (State, Bytes) {
    var e := Run(h, s, DecodeAll(input).records);
    (e.state, FrameAll(e.output))
  }

  lemma {:induction false} RunAppend(h: Handler, s: State, a: seq<WireRecord>, b: seq<WireRecord>)
    ensures Run(h, s, a + b).state == Run(h, Run(h, s, a).state, b).state
    ensures Run(h, s, a + b).output == Run(h, s, a).output + Run(h, Run(h, s, a).state, b).output
    decreases a
  {
    hide Step;
    if a == [] {
      assert a + b == b;
    } else {
      assert (a + b)[1..] == a[1..] + b;
      RunAppend(h, Step(h, s, a[0]).state, a[1..], b);
    }
  }

  // Buffers stay in bounds.

  lemma {:induction false} RunKeepsValid(h: Handler, s: State, rs: seq<WireRecord>)
    requires Valid(s)
    ensures Valid(Run(h, s, rs).state)
    ensures s.calls <= Run(h, s, rs).state.calls
    decreases rs
  {
    if rs != [] {
      StepKeepsValid(h, s, rs[0]);
      hide Step;
      RunKeepsValid(h, Step(h, s, rs[0]).state, rs[1..]);
    }
  }

  lemma StepKeepsValid(h: Handler, s: State, r: WireRecord)
    requires Valid(s)
    ensures Valid(Step(h, s, r).state)
    ensures s.calls <= Step(h, s, r).state.calls
  {
    hide SendError, SendEnd, Chunks, ParseParams;
  }

  // Conservation: every BEGIN_REQUEST is ended exactly once.

  function Ids(kind: Byte, rs: seq<Record>): multiset<Id> {
    if rs == [] then multiset{}
    else (if rs[0].kind == kind then multiset{rs[0].id} else multiset{}) + Ids(kind, rs[1..])
  }

  function Open(s: State): multiset<Id> {
    if s.active then multiset{s.id} else multiset{}
  }

  lemma {:induction false} IdsAppend(kind: Byte, a: seq<Record>, b: seq<Record>)
    ensures Ids(kind, a + b) == Ids(kind, a) + Ids(kind, b)
  {
    if a == [] {
      assert a + b == b;
    } else {
      assert (a + b)[1..] == a[1..] + b;
      IdsAppend(kind, a[1..], b);
    }
  }

  lemma IdsOne(kind: Byte, r: Record)
    ensures Ids(kind, [r]) == if r.kind == kind then multiset{r.id} else multiset{}
  {
    assert [r][1..] == [];
  }

  lemma {:induction false} ChunksEndNothing(kind: Byte, id: Id, data: Bytes)
    requires kind != END_REQUEST
    ensures Ids(END_REQUEST, Chunks(kind, id, data)) == multiset{}
    decreases |data|
  {
    if data != [] {
      var n := Min(|data|, MAX_CONTENT);
      ChunksEndNothing(kind, id, data[n..]);
      assert Chunks(kind, id, data)[1..] == Chunks(kind, id, data[n..]);
    }
  }

  lemma SendEndEndsOnce(id: Id, status: Byte)
    ensures Ids(END_REQUEST, SendEnd(id, status)) == multiset{id}
  {
    var body := [0, 0, 0, status, 0, 0, 0, 0];
    assert body[..8] == body && body[8..] == [];
    assert Chunks(END_REQUEST, id, []) == [];
    assert Chunks(END_REQUEST, id, body) == [Record(END_REQUEST, id, body)];
    IdsOne(END_REQUEST, Record(STDOUT, id, []));
    IdsOne(END_REQUEST, Record(END_REQUEST, id, body));
    IdsAppend(END_REQUEST, [Record(STDOUT, id, [])], [Record(END_REQUEST, id, body)]);
  }

  lemma SendErrorEndsOnce(id: Id, message: Bytes)
    ensures Ids(END_REQUEST, SendError(id, message)) == multiset{id}
  {
    hide SendEnd;
    var a, b := Chunks(STDERR, id, message), Chunks(STDOUT, id, ERROR_HEAD);
    var c, d := Chunks(STDOUT, id, message), Chunks(STDOUT, id, [10]);
    ChunksEndNothing(STDERR, id, message);
    ChunksEndNothing(STDOUT, id, ERROR_HEAD);
    ChunksEndNothing(STDOUT, id, message);
    ChunksEndNothing(STDOUT, id, [10]);
    SendEndEndsOnce(id, 1);
    hide Chunks, Ids;
    IdsAppend(END_REQUEST, a, b);
    IdsAppend(END_REQUEST, a + b, c);
    IdsAppend(END_REQUEST, a + b + c, d);
    IdsAppend(END_REQUEST, a + b + c + d, SendEnd(id, 1));
  }

  lemma RunRequestEndsOnce(h: Handler, s: State)
    ensures Ids(END_REQUEST, RunRequest(h, s).output) == multiset{s.id}
    ensures RunRequest(h, s).state.active == s.active
  {
    hide SendEnd, SendError, Ids, Chunks, ParseParams;
    var env := ParseParams(s.params);
    if env.None? {
      SendErrorEndsOnce(s.id, MSG_BAD_PARAMS);
    } else {
      match h(s.calls, Call(env.value.verb, env.value.path, env.value.query, s.body))
      case Failed => SendErrorEndsOnce(s.id, MSG_HANDLER);
      case NotString => SendErrorEndsOnce(s.id, MSG_NOT_STRING);
      case Text(text) =>
        ChunksEndNothing(STDOUT, s.id, text);
        SendEndEndsOnce(s.id, 0);
        IdsAppend(END_REQUEST, Chunks(STDOUT, s.id, text), SendEnd(s.id, 0));
    }
  }

  lemma FinishEndsOnce(h: Handler, s: State)
    ensures Ids(END_REQUEST, Finish(h, s).output) == multiset{s.id} && !Finish(h, s).state.active
  {
    hide SendError, Ids, RunRequest, Ascii;
    if s.paramsComplete {
      RunRequestEndsOnce(h, s);
    } else {
      SendErrorEndsOnce(s.id, MSG_EARLY_STDIN);
    }
  }

  /** The ids ended and still open after a step are those open before it and the one begun, if any. */
  ghost predicate Balanced(before: State, begun: multiset<Id>, e: Effect) {
    Ids(END_REQUEST, e.output) + Open(e.state) == Open(before) + begun
  }

  lemma SilentBalances(before: State, begun: multiset<Id>, after: State)
    requires Open(after) == Open(before) + begun
    ensures Balanced(before, begun, Effect(after, []))
  {
    assert Ids(END_REQUEST, []) == multiset{};
  }

  lemma BeginConserves(s: State, r: WireRecord)
    ensures Balanced(s, multiset{r.id}, StepBegin(s, r))
  {
    hide SendError, Ids, Ascii;
    if Refused(s, r) {
      SendErrorEndsOnce(r.id, MSG_SEQUENTIAL);
    } else {
      SilentBalances(s, multiset{r.id}, StepBegin(s, r).state);
    }
  }

  lemma ParamsConserves(s: State, content: Bytes)
    requires s.active
    ensures Balanced(s, multiset{}, StepParams(s, content))
  {
    hide SendError, Ids, Ascii;
    if content != [] && |s.params| + |content| > MAX_PARAMS {
      SendErrorEndsOnce(s.id, MSG_PARAMS_LIMIT);
    } else {
      SilentBalances(s, multiset{}, StepParams(s, content).state);
    }
  }

  lemma StdinConserves(h: Handler, s: State, content: Bytes)
    requires s.active
    ensures Balanced(s, multiset{}, StepStdin(h, s, content))
  {
    hide SendError, Ids, Ascii, Finish;
    if content == [] {
      FinishEndsOnce(h, s);
    } else if |s.body| + |content| > MAX_BODY {
      SendErrorEndsOnce(s.id, MSG_BODY_LIMIT);
    } else {
      SilentBalances(s, multiset{}, StepStdin(h, s, content).state);
    }
  }

  lemma StepConserves(h: Handler, s: State, r: WireRecord)
    ensures Balanced(s, Ids(BEGIN_REQUEST, [r]), Step(h, s, r))
  {
    IdsOne(BEGIN_REQUEST, r);
    hide StepBegin, StepParams, StepStdin, Ids, Balanced;
    if r.kind == BEGIN_REQUEST {
      BeginConserves(s, r);
    } else if !s.active || r.id != s.id || (r.kind != PARAMS && r.kind != STDIN) {
      SilentBalances(s, multiset{}, s);
    } else if r.kind == PARAMS {
      ParamsConserves(s, r.content);
    } else {
      StdinConserves(h, s, r.content);
    }
  }

  lemma ChainBalances(ends1: multiset<Id>, mid: multiset<Id>, open: multiset<Id>, begins1: multiset<Id>,
                      ends2: multiset<Id>, last: multiset<Id>, begins2: multiset<Id>)
    requires ends1 + mid == open + begins1
    requires ends2 + last == mid + begins2
    ensures ends1 + ends2 + last == open + (begins1 + begins2)
  {
    forall x: Id ensures (ends1 + ends2 + last)[x] == (open + (begins1 + begins2))[x] {
      assert (ends1 + mid)[x] == (open + begins1)[x];
      assert (ends2 + last)[x] == (mid + begins2)[x];
    }
  }

  /** Over every sequence of records: the requests ended, with the one still open, are exactly the
      requests begun, with the one open at the start - as multisets of ids. */
  lemma {:induction false} RunConserves(h: Handler, s: State, rs: seq<WireRecord>)
    ensures Ids(END_REQUEST, Run(h, s, rs).output) + Open(Run(h, s, rs).state) == Open(s) + Ids(BEGIN_REQUEST, rs)
    decreases rs
  {
    if rs == [] {
      assert Ids(END_REQUEST, []) == Ids(BEGIN_REQUEST, []) == multiset{};
    } else {
      StepConserves(h, s, rs[0]);
      hide Step, Ids, Open;
      var first := Step(h, s, rs[0]);
      RunConserves(h, first.state, rs[1..]);
      IdsAppend(END_REQUEST, first.output, Run(h, first.state, rs[1..]).output);
      IdsAppend(BEGIN_REQUEST, [rs[0]], rs[1..]);
      assert rs == [rs[0]] + rs[1..];
      var rest := Run(h, first.state, rs[1..]);
      ChainBalances(Ids(END_REQUEST, first.output), Open(first.state), Open(s), Ids(BEGIN_REQUEST, [rs[0]]),
                    Ids(END_REQUEST, rest.output), Open(rest.state), Ids(BEGIN_REQUEST, rs[1..]));
    }
  }

  /** The same of the bytes: whatever bytes arrive, the output is a whole number of well-formed
      records in which every request begun in the input is ended exactly once, but for one left open. */
  lemma ServeConserves(h: Handler, input: Bytes)
    ensures var (s, output) := Serve(h, INITIAL, input);
            && DecodeAll(output).clean
            && Ids(END_REQUEST, DecodeAll(output).records) + Open(s) == Ids(BEGIN_REQUEST, DecodeAll(input).records)
            && Valid(s)
  {
    hide Run, DecodeAll, FrameAll, Ids;
    var rs := DecodeAll(input).records;
    RunConserves(h, INITIAL, rs);
    RunKeepsValid(h, INITIAL, rs);
    DecodeFramesOnly(Run(h, INITIAL, rs).output);
  }

  // How the input is cut into records does not matter.

  /** Some record of the request ends its PARAMS stream. */
  predicate Closes(id: Id, rs: seq<Record>) {
    exists i :: 0 <= i < |rs| && rs[i] == Record(PARAMS, id, [])
  }

  /** No record of the request ends its STDIN stream. */
  predicate KeepsOpen(id: Id, rs: seq<Record>) {
    forall i :: 0 <= i < |rs| ==> rs[i] != Record(STDIN, id, [])
  }

  predicate NoBegin(rs: seq<Record>) {
    forall i :: 0 <= i < |rs| ==> rs[i].kind != BEGIN_REQUEST
  }

  /** The answers to the BEGIN_REQUEST records that arrive while a request is active. */
  function Refusals(rs: seq<Record>): seq<WireRecord> {
    if rs == [] then []
    else (if rs[0].kind == BEGIN_REQUEST then SendError(rs[0].id, MSG_SEQUENTIAL) else []) + Refusals(rs[1..])
  }

  /** The state after the records of an active request, by what their contents concatenate to. */
  function Fed(s: State, rs: seq<Record>): State {
    s.(params := s.params + Gather(PARAMS, s.id, rs),
       body := s.body + Gather(STDIN, s.id, rs),
       paramsComplete := s.paramsComplete || Closes(s.id, rs))
  }

  lemma FedStep(h: Handler, s: State, r: WireRecord)
    requires s.active && r != Record(STDIN, s.id, [])
    requires Valid(Fed(s, [r]))
    ensures Step(h, s, r) ==
            Effect(Fed(s, [r]), if r.kind == BEGIN_REQUEST then SendError(r.id, MSG_SEQUENTIAL) else [])
  {
    hide SendError, Ascii, RunRequest;
    assert forall kind: Byte :: Gather(kind, s.id, [r]) == if r.kind == kind && r.id == s.id then r.content else [] by {
      assert [r][1..] == [];
    }
    assert Closes(s.id, [r]) <==> r == Record(PARAMS, s.id, []) by {
      if r == Record(PARAMS, s.id, []) { assert [r][0] == r; }
    }
    assert s.params + [] == s.params && s.body + [] == s.body;
  }

  lemma FedCons(s: State, r: Record, rs: seq<Record>)
    ensures Fed(s, [r] + rs) == Fed(Fed(s, [r]), rs)
  {
    hide Gather, Closes;
    GatherAppend(PARAMS, s.id, [r], rs);
    GatherAppend(STDIN, s.id, [r], rs);
    ClosesCons(s.id, r, rs);
    Associates(s.params, Gather(PARAMS, s.id, [r]), Gather(PARAMS, s.id, rs));
    Associates(s.body, Gather(STDIN, s.id, [r]), Gather(STDIN, s.id, rs));
  }

  lemma ClosesCons(id: Id, r: Record, rs: seq<Record>)
    ensures Closes(id, [r] + rs) <==> Closes(id, [r]) || Closes(id, rs)
  {
    var all := [r] + rs;
    if Closes(id, rs) {
      var i :| 0 <= i < |rs| && rs[i] == Record(PARAMS, id, []);
      assert all[i + 1] == rs[i];
    }
    if Closes(id, [r]) { assert all[0] == [r][0]; }
  }

  lemma Associates(a: Bytes, b: Bytes, c: Bytes)
    ensures a + (b + c) == a + b + c
  {
  }

  /** While the totals stay within the limits, an active request just accumulates: its buffers hold
      the concatenation of its PARAMS and STDIN contents, whatever the cuts and whatever records of
      other requests come between, and the only output is the refusal of other requests. */
  lemma {:induction false} Accumulates(h: Handler, s: State, rs: seq<WireRecord>)
    requires s.active && KeepsOpen(s.id, rs) && Valid(Fed(s, rs))
    ensures Run(h, s, rs) == Effect(Fed(s, rs), Refusals(rs))
    decreases rs
  {
    hide Step, SendError, Fed, Ascii;
    if rs == [] {
      assert Fed(s, rs) == s by { FedEmpty(s); }
    } else {
      var r, rest := rs[0], rs[1..];
      assert rs == [r] + rest;
      FedCons(s, r, rest);
      var s' := Fed(s, [r]);
      FedGrows(s, [r]);
      FedGrows(s', rest);
      FedStep(h, s, r);
      Accumulates(h, s', rest);
    }
  }

  lemma FedEmpty(s: State)
    ensures Fed(s, []) == s
  {
    assert s.params + [] == s.params && s.body + [] == s.body;
  }

  lemma FedGrows(s: State, rs: seq<Record>)
    ensures var t := Fed(s, rs); t.id == s.id && t.active == s.active && t.calls == s.calls
    ensures |s.params| <= |Fed(s, rs).params| && |s.body| <= |Fed(s, rs).body|
  {
  }

  /** So the handler sees the concatenations, once, when STDIN ends. */
  lemma WholeRequest(h: Handler, s: State, rs: seq<WireRecord>)
    requires s.active && KeepsOpen(s.id, rs) && Valid(Fed(s, rs))
    ensures var end := Finish(h, Fed(s, rs));
            Run(h, s, rs + [Record(STDIN, s.id, [])]) == Effect(end.state, Refusals(rs) + end.output)
  {
    var end := Record(STDIN, s.id, []);
    Accumulates(h, s, rs);
    FedGrows(s, rs);
    hide Finish, Refusals, Fed;
    RunAppend(h, s, rs, [end]);
    RunOne(h, Fed(s, rs), end);
  }

  /** Two ways of sending the same PARAMS and STDIN bytes lead to the same handler call, the same
      final state and the same response. */
  lemma ChunkingIrrelevant(h: Handler, s: State, xs: seq<WireRecord>, ys: seq<WireRecord>)
    requires s.active && KeepsOpen(s.id, xs) && KeepsOpen(s.id, ys)
    requires Gather(PARAMS, s.id, xs) == Gather(PARAMS, s.id, ys) && Closes(s.id, xs) == Closes(s.id, ys)
    requires Gather(STDIN, s.id, xs) == Gather(STDIN, s.id, ys)
    requires Valid(Fed(s, xs))
    ensures var x, y := Run(h, s, xs + [Record(STDIN, s.id, [])]), Run(h, s, ys + [Record(STDIN, s.id, [])]);
            && x.state == y.state
            && exists response :: x.output == Refusals(xs) + response && y.output == Refusals(ys) + response
  {
    WholeRequest(h, s, xs);
    WholeRequest(h, s, ys);
    hide Finish, Refusals, Run;
    assert Fed(s, xs) == Fed(s, ys);
  }

  lemma RunOne(h: Handler, s: State, r: WireRecord)
    ensures Run(h, s, [r]) == Step(h, s, r)
  {
    hide Step;
    var first := Step(h, s, r);
    assert [r][1..] == [];
    assert Run(h, first.state, []) == Effect(first.state, []);
    assert first.output + [] == first.output;
  }

  // Leftovers are ignored, and going over a limit fails the request once.

  /** Without an active request nothing but BEGIN_REQUEST has any effect. */
  lemma {:induction false} IdleIgnores(h: Handler, s: State, rs: seq<WireRecord>)
    requires !s.active && NoBegin(rs)
    ensures Run(h, s, rs) == Effect(s, [])
    decreases rs
  {
    if rs != [] {
      assert rs[0].kind != BEGIN_REQUEST;
      IdleIgnores(h, s, rs[1..]);
    }
  }

  /** The message for the limit that a request's totals exceed; PARAMS is looked at first. */
  function LimitMessage(s: State): Bytes {
    if |s.params| > MAX_PARAMS then MSG_PARAMS_LIMIT else MSG_BODY_LIMIT
  }

  /** A request whose PARAMS or STDIN total exceeds its limit is failed exactly once, by the very
      record k that takes it over, without a handler call; until then it only accumulates, whatever
      comes between its records, and the refusals of other requests are the only output. */
  lemma {:induction false} OverLimitFailsOnce(h: Handler, s: State, rs: seq<WireRecord>) returns (k: nat)
    requires s.active && Valid(s) && KeepsOpen(s.id, rs) && !Valid(Fed(s, rs))
    ensures k < |rs| && Valid(Fed(s, rs[..k])) && !Valid(Fed(s, rs[..k + 1]))
    ensures Run(h, s, rs[..k + 1]) ==
            Effect(Fed(s, rs[..k]).(active := false),
                   Refusals(rs[..k]) + SendError(s.id, LimitMessage(Fed(s, rs[..k + 1]))))
  {
    hide SendError, Ascii, Run, Fed, Step;
    k := FirstOver(s, rs);
    var before, r := rs[..k], rs[k];
    assert KeepsOpen(s.id, before);
    assert rs[..k + 1] == before + [r];
    Accumulates(h, s, before);
    FedGrows(s, before);
    FedSnoc(s, before, r);
    RunAppend(h, s, before, [r]);
    RunOne(h, Fed(s, before), r);
    FedOver(h, Fed(s, before), r);
  }

  lemma {:induction false} FirstOver(s: State, rs: seq<WireRecord>) returns (k: nat)
    requires Valid(s) && !Valid(Fed(s, rs))
    ensures k < |rs| && Valid(Fed(s, rs[..k])) && !Valid(Fed(s, rs[..k + 1]))
    decreases rs
  {
    hide Fed, Valid;
    FedEmpty(s);
    var n := |rs| - 1;
    if Valid(Fed(s, rs[..n])) {
      k := n;
      assert rs[..n + 1] == rs;
    } else {
      k := FirstOver(s, rs[..n]);
      assert rs[..n][..k] == rs[..k] && rs[..n][..k + 1] == rs[..k + 1];
    }
  }

  lemma FedSnoc(s: State, rs: seq<Record>, r: Record)
    ensures Fed(s, rs + [r]) == Fed(Fed(s, rs), [r])
  {
    hide Gather, Closes;
    GatherAppend(PARAMS, s.id, rs, [r]);
    GatherAppend(STDIN, s.id, rs, [r]);
    ClosesSnoc(s.id, rs, r);
    Associates(s.params, Gather(PARAMS, s.id, rs), Gather(PARAMS, s.id, [r]));
    Associates(s.body, Gather(STDIN, s.id, rs), Gather(STDIN, s.id, [r]));
  }

  lemma ClosesSnoc(id: Id, rs: seq<Record>, r: Record)
    ensures Closes(id, rs + [r]) <==> Closes(id, rs) || Closes(id, [r])
  {
    var all := rs + [r];
    if Closes(id, rs) {
      var i :| 0 <= i < |rs| && rs[i] == Record(PARAMS, id, []);
      assert all[i] == rs[i];
    }
    if Closes(id, [r]) { assert all[|rs|] == [r][0]; }
  }

  /** Where no other request is begun among its records, that error is all that comes of it. */
  lemma OverLimitAlone(h: Handler, s: State, rs: seq<WireRecord>)
    requires s.active && Valid(s) && KeepsOpen(s.id, rs) && !Valid(Fed(s, rs)) && NoBegin(rs)
    ensures var e := Run(h, s, rs);
            && !e.state.active && e.state.calls == s.calls
            && (e.output == SendError(s.id, MSG_PARAMS_LIMIT) || e.output == SendError(s.id, MSG_BODY_LIMIT))
            && (|Fed(s, rs).params| <= MAX_PARAMS ==> e.output == SendError(s.id, MSG_BODY_LIMIT))
            && (|Fed(s, rs).body| <= MAX_BODY ==> e.output == SendError(s.id, MSG_PARAMS_LIMIT))
  {
    hide SendError, Ascii, Run, Step, Refusals, Fed;
    var k := OverLimitFailsOnce(h, s, rs);
    var front, rest := rs[..k + 1], rs[k + 1..];
    assert rs == front + rest;
    RunAppend(h, s, front, rest);
    FedGrows(s, rs[..k]);
    IdleIgnores(h, Run(h, s, front).state, rest);
    NoRefusals(rs[..k]);
    FedLarger(s, front, rest);
    var error := SendError(s.id, LimitMessage(Fed(s, front)));
    assert [] + error + [] == error;
  }

  lemma FedLarger(s: State, a: seq<Record>, b: seq<Record>)
    ensures |Fed(s, a).params| <= |Fed(s, a + b).params| && |Fed(s, a).body| <= |Fed(s, a + b).body|
  {
    hide Closes;
    GatherAppend(PARAMS, s.id, a, b);
    GatherAppend(STDIN, s.id, a, b);
  }

  lemma {:induction false} NoRefusals(rs: seq<Record>)
    requires NoBegin(rs)
    ensures Refusals(rs) == []
  {
    if rs != [] {
      assert rs[0].kind != BEGIN_REQUEST;
      NoRefusals(rs[1..]);
    }
  }

  lemma FedOver(h: Handler, s: State, r: WireRecord)
    requires s.active && Valid(s) && !Valid(Fed(s, [r]))
    ensures Step(h, s, r) == Effect(s.(active := false), SendError(s.id, LimitMessage(Fed(s, [r]))))
  {
    hide SendError, Ascii, RunRequest;
    assert forall kind: Byte :: Gather(kind, s.id, [r]) == if r.kind == kind && r.id == s.id then r.content else [] by {
      assert [r][1..] == [];
    }
  }

  // What requests are begun, and what an error says.

  /** A request is begun if and only if none is active and the record asks for a responder; otherwise
      it is refused and nothing changes. */
  lemma BeginIff(h: Handler, s: State, r: WireRecord)
    requires r.kind == 1
    ensures var c := r.content;
            Step(h, s, r) ==
            if !s.active && |c| >= 3 && c[0] == 0 && c[1] == 1 then
              Effect(State(true, r.id, false, [], [], s.calls), [])
            else Effect(s, SendError(r.id, Ascii("only one sequential FastCGI responder request is supported")))
  {
    hide SendError, Ascii;
  }

  /** STDIN that ends before PARAMS has ended: the handler is not called, and the answer says so. */
  lemma EarlyStdin(h: Handler, s: State, rs: seq<WireRecord>)
    requires s.active && KeepsOpen(s.id, rs) && Valid(Fed(s, rs)) && !s.paramsComplete
    requires forall i :: 0 <= i < |rs| ==> rs[i] != Record(4, s.id, [])
    ensures var e := Run(h, s, rs + [Record(5, s.id, [])]);
            && !e.state.active && e.state.calls == s.calls
            && e.output == Refusals(rs) + SendError(s.id, Ascii("FastCGI STDIN arrived before PARAMS completed"))
  {
    hide SendError, Ascii, Refusals, RunRequest;
    WholeRequest(h, s, rs);
    assert !Fed(s, rs).paramsComplete;
  }

  const STATUS_LINE := Ascii("Status: 500 Internal Server Error")
  const TYPE_LINE := Ascii("Content-Type: text/plain; charset=utf-8")

  /** The document of an error response: two header lines, a blank line, the message and a line end. */
  function ErrorPage(message: Bytes): Bytes {
    STATUS_LINE + [13, 10] + TYPE_LINE + [13, 10, 13, 10] + message + [10]
  }

  lemma ErrorHead()
    ensures ERROR_HEAD == STATUS_LINE + [13, 10] + TYPE_LINE + [13, 10, 13, 10]
  {
    var a, b := "Status: 500 Internal Server Error", "Content-Type: text/plain; charset=utf-8";
    assert Ascii("\r\n") == [13, 10] && Ascii("\r\n\r\n") == [13, 10, 13, 10];
    AsciiAppend(a, "\r\n");
    AsciiAppend(a + "\r\n", b);
    AsciiAppend(a + "\r\n" + b, "\r\n\r\n");
  }

  lemma EndGathers(id: Id, status: Byte)
    ensures Gather(STDERR, id, SendEnd(id, status)) == [] && Gather(STDOUT, id, SendEnd(id, status)) == []
  {
    hide Chunks;
    var body: Bytes := [0, 0, 0, status, 0, 0, 0, 0];
    var first, rest: seq<WireRecord> := [Record(STDOUT, id, [])], Chunks(END_REQUEST, id, body);
    ChunksContent(END_REQUEST, id, body);
    assert first[1..] == [];
    GatherAppend(STDERR, id, first, rest);
    GatherAppend(STDOUT, id, first, rest);
    GatherNone(STDERR, id, rest);
    GatherNone(STDOUT, id, rest);
  }

  /** A block of one kind contributes all of itself to that kind and nothing to another. */
  lemma ChunksGather(kind: Byte, other: Byte, id: Id, data: Bytes)
    requires kind != other
    ensures Gather(kind, id, Chunks(kind, id, data)) == data && Gather(other, id, Chunks(kind, id, data)) == []
  {
    hide Chunks;
    ChunksContent(kind, id, data);
    GatherNone(other, id, Chunks(kind, id, data));
  }

  lemma GatherFive(kind: Byte, id: Id, a: seq<Record>, b: seq<Record>, c: seq<Record>, d: seq<Record>, e: seq<Record>)
    ensures Gather(kind, id, a + b + c + d + e) ==
            Gather(kind, id, a) + Gather(kind, id, b) + Gather(kind, id, c) + Gather(kind, id, d) + Gather(kind, id, e)
  {
    GatherAppend(kind, id, a, b);
    GatherAppend(kind, id, a + b, c);
    GatherAppend(kind, id, a + b + c, d);
    GatherAppend(kind, id, a + b + c + d, e);
  }

  /** An error response carries exactly the message on STDERR, and on STDOUT exactly the page. */
  lemma ErrorDocument(id: Id, message: Bytes)
    ensures Gather(7, id, SendError(id, message)) == message
    ensures Gather(6, id, SendError(id, message)) == ErrorPage(message)
  {
    hide Chunks, SendEnd, Ascii, Gather;
    var a, b, c := Chunks(STDERR, id, message), Chunks(STDOUT, id, ERROR_HEAD), Chunks(STDOUT, id, message);
    var d, e := Chunks(STDOUT, id, [10]), SendEnd(id, 1);
    ChunksGather(STDERR, STDOUT, id, message);
    ChunksGather(STDOUT, STDERR, id, ERROR_HEAD);
    ChunksGather(STDOUT, STDERR, id, message);
    ChunksGather(STDOUT, STDERR, id, [10]);
    EndGathers(id, 1);
    GatherFive(STDERR, id, a, b, c, d, e);
    GatherFive(STDOUT, id, a, b, c, d, e);
    ErrorHead();
    assert message + [] + [] + [] + [] == message;
    assert [] + ERROR_HEAD + message + [10] + [] == ERROR_HEAD + message + [10];
  }

  /** A text response carries exactly the text on STDOUT and nothing on STDERR. */
  lemma TextDocument(id: Id, text: Bytes)
    ensures var rs := Chunks(STDOUT, id, text) + SendEnd(id, 0);
            Gather(6, id, rs) == text && Gather(7, id, rs) == []
  {
    hide Chunks, SendEnd, Gather;
    ChunksGather(STDOUT, STDERR, id, text);
    EndGathers(id, 0);
    GatherAppend(STDOUT, id, Chunks(STDOUT, id, text), SendEnd(id, 0));
    GatherAppend(STDERR, id, Chunks(STDOUT, id, text), SendEnd(id, 0));
    assert text + [] == text;
  }
}
