/** The request/reply protocol between the service and one worker process, as a machine over its
    steps: requests, the worker's loop, replies, timeouts, crashes and kills in any order. */
module Workers {
  import opened Bytes
  import opened WorkerFrames

  const LOAD: Byte := 1
  const CALL: Byte := 2
  const OK: Byte := 3
  const ERROR: Byte := 4

  /** Whatever a worker answers fits one field. */
  type Text = s: Bytes | |s| <= MAX_RESPONSE witness []

  datatype Answer = Good(text: Text) | Bad(message: Text)

  /** The script engine: its answer may depend on every frame the worker handled before. */
  type Engine = (seq<Frame>, Frame) -> Answer

  const MSG_LOAD := Ascii("invalid worker load request")
  const MSG_CALL := Ascii("invalid worker call request")
  const MSG_INIT := Ascii("function worker is not initialized")
  const MSG_KIND := Ascii("unknown function worker request")

  /** The last proper load request succeeded. */
  predicate Initialized(e: Engine, history: seq<Frame>) {
    if history == [] then false
    else
      var before, f := history[..|history| - 1], history[|history| - 1];
      if f.kind == LOAD && |f.fields| == 2 then e(before, f).Good? else Initialized(e, before)
  }

  /** One turn of `workerMain` for a frame it has read. */
  function WorkerAnswer(e: Engine, history: seq<Frame>, f: Frame): Answer {
    if f.kind == LOAD then
      if |f.fields| != 2 then Bad(MSG_LOAD)
      else match e(history, f)
        case Good(_) => Good([])
        case Bad(m) => Bad(m)
    else if f.kind == CALL then
      if |f.fields| != 4 then Bad(MSG_CALL)
      else if !Initialized(e, history) then Bad(MSG_INIT)
      else e(history, f)
    else Bad(MSG_KIND)
  }

  function ReplyFrame(a: Answer): (f: Frame)
    ensures Sendable(f) && Total(f.fields) <= MAX_RESPONSE
  {
    match a
    case Good(t) => assert Total([t][1..]) == 0; Frame(OK, [t])
    case Bad(m) => assert Total([m][1..]) == 0; Frame(ERROR, [m])
  }

  // The machine.

  datatype Phase = Idle | Waiting(request: Frame)

  datatype Result = Reply(text: Bytes) | Failure(message: Bytes)

  const MSG_DEAD := Ascii("function worker is unavailable")
  const MSG_WRITE := Ascii("function worker request failed")
  const MSG_EXITED := Ascii("function worker exited without a response")
  const MSG_INVALID := Ascii("function worker returned an invalid response")
  const MSG_TIMEOUT := Ascii("function exceeded execution time limit")

  datatype Entry = Entry(request: Frame, result: Result)

  datatype State = State(
    dead: bool,            // the host has killed the worker
    exited: bool,          // the worker process has left its loop
    toWorker: Bytes, fromWorker: Bytes,
    pending: Bytes,        // what the worker has yet to write of its reply; lost when it exits
    answered: seq<Frame>,  // every frame the worker has taken up
    phase: Phase,
    log: seq<Entry>)       // every finished request, in order

  const INITIAL := State(false, false, [], [], [], [], Idle, [])

  datatype Step =
    | Request(frame: Frame)                    // a caller takes the lock and writes its frame
    | RequestFails(frame: Frame, part: Bytes)  // the write fails part of the way
    | WorkerTurn                               // the worker reads a frame and works out its reply
    | WorkerWrites(count: nat)                 // some more bytes of the reply reach the pipe
    | WorkerExits                              // the worker crashes, at any time, even inside a reply
    | HostReads                                // the waiting caller gets a reply, or the end of the stream
    | Timeout
    | Close

  /** `killLocked` and the failure returned to the waiting caller. */
  function Fail(s: State, request: Frame, message: Bytes): State {
    s.(dead := true, phase := Idle, log := s.log + [Entry(request, Failure(message))])
  }

  function HostRead(s: State, request: Frame): State {
    match ReadFrame(s.fromWorker, MAX_RESPONSE)
    case Short => if s.exited then Fail(s, request, MSG_EXITED) else s
    case OverLimit => Fail(s, request, MSG_EXITED)
    case Read(reply, rest) =>
      if |reply.fields| != 1 then Fail(s, request, MSG_INVALID)
      else if reply.kind == ERROR then Fail(s, request, reply.fields[0])
      else if reply.kind != OK then Fail(s, request, MSG_INVALID)
      else s.(fromWorker := rest, phase := Idle, log := s.log + [Entry(request, Reply(reply.fields[0]))])
  }

  function WorkerRead(e: Engine, s: State): State {
    match ReadFrame(s.toWorker, MAX_RESPONSE)
    case Short => s
    case OverLimit => s.(exited := true)
    case Read(f, rest) =>
      s.(toWorker := rest, answered := s.answered + [f],
         pending := Encode(ReplyFrame(WorkerAnswer(e, s.answered, f))))
  }

  function WorkerWrite(s: State, count: nat): State {
    var n := Min(count, |s.pending|);
    s.(fromWorker := s.fromWorker + s.pending[..n], pending := s.pending[n..])
  }

  /** One step; a step that cannot happen in a state leaves it alone. */
  function Do(e: Engine, s: State, step: Step): State {
    match step
    case Request(f) =>
      if s.phase != Idle then s
      else if s.dead then s.(log := s.log + [Entry(f, Failure(MSG_DEAD))])
      else if !Sendable(f) then Fail(s, f, MSG_WRITE)
      else s.(toWorker := s.toWorker + Encode(f), phase := Waiting(f))
    case RequestFails(f, part) =>
      if s.phase != Idle || s.dead then s else Fail(s.(toWorker := s.toWorker + part), f, MSG_WRITE)
    case WorkerTurn => if s.dead || s.exited || s.pending != [] then s else WorkerRead(e, s)
    case WorkerWrites(n) => if s.dead || s.exited then s else WorkerWrite(s, n)
    case WorkerExits => s.(exited := true)
    case HostReads => if s.phase.Waiting? then HostRead(s, s.phase.request) else s
    case Timeout => if s.phase.Waiting? then Fail(s, s.phase.request, MSG_TIMEOUT) else s
    case Close => if s.phase == Idle then s.(dead := true) else s
  }

  function Run(e: Engine, s: State, steps: seq<Step>): State
    decreases steps
  {
    if steps == [] then s else Run(e, Do(e, s, steps[0]), steps[1..])
  }

  // What holds in every reachable state.

  function Requests(log: seq<Entry>): seq<Frame> {
    seq(|log|, i requires 0 <= i < |log| => log[i].request)
  }

  /** Entry k got a reply only if every earlier request did, and then the reply is the worker's
      answer to that very request after exactly those earlier ones. */
  ghost predicate PairedAt(e: Engine, log: seq<Entry>, k: nat)
    requires k < |log|
  {
    log[k].result.Reply? ==>
      && (forall i :: 0 <= i < k ==> log[i].result.Reply?)
      && var a := WorkerAnswer(e, Requests(log[..k]), log[k].request);
         a.Good? && a.text == log[k].result.text
  }

  ghost predicate Paired(e: Engine, log: seq<Entry>) {
    forall k :: 0 <= k < |log| ==> PairedAt(e, log, k)
  }

  ghost predicate AllReplies(log: seq<Entry>) {
    forall i :: 0 <= i < |log| ==> log[i].result.Reply?
  }

  /** The worker has answered what was asked, and nothing is left over in either pipe or the worker. */
  ghost predicate AtRest(s: State) {
    s.answered == Requests(s.log) && s.toWorker == [] && s.fromWorker == [] && s.pending == []
  }

  ghost predicate Asked(s: State, f: Frame) {
    s.answered == Requests(s.log) && s.toWorker == Encode(f) && s.fromWorker == [] && s.pending == []
  }

  /** What the worker has written and what it has yet to write make up its reply. */
  ghost predicate Replying(e: Engine, s: State, f: Frame) {
    && s.answered == Requests(s.log) + [f] && s.toWorker == [] && Total(f.fields) <= MAX_RESPONSE
    && s.fromWorker + s.pending == Encode(ReplyFrame(WorkerAnswer(e, Requests(s.log), f)))
  }

  /** A worker that is not dead has answered every request so far; between requests both pipes are
      empty; during one, they hold the request or the part of its answer that is written. */
  ghost predicate Inv(e: Engine, s: State) {
    && Paired(e, s.log)
    && (s.phase.Waiting? ==> !s.dead && Sendable(s.phase.request))
    && (!s.dead ==>
          && AllReplies(s.log)
          && match s.phase
             case Idle => AtRest(s)
             case Waiting(f) => Asked(s, f) || Replying(e, s, f))
  }

  lemma PairedSnoc(e: Engine, log: seq<Entry>, entry: Entry)
    requires Paired(e, log)
    requires entry.result.Reply? ==>
               && AllReplies(log)
               && var a := WorkerAnswer(e, Requests(log), entry.request);
                  a.Good? && a.text == entry.result.text
    ensures Paired(e, log + [entry])
  {
    hide WorkerAnswer;
    var more := log + [entry];
    forall k | 0 <= k < |more| ensures PairedAt(e, more, k) {
      if k < |log| {
        assert PairedAt(e, log, k);
        assert more[..k] == log[..k];
      } else {
        assert more[..k] == log;
      }
    }
  }

  lemma FailKeeps(e: Engine, s: State, f: Frame, message: Bytes)
    requires Paired(e, s.log)
    ensures Inv(e, Fail(s, f, message))
  {
    PairedSnoc(e, s.log, Entry(f, Failure(message)));
  }

  lemma HostReadKeeps(e: Engine, s: State)
    requires Inv(e, s) && s.phase.Waiting?
    ensures Inv(e, HostRead(s, s.phase.request))
  {
    hide WorkerAnswer, Encode, ReadFrame, Paired, Requests, Ascii;
    var f := s.phase.request;
    FailKeeps(e, s, f, MSG_EXITED);
    if Replying(e, s, f) {
      var a := WorkerAnswer(e, Requests(s.log), f);
      ReplyRead(e, s, f);
      if a.Good? {
        var entry := Entry(f, Reply(a.text));
        PairedSnoc(e, s.log, entry);
        RequestsSnoc(s.log, entry);
      } else {
        FailKeeps(e, s, f, a.message);
      }
    } else {
      NothingToRead();
    }
  }

  lemma NothingToRead()
    ensures ReadFrame([], MAX_RESPONSE) == Short
  {
  }

  lemma RequestsSnoc(log: seq<Entry>, entry: Entry)
    ensures Requests(log + [entry]) == Requests(log) + [entry.request]
  {
  }

  lemma WorkerReadKeeps(e: Engine, s: State)
    requires Inv(e, s) && !s.dead && s.pending == []
    ensures Inv(e, WorkerRead(e, s))
  {
    hide WorkerAnswer, Encode, ReadFrame, Paired, Requests, ReplyFrame;
    NothingToRead();
    if s.phase.Waiting? && Asked(s, s.phase.request) {
      var f := s.phase.request;
      assert s.toWorker + [] == s.toWorker;
      FrameRoundTrip(f, [], MAX_RESPONSE);
    }
  }

  lemma WorkerWriteKeeps(e: Engine, s: State, count: nat)
    requires Inv(e, s)
    ensures Inv(e, WorkerWrite(s, count))
  {
    hide WorkerAnswer, Encode, ReadFrame, Paired, Requests, ReplyFrame;
    var n := Min(count, |s.pending|);
    assert s.fromWorker + s.pending[..n] + s.pending[n..] == s.fromWorker + s.pending;
  }

  lemma DoKeeps(e: Engine, s: State, step: Step)
    requires Inv(e, s)
    ensures Inv(e, Do(e, s, step))
  {
    hide WorkerAnswer, Encode, ReadFrame, Paired, Requests, ReplyFrame, HostRead, WorkerRead, WorkerWrite, Sendable,
         Ascii;
    match step
    case Request(f) =>
      if s.phase == Idle {
        FailKeeps(e, s, f, if s.dead then MSG_DEAD else MSG_WRITE);
        assert [] + Encode(f) == Encode(f);
      }
    case RequestFails(f, part) => FailKeeps(e, s.(toWorker := s.toWorker + part), f, MSG_WRITE);
    case WorkerTurn => if !s.dead && s.pending == [] { WorkerReadKeeps(e, s); }
    case WorkerWrites(n) => WorkerWriteKeeps(e, s, n);
    case WorkerExits =>
    case HostReads => if s.phase.Waiting? { HostReadKeeps(e, s); }
    case Timeout => if s.phase.Waiting? { FailKeeps(e, s, s.phase.request, MSG_TIMEOUT); }
    case Close =>
  }

  lemma {:induction false} RunKeeps(e: Engine, s: State, steps: seq<Step>)
    requires Inv(e, s)
    ensures Inv(e, Run(e, s, steps))
    decreases steps
  {
    hide Inv, Do;
    if steps != [] {
      DoKeeps(e, s, steps[0]);
      RunKeeps(e, Do(e, s, steps[0]), steps[1..]);
    }
  }

  /** In every run of requests, replies, timeouts, worker errors, crashes and kills, every reply a
      caller gets is the worker's answer to that caller's own request, after the requests answered
      before it; and a worker not killed holds no unread byte between requests. */
  lemma RepliesArePaired(e: Engine, steps: seq<Step>)
    ensures var s := Run(e, INITIAL, steps);
            && (forall k :: 0 <= k < |s.log| ==> PairedAt(e, s.log, k))
            && (!s.dead && s.phase == Idle ==> AtRest(s))
  {
    hide Run, PairedAt;
    assert Inv(e, INITIAL);
    RunKeeps(e, INITIAL, steps);
  }

  /** A failure is final: once one request has failed, every later one fails. */
  lemma FailureIsFinal(e: Engine, steps: seq<Step>, i: nat, k: nat)
    requires var s := Run(e, INITIAL, steps); i < k < |s.log| && s.log[i].result.Failure?
    ensures Run(e, INITIAL, steps).log[k].result.Failure?
  {
    hide Run;
    RepliesArePaired(e, steps);
    var log := Run(e, INITIAL, steps).log;
    assert PairedAt(e, log, k);
  }

  // Requests do get answered.

  /** Idle, alive and in step: the worker is ready for a request. */
  ghost predicate Ready(e: Engine, s: State) {
    Inv(e, s) && s.phase == Idle && !s.dead && !s.exited
  }

  function Ask(e: Engine, s: State, f: Frame, count: nat): State {
    Do(e, Do(e, Do(e, Do(e, s, Request(f)), WorkerTurn), WorkerWrites(count)), HostReads)
  }

  /** A request to a ready worker, once the worker has read it and written its whole reply: the caller
      gets exactly the worker's answer - its text, leaving the worker ready, or its error, and then
      the worker is killed. A request over the limit makes the worker exit. */
  lemma Answered(e: Engine, s: State, f: Frame, count: nat)
    requires Ready(e, s) && Sendable(f) && count >= MAX_RESPONSE + 6
    ensures var t := Ask(e, s, f, count);
            if Total(f.fields) > 131072 then
              t.dead && t.log == s.log + [Entry(f, Failure(MSG_EXITED))]
            else match WorkerAnswer(e, Requests(s.log), f)
              case Good(text) => Ready(e, t) && AtRest(t) && t.log == s.log + [Entry(f, Reply(text))]
              case Bad(m) => t.dead && t.log == s.log + [Entry(f, Failure(m))]
  {
    hide WorkerAnswer, Encode, ReadFrame, Paired, Requests, Ascii, ReplyFrame;
    var s1 := Do(e, s, Request(f));
    DoKeeps(e, s, Request(f));
    assert s1.toWorker == Encode(f) by { assert [] + Encode(f) == Encode(f); }
    assert Encode(f) + [] == Encode(f);
    FrameRoundTrip(f, [], MAX_RESPONSE);
    var s2 := Do(e, s1, WorkerTurn);
    DoKeeps(e, s1, WorkerTurn);
    var s3 := Do(e, s2, WorkerWrites(count));
    DoKeeps(e, s2, WorkerWrites(count));
    DoKeeps(e, s3, HostReads);
    if Total(f.fields) > MAX_RESPONSE {
      NothingToRead();
    } else {
      var a := WorkerAnswer(e, Requests(s.log), f);
      var reply := ReplyFrame(a);
      ReplyIs(a);
      assert s3.fromWorker == Encode(reply);
      assert Encode(reply) + [] == Encode(reply);
      FrameRoundTrip(reply, [], MAX_RESPONSE);
      RequestsSnoc(s.log, Entry(f, Reply(if a.Good? then a.text else [])));
    }
  }

  lemma ReplyIs(a: Answer)
    ensures ReplyFrame(a) == if a.Good? then Frame(3, [a.text]) else Frame(4, [a.message])
    ensures |Encode(ReplyFrame(a))| <= MAX_RESPONSE + 6
  {
    var t: Bytes := if a.Good? then a.text else a.message;
    assert [t][1..] == [];
    assert EncodeFields([]) == [];
    assert |EncodeFields([t])| == 4 + |t|;
  }

  // Failures have causes.

  /** The steps that can make a request fail from outside. */
  predicate Disturbs(step: Step) {
    step.RequestFails? || step.WorkerExits? || step.Timeout? || step.Close?
  }

  /** The request itself is to blame: it cannot be sent, is over the limit, or the answer is an error. */
  ghost predicate Blamed(e: Engine, log: seq<Entry>, k: nat)
    requires k < |log|
  {
    var f := log[k].request;
    || !Sendable(f) || Total(f.fields) > MAX_RESPONSE
    || WorkerAnswer(e, Requests(log[..k]), f).Bad?
  }

  ghost predicate Explained(e: Engine, log: seq<Entry>) {
    forall k :: 0 <= k < |log| && log[k].result.Failure? ==>
                  Blamed(e, log, k) || exists i :: 0 <= i < k && log[i].result.Failure?
  }

  ghost predicate HasFailure(log: seq<Entry>) {
    exists i :: 0 <= i < |log| && log[i].result.Failure?
  }

  /** Without disturbance: a dead worker has a failure to show, and one that has left its loop has
      been sent more than it accepts. */
  ghost predicate Calm(e: Engine, s: State) {
    && Explained(e, s.log)
    && (s.dead ==> HasFailure(s.log))
    && (!s.dead && s.exited ==> s.phase.Waiting? && Total(s.phase.request.fields) > MAX_RESPONSE)
  }

  lemma ExplainedSnoc(e: Engine, log: seq<Entry>, entry: Entry)
    requires Explained(e, log)
    requires entry.result.Failure? ==>
               || HasFailure(log) || !Sendable(entry.request) || Total(entry.request.fields) > MAX_RESPONSE
               || WorkerAnswer(e, Requests(log), entry.request).Bad?
    ensures Explained(e, log + [entry])
    ensures entry.result.Failure? ==> HasFailure(log + [entry])
  {
    hide WorkerAnswer, Sendable, Requests;
    var more := log + [entry];
    forall k | 0 <= k < |more| && more[k].result.Failure?
      ensures Blamed(e, more, k) || exists i :: 0 <= i < k && more[i].result.Failure?
    {
      if k < |log| {
        assert more[k] == log[k] && more[..k] == log[..k];
        if !Blamed(e, log, k) {
          var i :| 0 <= i < k && log[i].result.Failure?;
          assert more[i] == log[i];
        }
      } else {
        assert more[..k] == log;
        if HasFailure(log) {
          var i :| 0 <= i < |log| && log[i].result.Failure?;
          assert more[i] == log[i];
        }
      }
    }
    if entry.result.Failure? { assert more[|log|].result.Failure?; }
  }

  lemma StaysCalm(e: Engine, s: State, step: Step)
    requires Inv(e, s) && Calm(e, s) && !Disturbs(step)
    ensures Calm(e, Do(e, s, step))
  {
    hide WorkerAnswer, Encode, ReadFrame, Paired, Requests, ReplyFrame, HostRead, WorkerRead, Sendable, Ascii,
         Explained, HasFailure;
    match step
    case Request(f) =>
      if s.phase == Idle && (s.dead || !Sendable(f)) {
        ExplainedSnoc(e, s.log, Entry(f, Failure(if s.dead then MSG_DEAD else MSG_WRITE)));
      }
    case WorkerTurn =>
      if !s.dead && !s.exited && s.pending == [] { TurnStaysCalm(e, s); }
    case WorkerWrites(n) =>
    case HostReads =>
      if s.phase.Waiting? { ReadStaysCalm(e, s); }
  }

  lemma TurnStaysCalm(e: Engine, s: State)
    requires Inv(e, s) && Calm(e, s) && !s.dead && !s.exited && s.pending == []
    ensures Calm(e, WorkerRead(e, s))
  {
    hide WorkerAnswer, Encode, ReadFrame, Paired, Requests, ReplyFrame, Explained, HasFailure;
    NothingToRead();
    if s.phase.Waiting? && Asked(s, s.phase.request) {
      var f := s.phase.request;
      assert s.toWorker + [] == s.toWorker;
      FrameRoundTrip(f, [], MAX_RESPONSE);
    }
  }

  lemma ReadStaysCalm(e: Engine, s: State)
    requires Inv(e, s) && Calm(e, s) && s.phase.Waiting?
    ensures Calm(e, HostRead(s, s.phase.request))
  {
    hide WorkerAnswer, Encode, ReadFrame, Paired, Requests, ReplyFrame, Explained, HasFailure, Ascii, Sendable;
    var f := s.phase.request;
    if Replying(e, s, f) {
      ReplyRead(e, s, f);
      var a := WorkerAnswer(e, Requests(s.log), f);
      if s.pending == [] {
        ExplainedSnoc(e, s.log, Entry(f, if a.Good? then Reply(a.text) else Failure(a.message)));
      }
    } else {
      NothingToRead();
    }
    if s.exited { ExplainedSnoc(e, s.log, Entry(f, Failure(MSG_EXITED))); }
  }

  /** What the caller reads while the worker replies: nothing yet, or the whole reply. */
  lemma ReplyRead(e: Engine, s: State, f: Frame)
    requires Replying(e, s, f)
    ensures var a := WorkerAnswer(e, Requests(s.log), f);
            ReadFrame(s.fromWorker, MAX_RESPONSE) ==
            if s.pending != [] then Short
            else Read(if a.Good? then Frame(OK, [a.text]) else Frame(ERROR, [a.message]), [])
  {
    hide WorkerAnswer, Encode, ReadFrame, Requests, ReplyFrame;
    var a := WorkerAnswer(e, Requests(s.log), f);
    var reply := ReplyFrame(a);
    ReplyIs(a);
    if s.pending != [] {
      assert s.fromWorker == Encode(reply)[..|s.fromWorker|];
      FrameCutShort(reply, |s.fromWorker|, MAX_RESPONSE);
    } else {
      assert s.fromWorker + [] == s.fromWorker;
      FrameRoundTrip(reply, [], MAX_RESPONSE);
    }
  }

  lemma {:induction false} CalmRun(e: Engine, s: State, steps: seq<Step>)
    requires Inv(e, s) && Calm(e, s) && forall i :: 0 <= i < |steps| ==> !Disturbs(steps[i])
    ensures Calm(e, Run(e, s, steps))
    decreases steps
  {
    hide Inv, Do, Calm;
    if steps != [] {
      DoKeeps(e, s, steps[0]);
      StaysCalm(e, s, steps[0]);
      CalmRun(e, Do(e, s, steps[0]), steps[1..]);
    }
  }

  /** In every run a request fails only if there was a failed write, an exit, a timeout or a close, or an
      earlier failure, or it cannot be sent, is over the limit, or is answered with an error. */
  lemma FailuresHaveCauses(e: Engine, steps: seq<Step>, k: nat)
    requires var s := Run(e, INITIAL, steps); k < |s.log| && s.log[k].result.Failure?
    ensures var log := Run(e, INITIAL, steps).log;
            || (exists i :: 0 <= i < |steps| && Disturbs(steps[i]))
            || (exists i :: 0 <= i < k && log[i].result.Failure?)
            || !Sendable(log[k].request) || Total(log[k].request.fields) > MAX_RESPONSE
            || WorkerAnswer(e, Requests(log[..k]), log[k].request).Bad?
  {
    hide Run, WorkerAnswer, Sendable;
    if forall i :: 0 <= i < |steps| ==> !Disturbs(steps[i]) {
      assert Inv(e, INITIAL);
      assert Calm(e, INITIAL);
      CalmRun(e, INITIAL, steps);
      assert Blamed(e, Run(e, INITIAL, steps).log, k)
             || exists i :: 0 <= i < k && Run(e, INITIAL, steps).log[i].result.Failure?;
    }
  }

  /** A timeout ends the waiting request with its message and kills the worker. */
  lemma TimeoutKills(e: Engine, s: State)
    requires s.phase.Waiting?
    ensures var t := Do(e, s, Timeout);
            t.dead && t.phase == Idle && t.log == s.log + [Entry(s.phase.request, Failure(MSG_TIMEOUT))]
  {
  }

  /** Closing an idle worker kills it, and no request is failed by it. */
  lemma CloseKills(e: Engine, s: State)
    requires s.phase == Idle
    ensures Do(e, s, Close) == s.(dead := true)
  {
  }

  /** A killed worker never reads or writes again, and every further request fails at once. */
  lemma {:induction false} KilledIsSilent(e: Engine, s: State, steps: seq<Step>)
    requires s.dead && s.phase == Idle
    ensures var t := Run(e, s, steps);
            && t.dead && t.phase == Idle
            && t.answered == s.answered && t.toWorker == s.toWorker && t.fromWorker == s.fromWorker
            && s.log <= t.log
            && forall k :: |s.log| <= k < |t.log| ==> t.log[k].result == Failure(MSG_DEAD)
    decreases steps
  {
    hide Ascii, Sendable, Encode;
    if steps != [] {
      var s' := Do(e, s, steps[0]);
      hide Do;
      KilledIsSilent(e, s', steps[1..]);
    }
  }

  // What the worker makes of its frames.

  predicate ProperLoad(f: Frame) {
    f.kind == LOAD && |f.fields| == 2
  }

  /** The last proper load before now is number j, and it succeeded. */
  ghost predicate LoadedBy(e: Engine, history: seq<Frame>, j: nat) {
    && j < |history| && ProperLoad(history[j]) && e(history[..j], history[j]).Good?
    && forall k :: j < k < |history| ==> !ProperLoad(history[k])
  }

  lemma {:induction false} InitializedIff(e: Engine, history: seq<Frame>)
    ensures Initialized(e, history) <==> exists j: nat :: LoadedBy(e, history, j)
  {
    if history != [] {
      var n := |history| - 1;
      var before := history[..n];
      InitializedIff(e, before);
      if ProperLoad(history[n]) {
        if Initialized(e, history) { assert LoadedBy(e, history, n); }
      } else {
        if Initialized(e, before) {
          var j: nat :| LoadedBy(e, before, j);
          assert before[..j] == history[..j];
          assert LoadedBy(e, history, j);
        }
        if exists j: nat :: LoadedBy(e, history, j) {
          var j: nat :| LoadedBy(e, history, j);
          assert before[..j] == history[..j];
          assert LoadedBy(e, before, j);
        }
      }
    }
  }

  /** A call of four fields gets the engine's own answer if and only if the last proper load succeeded;
      a load of two fields reports the engine's error or nothing; anything else is an error. */
  lemma WorkerAnswers(e: Engine, history: seq<Frame>, f: Frame)
    ensures f.kind == 2 && |f.fields| == 4 ==>
              WorkerAnswer(e, history, f) ==
              if exists j: nat :: LoadedBy(e, history, j) then e(history, f)
              else Bad(Ascii("function worker is not initialized"))
    ensures f.kind == 2 && |f.fields| != 4 ==> WorkerAnswer(e, history, f) == Bad(Ascii("invalid worker call request"))
    ensures f.kind == 1 && |f.fields| == 2 ==>
              (WorkerAnswer(e, history, f) == Good([]) <==> e(history, f).Good?)
              && (WorkerAnswer(e, history, f) == e(history, f) <== e(history, f).Bad?)
    ensures f.kind == 1 && |f.fields| != 2 ==> WorkerAnswer(e, history, f) == Bad(Ascii("invalid worker load request"))
    ensures f.kind != 1 && f.kind != 2 ==> WorkerAnswer(e, history, f) == Bad(Ascii("unknown function worker request"))
  {
    hide Ascii, Initialized;
    InitializedIff(e, history);
  }

  /** A fresh worker that is loaded and then called: both requests are answered by the engine. */
  lemma LoadThenCall(e: Engine, load: Frame, call: Frame, count: nat)
    requires Sendable(load) && Total(load.fields) <= MAX_RESPONSE && ProperLoad(load) && e([], load).Good?
    requires Sendable(call) && Total(call.fields) <= MAX_RESPONSE && call.kind == CALL && |call.fields| == 4
    requires e([load], call).Good? && count >= MAX_RESPONSE + 6
    ensures Ask(e, Ask(e, INITIAL, load, count), call, count).log ==
            [Entry(load, Reply([])), Entry(call, Reply(e([load], call).text))]
  {
    hide Ask, WorkerAnswer, Ascii;
    assert Requests([]) == [] && Requests([Entry(load, Reply([]))]) == [load];
    assert Ready(e, INITIAL);
    hide Inv, Requests;
    WorkerAnswers(e, [], load);
    Answered(e, INITIAL, load, count);
    var loaded := Ask(e, INITIAL, load, count);
    assert loaded.log == [Entry(load, Reply([]))];
    assert [load][..0] == [];
    assert LoadedBy(e, [load], 0);
    WorkerAnswers(e, [load], call);
    assert WorkerAnswer(e, Requests(loaded.log), call) == e([load], call);
    Answered(e, loaded, call, count);
  }
}
