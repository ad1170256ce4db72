/** The exec conversation: two output streams interleaved by the agent, one terminal message, and the
    client that follows it. Writing one message is one step. */
module GuestExec {
  import opened Results
  import opened GuestWire

  /** The stream field of an output message; every name but "stderr" goes to standard output. */
  datatype StreamName = Stdout | Stderr | OtherName

  datatype Response =
    | Output(data: seq<Byte>, stream: StreamName)
    | Exit(exitCode: int)
    | Error(message: string)
    | Other(kind: string)

  const BUFFER_SIZE := 4096

  /** JSON encoding and decoding of responses, as given library functions. */
  type Encoder = Response -> seq<Byte>
  type Decoder = seq<Byte> -> Option<Response>

  // ---- The client ----

  datatype Outcome = Exited(code: int) | AgentError(message: string) | ConnectionClosed | ReadFailed

  datatype Transcript = Transcript(stdout: seq<Byte>, stderr: seq<Byte>)

  /** What the client does with one response; the second part is set by a terminal one. */
  function Absorb(t: Transcript, r: Response): (Transcript, Option<Outcome>) {
    match r
    case Output(data, stream) =>
      (if stream == Stderr then t.(stderr := t.stderr + data) else t.(stdout := t.stdout + data), None)
    case Exit(code) => (t, Some(Exited(code)))
    case Error(message) => (t, Some(AgentError(message)))
    case Other(_) => (t, None)
  }

  /** The response loop on a byte stream: output, outcome, and what is left unread. */
  function Follow(t: Transcript, input: seq<Byte>, decode: Decoder): (Transcript, Outcome, seq<Byte>)
    decreases |input|
  {
    ReadOneShortens(input);
    match ReadOne(input)
    case Err(e) => (t, if e == EOF then ConnectionClosed else ReadFailed, [])
    case Ok((data, rest)) =>
      match decode(data)
      case None => (t, ReadFailed, rest)
      case Some(r) =>
        var (t', end) := Absorb(t, r);
        if end.Some? then (t', end.value, rest) else Follow(t', rest, decode)
  }

  method Exec(conn: Conn, request: seq<Byte>, decode: Decoder) returns (t: Transcript, outcome: Outcome)
    modifies conn
    ensures conn.output == old(conn.output) + Frame(request)
    ensures var (t', outcome', rest) := Follow(Transcript([], []), old(conn.input), decode);
            && t == t' && outcome == outcome'
            && (!outcome.ConnectionClosed? && !outcome.ReadFailed? ==> conn.input == rest)
  {
    conn.WriteMessage(request);
    t := Transcript([], []);
    ghost var start := conn.input;
    while true
      invariant conn.output == old(conn.output) + Frame(request)
      invariant Follow(t, conn.input, decode) == Follow(Transcript([], []), start, decode)
      decreases |conn.input|
    {
      ReadOneShortens(conn.input);
      var message := conn.ReadMessage();
      if message.Err? {
        outcome := if message.error == EOF then ConnectionClosed else ReadFailed;
        return;
      }
      var resp := decode(message.value);
      if resp.None? {
        return t, ReadFailed;
      }
      match resp.value {
        case Output(data, stream) =>
          if stream == Stderr {
            t := t.(stderr := t.stderr + data);
          } else {
            t := t.(stdout := t.stdout + data);
          }
        case Exit(code) => return t, Exited(code);
        case Error(text) => return t, AgentError(text);
        case Other(_) =>
      }
    }
  }

  // ---- The agent ----

  /** What is left to read of each pipe, which streamers have signalled, and what has been written. */
  datatype Agent = Agent(outLeft: seq<Byte>, errLeft: seq<Byte>, outDone: bool, errDone: bool, sent: seq<Response>,
                         finished: bool)

  datatype Act =
    | SendOut(n: nat)
    | SendErr(n: nat)
    | CloseOut
    | CloseErr
    | Finish(exitCode: int)

  /** Each streamer reads up to a buffer at a time and signals at the end of its pipe; the terminal
      message waits for both signals. */
  predicate Enabled(s: Agent, a: Act) {
    match a
    case SendOut(n) => !s.outDone && 0 < n <= BUFFER_SIZE && n <= |s.outLeft|
    case SendErr(n) => !s.errDone && 0 < n <= BUFFER_SIZE && n <= |s.errLeft|
    case CloseOut => !s.outDone && s.outLeft == []
    case CloseErr => !s.errDone && s.errLeft == []
    case Finish(_) => s.outDone && s.errDone && !s.finished
  }

  function Apply(s: Agent, a: Act): Agent
    requires Enabled(s, a)
  {
    match a
    case SendOut(n) => s.(outLeft := s.outLeft[n..], sent := s.sent + [Output(s.outLeft[..n], Stdout)])
    case SendErr(n) => s.(errLeft := s.errLeft[n..], sent := s.sent + [Output(s.errLeft[..n], Stderr)])
    case CloseOut => s.(outDone := true)
    case CloseErr => s.(errDone := true)
    case Finish(code) => s.(sent := s.sent + [Exit(code)], finished := true)
  }

  predicate Legal(s: Agent, acts: seq<Act>)
    decreases |acts|
  {
    acts == [] || (Enabled(s, acts[0]) && Legal(Apply(s, acts[0]), acts[1..]))
  }

  function RunOf(s: Agent, acts: seq<Act>): Agent
    requires Legal(s, acts)
    decreases |acts|
  {
    if acts == [] then s else RunOf(Apply(s, acts[0]), acts[1..])
  }

  function Started(stdout: seq<Byte>, stderr: seq<Byte>): Agent {
    Agent(stdout, stderr, false, false, [], false)
  }

  /** The bytes of one stream among some responses, in order. */
  function StreamOf(sent: seq<Response>, stream: StreamName): seq<Byte> {
    if sent == [] then []
    else
      var last := sent[|sent|-1];
      StreamOf(sent[..|sent|-1], stream) + (if last.Output? && last.stream == stream then last.data else [])
  }

  predicate IsChunk(r: Response) {
    r.Output? && (r.stream == Stdout || r.stream == Stderr) && 0 < |r.data| <= BUFFER_SIZE
  }

  predicate Inv(stdout: seq<Byte>, stderr: seq<Byte>, s: Agent) {
    && StreamOf(s.sent, Stdout) + s.outLeft == stdout && StreamOf(s.sent, Stderr) + s.errLeft == stderr
    && (s.outDone ==> s.outLeft == []) && (s.errDone ==> s.errLeft == [])
    && (s.finished ==> s.outDone && s.errDone && s.sent != [] && s.sent[|s.sent|-1].Exit?)
    && forall i :: 0 <= i < (if s.finished then |s.sent| - 1 else |s.sent|) ==> IsChunk(s.sent[i])
  }

  lemma StreamOfSnoc(sent: seq<Response>, r: Response, stream: StreamName)
    ensures StreamOf(sent + [r], stream)
         == StreamOf(sent, stream) + (if r.Output? && r.stream == stream then r.data else [])
  {
    assert (sent + [r])[..|sent|] == sent;
  }

  lemma StreamMovesOn(sent: seq<Byte>, left: seq<Byte>, n: nat)
    requires n <= |left|
    ensures (sent + left[..n]) + left[n..] == sent + left
  {
  }

  lemma SendOutKeepsInv(stdout: seq<Byte>, stderr: seq<Byte>, s: Agent, n: nat)
    requires Inv(stdout, stderr, s) && Enabled(s, SendOut(n))
    ensures Inv(stdout, stderr, Apply(s, SendOut(n)))
  {
    var chunk, t := Output(s.outLeft[..n], Stdout), Apply(s, SendOut(n));
    StreamOfSnoc(s.sent, chunk, Stdout);
    StreamOfSnoc(s.sent, chunk, Stderr);
    StreamMovesOn(StreamOf(s.sent, Stdout), s.outLeft, n);
    assert StreamOf(t.sent, Stderr) == StreamOf(s.sent, Stderr) + [] == StreamOf(s.sent, Stderr);
    assert IsChunk(chunk) && forall i :: 0 <= i < |s.sent| ==> t.sent[i] == s.sent[i];
  }

  lemma SendErrKeepsInv(stdout: seq<Byte>, stderr: seq<Byte>, s: Agent, n: nat)
    requires Inv(stdout, stderr, s) && Enabled(s, SendErr(n))
    ensures Inv(stdout, stderr, Apply(s, SendErr(n)))
  {
    var chunk, t := Output(s.errLeft[..n], Stderr), Apply(s, SendErr(n));
    StreamOfSnoc(s.sent, chunk, Stderr);
    StreamOfSnoc(s.sent, chunk, Stdout);
    StreamMovesOn(StreamOf(s.sent, Stderr), s.errLeft, n);
    assert StreamOf(t.sent, Stdout) == StreamOf(s.sent, Stdout) + [] == StreamOf(s.sent, Stdout);
    assert IsChunk(chunk) && forall i :: 0 <= i < |s.sent| ==> t.sent[i] == s.sent[i];
  }

  lemma FinishKeepsInv(stdout: seq<Byte>, stderr: seq<Byte>, s: Agent, code: int)
    requires Inv(stdout, stderr, s) && Enabled(s, Finish(code))
    ensures Inv(stdout, stderr, Apply(s, Finish(code)))
  {
    StreamOfSnoc(s.sent, Exit(code), Stdout);
    StreamOfSnoc(s.sent, Exit(code), Stderr);
    assert StreamOf(s.sent, Stdout) + [] == StreamOf(s.sent, Stdout);
    assert StreamOf(s.sent, Stderr) + [] == StreamOf(s.sent, Stderr);
  }

  lemma StepKeepsInv(stdout: seq<Byte>, stderr: seq<Byte>, s: Agent, a: Act)
    requires Inv(stdout, stderr, s) && Enabled(s, a)
    ensures Inv(stdout, stderr, Apply(s, a))
  {
    match a
    case SendOut(n) => SendOutKeepsInv(stdout, stderr, s, n);
    case SendErr(n) => SendErrKeepsInv(stdout, stderr, s, n);
    case Finish(code) => FinishKeepsInv(stdout, stderr, s, code);
    case _ =>
  }

  lemma {:induction false} RunKeepsInv(stdout: seq<Byte>, stderr: seq<Byte>, s: Agent, acts: seq<Act>)
    requires Inv(stdout, stderr, s) && Legal(s, acts)
    ensures Inv(stdout, stderr, RunOf(s, acts))
    decreases |acts|
  {
    if acts != [] {
      StepKeepsInv(stdout, stderr, s, acts[0]);
      RunKeepsInv(stdout, stderr, Apply(s, acts[0]), acts[1..]);
    }
  }

  /** Every interleaving writes chunks of output only, then exactly one Exit, which comes last and
      only when both streams have been written completely and in order. */
  lemma ConversationShape(stdout: seq<Byte>, stderr: seq<Byte>, acts: seq<Act>)
    requires Legal(Started(stdout, stderr), acts)
    ensures var s := RunOf(Started(stdout, stderr), acts);
            && (forall i :: 0 <= i < |s.sent| ==>
                  IsChunk(s.sent[i]) || (s.finished && i == |s.sent| - 1 && s.sent[i].Exit?))
            && StreamOf(s.sent, Stdout) <= stdout && StreamOf(s.sent, Stderr) <= stderr
            && (s.finished ==>
                  && s.sent != [] && s.sent[|s.sent|-1].Exit?
                  && StreamOf(s.sent, Stdout) == stdout && StreamOf(s.sent, Stderr) == stderr)
  {
    RunKeepsInv(stdout, stderr, Started(stdout, stderr), acts);
  }

  /** A bound on the steps still possible: each sends a byte, closes a stream or finishes. */
  function StepsLeft(s: Agent): nat {
    |s.outLeft| + |s.errLeft|
    + (if s.outDone then 0 else 1) + (if s.errDone then 0 else 1) + (if s.finished then 0 else 1)
  }

  /** No step is possible any more. */
  ghost predicate Stuck(s: Agent) {
    forall a :: !Enabled(s, a)
  }

  lemma StuckIffFinished(stdout: seq<Byte>, stderr: seq<Byte>, s: Agent)
    requires Inv(stdout, stderr, s)
    ensures Stuck(s) <==> s.finished
  {
    if !s.outDone {
      assert if s.outLeft == [] then Enabled(s, CloseOut) else Enabled(s, SendOut(1));
    } else if !s.errDone {
      assert if s.errLeft == [] then Enabled(s, CloseErr) else Enabled(s, SendErr(1));
    } else if !s.finished {
      assert Enabled(s, Finish(0));
    }
  }

  /** However the streams interleave, the agent makes a bounded number of steps, and can go on exactly
      until it has sent the terminal message. */
  lemma {:induction false} EveryRunFinishes(stdout: seq<Byte>, stderr: seq<Byte>, s: Agent, acts: seq<Act>)
    requires Inv(stdout, stderr, s) && Legal(s, acts)
    ensures |acts| <= StepsLeft(s) && (Stuck(RunOf(s, acts)) <==> RunOf(s, acts).finished)
    decreases |acts|
  {
    if acts == [] {
      StuckIffFinished(stdout, stderr, s);
    } else {
      StepKeepsInv(stdout, stderr, s, acts[0]);
      EveryRunFinishes(stdout, stderr, Apply(s, acts[0]), acts[1..]);
    }
  }

  // ---- Agent and client together ----

  predicate IsCodec(encode: Encoder, decode: Decoder, sent: seq<Response>) {
    forall r :: r in sent ==> decode(encode(r)) == Some(r) && |encode(r)| <= MAX_MESSAGE_SIZE
  }

  function Encoded(sent: seq<Response>, encode: Encoder): seq<Byte> {
    if sent == [] then [] else Encoded(sent[..|sent|-1], encode) + Frame(encode(sent[|sent|-1]))
  }

  /** One more response in front of a stream is absorbed first. */
  lemma FollowFrame(t: Transcript, r: Response, rest: seq<Byte>, encode: Encoder, decode: Decoder)
    requires decode(encode(r)) == Some(r) && |encode(r)| <= MAX_MESSAGE_SIZE
    ensures var (t', end) := Absorb(t, r);
            Follow(t, Frame(encode(r)) + rest, decode)
            == if end.Some? then (t', end.value, rest) else Follow(t', rest, decode)
  {
    FrameReadsBackIff(encode(r), rest);
  }

  /** What the output messages among some responses carry for one of the client's two outputs: all of
      stream "stderr" for its standard error, all others for its standard output. */
  function WrittenTo(sent: seq<Response>, stderr: bool): seq<Byte> {
    if sent == [] then []
    else
      var last := sent[|sent|-1];
      WrittenTo(sent[..|sent|-1], stderr) + (if last.Output?
        && (last.stream == Stderr) == stderr then last.data else [])
  }

  /** What the client has written after these responses. */
  function Delivered(sent: seq<Response>): Transcript {
    Transcript(WrittenTo(sent, false), WrittenTo(sent, true))
  }

  lemma {:induction false} ChunksAreStreams(sent: seq<Response>)
    requires forall i :: 0 <= i < |sent| ==> IsChunk(sent[i]) || sent[i].Exit?
    ensures Delivered(sent) == Transcript(StreamOf(sent, Stdout), StreamOf(sent, Stderr))
  {
    if sent != [] {
      ChunksAreStreams(sent[..|sent|-1]);
    }
  }

  predicate IsTerminal(r: Response) {
    r.Exit? || r.Error?
  }

  lemma EncodedSplit(front: seq<Response>, last: Response, rest: seq<Byte>, encode: Encoder)
    ensures Encoded(front + [last], encode) + rest == Encoded(front, encode) + (Frame(encode(last)) + rest)
  {
    assert (front + [last])[..|front|] == front;
  }

  lemma AbsorbSnoc(front: seq<Response>, last: Response)
    ensures !IsTerminal(last) ==> Absorb(Delivered(front), last) == (Delivered(front + [last]), None)
    ensures last.Exit? ==> Absorb(Delivered(front), last) == (Delivered(front + [last]), Some(Exited(last.exitCode)))
    ensures last.Error?
            ==> Absorb(Delivered(front), last) == (Delivered(front + [last]), Some(AgentError(last.message)))
  {
    assert (front + [last])[..|front|] == front;
    assert WrittenTo(front, false) + [] == WrittenTo(front, false);
    assert WrittenTo(front, true) + [] == WrittenTo(front, true);
  }

  /** Whatever messages come before a terminal one, the client delivers their output and goes on. */
  lemma {:induction false} FollowOutput(sent: seq<Response>, rest: seq<Byte>, encode: Encoder, decode: Decoder)
    requires IsCodec(encode, decode, sent) && forall i :: 0 <= i < |sent| ==> !IsTerminal(sent[i])
    ensures Follow(Transcript([], []), Encoded(sent, encode) + rest, decode) == Follow(Delivered(sent), rest, decode)
  {
    if sent == [] {
      assert Encoded(sent, encode) + rest == rest;
    } else {
      var front, last := sent[..|sent|-1], sent[|sent|-1];
      assert sent == front + [last] && last in sent;
      EncodedSplit(front, last, rest, encode);
      FollowOutput(front, Frame(encode(last)) + rest, encode, decode);
      FollowFrame(Delivered(front), last, rest, encode, decode);
      AbsorbSnoc(front, last);
    }
  }

  /** At the first terminal message the client stops, with its code or its text, and leaves the rest unread. */
  lemma FollowToTerminal(front: seq<Response>, last: Response, rest: seq<Byte>, encode: Encoder, decode: Decoder)
    requires IsCodec(encode, decode, front + [last]) && IsTerminal(last)
    requires forall i :: 0 <= i < |front| ==> !IsTerminal(front[i])
    ensures Follow(Transcript([], []), Encoded(front + [last], encode) + rest, decode)
         == (Delivered(front), if last.Exit? then Exited(last.exitCode) else AgentError(last.message), rest)
  {
    assert last in front + [last];
    assert forall r :: r in front ==> r in front + [last];
    EncodedSplit(front, last, rest, encode);
    FollowOutput(front, Frame(encode(last)) + rest, encode, decode);
    FollowFrame(Delivered(front), last, rest, encode, decode);
    AbsorbSnoc(front, last);
    assert (front + [last])[..|front|] == front;
    assert WrittenTo(front, false) + [] == WrittenTo(front, false);
    assert WrittenTo(front, true) + [] == WrittenTo(front, true);
  }

  /** A message that does not decode ends the conversation as a failed read. */
  lemma FollowToUndecodable(sent: seq<Response>, data: seq<Byte>, rest: seq<Byte>, encode: Encoder, decode: Decoder)
    requires IsCodec(encode, decode, sent) && forall i :: 0 <= i < |sent| ==> !IsTerminal(sent[i])
    requires decode(data) == None && |data| <= MAX_MESSAGE_SIZE
    ensures Follow(Transcript([], []), Encoded(sent, encode) + (Frame(data) + rest), decode)
         == (Delivered(sent), ReadFailed, rest)
  {
    FollowOutput(sent, Frame(data) + rest, encode, decode);
    FrameReadsBackIff(data, rest);
  }

  /** The client of a finished conversation delivers both streams whole and in order, returns the exit
      code, and leaves whatever follows the terminal message unread. */
  lemma ClientFollowsConversation(stdout: seq<Byte>, stderr: seq<Byte>, acts: seq<Act>, rest: seq<Byte>,
                                  encode: Encoder, decode: Decoder)
    requires Legal(Started(stdout, stderr), acts) && RunOf(Started(stdout, stderr), acts).finished
    requires IsCodec(encode, decode, RunOf(Started(stdout, stderr), acts).sent)
    ensures var sent := RunOf(Started(stdout, stderr), acts).sent;
            && sent != [] && sent[|sent|-1].Exit?
            && Follow(Transcript([], []), Encoded(sent, encode) + rest, decode)
               == (Transcript(stdout, stderr), Exited(sent[|sent|-1].exitCode), rest)
  {
    ConversationShape(stdout, stderr, acts);
    var sent := RunOf(Started(stdout, stderr), acts).sent;
    var front, last := sent[..|sent|-1], sent[|sent|-1];
    assert sent == front + [last];
    FollowToTerminal(front, last, rest, encode, decode);
    ChunksAreStreams(sent);
    AbsorbSnoc(front, last);
  }

  /** If the agent goes away before the end, even inside a message, the client has delivered a prefix
      of each stream; it reports a closed connection when the cut is before or right behind a length,
      and a failed read otherwise. */
  lemma BrokenConversationIsPrefix(stdout: seq<Byte>, stderr: seq<Byte>, acts: seq<Act>, data: seq<Byte>, k: nat,
                                   encode: Encoder, decode: Decoder)
    requires Legal(Started(stdout, stderr), acts) && !RunOf(Started(stdout, stderr), acts).finished
    requires IsCodec(encode, decode, RunOf(Started(stdout, stderr), acts).sent)
    requires |data| <= MAX_MESSAGE_SIZE && k < |Frame(data)|
    ensures var sent := RunOf(Started(stdout, stderr), acts).sent;
            var (t, outcome, _) := Follow(Transcript([], []), Encoded(sent, encode) + Frame(data)[..k], decode);
            && t == Delivered(sent) && t.stdout <= stdout && t.stderr <= stderr
            && outcome == if k == 0 || k == 4 then ConnectionClosed else ReadFailed
  {
    ConversationShape(stdout, stderr, acts);
    var sent := RunOf(Started(stdout, stderr), acts).sent;
    FollowOutput(sent, Frame(data)[..k], encode, decode);
    ChunksAreStreams(sent);
    CutFrame(data, k);
  }

  // ---- Requests ----

  datatype Request = Ping | ExecRequest(command: seq<string>, workdir: string) | Unknown(kind: string)

  /** How an accepted command runs: it may fail to start; otherwise the agent makes steps until none is possible. */
  datatype Launch = StartFailed(reason: string) | Ran(stdout: seq<Byte>, stderr: seq<Byte>, acts: seq<Act>)

  /** The messages that answer one request. */
  ghost predicate Answers(req: Request, launch: Launch, messages: seq<Response>) {
    match req
    case Ping => messages == [Other("Pong")]
    case Unknown(kind) => messages == [Error("unknown request type: " + kind)]
    case ExecRequest(command, _) =>
      if command == [] then messages == [Error("empty command")]
      else match launch
        case StartFailed(reason) => messages == [Error("start: " + reason)]
        case Ran(stdout, stderr, acts) =>
          Legal(Started(stdout, stderr), acts) && Stuck(RunOf(Started(stdout, stderr), acts))
          && messages == RunOf(Started(stdout, stderr), acts).sent
  }

  /** Every exec request is answered by output and then exactly one terminal message, which is the last. */
  lemma ExecAnsweredByOneTerminal(command: seq<string>, workdir: string, launch: Launch, messages: seq<Response>)
    requires Answers(ExecRequest(command, workdir), launch, messages)
    ensures messages != [] && forall i :: 0 <= i < |messages| ==> (IsTerminal(messages[i]) <==> i == |messages| - 1)
  {
    if command != [] && launch.Ran? {
      EveryRunFinishes(launch.stdout, launch.stderr, Started(launch.stdout, launch.stderr), launch.acts);
      ConversationShape(launch.stdout, launch.stderr, launch.acts);
    }
  }
}
